/** Playback: a mutable cursor (frame index, ticks spent on the frame) bound
    to a shared, immutable animation definition, advanced once per game tick. */
module Playback {
  import opened Loader

  /** `ControlFlow<()>`: `Break` tells the caller a non-looping animation has
      just run past its last frame. */
  datatype Flow = Continue | Break

  /** A cursor's position: the current frame and the ticks counted on it. */
  datatype Cursor = Cursor(spriteIndex: nat, frameCounter: nat)

  /** The ticks a frame stays current. The counter is bumped before it is
      compared with `duration <= frame_counter`, so a zero duration acts as one. */
  function Ticks(s: AnnotatedSprite): (t: nat)
    ensures 1 <= t && s.duration <= t
    ensures 1 <= s.duration ==> t == s.duration
  {
    if s.duration == 0 then 1 else s.duration
  }

  /** The cursor's invariant: it points at a frame and has spent fewer ticks
      on it than the frame lasts. */
  ghost predicate Inv(d: AnimationData, c: Cursor) {
    c.spriteIndex < |d.sprites| && c.frameCounter < Ticks(d.sprites[c.spriteIndex])
  }

  /** The frame after frame `i`, wrapping past the last one to the first. */
  function NextIndex(d: AnimationData, i: nat): (j: nat)
    requires i < |d.sprites|
    ensures j < |d.sprites|
    ensures j == (i + 1) % |d.sprites|
  {
    if i + 1 >= |d.sprites| then 0 else i + 1
  }

  /** The finished signals that leaving frame `i` raises: one exactly when
      it is the last frame of a non-looping animation. */
  function WrapBreaks(d: AnimationData, i: nat): nat {
    if i + 1 == |d.sprites| && !d.looping then 1 else 0
  }

  /** One tick of `next_frame`: bump the counter; once the frame's duration is
      reached move to the next frame with a fresh counter, wrapping past the
      last frame to the first and, for a non-looping animation, reporting
      `Break`. */
  function Step(d: AnimationData, c: Cursor): (r: (Cursor, Flow))
    requires c.spriteIndex < |d.sprites|
    ensures r.0.spriteIndex < |d.sprites|
    ensures r.1 == Break <==>
      !d.looping && c.spriteIndex == |d.sprites| - 1 && d.sprites[c.spriteIndex].duration <= c.frameCounter + 1
    ensures r.1 == Break ==> r.0 == Cursor(0, 0)
    ensures Inv(d, c) ==> Inv(d, r.0)
  {
    var counter := c.frameCounter + 1;
    if d.sprites[c.spriteIndex].duration <= counter then
      if c.spriteIndex + 1 >= |d.sprites| then (Cursor(0, 0), if d.looping then Continue else Break)
      else (Cursor(c.spriteIndex + 1, 0), Continue)
    else (Cursor(c.spriteIndex, counter), Continue)
  }

  /** `n` ticks from `c`: the final cursor and how many times `Break` was
      reported on the way. */
  function Run(d: AnimationData, c: Cursor, n: nat): (r: (Cursor, nat))
    requires c.spriteIndex < |d.sprites|
    ensures r.0.spriteIndex < |d.sprites|
    decreases n
  {
    if n == 0 then (c, 0)
    else
      var s := Step(d, c);
      var rest := Run(d, s.0, n - 1);
      (rest.0, rest.1 + if s.1 == Break then 1 else 0)
  }

  /** The timing law of one frame: from counter `j`, each tick short of the
      frame's duration only bumps the counter and reports nothing; the tick
      that reaches it moves to the next frame (wrapping) with counter 0, and
      raises the finished signal when it wraps a non-looping animation. */
  lemma {:induction false} FrameTiming(d: AnimationData, i: nat, j: nat, k: nat)
    requires i < |d.sprites| && j + k <= Ticks(d.sprites[i])
    ensures j + k < Ticks(d.sprites[i]) ==> Run(d, Cursor(i, j), k) == (Cursor(i, j + k), 0)
    ensures j + k == Ticks(d.sprites[i]) && 0 < k ==>
      Run(d, Cursor(i, j), k) == (Cursor(NextIndex(d, i), 0), WrapBreaks(d, i))
    decreases k
  {
    if k > 0 {
      if j + 1 < Ticks(d.sprites[i]) {
        assert Step(d, Cursor(i, j)) == (Cursor(i, j + 1), Continue);
        FrameTiming(d, i, j + 1, k - 1);
      } else {
        assert k == 1;
        assert Step(d, Cursor(i, j)).0 == Cursor(NextIndex(d, i), 0);
      }
    }
  }

  /** Ticking `a` and then `b` times is ticking `a + b` times, and the
      finished signals add up. */
  lemma {:induction false} RunAppend(d: AnimationData, c: Cursor, a: nat, b: nat)
    requires c.spriteIndex < |d.sprites|
    ensures Run(d, c, a + b).0 == Run(d, Run(d, c, a).0, b).0
    ensures Run(d, c, a + b).1 == Run(d, c, a).1 + Run(d, Run(d, c, a).0, b).1
    decreases a
  {
    if a > 0 {
      RunAppend(d, Step(d, c).0, a - 1, b);
    }
  }

  /** The invariant holds in every state reachable from a state where it holds. */
  lemma {:induction false} RunKeepsInv(d: AnimationData, c: Cursor, n: nat)
    requires Inv(d, c)
    ensures Inv(d, Run(d, c, n).0)
    decreases n
  {
    if n > 0 {
      RunKeepsInv(d, Step(d, c).0, n - 1);
    }
  }

  /** Every state reachable from a fresh instance points at a frame, and, when
      every duration is positive, has counted fewer ticks than that frame's
      duration. */
  lemma ReachableFromStart(d: AnimationData, n: nat)
    requires 0 < |d.sprites|
    ensures Run(d, Cursor(0, 0), n).0.spriteIndex < |d.sprites|
    ensures (forall k :: 0 <= k < |d.sprites| ==> 1 <= d.sprites[k].duration) ==>
      Run(d, Cursor(0, 0), n).0.frameCounter < d.sprites[Run(d, Cursor(0, 0), n).0.spriteIndex].duration
  {
    RunKeepsInv(d, Cursor(0, 0), n);
  }

  /** The ticks frames `i..` last together. */
  function TicksFrom(d: AnimationData, i: nat): nat
    decreases |d.sprites| - i
  {
    if i >= |d.sprites| then 0 else Ticks(d.sprites[i]) + TicksFrom(d, i + 1)
  }

  lemma {:induction false} CycleFrom(d: AnimationData, i: nat)
    requires i < |d.sprites|
    ensures Run(d, Cursor(i, 0), TicksFrom(d, i)) == (Cursor(0, 0), if d.looping then 0 else 1)
    decreases |d.sprites| - i
  {
    var t := Ticks(d.sprites[i]);
    FrameTiming(d, i, 0, t);
    if i + 1 == |d.sprites| {
      assert TicksFrom(d, i) == t;
    } else {
      RunAppend(d, Cursor(i, 0), t, TicksFrom(d, i + 1));
      CycleFrom(d, i + 1);
    }
  }

  /** One full cycle: ticking a fresh instance as many times as its frames
      last together brings it back to frame 0 with counter 0; a looping
      animation never reports `Break` on the way, a non-looping one exactly
      once. */
  lemma FullCycle(d: AnimationData)
    requires 0 < |d.sprites|
    ensures Run(d, Cursor(0, 0), TicksFrom(d, 0)) == (Cursor(0, 0), if d.looping then 0 else 1)
  {
    CycleFrom(d, 0);
  }

  /** A looping animation never reports `Break`. */
  lemma {:induction false} LoopingNeverBreaks(d: AnimationData, c: Cursor, n: nat)
    requires c.spriteIndex < |d.sprites| && d.looping
    ensures Run(d, c, n).1 == 0
    decreases n
  {
    if n > 0 {
      LoopingNeverBreaks(d, Step(d, c).0, n - 1);
    }
  }

  /** `Rc<AnimationData>`: a definition loaded once and shared by reference.
      Its fields never change; its identity is the object's. */
  class SharedData {
    const data: AnimationData

    constructor (data: AnimationData)
      ensures this.data == data
    {
      this.data := data;
    }

    /** `to_anim`: a fresh instance at frame 0, counter 0, of this definition. */
    method ToAnim() returns (a: Animation)
      ensures fresh(a) && a.shared == this && a.IsInstance(this)
      ensures a.State() == Cursor(0, 0) && a.Valid()
    {
      a := new Animation(this);
    }
  }

  /** One playback instance. */
  class Animation {
    const shared: SharedData
    var spriteIndex: nat
    var frameCounter: nat

    constructor (shared: SharedData)
      ensures this.shared == shared && spriteIndex == 0 && frameCounter == 0
    {
      this.shared := shared;
      spriteIndex, frameCounter := 0, 0;
    }

    function State(): Cursor
      reads this
    {
      Cursor(spriteIndex, frameCounter)
    }

    /** A fresh instance of an empty definition sits at (0, 0); otherwise the
        cursor keeps the invariant. */
    ghost predicate Valid()
      reads this
    {
      if shared.data.sprites == [] then State() == Cursor(0, 0) else Inv(shared.data, State())
    }

    /** `is_instance`: reference identity with `d`, which implies the same
        frames and looping flag. */
    function IsInstance(d: SharedData): (r: bool)
      ensures r ==> d.data == shared.data
    {
      shared == d
    }

    /** `next_frame`. */
    method NextFrame() returns (flow: Flow)
      requires Valid() && shared.data.sprites != []
      modifies this
      ensures Valid()
      ensures (State(), flow) == Step(shared.data, old(State()))
    {
      frameCounter := frameCounter + 1;
      if shared.data.sprites[spriteIndex].duration <= frameCounter {
        spriteIndex := spriteIndex + 1;
        frameCounter := 0;
        if spriteIndex >= |shared.data.sprites| {
          spriteIndex := 0;
          if !shared.data.looping {
            return Break;
          }
        }
      }
      return Continue;
    }

    /** `sprite`: the current frame, read from the shared definition. */
    function Sprite(): (s: AnnotatedSprite)
      reads this
      requires Valid() && shared.data.sprites != []
      ensures s in shared.data.sprites
      ensures |shared.data.sprites| == 1 ==> s == shared.data.sprites[0]
    {
      shared.data.sprites[spriteIndex]
    }

    /** `Clone`: a second instance of the same definition at the same place. */
    method Clone() returns (b: Animation)
      ensures fresh(b) && b.shared == shared && b.State() == State()
    {
      b := new Animation(shared);
      b.spriteIndex, b.frameCounter := spriteIndex, frameCounter;
    }
  }

  /** Instances of one definition are independent: ticking one leaves every
      other instance's cursor, and the definition both share, as they were. */
  method TickOneOfTwo(d: SharedData, a: Animation, b: Animation) returns (flow: Flow)
    requires a != b && a.IsInstance(d) && b.IsInstance(d)
    requires a.Valid() && b.Valid() && d.data.sprites != []
    modifies a
    ensures b.State() == old(b.State()) && a.IsInstance(d) && b.IsInstance(d)
    ensures (a.State(), flow) == Step(d.data, old(a.State()))
  {
    flow := a.NextFrame();
  }
}
