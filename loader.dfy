/** Loading one animation definition: the authored records, the geometry of
    each frame cut from the shared sheet image, the default frame-index
    convention and the optional reversal of the frame order. */
module Loader {
  import opened Wrappers
  import opened Geometry

  /** The sprite-sheet part of a record: which texture, and its grid. */
  datatype SheetParams = SheetParams(texture: string, countX: u32, countY: u32)

  /** One authored frame. `spriteIndex` is the optional explicit cell index. */
  datatype SpriteParams = SpriteParams(hurtbox: bool, hitbox: Option<PixelRect>, duration: nat, spriteIndex: Option<nat>)

  /** One animation record as parsed from its file. */
  datatype AnimationParams = AnimationParams(sheet: SheetParams, sprites: seq<SpriteParams>, looping: bool, playBackwards: bool)

  /** One playable frame. The texture handle is the texture's name; the
      hurtbox and hitbox are kept in pixels of the cell (before the
      floating-point normalisation into world units). */
  datatype AnnotatedSprite = AnnotatedSprite(
    texture: string,
    sourceRect: PixelRect,
    hitbox: Option<PixelRect>,
    hurtbox: Option<PixelBox>,
    duration: nat)

  /** An immutable animation definition. */
  datatype AnimationData = AnimationData(sprites: seq<AnnotatedSprite>, looping: bool)

  /** The decoded sheet images, by texture name. */
  type ImageTable = map<string, Image>

  ghost predicate TableWellFormed(images: ImageTable) {
    forall t :: t in images ==> images[t].WellFormed()
  }

  /** The cell a frame with cell index `index` is cut from, or the panic that
      loading it hits: the image lookup, the grid arithmetic, and the
      `- 1` on a zero-pixel cell width or height. */
  function SpriteCell(images: ImageTable, sheet: SheetParams, index: nat): (r: Result<PixelRect, SpriteError>)
    ensures r.Ok? ==> sheet.texture in images && Inside(images[sheet.texture], r.value)
    ensures r.Ok? ==> 0 < r.value.size.x && 0 < r.value.size.y
    ensures sheet.texture !in images <==> r == Err(MissingTexture)
  {
    if sheet.texture !in images then Err(MissingTexture)
    else
      var img := images[sheet.texture];
      match CellRect(img.width, img.height, sheet.countX, sheet.countY, index)
      case Err(e) => Err(e)
      case Ok(cell) => if cell.size.x == 0 || cell.size.y == 0 then Err(SubtractOverflow) else Ok(cell)
  }

  /** A frame has a cell exactly when its sheet's image is present, both grid
      counts are positive and no larger than the image's dimensions, and the
      frame index (cut to 32 bits) lies on the grid. */
  lemma SpriteCellDefined(images: ImageTable, sheet: SheetParams, index: nat)
    ensures SpriteCell(images, sheet, index).Ok? <==>
      (sheet.texture in images &&
       0 < sheet.countX <= images[sheet.texture].width && 0 < sheet.countY <= images[sheet.texture].height &&
       index % U32_LIMIT < sheet.countX * sheet.countY)
  {
    if sheet.texture in images {
      var img := images[sheet.texture];
      CellNonEmpty(img.width, img.height, sheet.countX, sheet.countY, index);
    }
  }

  /** `s` is what loading frame `params` at cell `index` yields: the sheet's
      texture, the cell as source rectangle, the authored hitbox and duration,
      and, when requested, the tight box of the cell's opaque pixels. */
  ghost predicate IsLoadedSprite(images: ImageTable, sheet: SheetParams, index: nat, params: SpriteParams, s: AnnotatedSprite)
    requires TableWellFormed(images)
  {
    var cell := SpriteCell(images, sheet, index);
    cell.Ok? &&
    s.texture == sheet.texture && s.sourceRect == cell.value &&
    s.hitbox == params.hitbox && s.duration == params.duration &&
    if params.hurtbox then s.hurtbox.Some? && TightBox(images[sheet.texture], cell.value, s.hurtbox.value)
    else s.hurtbox.None?
  }

  /** The integer part of loading one frame: look the sheet image up, cut the
      cell, scan it once per axis for the hurtbox. */
  method LoadSprite(images: ImageTable, index: nat, sheet: SheetParams, params: SpriteParams)
    returns (r: Result<AnnotatedSprite, SpriteError>)
    requires TableWellFormed(images)
    ensures r.Err? <==> SpriteCell(images, sheet, index).Err?
    ensures r.Err? ==> r.error == SpriteCell(images, sheet, index).error
    ensures r.Ok? ==> IsLoadedSprite(images, sheet, index, params, r.value)
  {
    var rect := SpriteCell(images, sheet, index);
    if rect.Err? {
      return Err(rect.error);
    }
    var img, cell := images[sheet.texture], rect.value;
    var minX, maxX := ScanAxis(img, cell, X);
    var minY, maxY := ScanAxis(img, cell, Y);
    var hurtbox := PixelBox(UVec2(minX, minY), UVec2(maxX, maxY));
    r := Ok(AnnotatedSprite(sheet.texture, cell, params.hitbox,
                            if params.hurtbox then Some(hurtbox) else None, params.duration));
  }

  /** Loading is a function of its inputs: two results for the same frame agree. */
  lemma LoadedSpriteUnique(images: ImageTable, sheet: SheetParams, index: nat, params: SpriteParams,
                           s: AnnotatedSprite, s': AnnotatedSprite)
    requires TableWellFormed(images)
    requires IsLoadedSprite(images, sheet, index, params, s) && IsLoadedSprite(images, sheet, index, params, s')
    ensures s == s'
  {
    if params.hurtbox {
      var img, cell := images[sheet.texture], SpriteCell(images, sheet, index).value;
      var b, b' := s.hurtbox.value, s'.hurtbox.value;
      AxisBoundsUnique(img, cell, X, b.min.x, b.max.x, b'.min.x, b'.max.x);
      AxisBoundsUnique(img, cell, Y, b.min.y, b.max.y, b'.min.y, b'.max.y);
    }
  }

  /** The cell index frame `k` is loaded from: its explicit `spriteIndex` if
      it has one, otherwise one past the previous frame's, and 0 for the
      first frame. */
  function EffectiveIndex(frames: seq<SpriteParams>, k: nat): nat
    requires k < |frames|
  {
    match frames[k].spriteIndex
    case Some(i) => i
    case None => if k == 0 then 0 else EffectiveIndex(frames, k - 1) + 1
  }

  /** Frames without an explicit index continue sequentially from the last
      frame before them. */
  lemma {:induction false} ImplicitRun(frames: seq<SpriteParams>, j: nat, m: nat)
    requires j + m < |frames|
    requires forall k :: j < k <= j + m ==> frames[k].spriteIndex.None?
    ensures EffectiveIndex(frames, j + m) == EffectiveIndex(frames, j) + m
  {
    if m > 0 {
      ImplicitRun(frames, j, m - 1);
    }
  }

  /** A frame comes from the last explicit index at or before it, plus the
      number of frames since that one; an explicit index is taken as is. */
  lemma LastExplicit(frames: seq<SpriteParams>, j: nat, k: nat)
    requires j <= k < |frames| && frames[j].spriteIndex.Some?
    requires forall m :: j < m <= k ==> frames[m].spriteIndex.None?
    ensures EffectiveIndex(frames, k) == frames[j].spriteIndex.value + (k - j)
  {
    ImplicitRun(frames, j, k - j);
  }

  /** With no explicit index anywhere, frame k comes from cell k. */
  lemma {:induction false} AllImplicit(frames: seq<SpriteParams>, k: nat)
    requires k < |frames|
    requires forall j :: 0 <= j <= k ==> frames[j].spriteIndex.None?
    ensures EffectiveIndex(frames, k) == k
  {
    ImplicitRun(frames, 0, k);
  }

  /** Where forward frame `k` ends up once the order is applied. */
  function Position(anim: AnimationParams, k: nat): nat
    requires k < |anim.sprites|
  {
    if anim.playBackwards then |anim.sprites| - 1 - k else k
  }

  /** The cell (or panic) of authored frame `k`. */
  function FrameCell(images: ImageTable, anim: AnimationParams, k: nat): Result<PixelRect, SpriteError>
    requires k < |anim.sprites|
  {
    SpriteCell(images, anim.sheet, EffectiveIndex(anim.sprites, k))
  }

  /** Authored frame `k` is the first without a cell, and `e` is its error. */
  ghost predicate FailsFirstAt(images: ImageTable, anim: AnimationParams, k: nat, e: SpriteError) {
    k < |anim.sprites| && FrameCell(images, anim, k) == Err(e) &&
    forall j :: 0 <= j < k ==> FrameCell(images, anim, j).Ok?
  }

  /** `d` is what loading `anim` yields: one frame per authored frame, loaded
      from its effective cell index, in authored order or reversed, and the
      `looping` flag as authored. */
  ghost predicate IsLoadedAnimation(images: ImageTable, anim: AnimationParams, d: AnimationData)
    requires TableWellFormed(images)
  {
    |d.sprites| == |anim.sprites| && d.looping == anim.looping &&
    forall k :: 0 <= k < |anim.sprites| ==>
      IsLoadedSprite(images, anim.sheet, EffectiveIndex(anim.sprites, k), anim.sprites[k], d.sprites[Position(anim, k)])
  }

  /** `Vec::reverse`. */
  method ReverseInPlace<T>(a: array<T>)
    modifies a
    ensures forall k :: 0 <= k < a.Length ==> a[k] == old(a[a.Length - 1 - k])
  {
    var i, j := 0, a.Length - 1;
    while i < j
      invariant 0 <= i && j == a.Length - 1 - i && i <= a.Length - i
      invariant forall k :: 0 <= k < i || j < k < a.Length ==> a[k] == old(a[a.Length - 1 - k])
      invariant forall k :: i <= k <= j ==> a[k] == old(a[k])
    {
      a[i], a[j] := a[j], a[i];
      i, j := i + 1, j - 1;
    }
  }

  /** The first `i` frames of `s` are the loads of the first `i` authored
      frames, in authored order. */
  ghost predicate LoadedPrefix(images: ImageTable, anim: AnimationParams, s: seq<AnnotatedSprite>, i: nat)
    requires TableWellFormed(images)
  {
    i <= |anim.sprites| && i <= |s| &&
    forall k :: 0 <= k < i ==>
      IsLoadedSprite(images, anim.sheet, EffectiveIndex(anim.sprites, k), anim.sprites[k], s[k])
  }

  lemma LoadedPrefixStep(images: ImageTable, anim: AnimationParams, s: seq<AnnotatedSprite>, i: nat, v: AnnotatedSprite)
    requires TableWellFormed(images)
    requires LoadedPrefix(images, anim, s, i) && i < |s| && i < |anim.sprites|
    requires IsLoadedSprite(images, anim.sheet, EffectiveIndex(anim.sprites, i), anim.sprites[i], v)
    ensures LoadedPrefix(images, anim, s[i := v], i + 1)
  {
  }

  lemma LoadedPrefixCells(images: ImageTable, anim: AnimationParams, s: seq<AnnotatedSprite>, i: nat)
    requires TableWellFormed(images)
    requires LoadedPrefix(images, anim, s, i)
    ensures forall k :: 0 <= k < i ==> FrameCell(images, anim, k).Ok?
  {
    forall k | 0 <= k < i
      ensures FrameCell(images, anim, k).Ok?
    {
      assert IsLoadedSprite(images, anim.sheet, EffectiveIndex(anim.sprites, k), anim.sprites[k], s[k]);
    }
  }

  lemma FinishLoad(images: ImageTable, anim: AnimationParams, fwd: seq<AnnotatedSprite>, out: seq<AnnotatedSprite>)
    requires TableWellFormed(images)
    requires |fwd| == |out| == |anim.sprites| && LoadedPrefix(images, anim, fwd, |anim.sprites|)
    requires forall k :: 0 <= k < |out| ==> out[k] == fwd[if anim.playBackwards then |out| - 1 - k else k]
    ensures IsLoadedAnimation(images, anim, AnimationData(out, anim.looping))
  {
    var n := |out|;
    forall k | 0 <= k < n
      ensures IsLoadedSprite(images, anim.sheet, EffectiveIndex(anim.sprites, k), anim.sprites[k], out[Position(anim, k)])
    {
      var p := Position(anim, k);
      assert out[p] == fwd[k];
    }
  }

  /** Load every authored frame in order, carrying the expected next cell
      index, then reverse the frames if the record says so. The first frame
      that fails to load aborts the whole load with its error. */
  method LoadAnimation(images: ImageTable, anim: AnimationParams) returns (r: Result<AnimationData, SpriteError>)
    requires TableWellFormed(images)
    ensures r.Ok? <==> forall k :: 0 <= k < |anim.sprites| ==> FrameCell(images, anim, k).Ok?
    ensures r.Err? ==> exists k :: FailsFirstAt(images, anim, k, r.error)
    ensures r.Ok? ==> IsLoadedAnimation(images, anim, r.value)
  {
    var n := |anim.sprites|;
    var sprites := new AnnotatedSprite[n];
    var expected := 0;
    var i := 0;
    while i < n
      invariant 0 <= i <= n
      invariant expected == if i == 0 then 0 else EffectiveIndex(anim.sprites, i - 1) + 1
      invariant LoadedPrefix(images, anim, sprites[..], i)
    {
      var params := anim.sprites[i];
      var index := params.spriteIndex.GetOr(expected);
      assert index == EffectiveIndex(anim.sprites, i);
      var s := LoadSprite(images, index, anim.sheet, params);
      if s.Err? {
        LoadedPrefixCells(images, anim, sprites[..], i);
        assert FailsFirstAt(images, anim, i, s.error);
        return Err(s.error);
      }
      LoadedPrefixStep(images, anim, sprites[..], i, s.value);
      sprites[i] := s.value;
      expected := index + 1;
      i := i + 1;
    }
    ghost var forward := sprites[..];
    if anim.playBackwards {
      ReverseInPlace(sprites);
    }
    FinishLoad(images, anim, forward, sprites[..]);
    LoadedPrefixCells(images, anim, forward, n);
    r := Ok(AnimationData(sprites[..], anim.looping));
  }

  /** Playing backwards gives exactly the reverse of the forward frames: the
      cell indices are inferred before the order is flipped. */
  lemma BackwardsIsReversed(images: ImageTable, anim: AnimationParams, fwd: AnimationData, bwd: AnimationData)
    requires TableWellFormed(images)
    requires IsLoadedAnimation(images, anim.(playBackwards := false), fwd)
    requires IsLoadedAnimation(images, anim.(playBackwards := true), bwd)
    ensures |bwd.sprites| == |fwd.sprites| && bwd.looping == fwd.looping
    ensures forall k :: 0 <= k < |fwd.sprites| ==> bwd.sprites[k] == fwd.sprites[|fwd.sprites| - 1 - k]
  {
    var n := |anim.sprites|;
    var f, b := anim.(playBackwards := false), anim.(playBackwards := true);
    forall k | 0 <= k < n
      ensures bwd.sprites[k] == fwd.sprites[n - 1 - k]
    {
      var j := n - 1 - k;
      assert Position(b, j) == k && Position(f, j) == j;
      LoadedSpriteUnique(images, anim.sheet, EffectiveIndex(anim.sprites, j), anim.sprites[j],
                         bwd.sprites[k], fwd.sprites[j]);
    }
  }
}
