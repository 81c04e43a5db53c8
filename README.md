# GooseFighter sprite animations, modelled in Dafny

This project models the sprite animation core of GooseFighter
(`src/animation.rs`) in four layers:

- **Geometry**: sheet-cell geometry and the alpha bounding box. This is the
  integer part of `load_sprite`:
  - the cell size comes from integer division of the image size by the grid;
  - the frame index is cut to 32 bits (`as u32`), then split into a
    row-major column and row;
  - a row off the grid fails the `y < count_y` assertion;
  - the source rectangle is `(w*x, h*y, w, h)`;
  - two row-major passes over the cropped cell find the tight box of the
    non-transparent pixels. `min` is inclusive and starts at `size - 1`;
    `max` is exclusive and starts at `0`. `From<PixelRect> for IRect`, the
    componentwise `as i32` cast, also lives here.
- **Loader**: `load_sprite` and `load_animation`.
  - One frame is loaded per authored frame, at its effective cell index: the
    explicit `sprite_index`, or one past the previous frame's, or 0 for the
    first frame.
  - The frame list is reversed in place when `play_backwards` is set.
    Indices are inferred before the reversal.
  - `looping` is copied unchanged.
  - Every panic of the loading path is an error value (`SpriteError`):
    - the missing image (`unwrap`);
    - a zero `count_x`/`count_y` (division by zero);
    - the failed grid assertion;
    - `sprite_width - 1` or `sprite_height - 1` on a zero-pixel cell (the
      debug-build subtraction overflow).
- **Playback**: the cursor `(sprite_index, frame_counter)` of an `Animation`,
  bound to a shared, immutable `AnimationData` (`Rc<AnimationData>` is the
  class `SharedData`; `Rc::ptr_eq` is reference equality).
  - `next_frame` is a method on the class.
  - It is proved equal to the pure transition `Step`, and `Run` iterates
    `Step`.
  - The lemmas give the exact timing law of a frame, the invariant of every
    state reachable from `to_anim`, and the full-cycle law with its
    `Break` count.
- **Catalog**: `load_animations` as a loop over the asset files.
  - Files with extension `ron` are parsed and loaded; all others are skipped.
  - Each definition is inserted under its file stem, so a later file
    replaces an earlier one of the same name.
  - Each definition is a fresh shared object.

Three behaviours of the code that are easy to get wrong:

- A frame with `duration` 0 does not stall playback. The counter is bumped
  before the test `duration <= frame_counter`, so such a frame lasts one tick
  (`Playback.Ticks`).
- Only a parse failure carries the animation's name (`with_context`).
  A missing texture or an off-grid frame index panics without it
  (`Catalog.CatalogError`).
- A definition with no frames is accepted by the loader and by the catalog.
  Calling `next_frame` or `sprite` on an instance of it then panics on the
  index.

The loading path reads a table of decoded images, passed in as a parameter
(`ImageTable`, texture name to alpha grid). Asset files are passed in as a
sequence of stems, extensions and parse results.

## Model

| member | source | states |
|---|---|---|
| Geometry.AsI32 | src/animation.rs:37-43 | `as i32` keeps the 32-bit pattern; values below 2^31 are unchanged; larger ones become negative, and only those |
| Geometry.ToIRect | src/animation.rs:33-46 | every component of the converted rectangle has the bits of the pixel rectangle's component, and equals it when below 2^31 |
| Geometry.CellRect | src/animation.rs:145-153 | on success both counts are positive, the cell is `(W / count_x, H / count_y)` in size, and it lies inside the `W x H` image |
| Geometry.GridCell | src/animation.rs:204-209 | the source rectangle of grid cell (col, row) has the integer cell size and lies inside the image |
| Geometry.CellRectPlacement | src/animation.rs:148-153 | frames are laid out row-major: the cell of a frame is grid cell (col, row) with `row * count_x + col` the index cut to 32 bits, at origin `(W / count_x * col, H / count_y * row)` |
| Geometry.CellNonEmpty | src/animation.rs:145-158 | a cell exists and is at least one pixel wide and high exactly when `0 < count_x <= W`, `0 < count_y <= H` and the index cut to 32 bits is below `count_x * count_y` |
| Geometry.CellRectDefined | src/animation.rs:145-150 | a zero count fails with division by zero; otherwise the index cut to 32 bits is on the grid exactly when it is below `count_x * count_y`; no other error arises |
| Geometry.ScanAxis | src/animation.rs:158-174 | one pass over the cell yields `lo`/`hi` with `lo <= c < hi` for every opaque pixel's coordinate `c`, both attained by some opaque pixel; with no opaque pixel, `lo = extent - 1` and `hi = 0` |
| Geometry.AxisBoundsUnique | src/animation.rs:158-174 | the bounds the scan characterises are unique: the result is a function of the cell's pixels |
| Geometry.AxisBoundsNonEmptyIff | src/animation.rs:158-174 | the box encloses a pixel (`lo < hi`) exactly when the cell has an opaque pixel |
| Geometry.SinglePixelBox | src/animation.rs:158-174 | a cell whose only opaque pixel is (px, py) gets the box from (px, py) to (px + 1, py + 1) |
| Loader.SpriteCell | src/animation.rs:143-167 | the frame's cell, or its panic: a missing image exactly when the texture is absent; on success the cell lies in that image and is at least one pixel wide and high |
| Loader.SpriteCellDefined | src/animation.rs:143-167 | a frame has a cell exactly when its image is present, `0 < count_x <= W`, `0 < count_y <= H` and the index cut to 32 bits is below `count_x * count_y` |
| Loader.LoadSprite | src/animation.rs:135-218 | fails exactly when `SpriteCell` does, with the same error; on success yields the sheet's texture, the cell as source rectangle, the authored hitbox and duration, and the tight alpha box when a hurtbox is requested |
| Loader.LoadedSpriteUnique | src/animation.rs:135-218 | two loads of the same frame agree |
| Loader.EffectiveIndex | src/animation.rs:119-123 | the cell a frame is loaded from: its explicit `sprite_index`, else one past the previous frame's, else 0; its closed forms are `LastExplicit` and `AllImplicit` |
| Loader.LastExplicit | src/animation.rs:119-123 | a frame is loaded from the last explicit `sprite_index` at or before it plus the number of frames since, and an explicit index is taken as is |
| Loader.ImplicitRun | src/animation.rs:119-124 | frames without an explicit index continue one by one from the last frame before them |
| Loader.AllImplicit | src/animation.rs:119-124 | with no explicit index anywhere, frame k is cut from cell k |
| Loader.ReverseInPlace | src/animation.rs:126-128 | element k afterwards is element `n - 1 - k` before |
| Loader.LoadAnimation | src/animation.rs:116-133 | succeeds exactly when every authored frame has a cell; otherwise fails with the error of the first frame that has none; on success one frame per authored frame, each loaded at its effective index, in authored order or reversed, with `looping` as authored |
| Loader.BackwardsIsReversed | src/animation.rs:120-128 | the backwards load is exactly the reverse of the forward load, with the same length and `looping` |
| Playback.Ticks | src/animation.rs:222-223 | a frame lasts at least one tick and at least its duration, and exactly its duration when that is positive |
| Playback.NextIndex | src/animation.rs:224-228 | the next frame is `(i + 1) mod N` and stays in range |
| Playback.Step | src/animation.rs:221-235 | the frame index stays below `N`; `Break` is returned exactly when a non-looping animation leaves its last frame, and then the cursor is (0, 0); the cursor invariant is preserved |
| Playback.Run | src/animation.rs:221-235 | any number of ticks keeps the frame index in range |
| Playback.FrameTiming | src/animation.rs:222-225 | from counter j, ticks short of the frame's duration only add to the counter and report nothing; the tick that reaches it moves to the next frame (wrapping) with counter 0, reporting `Break` exactly at the end of a non-looping animation |
| Playback.RunAppend | src/animation.rs:221-235 | `a + b` ticks are `a` ticks then `b` ticks, and the `Break` counts add up |
| Playback.RunKeepsInv | src/animation.rs:222-228 | the cursor invariant holds after any number of ticks from a state where it holds |
| Playback.ReachableFromStart | src/animation.rs:222-228 | every state reachable from `to_anim`'s (0, 0) points at a frame and, when all durations are positive, has `frame_counter < duration` |
| Playback.CycleFrom | src/animation.rs:221-235 | from frame i with counter 0, the ticks of frames i.. lead to (0, 0) with one `Break` when not looping and none when looping |
| Playback.FullCycle | src/animation.rs:221-235 | ticking a fresh instance for the frames' total tick count (`TicksFrom`; a zero duration counts as one tick) returns it to (0, 0); a non-looping animation reports `Break` exactly once on the way, a looping one never |
| Playback.LoopingNeverBreaks | src/animation.rs:227-231 | a looping animation never reports `Break` |
| Playback.SharedData.ToAnim | src/animation.rs:101-107 | a fresh instance at (0, 0), bound to this definition, of which it is an instance |
| Playback.SharedData.constructor | src/animation.rs:88 | `Rc::new`: a new shared object holding exactly the loaded definition |
| Playback.Animation.constructor | src/animation.rs:102-106 | the instance starts at frame 0 with counter 0, bound to the given definition |
| Playback.Animation.IsInstance | src/animation.rs:111-113 | being an instance of a definition implies having its frames and looping flag |
| Playback.Animation.NextFrame | src/animation.rs:221-235 | the new cursor and the returned flow are `Step` of the old cursor; the cursor invariant is kept |
| Playback.Animation.Sprite | src/animation.rs:237-239 | the returned frame is one of the definition's frames (the only one for a one-frame animation) |
| Playback.Animation.Clone | src/animation.rs:55-60 | a fresh instance of the same definition at the same cursor |
| Playback.TickOneOfTwo | src/animation.rs:101-113 | ticking one instance of a definition leaves every other instance's cursor unchanged, and both stay instances of it |
| Catalog.IsAnimationFile | src/animation.rs:82-85 | a file is an animation exactly when it has an extension and that extension is `ron` |
| Catalog.LoadFile | src/animation.rs:81-92 | skips a file exactly when its extension is not `ron`; fails exactly when an animation file does not parse (with its name) or one of its frames has no cell (with the error of the first such frame); otherwise yields the loaded definition |
| Catalog.InsertNew | src/animation.rs:88-93 | inserting a new object keeps the catalog's definitions pairwise distinct |
| Catalog.SkipFile | src/animation.rs:82-85 | a file that is not an animation leaves the catalog unchanged |
| Catalog.AddFile | src/animation.rs:93 | an animation file's definition goes under its stem and replaces the earlier one of that name |
| Catalog.StopAt | src/animation.rs:86-92 | the first file that does not load, after files that all did, is the first failure, and the loop reports its error |
| Catalog.BuiltAll | src/animation.rs:77-98 | after every file, each animation file's stem is a name, and each name holds the definition of the last file of that name |
| Catalog.LoadAnimations | src/animation.rs:77-98 | succeeds exactly when every file loads; otherwise reports the first failing file's error; on success holds every stem with the definition of its last file, each a fresh object and no two names sharing one |

## Left out

- Floating-point normalisation (`src/animation.rs:176-202`, `212-215`) is not modelled. This covers the world-space hurtbox, the hitbox and the `size` field. The hurtbox is kept as its integer pixel box, the hitbox as the authored rectangle.
- `render` (`src/animation.rs:242-260`) is not modelled: it only submits a draw call. It flips horizontally exactly when facing west and never flips vertically.
- The global asset table, its lock and `texture_id` are not modelled. The decoded images are a parameter keyed by texture name, and the texture handle is that name.
- `crop_imm` is modelled as direct sub-indexing of the image's alpha grid. Only the alpha channel of each pixel is represented.
- Directory iteration, UTF-8 decoding and RON parsing are not modelled. Each file arrives as its stem, its extension and an optional parse result. The `unwrap` panics on a non-UTF-8 stem or contents are not modelled.
- `Rc` reference counting as memory management is not modelled; only the identity of the shared object is.
- Loader.LoadAnimation: the `usize` overflow of `expected_sprite_index + 1` is not modelled, because indices are unbounded naturals.
- Playback.Animation.NextFrame: the `usize` overflow of `frame_counter += 1` is not modelled, because the counter is an unbounded natural.
- Playback.Animation.NextFrame: it requires a non-empty frame list. On an empty one the source panics on the index, and that panic is not represented.
- Playback.Animation.Sprite: it requires a non-empty frame list. On an empty one the source panics on the index, and that panic is not represented.
- Loader.SpriteCell: `sprite_width - 1` on a zero-pixel cell is modelled as the debug-build panic. The release-build wrap-around, which would then scan an empty crop, is not modelled.
