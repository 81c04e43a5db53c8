/** Integer geometry of a sprite sheet: machine integers, pixel rectangles and
    their conversion to the engine's signed rectangle, the row-major cell of a
    frame index, and the tight bounding box of a cell's non-transparent pixels. */
module Geometry {
  import opened Wrappers

  const U32_LIMIT: int := 0x1_0000_0000
  const I32_LIMIT: int := 0x8000_0000

  type u8 = x: int | 0 <= x < 0x100
  type u32 = x: int | 0 <= x < 0x1_0000_0000
  type i32 = x: int | -0x8000_0000 <= x < 0x8000_0000

  datatype UVec2 = UVec2(x: u32, y: u32)
  datatype IVec2 = IVec2(x: i32, y: i32)

  /** A rectangle in pixel space: origin top-left, y grows downwards. */
  datatype PixelRect = PixelRect(offset: UVec2, size: UVec2)

  /** The engine's rectangle, with signed components. */
  datatype IRect = IRect(offset: IVec2, size: IVec2)

  /** A pixel bounding box: `min` inclusive, `max` exclusive. */
  datatype PixelBox = PixelBox(min: UVec2, max: UVec2)

  /** Why loading one frame panics in the source. */
  datatype SpriteError =
    | MissingTexture     // the sheet's decoded image is not in the image table
    | DivideByZero       // `count_x` or `count_y` is zero
    | GridIndexOutOfRange // the row of the frame index is not below `count_y`
    | SubtractOverflow   // `sprite_width - 1` or `sprite_height - 1` on a zero-pixel cell

  /** Two integers with the same 32-bit pattern. */
  ghost predicate SameBits(a: int, b: int) {
    (a - b) % U32_LIMIT == 0
  }

  /** Rust's `v as i32` on a `u32`: the same bits read as two's complement. */
  function AsI32(v: u32): (r: i32)
    ensures SameBits(v, r)
    ensures v < I32_LIMIT <==> r == v
    ensures v >= I32_LIMIT <==> r < 0
  {
    if v < I32_LIMIT then v else v - U32_LIMIT
  }

  /** `From<PixelRect> for IRect`: every component cast with `as i32`. */
  function ToIRect(r: PixelRect): (ir: IRect)
    ensures SameBits(r.offset.x, ir.offset.x) && SameBits(r.offset.y, ir.offset.y)
    ensures SameBits(r.size.x, ir.size.x) && SameBits(r.size.y, ir.size.y)
    ensures r.offset.x < I32_LIMIT && r.offset.y < I32_LIMIT ==> ir.offset == IVec2(r.offset.x, r.offset.y)
    ensures r.size.x < I32_LIMIT && r.size.y < I32_LIMIT ==> ir.size == IVec2(r.size.x, r.size.y)
  {
    IRect(IVec2(AsI32(r.offset.x), AsI32(r.offset.y)), IVec2(AsI32(r.size.x), AsI32(r.size.y)))
  }

  /** The alpha channel of a decoded sheet image, row by row (`alpha[y][x]`). */
  datatype Image = Image(width: u32, height: u32, alpha: seq<seq<u8>>) {
    ghost predicate WellFormed() {
      |alpha| == height && forall row :: 0 <= row < |alpha| ==> |alpha[row]| == width
    }
  }

  ghost predicate Inside(img: Image, cell: PixelRect) {
    cell.offset.x + cell.size.x <= img.width && cell.offset.y + cell.size.y <= img.height
  }

  predicate InCell(cell: PixelRect, px: int, py: int) {
    0 <= px < cell.size.x && 0 <= py < cell.size.y
  }

  /** Whether pixel (px, py) of the crop of `img` to `cell` is not fully
      transparent; the crop is read by direct sub-indexing of the grid. */
  predicate Opaque(img: Image, cell: PixelRect, px: int, py: int)
    requires img.WellFormed() && Inside(img, cell) && InCell(cell, px, py)
  {
    img.alpha[cell.offset.y + py][cell.offset.x + px] != 0
  }

  ghost predicate AnyOpaque(img: Image, cell: PixelRect)
    requires img.WellFormed() && Inside(img, cell)
  {
    exists px, py :: InCell(cell, px, py) && Opaque(img, cell, px, py)
  }

  lemma MulMono(a: nat, b: nat, c: nat)
    requires b <= c
    ensures a * b <= a * c
  {
    assert a * c == a * b + a * (c - b);
  }

  /** Cell number `k` of `count` equal cells cut from `total` pixels lies
      within them. */
  lemma CellFits(total: nat, count: nat, k: nat)
    requires 0 < count && k < count
    ensures 0 <= (total / count) * k && (total / count) * k + total / count <= total
  {
    var q := total / count;
    assert total == q * count + total % count;
    assert q * k + q == q * (k + 1);
    MulMono(q, k + 1, count);
    MulMono(q, 0, k);
  }

  lemma RowInGrid(i: nat, countX: nat, countY: nat)
    requires 0 < countX
    ensures i / countX < countY <==> i < countX * countY
  {
    var row, col := i / countX, i % countX;
    assert i == countX * row + col;
    if row < countY {
      MulMono(countX, row, countY - 1);
      assert countX * (countY - 1) + countX == countX * countY;
    } else {
      MulMono(countX, countY, row);
    }
  }

  /** The source rectangle of frame `index` on a `width` x `height` sheet cut into
      a `countX` x `countY` grid: cell size by integer division, row-major cell
      coordinates of the index truncated to 32 bits (`as u32`), and the
      `y < count_y` assertion. */
  function CellRect(width: u32, height: u32, countX: u32, countY: u32, index: nat): (r: Result<PixelRect, SpriteError>)
    ensures r.Ok? ==> 0 < countX && 0 < countY
    ensures r.Ok? ==> r.value.size == UVec2(width / countX, height / countY)
    ensures r.Ok? ==> r.value.offset.x + r.value.size.x <= width && r.value.offset.y + r.value.size.y <= height
  {
    if countX == 0 || countY == 0 then Err(DivideByZero)
    else
      var i := index % U32_LIMIT;
      var col, row := i % countX, i / countX;
      if row >= countY then Err(GridIndexOutOfRange)
      else Ok(GridCell(width, height, countX, countY, col, row))
  }

  /** Frames are laid out row-major: a frame that loads is cut from the cell
      at column `col` and row `row` with `row * count_x + col` its index (cut
      to 32 bits), at origin `(w * col, h * row)` for the cell size `(w, h)`. */
  lemma CellRectPlacement(width: u32, height: u32, countX: u32, countY: u32, index: nat)
    requires CellRect(width, height, countX, countY, index).Ok?
    ensures exists col: nat, row: nat ::
      (col < countX && row < countY && row * countX + col == index % U32_LIMIT &&
       CellRect(width, height, countX, countY, index).value == GridCell(width, height, countX, countY, col, row) &&
       CellRect(width, height, countX, countY, index).value.offset == UVec2((width / countX) * col, (height / countY) * row))
  {
    var i := index % U32_LIMIT;
    var col, row := i % countX, i / countX;
    assert row * countX + col == i by {
      DivMod(i, countX);
    }
    assert col < countX && row < countY;
    var r := CellRect(width, height, countX, countY, index).value;
    assert r == GridCell(width, height, countX, countY, col, row);
    assert r.offset == UVec2((width / countX) * col, (height / countY) * row);
  }

  /** Euclidean division: the quotient and remainder recompose the dividend. */
  lemma DivMod(i: nat, n: nat)
    requires 0 < n
    ensures (i / n) * n + i % n == i && i % n < n
  {
  }
  /** A positive count cuts cells at least one pixel wide exactly when it is
      no larger than the total. */
  lemma DivPositive(total: nat, count: nat)
    requires 0 < count
    ensures 0 < total / count <==> count <= total
  {
    if count <= total {
      var q := total / count;
      assert total == q * count + total % count;
      assert total % count < count;
      assert q != 0;
    }
  }

  /** The cell at column `col` and row `row`: origin `(w * col, h * row)`,
      size `(w, h)`, with `w` and `h` the integer cell size. */
  function GridCell(width: u32, height: u32, countX: u32, countY: u32, col: nat, row: nat): (r: PixelRect)
    requires col < countX && row < countY
    ensures r.size == UVec2(width / countX, height / countY)
    ensures r.offset.x + r.size.x <= width && r.offset.y + r.size.y <= height
  {
    var w, h := width / countX, height / countY;
    CellFits(width, countX, col);
    CellFits(height, countY, row);
    PixelRect(UVec2(w * col, h * row), UVec2(w, h))
  }

  /** The frame index (cut to 32 bits) lies on the grid exactly when it is
      below the grid's cell count; otherwise the `y < count_y` assertion fails,
      and a zero grid dimension fails first, on the divisions. */
  lemma CellRectDefined(width: u32, height: u32, countX: u32, countY: u32, index: nat)
    ensures countX == 0 || countY == 0 ==> CellRect(width, height, countX, countY, index) == Err(DivideByZero)
    ensures 0 < countX && 0 < countY ==>
      (CellRect(width, height, countX, countY, index).Ok? <==> index % U32_LIMIT < countX * countY)
    ensures CellRect(width, height, countX, countY, index).Err? ==>
      CellRect(width, height, countX, countY, index).error in {DivideByZero, GridIndexOutOfRange}
  {
    if 0 < countX && 0 < countY {
      RowInGrid(index % U32_LIMIT, countX, countY);
    }
  }

  /** A frame has a non-empty cell exactly when both counts are positive and
      no larger than the image's dimensions and its index (cut to 32 bits)
      lies on the grid. */
  lemma CellNonEmpty(width: u32, height: u32, countX: u32, countY: u32, index: nat)
    ensures (CellRect(width, height, countX, countY, index).Ok? &&
             0 < CellRect(width, height, countX, countY, index).value.size.x &&
             0 < CellRect(width, height, countX, countY, index).value.size.y) <==>
            (0 < countX <= width && 0 < countY <= height && index % U32_LIMIT < countX * countY)
  {
    CellRectDefined(width, height, countX, countY, index);
    if 0 < countX && 0 < countY {
      DivPositive(width, countX);
      DivPositive(height, countY);
    }
  }

  function Min(a: int, b: int): int { if b < a then b else a }
  function Max(a: int, b: int): int { if a < b then b else a }

  datatype Axis = X | Y

  function Coord(axis: Axis, px: int, py: int): int {
    if axis == X then px else py
  }

  function Extent(cell: PixelRect, axis: Axis): u32 {
    if axis == X then cell.size.x else cell.size.y
  }

  /** `lo` and `hi` are the tight bounds along `axis` of the opaque pixels of the
      cell (`lo` inclusive, `hi` exclusive); with no opaque pixel they keep
      their starting values, `lo` one below the cell's extent and `hi` zero. */
  ghost predicate AxisBounds(img: Image, cell: PixelRect, axis: Axis, lo: int, hi: int)
    requires img.WellFormed() && Inside(img, cell)
  {
    (forall px, py :: InCell(cell, px, py) && Opaque(img, cell, px, py) ==> lo <= Coord(axis, px, py) < hi) &&
    if AnyOpaque(img, cell) then
      (exists px, py :: InCell(cell, px, py) && Opaque(img, cell, px, py) && Coord(axis, px, py) == lo) &&
      (exists px, py :: InCell(cell, px, py) && Opaque(img, cell, px, py) && Coord(axis, px, py) == hi - 1)
    else
      lo == Extent(cell, axis) - 1 && hi == 0
  }

  /** The hurtbox in pixels: tight on both axes. */
  ghost predicate TightBox(img: Image, cell: PixelRect, b: PixelBox)
    requires img.WellFormed() && Inside(img, cell)
  {
    AxisBounds(img, cell, X, b.min.x, b.max.x) && AxisBounds(img, cell, Y, b.min.y, b.max.y)
  }

  /** Pixel (qx, qy) is one of those `pixels()` yields before (px, py). */
  predicate Before(cell: PixelRect, py: int, px: int, qx: int, qy: int) {
    InCell(cell, qx, qy) && (qy < py || (qy == py && qx < px))
  }

  /** The running bounds of a scan, with the ghost bookkeeping of whether an
      opaque pixel was seen and which pixels attain `lo` and `hi - 1`. */
  datatype ScanState = ScanState(found: bool, lo: int, hi: int, loWitness: (int, int), hiWitness: (int, int))

  /** The scan's update for pixel (px, py): `lo.min(c)` and `hi.max(c + 1)` on
      an opaque pixel whose coordinate along the axis is `c`. */
  ghost function VisitPixel(img: Image, cell: PixelRect, axis: Axis, s: ScanState, px: int, py: int): ScanState
    requires img.WellFormed() && Inside(img, cell) && InCell(cell, px, py)
  {
    if !Opaque(img, cell, px, py) then s
    else
      var c := Coord(axis, px, py);
      ScanState(true, Min(s.lo, c), Max(s.hi, c + 1),
                if !s.found || c <= s.lo then (px, py) else s.loWitness,
                if !s.found || s.hi <= c + 1 then (px, py) else s.hiWitness)
  }

  /** The scan's state once every pixel before (px, py) has been visited. */
  ghost function ScanPrefix(img: Image, cell: PixelRect, axis: Axis, py: nat, px: nat): ScanState
    requires img.WellFormed() && Inside(img, cell)
    requires (py < cell.size.y && px <= cell.size.x) || (py <= cell.size.y && px == 0)
    decreases py, px
  {
    if px > 0 then VisitPixel(img, cell, axis, ScanPrefix(img, cell, axis, py, px - 1), px - 1, py)
    else if py > 0 then ScanPrefix(img, cell, axis, py - 1, cell.size.x)
    else ScanState(false, Extent(cell, axis) - 1, 0, (0, 0), (0, 0))
  }

  /** What a scan state means at (px, py): `lo`/`hi` are the tight bounds of
      the opaque pixels visited so far, attained at `loWitness` and `hiWitness`, or still
      their starting values if none was visited. */
  ghost predicate ScanProgress(img: Image, cell: PixelRect, axis: Axis, py: int, px: int, s: ScanState)
    requires img.WellFormed() && Inside(img, cell)
  {
    s.lo < Extent(cell, axis) && s.hi <= Extent(cell, axis) &&
    (!s.found ==> s.lo == Extent(cell, axis) - 1 && s.hi == 0 &&
                  forall qx, qy :: Before(cell, py, px, qx, qy) ==> !Opaque(img, cell, qx, qy)) &&
    (s.found ==> Before(cell, py, px, s.loWitness.0, s.loWitness.1) && Opaque(img, cell, s.loWitness.0, s.loWitness.1) && Coord(axis, s.loWitness.0, s.loWitness.1) == s.lo &&
                 Before(cell, py, px, s.hiWitness.0, s.hiWitness.1) && Opaque(img, cell, s.hiWitness.0, s.hiWitness.1) && Coord(axis, s.hiWitness.0, s.hiWitness.1) == s.hi - 1) &&
    (forall qx, qy :: Before(cell, py, px, qx, qy) && Opaque(img, cell, qx, qy) ==> s.lo <= Coord(axis, qx, qy) < s.hi)
  }

  lemma ScanVisit(img: Image, cell: PixelRect, axis: Axis, py: int, px: int, s: ScanState)
    requires img.WellFormed() && Inside(img, cell) && InCell(cell, px, py)
    requires ScanProgress(img, cell, axis, py, px, s)
    ensures ScanProgress(img, cell, axis, py, px + 1, VisitPixel(img, cell, axis, s, px, py))
  {
    assert Before(cell, py, px + 1, px, py);
    assert forall qx, qy :: Before(cell, py, px + 1, qx, qy) ==> Before(cell, py, px, qx, qy) || (qx == px && qy == py);
    assert forall qx, qy :: Before(cell, py, px, qx, qy) ==> Before(cell, py, px + 1, qx, qy);
  }

  lemma ScanNextRow(img: Image, cell: PixelRect, axis: Axis, py: int, s: ScanState)
    requires img.WellFormed() && Inside(img, cell)
    requires ScanProgress(img, cell, axis, py, cell.size.x, s)
    ensures ScanProgress(img, cell, axis, py + 1, 0, s)
  {
    assert forall qx, qy :: Before(cell, py, cell.size.x, qx, qy) <==> Before(cell, py + 1, 0, qx, qy);
  }

  lemma {:induction false} ScanPrefixProgress(img: Image, cell: PixelRect, axis: Axis, py: nat, px: nat)
    requires img.WellFormed() && Inside(img, cell) && 0 < Extent(cell, axis)
    requires (py < cell.size.y && px <= cell.size.x) || (py <= cell.size.y && px == 0)
    ensures ScanProgress(img, cell, axis, py, px, ScanPrefix(img, cell, axis, py, px))
    decreases py, px
  {
    if px > 0 {
      var before := ScanPrefix(img, cell, axis, py, px - 1);
      ScanPrefixProgress(img, cell, axis, py, px - 1);
      ScanVisit(img, cell, axis, py, px - 1, before);
      assert ScanPrefix(img, cell, axis, py, px) == VisitPixel(img, cell, axis, before, px - 1, py);
    } else if py > 0 {
      var before := ScanPrefix(img, cell, axis, py - 1, cell.size.x);
      ScanPrefixProgress(img, cell, axis, py - 1, cell.size.x);
      ScanNextRow(img, cell, axis, py - 1, before);
      assert ScanPrefix(img, cell, axis, py, px) == before;
    }
  }

  lemma ScanDone(img: Image, cell: PixelRect, axis: Axis, s: ScanState)
    requires img.WellFormed() && Inside(img, cell)
    requires ScanProgress(img, cell, axis, cell.size.y, 0, s)
    ensures AxisBounds(img, cell, axis, s.lo, s.hi)
  {
    assert forall qx, qy :: Before(cell, cell.size.y, 0, qx, qy) <==> InCell(cell, qx, qy);
    if s.found {
      assert AnyOpaque(img, cell) by {
        assert InCell(cell, s.loWitness.0, s.loWitness.1) && Opaque(img, cell, s.loWitness.0, s.loWitness.1);
      }
    }
  }

  /** One pass over the crop's pixels in row-major order, as `pixels()` yields
      them, keeping the running minimum of the coordinate along `axis` and the
      running maximum of that coordinate plus one over the opaque pixels. */
  method ScanAxis(img: Image, cell: PixelRect, axis: Axis) returns (lo: u32, hi: u32)
    requires img.WellFormed() && Inside(img, cell) && 0 < Extent(cell, axis)
    ensures AxisBounds(img, cell, axis, lo, hi)
  {
    var w, h := cell.size.x, cell.size.y;
    lo, hi := Extent(cell, axis) - 1, 0;
    var py := 0;
    while py < h
      invariant py <= h
      invariant lo == ScanPrefix(img, cell, axis, py, 0).lo && hi == ScanPrefix(img, cell, axis, py, 0).hi
    {
      var px := 0;
      while px < w
        invariant px <= w
        invariant lo == ScanPrefix(img, cell, axis, py, px).lo && hi == ScanPrefix(img, cell, axis, py, px).hi
      {
        if Opaque(img, cell, px, py) {
          var c := Coord(axis, px, py);
          lo := Min(lo, c);
          hi := Max(hi, c + 1);
        }
        px := px + 1;
      }
      py := py + 1;
    }
    ScanPrefixProgress(img, cell, axis, h, 0);
    ScanDone(img, cell, axis, ScanPrefix(img, cell, axis, h, 0));
  }

  /** The bounds a scan may report are determined by the image: the
      characterisation has one solution. */
  lemma AxisBoundsUnique(img: Image, cell: PixelRect, axis: Axis, lo: int, hi: int, lo': int, hi': int)
    requires img.WellFormed() && Inside(img, cell)
    requires AxisBounds(img, cell, axis, lo, hi) && AxisBounds(img, cell, axis, lo', hi')
    ensures lo == lo' && hi == hi'
  {
    if AnyOpaque(img, cell) {
      var x1, y1 :| InCell(cell, x1, y1) && Opaque(img, cell, x1, y1) && Coord(axis, x1, y1) == lo;
      var x2, y2 :| InCell(cell, x2, y2) && Opaque(img, cell, x2, y2) && Coord(axis, x2, y2) == lo';
      var x3, y3 :| InCell(cell, x3, y3) && Opaque(img, cell, x3, y3) && Coord(axis, x3, y3) == hi - 1;
      var x4, y4 :| InCell(cell, x4, y4) && Opaque(img, cell, x4, y4) && Coord(axis, x4, y4) == hi' - 1;
    }
  }

  /** The bounds enclose a pixel (`lo < hi`) exactly when the cell has an
      opaque pixel; an all-transparent cell gives the degenerate box. */
  lemma AxisBoundsNonEmptyIff(img: Image, cell: PixelRect, axis: Axis, lo: int, hi: int)
    requires img.WellFormed() && Inside(img, cell) && 0 < Extent(cell, axis)
    requires AxisBounds(img, cell, axis, lo, hi)
    ensures lo < hi <==> AnyOpaque(img, cell)
  {
    if AnyOpaque(img, cell) {
      var px, py :| InCell(cell, px, py) && Opaque(img, cell, px, py);
      assert lo <= Coord(axis, px, py) < hi;
    }
  }

  /** A cell whose only opaque pixel is (px, py) has the one-pixel hurtbox
      from (px, py) to (px + 1, py + 1). */
  lemma SinglePixelBox(img: Image, cell: PixelRect, px: int, py: int, b: PixelBox)
    requires img.WellFormed() && Inside(img, cell) && InCell(cell, px, py) && Opaque(img, cell, px, py)
    requires forall qx, qy :: InCell(cell, qx, qy) && Opaque(img, cell, qx, qy) ==> qx == px && qy == py
    requires TightBox(img, cell, b)
    ensures b == PixelBox(UVec2(px, py), UVec2(px + 1, py + 1))
  {
    assert AnyOpaque(img, cell);
    assert b.min.x <= px < b.max.x && b.min.y <= py < b.max.y;
  }
}
