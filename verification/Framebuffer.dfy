/** Drawing into a back buffer with dirty rectangles (shared/ui/draw/draw.c) and the
    VideoCore driver's partial copy to the front buffer (`flush`). */
module Framebuffer {
  import opened Division
  import opened Options
  import opened MachineTypes
  import L = Line
  import M = MemFunctions

  // --- Rectangles ---

  datatype Rect = Rect(x: U32, y: U32, w: U32, h: U32)

  predicate Inside(r: Rect, px: int, py: int) {
    r.x <= px < r.x + r.w && r.y <= py < r.y + r.h
  }

  /** (px, py) is a corner point of the closed rectangle or within it. */
  predicate Touches(r: Rect, px: int, py: int) {
    r.x <= px <= r.x + r.w && r.y <= py <= r.y + r.h
  }

  predicate Covered(rects: seq<Rect>, px: int, py: int) {
    exists i :: 0 <= i < |rects| && Inside(rects[i], px, py)
  }

  /** The rectangle lies within a `w` by `h` screen. */
  predicate Within(r: Rect, w: U32, h: U32) {
    r.x + r.w <= w && r.y + r.h <= h
  }

  /** `try_merge`: `*a` after a merge with `*b`, or None for "did not merge". */
  function TryMerge(a: Rect, b: Rect): Option<Rect>
    requires a.x + a.w < 0x1_0000_0000 && a.y + a.h < 0x1_0000_0000
    requires b.x + b.w < 0x1_0000_0000 && b.y + b.h < 0x1_0000_0000
  {
    var ax2, ay2 := Add32(a.x, a.w), Add32(a.y, a.h);
    var bx2, by2 := Add32(b.x, b.w), Add32(b.y, b.h);
    if a.x > bx2 || b.x > ax2 || a.y > by2 || b.y > ay2 then None
    else
      var minX, minY := L.Min(a.x, b.x), L.Min(a.y, b.y);
      Some(Rect(minX, minY, L.Max(ax2, bx2) - minX, L.Max(ay2, by2) - minY))
  }

  /** A merge yields the smallest rectangle around both ... */
  lemma MergeIsBoundingBox(a: Rect, b: Rect, r: Rect)
    requires a.x + a.w < 0x1_0000_0000 && a.y + a.h < 0x1_0000_0000
    requires b.x + b.w < 0x1_0000_0000 && b.y + b.h < 0x1_0000_0000
    requires TryMerge(a, b) == Some(r)
    ensures r.x == L.Min(a.x, b.x) && r.x + r.w == L.Max(a.x + a.w, b.x + b.w)
    ensures r.y == L.Min(a.y, b.y) && r.y + r.h == L.Max(a.y + a.h, b.y + b.h)
    ensures forall px, py {:trigger Inside(r, px, py)} :: Inside(a, px, py) || Inside(b, px, py) ==> Inside(r, px, py)
  {
    MergeBounds(a, b, r);
    hide TryMerge;
  }

  lemma MergeBounds(a: Rect, b: Rect, r: Rect)
    requires a.x + a.w < 0x1_0000_0000 && a.y + a.h < 0x1_0000_0000
    requires b.x + b.w < 0x1_0000_0000 && b.y + b.h < 0x1_0000_0000
    requires TryMerge(a, b) == Some(r)
    ensures r.x == L.Min(a.x, b.x) && r.x + r.w == L.Max(a.x + a.w, b.x + b.w)
    ensures r.y == L.Min(a.y, b.y) && r.y + r.h == L.Max(a.y + a.h, b.y + b.h)
  {
    hide L.Max, L.Min;
    assert Add32(a.x, a.w) == a.x + a.w && Add32(a.y, a.h) == a.y + a.h;
    assert Add32(b.x, b.w) == b.x + b.w && Add32(b.y, b.h) == b.y + b.h;
  }

  /** ... and happens exactly for rectangles that overlap or touch. */
  lemma MergeExactly(a: Rect, b: Rect)
    requires a.x + a.w < 0x1_0000_0000 && a.y + a.h < 0x1_0000_0000
    requires b.x + b.w < 0x1_0000_0000 && b.y + b.h < 0x1_0000_0000
    ensures TryMerge(a, b).Some? <==>
            exists px, py :: Touches(a, px, py) && Touches(b, px, py)
  {
    MergedWhen(a, b);
    hide TryMerge;
    if TryMerge(a, b).Some? {
      var px, py := L.Max(a.x, b.x), L.Max(a.y, b.y);
      assert Touches(a, px, py) && Touches(b, px, py);
    }
  }

  lemma MergedWhen(a: Rect, b: Rect)
    requires a.x + a.w < 0x1_0000_0000 && a.y + a.h < 0x1_0000_0000
    requires b.x + b.w < 0x1_0000_0000 && b.y + b.h < 0x1_0000_0000
    ensures TryMerge(a, b).Some? <==>
            a.x <= b.x + b.w && b.x <= a.x + a.w && a.y <= b.y + b.h && b.y <= a.y + a.h
  {
    hide L.Max, L.Min;
    assert Add32(a.x, a.w) == a.x + a.w && Add32(a.y, a.h) == a.y + a.h;
    assert Add32(b.x, b.w) == b.x + b.w && Add32(b.y, b.h) == b.y + b.h;
  }

  lemma MergeCovers(rects: seq<Rect>, i: nat, b: Rect, r: Rect)
    requires i < |rects|
    requires forall px, py {:trigger Inside(r, px, py)} :: Inside(rects[i], px, py) || Inside(b, px, py) ==> Inside(r, px, py)
    ensures forall px, py {:trigger Covered(rects[i := r], px, py)} ::
              Covered(rects, px, py) || Inside(b, px, py) ==> Covered(rects[i := r], px, py)
  {
    forall px, py {:trigger Covered(rects[i := r], px, py)} | Covered(rects, px, py) || Inside(b, px, py)
      ensures Covered(rects[i := r], px, py)
    {
      var rects' := rects[i := r];
      if Covered(rects, px, py) {
        var k :| 0 <= k < |rects| && Inside(rects[k], px, py);
        assert Inside(rects'[k], px, py);
      } else {
        assert Inside(rects'[i], px, py);
      }
    }
  }

  lemma AppendCovers(rects: seq<Rect>, b: Rect)
    ensures forall px, py {:trigger Covered(rects + [b], px, py)} ::
              Covered(rects, px, py) || Inside(b, px, py) ==> Covered(rects + [b], px, py)
  {
    forall px, py {:trigger Covered(rects + [b], px, py)} | Covered(rects, px, py) || Inside(b, px, py)
      ensures Covered(rects + [b], px, py)
    {
      var rects' := rects + [b];
      if Covered(rects, px, py) {
        var k :| 0 <= k < |rects| && Inside(rects[k], px, py);
        assert Inside(rects'[k], px, py);
      } else {
        assert Inside(rects'[|rects|], px, py);
      }
    }
  }

  lemma CoveredNext(rects: seq<Rect>, i: nat)
    requires i < |rects|
    ensures forall px, py {:trigger Covered(rects[..i + 1], px, py)} ::
              Covered(rects[..i + 1], px, py) <==> Covered(rects[..i], px, py) || Inside(rects[i], px, py)
  {
    forall px, py
      ensures Covered(rects[..i + 1], px, py) <==> Covered(rects[..i], px, py) || Inside(rects[i], px, py)
    {
      hide Inside;
      assert rects[..i + 1][i] == rects[i];
      assert forall k :: 0 <= k < i ==> rects[..i + 1][k] == rects[..i][k] == rects[k];
    }
  }

  ghost predicate OnScreen(rects: seq<Rect>, w: U32, h: U32) {
    forall i :: 0 <= i < |rects| ==> Within(rects[i], w, h)
  }

  /** The first rectangle from index `i` on that merges with `r`, or |rects|. */
  ghost function FirstMerge(rects: seq<Rect>, r: Rect, w: U32, h: U32, i: nat): (k: nat)
    requires OnScreen(rects, w, h) && Within(r, w, h) && i <= |rects|
    ensures i <= k <= |rects| && (k < |rects| ==> TryMerge(rects[k], r).Some?)
    decreases |rects| - i
  {
    if i == |rects| || TryMerge(rects[i], r).Some? then i else FirstMerge(rects, r, w, h, i + 1)
  }

  /** The dirty list after adding `r`; None is the overflow to a full redraw. */
  ghost function AddRect(rects: seq<Rect>, r: Rect, w: U32, h: U32): Option<seq<Rect>>
    requires OnScreen(rects, w, h) && Within(r, w, h)
  {
    var k := FirstMerge(rects, r, w, h, 0);
    if k < |rects| then Some(rects[k := TryMerge(rects[k], r).value])
    else if |rects| < 64 then Some(rects + [r])
    else None
  }

  lemma AddRectCovers(rects: seq<Rect>, r: Rect, w: U32, h: U32)
    requires OnScreen(rects, w, h) && Within(r, w, h)
    ensures match AddRect(rects, r, w, h)
            case None => |rects| >= 64
            case Some(rects') =>
              && OnScreen(rects', w, h) && (|rects| <= 64 ==> |rects'| <= 64)
              && forall px, py {:trigger Covered(rects', px, py)} ::
                   Covered(rects, px, py) || Inside(r, px, py) ==> Covered(rects', px, py)
  {
    var k := FirstMerge(rects, r, w, h, 0);
    if k < |rects| {
      MergeIsBoundingBox(rects[k], r, TryMerge(rects[k], r).value);
      MergeCovers(rects, k, r, TryMerge(rects[k], r).value);
    } else {
      AppendCovers(rects, r);
    }
  }

  /** Extent `w` at `x` as `mark_dirty` clips it to a screen extent `limit`; 0 when
      nothing is left. */
  function Clip(x: U32, w: U32, limit: U32): U32 {
    if x >= limit then 0 else if Add32(x, w) > limit then limit - x else w
  }

  /** The extent ends below 2^32, or at 2^32 and starts off the screen. */
  predicate Fits(x: U32, w: U32, limit: U32) {
    x + w < 0x1_0000_0000 || (x + w == 0x1_0000_0000 && x >= limit)
  }

  lemma AddInExtent(x: U32, d: U32, w: U32, limit: U32)
    requires Fits(x, w, limit) && d < w
    ensures Add32(x, d) == x + d
  {
  }

  lemma ClippedAway(x: U32, w: U32, limit: U32)
    ensures x >= limit ==> Clip(x, w, limit) == 0
  {
  }

  lemma ClipOf(x: U32, w: U32, limit: U32)
    requires Fits(x, w, limit) && x < limit
    ensures Add32(x, w) == x + w && x + Clip(x, w, limit) <= limit
    ensures Clip(x, w, limit) == if x + w > limit then limit - x else w
  {
  }

  /** A loop drawing `w` columns from `x` in 32-bit arithmetic touches only columns
      that get marked, and the mark stays on the screen, exactly when the extent fits. */
  lemma ClipExact(x: U32, w: U32, limit: U32)
    requires limit > 0
    ensures (forall d: U32 {:trigger Add32(x, d)} :: d < w && Add32(x, d) < limit ==>
               x <= Add32(x, d) < x + Clip(x, w, limit))
            && (x < limit ==> x + Clip(x, w, limit) <= limit)
       <==> Fits(x, w, limit)
  {
    if x + w > 0x1_0000_0000 {
      var d: U32 := 0x1_0000_0000 - x;
      assert Add32(x, d) == 0;
    }
  }

  /** `mark_dirty` on the dirty list and the full-redraw flag. */
  ghost function Marked(rects: seq<Rect>, full: bool, x: U32, y: U32, w: U32, h: U32, width: U32, height: U32): (seq<Rect>, bool)
    requires OnScreen(rects, width, height) && Fits(x, w, width) && Fits(y, h, height)
  {
    var cw, ch := Clip(x, w, width), Clip(y, h, height);
    if full || cw == 0 || ch == 0 then (rects, full)
    else
      match AddRect(rects, Rect(x, y, cw, ch), width, height)
      case None => (rects, true)
      case Some(rects') => (rects', false)
  }

  /** Marking loses no dirty pixel and covers what it was asked to, clipped. */
  lemma MarkedCovers(rects: seq<Rect>, full: bool, x: U32, y: U32, w: U32, h: U32, width: U32, height: U32)
    requires OnScreen(rects, width, height) && Fits(x, w, width) && Fits(y, h, height)
    ensures var (rects', full') := Marked(rects, full, x, y, w, h, width, height);
            && OnScreen(rects', width, height) && (full ==> full') && (|rects| <= 64 ==> |rects'| <= 64)
            && forall px, py {:trigger Covered(rects', px, py)} ::
                 Covered(rects, px, py) || (0 <= px < width && 0 <= py < height && Inside(Rect(x, y, w, h), px, py)) ==>
                   full' || Covered(rects', px, py)
  {
    var cw, ch := Clip(x, w, width), Clip(y, h, height);
    if !full && cw != 0 && ch != 0 {
      AddRectCovers(rects, Rect(x, y, cw, ch), width, height);
    }
  }

  // --- Pixels ---

  /** `y * (stride / 4) + x`, for a stride of four bytes per pixel of `width`. */
  function At(width: nat, px: nat, py: nat): nat {
    py * width + px
  }

  lemma AtInRange(width: nat, height: nat, px: nat, py: nat)
    requires px < width && py < height
    ensures At(width, px, py) < width * height
  {
    assert py * width + width == (py + 1) * width <= height * width;
  }

  lemma AtDistinct(width: nat, px: nat, py: nat, qx: nat, qy: nat)
    requires px < width && qx < width && At(width, px, py) == At(width, qx, qy)
    ensures px == qx && py == qy
  {
    L.MultiplesApart(py, qy, width);
  }

  /** The pixels of `n` consecutive words within row `y`. */
  lemma RowRange(width: nat, px: nat, py: nat, x: nat, y: nat, n: nat)
    requires px < width && x + n <= width
    ensures At(width, x, y) <= At(width, px, py) < At(width, x, y) + n <==> py == y && x <= px < x + n
  {
    if py < y {
      L.AtLeastOnce(y, py, width);
    } else if py > y {
      L.AtLeastOnce(py, y, width);
    }
  }

  lemma RowEnd(width: nat, height: nat, x: nat, y: nat, n: nat)
    requires x + n <= width && y < height
    ensures At(width, x, y) + n <= width * height
  {
    L.AtLeastOnce(height, y, width);
  }

  lemma LastPixelBeyond(width: nat, height: nat, pitch: nat)
    requires 0 < width < pitch && 1 < height
    ensures (height - 1) * pitch + width - 1 >= width * height
  {
    var extra := pitch - width - 1;
    assert (height - 1) * pitch == (height - 1) * (width + 1) + (height - 1) * extra;
    assert (height - 1) * extra >= 0;
    assert (height - 1) * (width + 1) == height * width - width + height - 1;
  }

  /** A whole-screen copy of `width * height` pixels reaches every pixel exactly when
      rows are stored back to back. */
  lemma FullCopyReaches(width: nat, height: nat, pitch: nat)
    requires 0 < width <= pitch && 0 < height
    ensures (forall px: nat, py: nat {:trigger At(pitch, px, py)} :: px < width && py < height ==>
               At(pitch, px, py) < width * height)
       <==> pitch == width || height == 1
  {
    if pitch == width || height == 1 {
      forall px: nat, py: nat {:trigger At(pitch, px, py)} | px < width && py < height
        ensures At(pitch, px, py) < width * height
      {
        if pitch == width {
          AtInRange(width, height, px, py);
        }
      }
    } else {
      LastPixelBeyond(width, height, pitch);
      assert At(pitch, width - 1, height - 1) >= width * height;
    }
  }

  // --- Characters ---

  /** `bits & (1 << (7 - col))`. */
  predicate Bit(bits: bv8, col: nat) {
    col < 8 && (bits >> (7 - col)) & 1 == 1
  }

  /** The byte of a row, as a number, has the dot in column `col`: the leftmost weighs 128,
      the rightmost 1. */
  predicate Dot(row: int, col: nat) {
    Digit(row, col) == 1
  }

  function Digit(row: int, col: nat): int {
    if col < 8 then Above(row, col) % 2 else 0
  }

  /** The number that the first `col + 1` dots spell. */
  function Above(row: int, col: nat): int
    requires col < 8
  {
    match col
    case 0 => row / 128
    case 1 => row / 64
    case 2 => row / 32
    case 3 => row / 16
    case 4 => row / 8
    case 5 => row / 4
    case 6 => row / 2
    case 7 => row
  }

  /** The bits that the code tests add up to the byte. */
  lemma BitsWeigh(bits: bv8)
    ensures bits as int == Weighed(bits)
  {
  }

  function Weighed(bits: bv8): int {
    128 * One(Bit(bits, 0)) + 64 * One(Bit(bits, 1)) + 32 * One(Bit(bits, 2)) + 16 * One(Bit(bits, 3))
    + 8 * One(Bit(bits, 4)) + 4 * One(Bit(bits, 5)) + 2 * One(Bit(bits, 6)) + One(Bit(bits, 7))
  }

  function One(b: bool): (r: int)
    ensures 0 <= r <= 1
  {
    if b then 1 else 0
  }

  /** A binary digit of weight `w`, with the number above it and the rest below it. */
  lemma DigitAt(row: int, w: int, high: int, digit: int, low: int)
    requires 0 <= digit <= 1 && 0 <= low < w && row == (2 * high + digit) * w + low
    ensures row / w % 2 == digit
  {
    DivModIs(row, w, 2 * high + digit, low);
    DivModIs(2 * high + digit, 2, high, digit);
  }

  lemma DigitsOf(row: int, a: int, b: int, c: int, d: int, e: int, f: int, g: int, h: int)
    requires 0 <= a <= 1 && 0 <= b <= 1 && 0 <= c <= 1 && 0 <= d <= 1
    requires 0 <= e <= 1 && 0 <= f <= 1 && 0 <= g <= 1 && 0 <= h <= 1
    requires row == 128 * a + 64 * b + 32 * c + 16 * d + 8 * e + 4 * f + 2 * g + h
    ensures Digit(row, 0) == a && Digit(row, 1) == b && Digit(row, 2) == c && Digit(row, 3) == d
    ensures Digit(row, 4) == e && Digit(row, 5) == f && Digit(row, 6) == g && Digit(row, 7) == h
  {
    DigitAt(row, 128, 0, a, row - 128 * a);
    DigitAt(row, 64, a, b, row - 128 * a - 64 * b);
    DigitAt(row, 32, 2 * a + b, c, 16 * d + 8 * e + 4 * f + 2 * g + h);
    DigitAt(row, 16, 4 * a + 2 * b + c, d, 8 * e + 4 * f + 2 * g + h);
    DigitAt(row, 8, 8 * a + 4 * b + 2 * c + d, e, 4 * f + 2 * g + h);
    DigitAt(row, 4, 16 * a + 8 * b + 4 * c + 2 * d + e, f, 2 * g + h);
    DigitAt(row, 2, 32 * a + 16 * b + 8 * c + 4 * d + 2 * e + f, g, h);
    DivModIs(row, 2, 64 * a + 32 * b + 16 * c + 8 * d + 4 * e + 2 * f + g, h);
  }

  lemma WeighedDigits(bits: bv8)
    ensures Digit(Weighed(bits), 0) == One(Bit(bits, 0)) && Digit(Weighed(bits), 1) == One(Bit(bits, 1))
    ensures Digit(Weighed(bits), 2) == One(Bit(bits, 2)) && Digit(Weighed(bits), 3) == One(Bit(bits, 3))
    ensures Digit(Weighed(bits), 4) == One(Bit(bits, 4)) && Digit(Weighed(bits), 5) == One(Bit(bits, 5))
    ensures Digit(Weighed(bits), 6) == One(Bit(bits, 6)) && Digit(Weighed(bits), 7) == One(Bit(bits, 7))
  {
    hide Bit, Digit, One;
    DigitsOf(Weighed(bits), One(Bit(bits, 0)), One(Bit(bits, 1)), One(Bit(bits, 2)), One(Bit(bits, 3)),
             One(Bit(bits, 4)), One(Bit(bits, 5)), One(Bit(bits, 6)), One(Bit(bits, 7)));
  }

  lemma BeyondByte(bits: bv8, row: int, col: nat)
    ensures col >= 8 ==> !Bit(bits, col) && Digit(row, col) == 0
  {
  }

  /** The test by shift and mask finds the dots of the byte ... */
  lemma BitIsDot(bits: bv8, col: nat)
    ensures Bit(bits, col) <==> Dot(bits as int, col)
  {
    hide Bit, Digit, Weighed;
    BitsWeigh(bits);
    WeighedDigits(bits);
    BeyondByte(bits, bits as int, col);
    assert col == 0 || col == 1 || col == 2 || col == 3 || col == 4 || col == 5 || col == 6 || col == 7 || col >= 8;
  }

  lemma Halved(row: int, w: int)
    requires w > 0
    ensures row / w == 2 * (row / (2 * w)) + row / w % 2
  {
    var q, r := row / w, row % w;
    var h, bit := q / 2, q % 2;
    Distribute(h, bit, w);
    DivModIs(row, 2 * w, h, (if bit == 0 then 0 else w) + r);
  }

  lemma Distribute(h: int, bit: int, w: int)
    requires 0 <= bit <= 1
    ensures (2 * h + bit) * w == h * (2 * w) + (if bit == 0 then 0 else w)
  {
  }

  lemma AboveNext(row: int)
    ensures Above(row, 1) == 2 * Above(row, 0) + Digit(row, 1) && Above(row, 2) == 2 * Above(row, 1) + Digit(row, 2)
    ensures Above(row, 3) == 2 * Above(row, 2) + Digit(row, 3) && Above(row, 4) == 2 * Above(row, 3) + Digit(row, 4)
    ensures Above(row, 5) == 2 * Above(row, 4) + Digit(row, 5) && Above(row, 6) == 2 * Above(row, 5) + Digit(row, 6)
    ensures Above(row, 7) == 2 * Above(row, 6) + Digit(row, 7) && Above(row, 7) == row
  {
    Halved(row, 1);
    Halved(row, 2);
    Halved(row, 4);
    Halved(row, 8);
    Halved(row, 16);
    Halved(row, 32);
    Halved(row, 64);
  }

  lemma FirstDot(row: int)
    requires 0 <= row < 256
    ensures Above(row, 0) == Digit(row, 0) == if row >= 128 then 1 else 0
  {
    DivModIs(row, 128, if row < 128 then 0 else 1, if row < 128 then row else row - 128);
  }

  lemma OneDot(row: int, col: nat)
    ensures One(Dot(row, col)) == Digit(row, col)
  {
  }

  /** ... which add up to it: each byte is exactly the dots of its row, and the leftmost is
      there exactly from 128 on. */
  lemma DotsWeigh(row: int)
    requires 0 <= row < 256
    ensures row == 128 * One(Dot(row, 0)) + 64 * One(Dot(row, 1)) + 32 * One(Dot(row, 2)) + 16 * One(Dot(row, 3))
                 + 8 * One(Dot(row, 4)) + 4 * One(Dot(row, 5)) + 2 * One(Dot(row, 6)) + One(Dot(row, 7))
    ensures Dot(row, 0) <==> row >= 128
  {
    hide Digit, Above, One;
    AboveNext(row);
    FirstDot(row);
    OneDot(row, 0);
    OneDot(row, 1);
    OneDot(row, 2);
    OneDot(row, 3);
    OneDot(row, 4);
    OneDot(row, 5);
    OneDot(row, 6);
    OneDot(row, 7);
  }

  /** Character `c`, drawn at (x, y) with `scale` by `scale` dots, sets pixel (px, py). */
  predicate Glyph(font: (nat, nat) -> bv8, c: nat, x: nat, y: nat, scale: nat, px: int, py: int) {
    && scale > 0
    && x <= px < x + 8 * scale && y <= py < y + 8 * scale
    && Dot(font(c, (py - y) / scale) as int, (px - x) / scale)
  }

  /** The row or column of the font that pixel row or column `d` of a character shows. */
  function DotOf(d: nat, scale: nat): (dot: nat)
    requires scale > 0 && d < 8 * scale
    ensures dot < 8
  {
    L.DivBounds(d, scale);
    d / scale
  }

  lemma GlyphAt(font: (nat, nat) -> bv8, c: nat, x: nat, y: nat, scale: nat, row: nat, col: nat)
    requires row < 8 * scale && col < 8 * scale
    ensures Glyph(font, c, x, y, scale, x + col, y + row) <==> Bit(font(c, DotOf(row, scale)), DotOf(col, scale))
  {
    BitIsDot(font(c, DotOf(row, scale)), DotOf(col, scale));
    hide Bit, Dot;
  }

  lemma GlyphBox(font: (nat, nat) -> bv8, c: nat, x: nat, y: nat, scale: nat)
    ensures forall px, py {:trigger Glyph(font, c, x, y, scale, px, py)} :: Glyph(font, c, x, y, scale, px, py) ==>
              x <= px < x + 8 * scale && y <= py < y + 8 * scale
  {
  }

  lemma MulMono(a: nat, b: nat, c: nat)
    requires a <= b
    ensures a * c <= b * c
  {
    assert (b - a) * c >= 0;
  }

  const NEWLINE: nat := 10

  /** Line and column of the `k`th character of a string. */
  function LineOf(s: seq<nat>, k: nat): nat
    requires k <= |s|
  {
    if k == 0 then 0 else LineOf(s, k - 1) + if s[k - 1] == NEWLINE then 1 else 0
  }

  function ColumnOf(s: seq<nat>, k: nat): (c: nat)
    requires k <= |s|
    ensures c <= k
  {
    if k == 0 || s[k - 1] == NEWLINE then 0 else ColumnOf(s, k - 1) + 1
  }

  /** The extent of `n` cells. */
  function Cells(n: nat, unit: nat): nat { n * unit }

  /** Some character of the string, laid out from (x, y) in cells of 8 * scale by
      8 * scale + 2 pixels, sets pixel (px, py). */
  ghost predicate Text(font: (nat, nat) -> bv8, s: seq<nat>, n: nat, x: nat, y: nat, scale: nat, px: int, py: int)
    requires n <= |s|
  {
    exists k {:trigger LineOf(s, k)} :: 0 <= k < n && s[k] != NEWLINE &&
      Glyph(font, s[k], x + Cells(ColumnOf(s, k), 8 * scale), y + Cells(LineOf(s, k), 8 * scale + 2), scale, px, py)
  }

  lemma Grows(n: nat, unit: nat)
    ensures Cells(n + 1, unit) == Cells(n, unit) + unit && Cells(0, unit) == 0
  {
  }

  lemma {:induction false} LinesGrow(s: seq<nat>, i: nat, n: nat)
    requires i <= n <= |s|
    ensures LineOf(s, i) <= LineOf(s, n)
    decreases n
  {
    if i < n {
      LinesGrow(s, i, n - 1);
    }
  }

  /** The length of the longest of the lines that the first `n` characters make. */
  function Widest(s: seq<nat>, n: nat): (w: nat)
    requires n <= |s|
    ensures ColumnOf(s, n) <= w
  {
    L.Max(ColumnOf(s, n), if n == 0 then 0 else Widest(s, n - 1))
  }

  lemma {:induction false} WidestGrows(s: seq<nat>, i: nat, n: nat)
    requires i <= n <= |s|
    ensures ColumnOf(s, i) <= Widest(s, i) <= Widest(s, n)
    decreases n
  {
    if i < n {
      WidestGrows(s, i, n - 1);
    }
  }

  /** Neither the text nor the extent that is marked for it reaches 2^32: `ySize` counts
      the lines above the last one again, on top of `y0`, which has moved past them. */
  predicate TextFits(s: seq<nat>, x: nat, y: nat, charSize: nat, lineHeight: nat) {
    x + Cells(Widest(s, |s|), charSize) < 0x1_0000_0000 && y + Cells(2 * LineOf(s, |s|) + 1, lineHeight) < 0x1_0000_0000
  }

  lemma LineBounds(line: nat, n: nat, y: nat, lineHeight: nat)
    requires line <= n && y + Cells(2 * n + 1, lineHeight) < 0x1_0000_0000
    ensures y + Cells(line, lineHeight) + lineHeight + Cells(line, lineHeight) < 0x1_0000_0000
  {
    MulMono(2 * line + 1, 2 * n + 1, lineHeight);
    assert (2 * line + 1) * lineHeight == line * lineHeight + line * lineHeight + lineHeight;
  }

  lemma TextBounds(s: seq<nat>, i: nat, x: nat, y: nat, charSize: nat, lineHeight: nat)
    requires i <= |s| && TextFits(s, x, y, charSize, lineHeight)
    ensures Cells(ColumnOf(s, i), charSize) <= Cells(Widest(s, |s|), charSize) && x + Cells(Widest(s, |s|), charSize) < 0x1_0000_0000
    ensures i < |s| && s[i] != NEWLINE ==> x + Cells(ColumnOf(s, i), charSize) + charSize < 0x1_0000_0000
    ensures y + Cells(LineOf(s, i), lineHeight) + lineHeight + Cells(LineOf(s, i), lineHeight) < 0x1_0000_0000
    ensures Cells(ColumnOf(s, i) + 1, charSize) == Cells(ColumnOf(s, i), charSize) + charSize
    ensures Cells(LineOf(s, i) + 1, lineHeight) == Cells(LineOf(s, i), lineHeight) + lineHeight
    ensures Cells(0, charSize) == 0 && Cells(0, lineHeight) == 0
  {
    hide *;
    TextFitsSays(s, x, y, charSize, lineHeight);
    LinesGrow(s, i, |s|);
    WidestGrows(s, i, |s|);
    CellsMono(ColumnOf(s, i), Widest(s, |s|), charSize);
    LineBounds(LineOf(s, i), LineOf(s, |s|), y, lineHeight);
    Grows(ColumnOf(s, i), charSize);
    Grows(LineOf(s, i), lineHeight);
    if i < |s| && s[i] != NEWLINE {
      NextColumn(s, i, charSize);
    }
  }

  lemma NextColumn(s: seq<nat>, i: nat, charSize: nat)
    requires i < |s| && s[i] != NEWLINE
    ensures Cells(ColumnOf(s, i) + 1, charSize) <= Cells(Widest(s, |s|), charSize)
  {
    hide Cells, Widest;
    WidestGrows(s, i + 1, |s|);
    CellsMono(ColumnOf(s, i + 1), Widest(s, |s|), charSize);
  }

  lemma TextFitsSays(s: seq<nat>, x: nat, y: nat, charSize: nat, lineHeight: nat)
    requires TextFits(s, x, y, charSize, lineHeight)
    ensures x + Cells(Widest(s, |s|), charSize) < 0x1_0000_0000
    ensures y + Cells(2 * LineOf(s, |s|) + 1, lineHeight) < 0x1_0000_0000
  {
  }

  lemma CellsMono(a: nat, b: nat, unit: nat)
    requires a <= b
    ensures Cells(a, unit) <= Cells(b, unit)
  {
    MulMono(a, b, unit);
  }

  lemma TextStart(font: (nat, nat) -> bv8, s: seq<nat>, x: nat, y: nat, scale: nat)
    ensures LineOf(s, 0) == 0 && ColumnOf(s, 0) == 0
    ensures forall px, py {:trigger Text(font, s, 0, x, y, scale, px, py)} ::
              !Text(font, s, 0, x, y, scale, px, py)
  {
  }

  lemma ColumnLine(s: seq<nat>, i: nat)
    requires i < |s|
    ensures LineOf(s, i + 1) == LineOf(s, i) + (if s[i] == NEWLINE then 1 else 0)
    ensures ColumnOf(s, i + 1) == if s[i] == NEWLINE then 0 else ColumnOf(s, i) + 1
  {
  }

  lemma TextSkip(font: (nat, nat) -> bv8, s: seq<nat>, i: nat, x: nat, y: nat, scale: nat)
    requires i < |s| && s[i] == NEWLINE
    ensures forall px, py {:trigger Text(font, s, i + 1, x, y, scale, px, py)} ::
              Text(font, s, i + 1, x, y, scale, px, py) <==> Text(font, s, i, x, y, scale, px, py)
  {
    hide Glyph;
  }

  lemma TextPut(font: (nat, nat) -> bv8, s: seq<nat>, i: nat, x: nat, y: nat, scale: nat)
    requires i < |s| && s[i] != NEWLINE
    ensures forall px, py {:trigger Text(font, s, i + 1, x, y, scale, px, py)} ::
              Text(font, s, i + 1, x, y, scale, px, py) <==>
                || Text(font, s, i, x, y, scale, px, py)
                || Glyph(font, s[i], x + Cells(ColumnOf(s, i), 8 * scale), y + Cells(LineOf(s, i), 8 * scale + 2), scale, px, py)
  {
    hide Glyph;
    assert LineOf(s, i) >= 0;
  }

  /** The dirty list after the first `n` characters were drawn, each marked for itself. */
  ghost function MarkedText(rects: seq<Rect>, full: bool, s: seq<nat>, n: nat, x: U32, y: U32, scale: U32,
                            width: U32, height: U32): (r: (seq<Rect>, bool))
    requires OnScreen(rects, width, height) && n <= |s| && TextFits(s, x, y, 8 * scale, 8 * scale + 2)
    ensures OnScreen(r.0, width, height)
  {
    if n == 0 then (rects, full)
    else
      var (rects', full') := MarkedText(rects, full, s, n - 1, x, y, scale, width, height);
      if s[n - 1] == NEWLINE then (rects', full')
      else
        TextBounds(s, n - 1, x, y, 8 * scale, 8 * scale + 2);
        var cx, cy := x + Cells(ColumnOf(s, n - 1), 8 * scale), y + Cells(LineOf(s, n - 1), 8 * scale + 2);
        MarkedCovers(rects', full', cx, cy, 8 * scale, 8 * scale, width, height);
        Marked(rects', full', cx, cy, 8 * scale, 8 * scale, width, height)
  }

  lemma MarkedTextNone(rects: seq<Rect>, full: bool, s: seq<nat>, x: U32, y: U32, scale: U32, width: U32, height: U32)
    requires OnScreen(rects, width, height) && TextFits(s, x, y, 8 * scale, 8 * scale + 2)
    ensures MarkedText(rects, full, s, 0, x, y, scale, width, height) == (rects, full)
  {
    hide OnScreen, TextFits, Marked;
  }

  lemma CellFits(s: seq<nat>, i: nat, x: U32, y: U32, scale: U32, width: U32, height: U32)
    requires i < |s| && s[i] != NEWLINE && TextFits(s, x, y, 8 * scale, 8 * scale + 2)
    ensures var cx, cy := x + Cells(ColumnOf(s, i), 8 * scale), y + Cells(LineOf(s, i), 8 * scale + 2);
      && 0 <= cx < 0x1_0000_0000 && 0 <= cy < 0x1_0000_0000 && 8 * scale < 0x1_0000_0000
      && Fits(cx, 8 * scale, width) && Fits(cy, 8 * scale, height)
  {
    TextBounds(s, i, x, y, 8 * scale, 8 * scale + 2);
    CellsPositive(ColumnOf(s, i), 8 * scale);
    CellsPositive(LineOf(s, i), 8 * scale + 2);
    hide TextFits, Cells, ColumnOf, LineOf, Widest;
  }

  lemma CellsPositive(n: nat, unit: nat)
    ensures Cells(n, unit) >= 0
  {
  }

  lemma MarkedTextNext(rects: seq<Rect>, full: bool, s: seq<nat>, i: nat, x: U32, y: U32, scale: U32, width: U32, height: U32)
    requires OnScreen(rects, width, height) && i < |s| && TextFits(s, x, y, 8 * scale, 8 * scale + 2)
    ensures var (rects', full') := MarkedText(rects, full, s, i, x, y, scale, width, height);
      s[i] == NEWLINE ==> MarkedText(rects, full, s, i + 1, x, y, scale, width, height) == (rects', full')
    ensures var (rects', full') := MarkedText(rects, full, s, i, x, y, scale, width, height);
      var cx, cy := x + Cells(ColumnOf(s, i), 8 * scale), y + Cells(LineOf(s, i), 8 * scale + 2);
      s[i] != NEWLINE ==>
        && 0 <= cx < 0x1_0000_0000 && 0 <= cy < 0x1_0000_0000 && 8 * scale < 0x1_0000_0000
        && Fits(cx, 8 * scale, width) && Fits(cy, 8 * scale, height)
        && MarkedText(rects, full, s, i + 1, x, y, scale, width, height)
           == Marked(rects', full', cx, cy, 8 * scale, 8 * scale, width, height)
  {
    hide OnScreen, TextFits, Marked, Cells, ColumnOf, LineOf, Widest, Covered, Fits;
    if s[i] != NEWLINE {
      CellFits(s, i, x, y, scale, width, height);
    }
  }

  /** ... and after the whole string, whose extent is marked once more at the end: below
      its last line, as `y0` has moved, and counting all lines once more. */
  ghost function MarkedString(rects: seq<Rect>, full: bool, s: seq<nat>, x: U32, y: U32, scale: U32,
                              width: U32, height: U32): (r: (seq<Rect>, bool))
    requires OnScreen(rects, width, height) && TextFits(s, x, y, 8 * scale, 8 * scale + 2)
    ensures OnScreen(r.0, width, height)
  {
    var (rects', full') := MarkedText(rects, full, s, |s|, x, y, scale, width, height);
    TextBounds(s, |s|, x, y, 8 * scale, 8 * scale + 2);
    var lines := Cells(LineOf(s, |s|), 8 * scale + 2);
    var w, h := Cells(Widest(s, |s|), 8 * scale), lines + 8 * scale + 2;
    MarkedCovers(rects', full', x, y + lines, w, h, width, height);
    Marked(rects', full', x, y + lines, w, h, width, height)
  }

  lemma WidestNext(s: seq<nat>, i: nat)
    requires i < |s|
    ensures Widest(s, 0) == 0 && Widest(s, i + 1) == L.Max(ColumnOf(s, i + 1), Widest(s, i))
  {
  }

  lemma CellsMax(a: nat, b: nat, unit: nat)
    ensures L.Max(Cells(a, unit), Cells(b, unit)) == Cells(L.Max(a, b), unit)
  {
    if a < b {
      CellsMono(a, b, unit);
    } else {
      CellsMono(b, a, unit);
    }
    hide Cells;
  }

  /** The widest row so far grows with the current one. */
  lemma WidestRow(s: seq<nat>, i: nat, xSize: nat, charSize: nat)
    requires i < |s| && s[i] != NEWLINE
    requires L.Max(xSize, Cells(ColumnOf(s, i), charSize)) == Cells(Widest(s, i), charSize)
    ensures L.Max(xSize, Cells(ColumnOf(s, i + 1), charSize)) == Cells(Widest(s, i + 1), charSize)
  {
    hide Widest, Cells;
    ColumnLine(s, i);
    hide ColumnOf;
    WidestNext(s, i);
    CellsMono(ColumnOf(s, i), ColumnOf(s, i + 1), charSize);
    CellsMax(ColumnOf(s, i + 1), Widest(s, i), charSize);
  }

  // --- Lines ---

  /** One of the first `n` points plotted from `a` to `b`. */
  ghost predicate OnLine(a: L.Point, b: L.Point, n: nat, px: int, py: int)
    requires n <= L.Max(L.Abs(b.x - a.x), L.Abs(b.y - a.y)) + 1
  {
    exists k {:trigger L.PointAt(a, b, k)} :: 0 <= k < n && L.PointAt(a, b, k) == L.Point(px, py)
  }

  /** The line from (x0, y0) to (x1, y1) has the point (px, py). */
  ghost predicate LineHas(x0: U32, y0: U32, x1: U32, y1: U32, px: int, py: int) {
    OnLine(L.Point(x0, y0), L.Point(x1, y1), L.Max(L.Abs(x1 - x0), L.Abs(y1 - y0)) + 1, px, py)
  }

  type I32 = x: int | -0x8000_0000 <= x < 0x8000_0000

  /** Signed overflow as the processor does it. */
  function ToInt32(v: int): I32 {
    (v + 0x8000_0000) % 0x1_0000_0000 - 0x8000_0000
  }

  lemma LineStart(a: L.Point, b: L.Point)
    ensures var dx, dy := L.Abs(b.x - a.x), L.Abs(b.y - a.y);
            L.PointAt(a, b, 0) == a && ErrorAt(a, b, 0) == if dx > dy then dx / 2 else -(dy / 2)
    ensures forall px, py {:trigger OnLine(a, b, 0, px, py)} :: !OnLine(a, b, 0, px, py)
  {
    var dx, dy := L.Abs(b.x - a.x), L.Abs(b.y - a.y);
    hide L.Minor;
    if dx > dy {
      L.MinorEnds(dx, dy);
    } else if dy > 0 {
      L.MinorEnds(dy, dx);
    }
  }

  lemma WholeLine(x0: U32, y0: U32, x1: U32, y1: U32)
    ensures forall px, py {:trigger LineHas(x0, y0, x1, y1, px, py)} ::
              LineHas(x0, y0, x1, y1, px, py) <==>
              OnLine(L.Point(x0, y0), L.Point(x1, y1), L.Max(L.Abs(x1 - x0), L.Abs(y1 - y0)) + 1, px, py)
  {
    hide OnLine;
  }

  lemma OnLineNext(a: L.Point, b: L.Point, k: nat)
    requires k <= L.Max(L.Abs(b.x - a.x), L.Abs(b.y - a.y))
    ensures forall px, py {:trigger OnLine(a, b, k + 1, px, py)} ::
              OnLine(a, b, k + 1, px, py) <==> OnLine(a, b, k, px, py) || L.PointAt(a, b, k) == L.Point(px, py)
  {
    hide L.PointAt;
  }

  /** The new error term, each update wrapping on its own. */
  function LoopError(e2: I32, dx: I32, dy: I32): I32
    requires 0 <= dx && 0 <= dy
  {
    var e := if e2 > -dx then ToInt32(e2 - dy) else e2;
    if e2 < dy then ToInt32(e + dx) else e
  }

  lemma LoopErrorExact(e2: I32, dx: I32, dy: I32)
    requires 0 <= dx && 0 <= dy
    requires var e := e2 - (if e2 > -dx then dy else 0) + (if e2 < dy then dx else 0); -0x8000_0000 <= e < 0x8000_0000
    ensures LoopError(e2, dx, dy) == e2 - (if e2 > -dx then dy else 0) + (if e2 < dy then dx else 0)
  {
  }

  function ErrorAt(a: L.Point, b: L.Point, k: nat): int {
    var dx, dy := L.Abs(b.x - a.x), L.Abs(b.y - a.y);
    if dx > dy then L.Error(k, dx, dy) else if dy > 0 then -L.Error(k, dy, dx) else 0
  }

  /** One turn of the loop moves from one point of the line to the next, carries the
      error term along, and stops at the last point, not before. */
  lemma LineStep(a: L.Point, b: L.Point, k: nat)
    requires L.Abs(b.x - a.x) < 0x8000_0000 && L.Abs(b.y - a.y) < 0x8000_0000
    requires k <= L.Max(L.Abs(b.x - a.x), L.Abs(b.y - a.y))
    ensures -0x8000_0000 < ErrorAt(a, b, k) < 0x8000_0000
    ensures L.PointAt(a, b, k) == b <==> k == L.Max(L.Abs(b.x - a.x), L.Abs(b.y - a.y))
    ensures k < L.Max(L.Abs(b.x - a.x), L.Abs(b.y - a.y)) ==>
              var dx, dy, p, e2 := L.Abs(b.x - a.x), L.Abs(b.y - a.y), L.PointAt(a, b, k), ErrorAt(a, b, k);
              && L.PointAt(a, b, k + 1) == L.Point(p.x + (if e2 > 0 - dx then L.Sign(a.x, b.x) else 0),
                                                   p.y + (if e2 < dy then L.Sign(a.y, b.y) else 0))
              && ErrorAt(a, b, k + 1) == LoopError(e2, dx, dy)
              && (dx + dy <= 0x8000_0000 && e2 > 0 - dx ==> e2 - dy > -0x8000_0000)
  {
    hide L.PointAt, ErrorAt, LoopError;
    var dx, dy := L.Abs(b.x - a.x), L.Abs(b.y - a.y);
    LastPoint(a, b, k);
    ErrorStep(a, b, k);
    if k < L.Max(dx, dy) {
      PointStep(a, b, k);
      LoopErrorExact(ErrorAt(a, b, k), dx, dy);
    }
  }

  lemma LastPoint(a: L.Point, b: L.Point, k: nat)
    requires k <= L.Max(L.Abs(b.x - a.x), L.Abs(b.y - a.y))
    ensures L.PointAt(a, b, k) == b <==> k == L.Max(L.Abs(b.x - a.x), L.Abs(b.y - a.y))
  {
    hide L.Minor;
    L.PlotEnds(a, b);
  }

  lemma PointStep(a: L.Point, b: L.Point, k: nat)
    requires k < L.Max(L.Abs(b.x - a.x), L.Abs(b.y - a.y))
    ensures var p, e2 := L.PointAt(a, b, k), ErrorAt(a, b, k);
            L.PointAt(a, b, k + 1) == L.Point(p.x + (if e2 > 0 - L.Abs(b.x - a.x) then L.Sign(a.x, b.x) else 0),
                                              p.y + (if e2 < L.Abs(b.y - a.y) then L.Sign(a.y, b.y) else 0))
  {
    hide L.Minor, L.Error;
    var dx, dy := L.Abs(b.x - a.x), L.Abs(b.y - a.y);
    if dx > dy {
      L.ErrorRange(k, dx, dy);
      L.MinorStep(k, dx, dy);
      L.MinorEnds(dx, dy);
    } else {
      L.ErrorRange(k, dy, dx);
      L.MinorStep(k, dy, dx);
      L.MinorEnds(dy, dx);
    }
  }

  lemma ErrorStep(a: L.Point, b: L.Point, k: nat)
    requires L.Abs(b.x - a.x) < 0x8000_0000 && L.Abs(b.y - a.y) < 0x8000_0000
    requires k <= L.Max(L.Abs(b.x - a.x), L.Abs(b.y - a.y))
    ensures -0x8000_0000 < ErrorAt(a, b, k) < 0x8000_0000
    ensures k < L.Max(L.Abs(b.x - a.x), L.Abs(b.y - a.y)) ==>
              var dx, dy, e2 := L.Abs(b.x - a.x), L.Abs(b.y - a.y), ErrorAt(a, b, k);
              && ErrorAt(a, b, k + 1) == e2 - (if e2 > 0 - dx then dy else 0) + (if e2 < dy then dx else 0)
              && -0x8000_0000 <= ErrorAt(a, b, k + 1) < 0x8000_0000
              && (dx + dy <= 0x8000_0000 && e2 > 0 - dx ==> e2 - dy > -0x8000_0000)
  {
    hide L.Minor, L.Error;
    var dx, dy := L.Abs(b.x - a.x), L.Abs(b.y - a.y);
    if dx > dy {
      L.ErrorRange(k, dx, dy);
      L.ErrorRange(k + 1, dx, dy);
      L.MinorStep(k, dx, dy);
    } else if dy > 0 {
      L.ErrorRange(k, dy, dx);
      L.ErrorRange(k + 1, dy, dx);
      L.MinorStep(k, dy, dx);
    }
  }

  lemma MarkedAlone(x: U32, y: U32, width: U32, height: U32)
    requires Fits(x, 1, width) && Fits(y, 1, height)
    ensures Marked([], false, x, y, 1, 1, width, height)
         == (if x < width && y < height then [Rect(x, y, 1, 1)] else [], false)
    ensures forall px, py {:trigger Covered([Rect(x, y, 1, 1)], px, py)} ::
              Covered([Rect(x, y, 1, 1)], px, py) <==> px == x && py == y
  {
    forall px, py
      ensures Covered([Rect(x, y, 1, 1)], px, py) <==> px == x && py == y
    {
      assert [Rect(x, y, 1, 1)][0] == Rect(x, y, 1, 1);
    }
    var none: seq<Rect> := [];
    assert none + [Rect(x, y, 1, 1)] == [Rect(x, y, 1, 1)];
  }

  // --- Commands ---

  datatype Command =
    | ClearTo(color: U32)
    | Pixel(x: U32, y: U32, color: U32)
    | Fill(x: U32, y: U32, w: U32, h: U32, color: U32)
    | Character(x: U32, y: U32, c: nat, scale: U32, color: U32)
    | Characters(s: seq<nat>, x: U32, y: U32, scale: U32, color: U32)
    | Straight(x0: U32, y0: U32, x1: U32, y1: U32, color: U32)
    | FlushAll

  /** No coordinate of the command wraps around. */
  predicate Drawable(command: Command, width: U32, height: U32) {
    match command
    case ClearTo(_) => true
    case Pixel(x, y, _) => Fits(x, 1, width) && Fits(y, 1, height)
    case Fill(x, y, w, h, _) => Fits(x, w, width) && Fits(y, h, height)
    case Character(x, y, _, scale, _) =>
      8 * scale < 0x1_0000_0000 && Fits(x, 8 * scale, width) && Fits(y, 8 * scale, height)
    case Characters(s, x, y, scale, _) => TextFits(s, x, y, 8 * scale, 8 * scale + 2)
    case Straight(x0, y0, x1, y1, _) =>
      Fits(x1, 1, width) && Fits(y1, 1, height) && L.Abs(x1 - x0) < 0x8000_0000 && L.Abs(y1 - y0) < 0x8000_0000
    case FlushAll => true
  }

  /** What a command makes of a pixel that was `was`. */
  ghost function Painted(font: (nat, nat) -> bv8, width: U32, height: U32, command: Command, px: int, py: int, was: U32): U32
    requires 0 <= px < width && 0 <= py < height
  {
    match command
    case ClearTo(color) => M.MemsetWord(color, width * height, At(width, px, py))
    case Pixel(x, y, color) => if px == x && py == y then color else was
    case Fill(x, y, w, h, color) => if Inside(Rect(x, y, w, h), px, py) then color else was
    case Character(x, y, c, scale, color) => if Glyph(font, c, x, y, scale, px, py) then color else was
    case Characters(s, x, y, scale, color) => if Text(font, s, |s|, x, y, scale, px, py) then color else was
    case Straight(x0, y0, x1, y1, color) => if LineHas(x0, y0, x1, y1, px, py) then color else was
    case FlushAll => was
  }

  /** What it makes of the dirty list and the full-redraw flag. */
  ghost function Dirtied(command: Command, rects: seq<Rect>, full: bool, width: U32, height: U32): (r: (seq<Rect>, bool))
    requires OnScreen(rects, width, height) && Drawable(command, width, height)
    ensures OnScreen(r.0, width, height)
  {
    match command
    case ClearTo(_) => (rects, true)
    case Pixel(x, y, _) => MarkedOn(rects, full, x, y, 1, 1, width, height)
    case Fill(x, y, w, h, _) => MarkedOn(rects, full, x, y, w, h, width, height)
    case Character(x, y, _, scale, _) => MarkedOn(rects, full, x, y, 8 * scale, 8 * scale, width, height)
    case Characters(s, x, y, scale, _) => MarkedString(rects, full, s, x, y, scale, width, height)
    case Straight(_, _, x1, y1, _) => MarkedOn(rects, full, x1, y1, 1, 1, width, height)
    case FlushAll => ([], false)
  }

  ghost function MarkedOn(rects: seq<Rect>, full: bool, x: U32, y: U32, w: U32, h: U32, width: U32, height: U32): (r: (seq<Rect>, bool))
    requires OnScreen(rects, width, height) && Fits(x, w, width) && Fits(y, h, height)
    ensures OnScreen(r.0, width, height) && r == Marked(rects, full, x, y, w, h, width, height)
  {
    MarkedCovers(rects, full, x, y, w, h, width, height);
    Marked(rects, full, x, y, w, h, width, height)
  }

  ghost predicate AllDrawable(commands: seq<Command>, width: U32, height: U32) {
    forall k :: 0 <= k < |commands| ==> Drawable(commands[k], width, height)
  }

  /** What a run of commands makes of the dirty list. */
  ghost function Dirt(commands: seq<Command>, rects: seq<Rect>, full: bool, width: U32, height: U32): (r: (seq<Rect>, bool))
    requires OnScreen(rects, width, height) && AllDrawable(commands, width, height)
    ensures OnScreen(r.0, width, height)
  {
    if commands == [] then (rects, full)
    else
      var n := |commands| - 1;
      var (rects', full') := Dirt(commands[..n], rects, full, width, height);
      Dirtied(commands[n], rects', full', width, height)
  }

  /** What a pixel shows after a run, if it was drawn as `was` and shown as `shown` before:
      a flush shows what is drawn then, but only where it is marked. */
  ghost function Displayed(font: (nat, nat) -> bv8, width: U32, height: U32, commands: seq<Command>, rects: seq<Rect>, full: bool,
                           px: int, py: int, was: U32, shown: U32): U32
    requires 0 <= px < width && 0 <= py < height && OnScreen(rects, width, height) && AllDrawable(commands, width, height)
  {
    if commands == [] then shown
    else
      var before := commands[..|commands| - 1];
      var (rects', full') := Dirt(before, rects, full, width, height);
      if commands[|commands| - 1] == FlushAll && (full' || Covered(rects', px, py))
      then Picture(font, width, height, before, px, py, was)
      else Displayed(font, width, height, before, rects, full, px, py, was, shown)
  }

  ghost predicate NoLines(commands: seq<Command>) {
    forall k :: 0 <= k < |commands| ==> !commands[k].Straight?
  }

  lemma DisplayedNone(font: (nat, nat) -> bv8, width: U32, height: U32, commands: seq<Command>, rects: seq<Rect>, full: bool)
    requires commands == [] && OnScreen(rects, width, height)
    ensures AllDrawable(commands, width, height) && Dirt(commands, rects, full, width, height) == (rects, full)
    ensures forall px, py, was, shown {:trigger Displayed(font, width, height, commands, rects, full, px, py, was, shown)} ::
              0 <= px < width && 0 <= py < height ==>
                Displayed(font, width, height, commands, rects, full, px, py, was, shown) == shown
  {
  }

  lemma DisplayedNext(font: (nat, nat) -> bv8, width: U32, height: U32, commands: seq<Command>, rects: seq<Rect>, full: bool, k: nat)
    requires k < |commands| && OnScreen(rects, width, height) && AllDrawable(commands, width, height)
    ensures AllDrawable(commands[..k], width, height) && AllDrawable(commands[..k + 1], width, height)
    ensures var (rects', full') := Dirt(commands[..k], rects, full, width, height);
      && Dirt(commands[..k + 1], rects, full, width, height) == Dirtied(commands[k], rects', full', width, height)
      && forall px, py, was, shown {:trigger Displayed(font, width, height, commands[..k + 1], rects, full, px, py, was, shown)} ::
           0 <= px < width && 0 <= py < height ==>
             Displayed(font, width, height, commands[..k + 1], rects, full, px, py, was, shown)
             == if commands[k] == FlushAll && (full' || Covered(rects', px, py))
                then Picture(font, width, height, commands[..k], px, py, was)
                else Displayed(font, width, height, commands[..k], rects, full, px, py, was, shown)
  {
    hide Dirtied, Covered, Picture, Drawable;
    assert commands[..k + 1][..k] == commands[..k];
  }

  /** What a run of commands makes of it. */
  ghost function Picture(font: (nat, nat) -> bv8, width: U32, height: U32, commands: seq<Command>, px: int, py: int, was: U32): U32
    requires 0 <= px < width && 0 <= py < height
  {
    if commands == [] then was
    else
      var n := |commands| - 1;
      Painted(font, width, height, commands[n], px, py, Picture(font, width, height, commands[..n], px, py, was))
  }

  /** How many of the commands there are up to the last flush. */
  function Flushed(commands: seq<Command>): (n: nat)
    ensures n <= |commands|
  {
    if commands == [] then 0
    else if commands[|commands| - 1] == FlushAll then |commands|
    else Flushed(commands[..|commands| - 1])
  }

  lemma PictureNone(font: (nat, nat) -> bv8, width: U32, height: U32, commands: seq<Command>)
    requires commands == []
    ensures forall px, py, was {:trigger Picture(font, width, height, commands, px, py, was)} ::
              0 <= px < width && 0 <= py < height ==> Picture(font, width, height, commands, px, py, was) == was
    ensures Flushed(commands) == 0
  {
  }

  lemma PictureNext(font: (nat, nat) -> bv8, width: U32, height: U32, commands: seq<Command>, k: nat)
    requires k < |commands|
    ensures forall px, py, was {:trigger Picture(font, width, height, commands[..k + 1], px, py, was)} ::
              0 <= px < width && 0 <= py < height ==>
                Picture(font, width, height, commands[..k + 1], px, py, was)
                == Painted(font, width, height, commands[k], px, py, Picture(font, width, height, commands[..k], px, py, was))
    ensures Flushed(commands[..k + 1]) == if commands[k] == FlushAll then k + 1 else Flushed(commands[..k])
    ensures commands[k] == FlushAll ==> forall px, py, was {:trigger Painted(font, width, height, commands[k], px, py, was)} ::
              0 <= px < width && 0 <= py < height ==> Painted(font, width, height, commands[k], px, py, was) == was
  {
    assert commands[..k + 1][..k] == commands[..k];
  }

  class Screen {
    const width: U32                 // max_width and screen_size.width
    const height: U32
    const front: array<U32>
    const back: array<U32>
    const dirtyRects: array<Rect>
    const font: (nat, nat) -> bv8     // font8x8_basic: character and row to bits
    var dirtyCount: nat
    var fullRedraw: bool

    /** `fb_set_bounds`, with both buffers showing the same picture.  The pixel count
        times four fits in 32 bits, as the driver's own size computations need. */
    constructor (w: U32, h: U32, f: array<U32>, b: array<U32>, glyphs: (nat, nat) -> bv8)
      requires w * h < 0x4000_0000 && f.Length == b.Length == w * h && f != b && f[..] == b[..]
      ensures Valid() && width == w && height == h && front == f && back == b && dirtyCount == 0 && !fullRedraw
      ensures fresh(dirtyRects)
    {
      width, height, front, back, font := w, h, f, b, glyphs;
      dirtyRects := new Rect[64](_ => Rect(0, 0, 0, 0));
      dirtyCount, fullRedraw := 0, false;
      new;
      forall px, py | Visible(px, py)
        ensures Shown(px, py) == Drawn(px, py)
      {
        AtInRange(width, height, px, py);
        assert front[At(width, px, py)] == front[..][At(width, px, py)];
      }
    }

    ghost predicate Visible(px: int, py: int) {
      0 <= px < width && 0 <= py < height
    }

    ghost function Rects(): seq<Rect>
      reads this, dirtyRects
      requires dirtyCount <= dirtyRects.Length
    {
      dirtyRects[..dirtyCount]
    }

    ghost predicate Shaped()
      reads this, dirtyRects
    {
      && front.Length == back.Length == width * height && front != back
      && dirtyRects.Length == 64 && dirtyCount <= 64
      && OnScreen(Rects(), width, height)
    }

    // --- What is drawn and what is shown ---

    ghost function Drawn(px: int, py: int): U32
      reads this, dirtyRects, back
      requires Shaped() && Visible(px, py)
    {
      AtInRange(width, height, px, py);
      back[At(width, px, py)]
    }

    ghost function Shown(px: int, py: int): U32
      reads this, dirtyRects, front
      requires Shaped() && Visible(px, py)
    {
      AtInRange(width, height, px, py);
      front[At(width, px, py)]
    }

    /** Every pixel that differs between the buffers is due to be copied. */
    ghost predicate Tracked()
      reads this, dirtyRects, front, back
      requires Shaped()
    {
      forall px, py {:trigger Drawn(px, py)} :: Visible(px, py) ==>
        fullRedraw || Shown(px, py) == Drawn(px, py) || Covered(Rects(), px, py)
    }

    ghost predicate Valid()
      reads this, dirtyRects, front, back
    {
      Shaped() && Tracked()
    }

    /** `mark_dirty`. */
    method MarkDirty(x: U32, y: U32, w0: U32, h0: U32)
      requires Shaped() && Fits(x, w0, width) && Fits(y, h0, height)
      modifies this, dirtyRects
      ensures Shaped()
      ensures (Rects(), fullRedraw) == Marked(old(Rects()), old(fullRedraw), x, y, w0, h0, width, height)
      ensures forall px, py {:trigger Drawn(px, py)} :: Visible(px, py) ==> Drawn(px, py) == old(Drawn(px, py))
      ensures forall px, py {:trigger Shown(px, py)} :: Visible(px, py) ==> Shown(px, py) == old(Shown(px, py))
    {
      hide At, FirstMerge, TryMerge, Add32, Clip, Fits;
      MarkedCovers(Rects(), fullRedraw, x, y, w0, h0, width, height);
      ClippedAway(x, w0, width);
      ClippedAway(y, h0, height);
      if fullRedraw { return; }
      if x >= width || y >= height { return; }
      ClipOf(x, w0, width);
      ClipOf(y, h0, height);
      var w, h := w0, h0;
      if Add32(x, w) > width { w := width - x; }
      if Add32(y, h) > height { h := height - y; }
      if w == 0 || h == 0 { return; }
      AddDirty(Rect(x, y, w, h));
    }

    /** The merge loop of `mark_dirty`. */
    method AddDirty(newRect: Rect)
      requires Shaped() && !fullRedraw && Within(newRect, width, height)
      modifies this, dirtyRects
      ensures dirtyCount <= dirtyRects.Length
      ensures match AddRect(old(Rects()), newRect, width, height)
              case None => fullRedraw && Rects() == old(Rects())
              case Some(rects) => !fullRedraw && Rects() == rects
    {
      ghost var rects := Rects();
      var i := 0;
      while i < dirtyCount
        invariant 0 <= i <= dirtyCount && dirtyCount == |rects| && Rects() == rects && !fullRedraw
        invariant FirstMerge(rects, newRect, width, height, 0) == FirstMerge(rects, newRect, width, height, i)
      {
        assert dirtyRects[i] == rects[i];
        var merged := TryMerge(dirtyRects[i], newRect);
        if merged.Some? {
          dirtyRects[i] := merged.value;
          assert Rects() == rects[i := merged.value];
          return;
        }
        i := i + 1;
      }
      if dirtyCount < 64 {
        dirtyRects[dirtyCount] := newRect;
        dirtyCount := dirtyCount + 1;
        assert Rects() == rects + [newRect];
      } else {
        fullRedraw := true;
      }
    }

    /** `fb_draw_pixel`. */
    method PlotPixel(x: U32, y: U32, color: U32)
      requires Shaped()
      modifies back
      ensures forall px, py {:trigger Drawn(px, py)} :: Visible(px, py) ==>
                Drawn(px, py) == if px == x && py == y then color else old(Drawn(px, py))
      ensures forall px, py {:trigger Shown(px, py)} :: Visible(px, py) ==> Shown(px, py) == old(Shown(px, py))
    {
      if x >= width || y >= height { return; }
      AtInRange(width, height, x, y);
      back[At(width, x, y)] := color;
      forall px, py {:trigger Drawn(px, py)} | Visible(px, py)
        ensures Drawn(px, py) == if px == x && py == y then color else old(Drawn(px, py))
      {
        hide At;
        AtInRange(width, height, px, py);
        if px != x || py != y {
          if At(width, px, py) == At(width, x, y) {
            AtDistinct(width, px, py, x, y);
          }
        }
      }
    }

    /** VideoCore's `draw_pixel`. */
    method DrawPixel(x: U32, y: U32, color: U32)
      requires Shaped() && Fits(x, 1, width) && Fits(y, 1, height)
      modifies this, dirtyRects, back
      ensures Shaped() && (old(Tracked()) ==> Tracked())
      ensures (Rects(), fullRedraw) == Marked(old(Rects()), old(fullRedraw), x, y, 1, 1, width, height)
      ensures forall px, py {:trigger Drawn(px, py)} :: Visible(px, py) ==>
                Drawn(px, py) == if px == x && py == y then color else old(Drawn(px, py))
      ensures forall px, py {:trigger Shown(px, py)} :: Visible(px, py) ==> Shown(px, py) == old(Shown(px, py))
    {
      hide At, Covered, Marked;
      MarkedCovers(Rects(), fullRedraw, x, y, 1, 1, width, height);
      PlotPixel(x, y, color);
      MarkDirty(x, y, 1, 1);
    }

    /** `fb_fill_rect`. */
    method FillRect(x: U32, y: U32, w: U32, h: U32, color: U32)
      requires Shaped() && Fits(x, w, width) && Fits(y, h, height)
      modifies this, dirtyRects, back
      ensures Shaped() && (old(Tracked()) ==> Tracked())
      ensures (Rects(), fullRedraw) == Marked(old(Rects()), old(fullRedraw), x, y, w, h, width, height)
      ensures forall px, py {:trigger Drawn(px, py)} :: Visible(px, py) ==>
                Drawn(px, py) == if Inside(Rect(x, y, w, h), px, py) then color else old(Drawn(px, py))
      ensures forall px, py {:trigger Shown(px, py)} :: Visible(px, py) ==> Shown(px, py) == old(Shown(px, py))
    {
      hide At, Covered, Marked;
      MarkedCovers(Rects(), fullRedraw, x, y, w, h, width, height);
      PlotRect(x, y, w, h, color);
      MarkDirty(x, y, w, h);
    }

    /** The loops of `fb_fill_rect`. */
    method PlotRect(x: U32, y: U32, w: U32, h: U32, color: U32)
      requires Shaped() && Fits(x, w, width) && Fits(y, h, height)
      modifies back
      ensures forall px, py {:trigger Drawn(px, py)} :: Visible(px, py) ==>
                Drawn(px, py) == if Inside(Rect(x, y, w, h), px, py) then color else old(Drawn(px, py))
      ensures forall px, py {:trigger Shown(px, py)} :: Visible(px, py) ==> Shown(px, py) == old(Shown(px, py))
    {
      hide Drawn, Shown, OnScreen, Add32, Fits;
      for dy := 0 to h
        invariant forall px, py {:trigger Shown(px, py)} :: Visible(px, py) ==> Shown(px, py) == old(Shown(px, py))
        invariant forall px, py {:trigger Drawn(px, py)} :: Visible(px, py) ==>
          Drawn(px, py) == if Inside(Rect(x, y, w, dy), px, py) then color else old(Drawn(px, py))
      {
        for dx := 0 to w
          invariant forall px, py {:trigger Shown(px, py)} :: Visible(px, py) ==> Shown(px, py) == old(Shown(px, py))
          invariant forall px, py {:trigger Drawn(px, py)} :: Visible(px, py) ==>
            Drawn(px, py) == if Inside(Rect(x, y, w, dy), px, py) || (py == y + dy && x <= px < x + dx) then color
                             else old(Drawn(px, py))
        {
          AddInExtent(x, dx, w, width);
          AddInExtent(y, dy, h, height);
          PlotPixel(Add32(x, dx), Add32(y, dy), color);
        }
      }
    }

    /** The loops of `fb_draw_char`. */
    method PlotChar(x: U32, y: U32, c: nat, scale: U32, color: U32)
      requires Shaped() && 8 * scale < 0x1_0000_0000 && Fits(x, 8 * scale, width) && Fits(y, 8 * scale, height)
      modifies back
      ensures forall px, py {:trigger Drawn(px, py)} :: Visible(px, py) ==>
                Drawn(px, py) == if Glyph(font, c, x, y, scale, px, py) then color else old(Drawn(px, py))
      ensures forall px, py {:trigger Shown(px, py)} :: Visible(px, py) ==> Shown(px, py) == old(Shown(px, py))
    {
      hide Drawn, Shown, Shaped, OnScreen, Glyph;
      GlyphBox(font, c, x, y, scale);
      for row := 0 to 8 * scale
        invariant Shaped()
        invariant forall px, py {:trigger Shown(px, py)} :: Visible(px, py) ==> Shown(px, py) == old(Shown(px, py))
        invariant forall px, py {:trigger Drawn(px, py)} :: Visible(px, py) ==>
          Drawn(px, py) == if Glyph(font, c, x, y, scale, px, py) && py < y + row then color else old(Drawn(px, py))
      {
        PlotDots(x, y, c, scale, row, color);
      }
    }

    /** The inner loop of `fb_draw_char`: one row of the glyph. */
    method PlotDots(x: U32, y: U32, c: nat, scale: U32, row: U32, color: U32)
      requires Shaped() && 8 * scale < 0x1_0000_0000 && Fits(x, 8 * scale, width) && Fits(y, 8 * scale, height)
      requires row < 8 * scale
      modifies back
      ensures Shaped()
      ensures forall px, py {:trigger Drawn(px, py)} :: Visible(px, py) ==>
                Drawn(px, py) == if Glyph(font, c, x, y, scale, px, py) && py == y + row then color else old(Drawn(px, py))
      ensures forall px, py {:trigger Shown(px, py)} :: Visible(px, py) ==> Shown(px, py) == old(Shown(px, py))
    {
      hide Drawn, Shown, Shaped, OnScreen, Bit, Glyph, DotOf, Add32, Fits;
      GlyphBox(font, c, x, y, scale);
      AddInExtent(y, row, 8 * scale, height);
      var bits := font(c, DotOf(row, scale));
      for col := 0 to 8 * scale
        invariant Shaped()
        invariant forall px, py {:trigger Shown(px, py)} :: Visible(px, py) ==> Shown(px, py) == old(Shown(px, py))
        invariant forall px, py {:trigger Drawn(px, py)} :: Visible(px, py) ==>
          Drawn(px, py) == if Glyph(font, c, x, y, scale, px, py) && py == y + row && px < x + col
                           then color else old(Drawn(px, py))
      {
        AddInExtent(x, col, 8 * scale, width);
        GlyphAt(font, c, x, y, scale, row, col);
        if Bit(bits, DotOf(col, scale)) {
          PlotPixel(Add32(x, col), Add32(y, row), color);
        }
      }
    }

    /** `fb_draw_char`. */
    method DrawChar(x: U32, y: U32, c: nat, scale: U32, color: U32)
      requires Shaped() && 8 * scale < 0x1_0000_0000 && Fits(x, 8 * scale, width) && Fits(y, 8 * scale, height)
      modifies this, dirtyRects, back
      ensures Shaped() && (old(Tracked()) ==> Tracked())
      ensures (Rects(), fullRedraw) == Marked(old(Rects()), old(fullRedraw), x, y, 8 * scale, 8 * scale, width, height)
      ensures forall px, py {:trigger Drawn(px, py)} :: Visible(px, py) ==>
                Drawn(px, py) == if Glyph(font, c, x, y, scale, px, py) then color else old(Drawn(px, py))
      ensures forall px, py {:trigger Shown(px, py)} :: Visible(px, py) ==> Shown(px, py) == old(Shown(px, py))
    {
      hide At, Covered, Marked, Glyph;
      GlyphBox(font, c, x, y, scale);
      MarkedCovers(Rects(), fullRedraw, x, y, 8 * scale, 8 * scale, width, height);
      PlotChar(x, y, c, scale, color);
      MarkDirty(x, y, 8 * scale, 8 * scale);
    }

    /** `fb_draw_string`: it returns the size of the text. */
    method DrawString(s: seq<nat>, x: U32, y: U32, scale: U32, color: U32) returns (xSize: U32, ySize: U32)
      requires Shaped()
      requires TextFits(s, x, y, 8 * scale, 8 * scale + 2)
      modifies this, dirtyRects, back
      ensures xSize == 8 * scale * Widest(s, |s|) && ySize == (8 * scale + 2) * (LineOf(s, |s|) + 1)
      ensures Shaped() && (old(Tracked()) ==> Tracked())
      ensures (Rects(), fullRedraw) == MarkedString(old(Rects()), old(fullRedraw), s, x, y, scale, width, height)
      ensures forall px, py {:trigger Drawn(px, py)} :: Visible(px, py) ==>
                Drawn(px, py) == if Text(font, s, |s|, x, y, scale, px, py) then color else old(Drawn(px, py))
      ensures forall px, py {:trigger Shown(px, py)} :: Visible(px, py) ==> Shown(px, py) == old(Shown(px, py))
    {
      hide At, Covered, Marked, MarkedText, Text, OnScreen, TextFits, Widest, LineOf;
      var y0;
      y0, xSize, ySize := DrawChars(s, x, y, scale, color);
      MarkedCovers(Rects(), fullRedraw, x, y0, xSize, ySize, width, height);
      MarkDirty(x, y0, xSize, ySize);
      assert (8 * scale + 2) * (LineOf(s, |s|) + 1) == LineOf(s, |s|) * (8 * scale + 2) + 8 * scale + 2;
    }

    /** The loop of `fb_draw_string`. */
    method DrawChars(s: seq<nat>, x: U32, y: U32, scale: U32, color: U32) returns (y0: U32, xSize: U32, ySize: U32)
      requires Shaped()
      requires TextFits(s, x, y, 8 * scale, 8 * scale + 2)
      modifies this, dirtyRects, back
      ensures Shaped() && (old(Tracked()) ==> Tracked()) && x + xSize < 0x1_0000_0000 && y0 + ySize < 0x1_0000_0000
      ensures y0 == y + Cells(LineOf(s, |s|), 8 * scale + 2) && xSize == Cells(Widest(s, |s|), 8 * scale)
      ensures ySize == Cells(LineOf(s, |s|), 8 * scale + 2) + 8 * scale + 2
      ensures (Rects(), fullRedraw) == MarkedText(old(Rects()), old(fullRedraw), s, |s|, x, y, scale, width, height)
      ensures forall px, py {:trigger Drawn(px, py)} :: Visible(px, py) ==>
                Drawn(px, py) == if Text(font, s, |s|, x, y, scale, px, py) then color else old(Drawn(px, py))
      ensures forall px, py {:trigger Shown(px, py)} :: Visible(px, py) ==> Shown(px, py) == old(Shown(px, py))
    {
      hide Glyph, Text, OnScreen, Tracked, Drawn, Shown, Visible, Rects, Add32, LineOf, ColumnOf, Widest, TextFits, MarkedText, Marked;
      TextStart(font, s, x, y, scale);
      var charSize := 8 * scale;
      var lineHeight := charSize + 2;
      TextBounds(s, 0, x, y, charSize, lineHeight);
      TextBegun(s, x, y, scale);
      var xoff, xRowSize := 0, 0;
      y0, xSize, ySize := y, 0, lineHeight;
      for i := 0 to |s|
        invariant Shaped() && (old(Tracked()) ==> Tracked())
        invariant xoff == ColumnOf(s, i) && y0 == y + Cells(LineOf(s, i), lineHeight)
        invariant ySize == lineHeight + Cells(LineOf(s, i), lineHeight)
        invariant xRowSize == Cells(xoff, charSize) && 0 <= xSize
        invariant L.Max(xSize, xRowSize) == Cells(Widest(s, i), charSize)
        invariant (Rects(), fullRedraw) == MarkedText(old(Rects()), old(fullRedraw), s, i, x, y, scale, width, height)
        invariant forall px, py {:trigger Shown(px, py)} :: Visible(px, py) ==> Shown(px, py) == old(Shown(px, py))
        invariant forall px, py {:trigger Drawn(px, py)} :: Visible(px, py) ==>
          Drawn(px, py) == if Text(font, s, i, x, y, scale, px, py) then color else old(Drawn(px, py))
      {
        TextBounds(s, i, x, y, charSize, lineHeight);
        MarkedTextNext(old(Rects()), old(fullRedraw), s, i, x, y, scale, width, height);
        ColumnLine(s, i);
        if s[i] == 10 {
          y0 := y0 + lineHeight;
          TextBounds(s, i + 1, x, y, charSize, lineHeight);
          ySize := ySize + lineHeight;
          WidestNext(s, i);
          xSize := L.Max(xSize, xRowSize);
          xRowSize := 0;
          xoff := 0;
          TextSkip(font, s, i, x, y, scale);
        } else {
          WidestRow(s, i, xSize, charSize);
          DrawChar(x + xoff * charSize, y0, s[i], scale, color);
          TextPut(font, s, i, x, y, scale);
          xoff := xoff + 1;
          xRowSize := xRowSize + charSize;
        }
      }
      TextBounds(s, |s|, x, y, charSize, lineHeight);
      xSize := L.Max(xSize, xRowSize);
    }

    lemma TextBegun(s: seq<nat>, x: U32, y: U32, scale: U32)
      requires Shaped() && TextFits(s, x, y, 8 * scale, 8 * scale + 2)
      ensures MarkedText(Rects(), fullRedraw, s, 0, x, y, scale, width, height) == (Rects(), fullRedraw)
      ensures Widest(s, 0) == 0 && OnScreen(Rects(), width, height)
    {
      hide TextFits;
      MarkedTextNone(Rects(), fullRedraw, s, x, y, scale, width, height);
    }

    /** `fb_clear`; `stride * max_height` bytes are filled by `memset`, which leaves these
        words (MemFunctions.MemsetHolds). */
    method Clear(color: U32)
      requires Shaped()
      modifies this, back
      ensures Shaped() && Tracked() && Rects() == old(Rects()) && fullRedraw
      ensures forall px, py {:trigger Shown(px, py)} :: Visible(px, py) ==> Shown(px, py) == old(Shown(px, py))
      ensures back[..] == M.Filled(color, width * height)
      ensures forall px, py {:trigger Drawn(px, py)} :: Visible(px, py) ==>
                Drawn(px, py) == M.MemsetWord(color, width * height, At(width, px, py))
    {
      var n := back.Length;
      for k := 0 to n
        invariant Shaped() && Rects() == old(Rects())
        invariant forall px, py {:trigger Shown(px, py)} :: Visible(px, py) ==> Shown(px, py) == old(Shown(px, py))
        invariant forall j :: 0 <= j < k ==> back[j] == M.MemsetWord(color, n, j)
      {
        back[k] := M.MemsetWord(color, n, k);
      }
      assert back[..] == M.Filled(color, n);
      fullRedraw := true;
      forall px, py {:trigger Drawn(px, py)} | Visible(px, py)
        ensures Drawn(px, py) == M.MemsetWord(color, n, At(width, px, py))
      {
        AtInRange(width, height, px, py);
      }
    }

    /** One `memcpy` of `n` pixels of row `y`, which leaves these words
        (MemFunctions.MemcpyHolds). */
    method CopyRow(x: U32, y: U32, n: nat)
      requires Shaped() && x + n <= width && y < height
      modifies front
      ensures At(width, x, y) + n <= |front[..]|
      ensures front[..] == M.Overlaid(old(front[..]), back[..], At(width, x, y), n)
      ensures forall px, py {:trigger Drawn(px, py)} :: Visible(px, py) ==> Drawn(px, py) == old(Drawn(px, py))
      ensures forall px, py {:trigger Shown(px, py)} :: Visible(px, py) ==>
                Shown(px, py) == if py == y && x <= px < x + n then Drawn(px, py) else old(Shown(px, py))
    {
      var base := At(width, x, y);
      RowEnd(width, height, x, y, n);
      for k := 0 to n
        invariant forall j {:trigger front[j]} :: 0 <= j < front.Length ==>
                    front[j] == if base <= j < base + k then back[j] else old(front[j])
      {
        front[base + k] := back[base + k];
      }
      assert front[..] == M.Overlaid(old(front[..]), back[..], base, n);
      forall px, py {:trigger Shown(px, py)} | Visible(px, py)
        ensures Shown(px, py) == if py == y && x <= px < x + n then Drawn(px, py) else old(Shown(px, py))
      {
        AtInRange(width, height, px, py);
        RowRange(width, px, py, x, y, n);
      }
    }

    /** `flush` copies what is dirty, and nothing is dirty then.  The front buffer shows what
        a copy of the whole back buffer would exactly if every difference was tracked. */
    method Flush()
      requires Shaped()
      modifies this, front
      ensures Shaped() && dirtyCount == 0 && !fullRedraw
      ensures forall px, py {:trigger Drawn(px, py)} :: Visible(px, py) ==> Drawn(px, py) == old(Drawn(px, py))
      ensures forall px, py {:trigger Shown(px, py)} :: Visible(px, py) ==>
                Shown(px, py) == if old(fullRedraw) || Covered(old(Rects()), px, py) then old(Drawn(px, py)) else old(Shown(px, py))
      ensures old(Tracked()) <==>
                forall px, py {:trigger Drawn(px, py)} {:trigger Shown(px, py)} :: Visible(px, py) ==> Shown(px, py) == Drawn(px, py)
      ensures old(Tracked()) <==> Tracked()
    {
      hide At, OnScreen, Covered;
      ghost var rects := Rects();
      if fullRedraw {
        CopyAll();
      } else {
        CopyDirty();
      }
      assert Rects() == rects;
      Settle();
      SettledTracked();
      forall px, py {:trigger Drawn(px, py)} {:trigger Shown(px, py)} {:trigger old(Drawn(px, py))} | Visible(px, py)
        ensures Shown(px, py) == Drawn(px, py) <==>
                old(fullRedraw) || Covered(rects, px, py) || old(Shown(px, py)) == old(Drawn(px, py))
      {
      }
    }

    /** With nothing marked, what is tracked is what is the same. */
    lemma SettledTracked()
      requires Shaped() && dirtyCount == 0 && !fullRedraw
      ensures Tracked() <==> forall px, py {:trigger Drawn(px, py)} {:trigger Shown(px, py)} ::
                Visible(px, py) ==> Shown(px, py) == Drawn(px, py)
    {
      hide Drawn, Shown;
      assert forall px, py :: !Covered(Rects(), px, py);
    }

    method Settle()
      requires Shaped()
      modifies this
      ensures Shaped() && dirtyCount == 0 && !fullRedraw
      ensures forall px, py {:trigger Drawn(px, py)} :: Visible(px, py) ==> Drawn(px, py) == old(Drawn(px, py))
      ensures forall px, py {:trigger Shown(px, py)} :: Visible(px, py) ==> Shown(px, py) == old(Shown(px, py))
    {
      fullRedraw := false;
      dirtyCount := 0;
    }

    /** The rectangle loop of `flush`. */
    method CopyDirty()
      requires Shaped()
      modifies front
      ensures forall px, py {:trigger Drawn(px, py)} :: Visible(px, py) ==> Drawn(px, py) == old(Drawn(px, py))
      ensures forall px, py {:trigger Shown(px, py)} :: Visible(px, py) ==>
                Shown(px, py) == if Covered(Rects(), px, py) then Drawn(px, py) else old(Shown(px, py))
    {
      assert forall px, py :: !Covered(Rects()[..0], px, py);
      hide At, OnScreen, Covered;
      for i := 0 to dirtyCount
        invariant forall px, py {:trigger Drawn(px, py)} :: Visible(px, py) ==> Drawn(px, py) == old(Drawn(px, py))
        invariant forall px, py {:trigger Shown(px, py)} :: Visible(px, py) ==>
          Shown(px, py) == if Covered(Rects()[..i], px, py) then Drawn(px, py) else old(Shown(px, py))
      {
        CopyRect(i);
        CoveredNext(Rects(), i);
      }
      assert Rects()[..dirtyCount] == Rects();
    }

    /** `memcpy` of `width * height` pixels. */
    method CopyAll()
      requires Shaped()
      modifies front
      ensures front[..] == back[..]
      ensures forall px, py {:trigger Drawn(px, py)} :: Visible(px, py) ==>
                Drawn(px, py) == old(Drawn(px, py)) && Shown(px, py) == Drawn(px, py)
    {
      for k := 0 to front.Length
        invariant front[..k] == back[..k]
      {
        front[k] := back[k];
      }
      forall px, py {:trigger Drawn(px, py)} | Visible(px, py)
        ensures Drawn(px, py) == old(Drawn(px, py)) && Shown(px, py) == Drawn(px, py)
      {
        AtInRange(width, height, px, py);
        var k := At(width, px, py);
        assert front[k] == front[..front.Length][k] && back[k] == back[..front.Length][k];
      }
    }

    /** The row loop of `flush` for one rectangle. */
    method CopyRect(i: nat)
      requires Shaped() && i < dirtyCount
      modifies front
      ensures forall px, py {:trigger Drawn(px, py)} :: Visible(px, py) ==> Drawn(px, py) == old(Drawn(px, py))
      ensures forall px, py {:trigger Shown(px, py)} :: Visible(px, py) ==>
                Shown(px, py) == if Inside(Rects()[i], px, py) then Drawn(px, py) else old(Shown(px, py))
    {
      hide At, M.Overlaid;
      var r := dirtyRects[i];
      assert r == Rects()[i] && Within(r, width, height);
      hide OnScreen;
      for y := 0 to r.h
        invariant forall px, py {:trigger Drawn(px, py)} :: Visible(px, py) ==> Drawn(px, py) == old(Drawn(px, py))
        invariant forall px, py {:trigger Shown(px, py)} :: Visible(px, py) ==>
          Shown(px, py) == if Inside(Rect(r.x, r.y, r.w, y), px, py) then Drawn(px, py) else old(Shown(px, py))
      {
        var destY := Add32(r.y, y);
        if destY >= height { break; }
        var copyWidth := r.w;
        if Add32(r.x, copyWidth) > width {
          copyWidth := width - r.x;
        }
        CopyRow(r.x, destY, copyWidth);
      }
    }

    /** The loop of `fb_draw_line`: it plots exactly the points of the line, so it ends
        after max(dx, dy) + 1 of them.  `err - dy` can leave the range of `int` for
        a moment, but only if dx + dy exceeds 2^31. */
    method PlotLine(x0: U32, y0: U32, x1: U32, y1: U32, color: U32)
      requires Shaped()
      requires L.Abs(x1 - x0) < 0x8000_0000 && L.Abs(y1 - y0) < 0x8000_0000
      modifies back
      ensures forall px, py {:trigger Drawn(px, py)} :: Visible(px, py) ==>
                Drawn(px, py) == if LineHas(x0, y0, x1, y1, px, py) then color else old(Drawn(px, py))
      ensures forall px, py {:trigger Shown(px, py)} :: Visible(px, py) ==> Shown(px, py) == old(Shown(px, py))
    {
      hide Drawn, Shown, OnScreen, L.PointAt, ErrorAt, ToInt32, OnLine, LineHas;
      ghost var a, b := L.Point(x0, y0), L.Point(x1, y1);
      var dx: I32 := if x1 > x0 then x1 - x0 else x0 - x1;
      var sx: I32 := if x0 < x1 then 1 else -1;
      var dy: I32 := if y1 > y0 then y1 - y0 else y0 - y1;
      var sy: I32 := if y0 < y1 then 1 else -1;
      var err: I32 := if dx > dy then dx / 2 else -(dy / 2);    // C truncates (-dy) / 2
      var x: U32, y: U32 := x0, y0;
      ghost var n, k := L.Max(dx, dy), 0;
      LineStart(a, b);
      WholeLine(x0, y0, x1, y1);
      while true
        invariant 0 <= k <= n && L.PointAt(a, b, k) == L.Point(x, y)
        invariant err == ErrorAt(a, b, k)
        invariant forall px, py {:trigger Shown(px, py)} :: Visible(px, py) ==> Shown(px, py) == old(Shown(px, py))
        invariant forall px, py {:trigger Drawn(px, py)} :: Visible(px, py) ==>
          Drawn(px, py) == if OnLine(a, b, k, px, py) then color else old(Drawn(px, py))
        decreases n - k
      {
        PlotPixel(x, y, color);
        OnLineNext(a, b, k);
        LineStep(a, b, k);
        if x == x1 && y == y1 { break; }
        L.PlotInBox(a, b, k + 1);
        var e2 := err;
        if e2 > -dx { err := ToInt32(err - dy); x := x + sx; }
        if e2 < dy { err := ToInt32(err + dx); y := y + sy; }
        k := k + 1;
      }
    }

    lemma NothingCovered(px: int, py: int)
      ensures !Covered([], px, py)
    {
    }

    lemma CleanLine(rects: seq<Rect>, full: bool, x: U32, y: U32)
      requires OnScreen(rects, width, height) && Fits(x, 1, width) && Fits(y, 1, height)
      ensures rects == [] && !full ==>
        var (rects', full') := Marked(rects, full, x, y, 1, 1, width, height);
        !full' && forall px, py :: Visible(px, py) ==> (Covered(rects', px, py) <==> px == x && py == y)
    {
      MarkedAlone(x, y, width, height);
    }

    /** VideoCore's `draw_line`: all of the line is drawn, but since the loop has moved
        (x0, y0) to the end point, only that one pixel is marked.  So the line is tracked
        exactly when the screen is due for a full redraw then, or every visible point of the
        line is covered by the rectangles then, or already showed the colour before. */
    method DrawLine(x0: U32, y0: U32, x1: U32, y1: U32, color: U32)
      requires Shaped() && Fits(x1, 1, width) && Fits(y1, 1, height)
      requires L.Abs(x1 - x0) < 0x8000_0000 && L.Abs(y1 - y0) < 0x8000_0000
      modifies this, dirtyRects, back
      ensures Shaped()
      ensures forall px, py {:trigger Shown(px, py)} :: Visible(px, py) ==> Shown(px, py) == old(Shown(px, py))
      ensures forall px, py {:trigger Drawn(px, py)} :: Visible(px, py) ==>
                Drawn(px, py) == if LineHas(x0, y0, x1, y1, px, py) then color else old(Drawn(px, py))
      ensures (Rects(), fullRedraw) == Marked(old(Rects()), old(fullRedraw), x1, y1, 1, 1, width, height)
      ensures var (rects, full) := Marked(old(Rects()), old(fullRedraw), x1, y1, 1, 1, width, height);
              old(Tracked()) ==> (Tracked() <==> full || forall px, py {:trigger old(Shown(px, py))} ::
                Visible(px, py) && LineHas(x0, y0, x1, y1, px, py) ==>
                  Covered(rects, px, py) || old(Shown(px, py)) == color)
      ensures old(Tracked()) && old(dirtyCount) == 0 && !old(fullRedraw) ==>
                (Tracked() <==>
                 forall px, py {:trigger old(Drawn(px, py))} ::
                   Visible(px, py) && LineHas(x0, y0, x1, y1, px, py) && (px != x1 || py != y1) ==>
                     old(Drawn(px, py)) == color)
    {
      hide At, LineHas, Marked, Drawn, Shown, Covered;
      ghost var rects, full, tracked := Rects(), fullRedraw, Tracked();
      MarkedCovers(rects, full, x1, y1, 1, 1, width, height);
      PlotLine(x0, y0, x1, y1, color);
      MarkDirty(x1, y1, 1, 1);
      CleanLine(rects, full, x1, y1);
      forall px, py {:trigger Drawn(px, py)} {:trigger old(Drawn(px, py))} {:trigger old(Shown(px, py))} | Visible(px, py)
        ensures tracked ==>
                (fullRedraw || Shown(px, py) == Drawn(px, py) || Covered(Rects(), px, py) <==>
                 fullRedraw || !LineHas(x0, y0, x1, y1, px, py) || Covered(Rects(), px, py) || old(Shown(px, py)) == color)
        ensures tracked && rects == [] && !full ==>
                (Shown(px, py) == Drawn(px, py) || Covered(Rects(), px, py) <==>
                 !LineHas(x0, y0, x1, y1, px, py) || (px == x1 && py == y1) || old(Drawn(px, py)) == color)
      {
        assert tracked ==> full || old(Shown(px, py)) == old(Drawn(px, py)) || Covered(rects, px, py);
        assert Covered(Rects(), px, py) || !Covered(rects, px, py) || fullRedraw;
        assert rects == [] ==> !Covered(rects, px, py) by {
          NothingCovered(px, py);
        }
      }
    }

    /** Any run of drawing commands and flushes: the back buffer has the picture that the
        commands denote; what is dirty is what they marked; and the front buffer shows what
        the flushes copied of it.  Without lines, and with every difference tracked at first,
        that is the picture that the commands up to the last flush denote. */
    method Run(commands: seq<Command>)
      requires Shaped() && AllDrawable(commands, width, height)
      modifies this, dirtyRects, back, front
      ensures Shaped() && (Rects(), fullRedraw) == Dirt(commands, old(Rects()), old(fullRedraw), width, height)
      ensures forall px, py {:trigger Drawn(px, py)} :: Visible(px, py) ==>
                Drawn(px, py) == Picture(font, width, height, commands, px, py, old(Drawn(px, py)))
      ensures forall px, py {:trigger Shown(px, py)} :: Visible(px, py) ==>
                Shown(px, py) == Displayed(font, width, height, commands, old(Rects()), old(fullRedraw), px, py,
                                           old(Drawn(px, py)), old(Shown(px, py)))
      ensures old(Tracked()) && NoLines(commands) ==>
                Tracked() && forall px, py {:trigger Shown(px, py)} :: Visible(px, py) ==>
                  Shown(px, py) == if Flushed(commands) == 0 then old(Shown(px, py))
                                   else Picture(font, width, height, commands[..Flushed(commands)], px, py, old(Drawn(px, py)))
    {
      hide OnScreen, Tracked, Painted, Drawn, Shown, Drawable, AllDrawable, Picture, Flushed, Dirt, Dirtied, Displayed, Covered;
      ghost var rects, full, tracked := Rects(), fullRedraw, Tracked() && NoLines(commands);
      ShapedRects();
      PictureNone(font, width, height, commands[..0]);
      DisplayedNone(font, width, height, commands[..0], rects, full);
      for k := 0 to |commands|
        invariant Shaped() && AllDrawable(commands[..k], width, height)
        invariant (Rects(), fullRedraw) == Dirt(commands[..k], rects, full, width, height)
        invariant forall px, py {:trigger Drawn(px, py)} :: Visible(px, py) ==>
          Drawn(px, py) == Picture(font, width, height, commands[..k], px, py, old(Drawn(px, py)))
        invariant forall px, py {:trigger Shown(px, py)} :: Visible(px, py) ==>
          Shown(px, py) == Displayed(font, width, height, commands[..k], rects, full, px, py,
                                     old(Drawn(px, py)), old(Shown(px, py)))
        invariant tracked ==> Tracked() && forall px, py {:trigger Shown(px, py)} :: Visible(px, py) ==>
          Shown(px, py) == if Flushed(commands[..k]) == 0 then old(Shown(px, py))
                           else Picture(font, width, height, commands[..Flushed(commands[..k])], px, py, old(Drawn(px, py)))
      {
        PictureNext(font, width, height, commands, k);
        DisplayedNext(font, width, height, commands, rects, full, k);
        DrawableAt(commands, k);
        Perform(commands[k]);
      }
      assert commands[..|commands|] == commands;
    }

    lemma ShapedRects()
      requires Shaped()
      ensures OnScreen(Rects(), width, height)
    {
    }

    lemma DrawableAt(commands: seq<Command>, k: nat)
      requires AllDrawable(commands, width, height) && k < |commands|
      ensures Drawable(commands[k], width, height)
    {
    }

    method Perform(command: Command)
      requires Shaped() && Drawable(command, width, height)
      modifies this, dirtyRects, back, front
      ensures Shaped() && OnScreen(old(Rects()), width, height)
      ensures (Rects(), fullRedraw) == Dirtied(command, old(Rects()), old(fullRedraw), width, height)
      ensures forall px, py {:trigger Drawn(px, py)} :: Visible(px, py) ==>
                Drawn(px, py) == Painted(font, width, height, command, px, py, old(Drawn(px, py)))
      ensures forall px, py {:trigger Shown(px, py)} :: Visible(px, py) ==>
                Shown(px, py) == if command == FlushAll && (old(fullRedraw) || Covered(old(Rects()), px, py)) then old(Drawn(px, py))
                                 else old(Shown(px, py))
      ensures old(Tracked()) && !command.Straight? ==> Tracked()
      ensures old(Tracked()) && command == FlushAll ==>
                forall px, py {:trigger Shown(px, py)} :: Visible(px, py) ==> Shown(px, py) == old(Drawn(px, py))
    {
      hide Shaped, Drawn, Shown, Tracked, Glyph, Text, LineHas, At, Inside, Marked, MarkedString, Covered;
      ShapedRects();
      match command {
        case ClearTo(color) => Clear(color);
        case Pixel(x, y, color) => DrawPixel(x, y, color);
        case Fill(x, y, w, h, color) => FillRect(x, y, w, h, color);
        case Character(x, y, c, scale, color) => DrawChar(x, y, c, scale, color);
        case Characters(s, x, y, scale, color) =>
          var w, h := DrawString(s, x, y, scale, color);
        case Straight(x0, y0, x1, y1, color) => DrawLine(x0, y0, x1, y1, color);
        case FlushAll => Flush();
      }
    }
  }

  /** A line of two pixels on a fresh screen, then a flush: both are drawn, the first is not
      shown, and nothing is left to be copied. */
  method LostPixel(glyphs: (nat, nat) -> bv8, color: U32) returns (s: Screen)
    requires color != 0
    ensures s.Shaped() && s.Visible(0, 0) && s.dirtyCount == 0 && !s.fullRedraw
    ensures s.Drawn(0, 0) == color && s.Shown(0, 0) == 0
  {
    var f, b := new U32[2](_ => 0), new U32[2](_ => 0);
    assert f[..] == b[..];
    s := new Screen(2, 1, f, b, glyphs);
    hide L.PointAt, Marked;
    assert s.Drawn(0, 0) == 0 && s.Shown(0, 0) == 0;
    assert LineHas(0, 0, 1, 0, 0, 0) by {
      LineStart(L.Point(0, 0), L.Point(1, 0));
    }
    s.DrawLine(0, 0, 1, 0, color);
    MarkedAlone(1, 0, 2, 1);
    assert s.Drawn(0, 0) == color;
    s.Flush();
  }
}
