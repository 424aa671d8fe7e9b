/** The drawing functions of drivers/lcd_driver.c: a cursor steps through the frame buffer by the increments
    of the orientation. */
module LcdDriver {
  import opened LcdModel

  datatype Rectangle = Rectangle(xMin: int, yMin: int, xMax: int, yMax: int)

  /** The inclusive rectangle lies on the screen. */
  predicate RectFits(o: Orientation, r: Rectangle) {
    0 <= r.xMin && r.xMax < Width(o) && 0 <= r.yMin && r.yMax < Height(o)
  }

  function Span(first: int, last: int): nat {
    if first <= last then last - first + 1 else 0
  }

  /** An inclusive horizontal line, pixel by pixel. */
  ghost function LineH(f: Frame, o: Orientation, x1: int, x2: int, y: int, v: Pixel): Frame
    requires 0 <= x1 && x2 < Width(o) && 0 <= y < Height(o)
  {
    if x1 <= x2 then DrawRow(f, o, x1, y, Plain(Span(x1, x2), v)) else f
  }

  /** An inclusive vertical line, pixel by pixel. */
  ghost function LineV(f: Frame, o: Orientation, x: int, y1: int, y2: int, v: Pixel): Frame
    requires 0 <= x < Width(o) && 0 <= y1 && y2 < Height(o)
  {
    if y1 <= y2 then DrawColumn(f, o, x, y1, Span(y1, y2), v) else f
  }

  /** An inclusive filled rectangle, pixel by pixel. */
  ghost function Filled(f: Frame, o: Orientation, r: Rectangle, v: Pixel): Frame
    requires RectFits(o, r)
  {
    if r.xMin <= r.xMax && r.yMin <= r.yMax
    then DrawBox(f, o, r.xMin, r.yMin, Span(r.xMin, r.xMax), Span(r.yMin, r.yMax), v)
    else f
  }

  /** A filled rectangle shows the colour exactly inside its inclusive bounds. */
  lemma FilledShows(f: Frame, o: Orientation, r: Rectangle, v: Pixel, x: int, y: int)
    requires RectFits(o, r) && OnScreen(o, x, y)
    ensures Shown(Filled(f, o, r, v), o, x, y) ==
      if r.xMin <= x <= r.xMax && r.yMin <= y <= r.yMax then v else Shown(f, o, x, y)
  {
    hide DrawBox, Shown;
    if r.xMin <= r.xMax && r.yMin <= r.yMax {
      BoxShows(f, o, r.xMin, r.yMin, Span(r.xMin, r.xMax), Span(r.yMin, r.yMax), v, x, y);
    }
  }

  /** Lines are rectangles one pixel high or wide. */
  lemma LinesAreRectangles(f: Frame, o: Orientation, r: Rectangle, v: Pixel)
    requires RectFits(o, r)
    ensures r.yMin == r.yMax ==> LineH(f, o, r.xMin, r.xMax, r.yMin, v) == Filled(f, o, r, v)
    ensures r.xMin == r.xMax ==> LineV(f, o, r.xMin, r.yMin, r.yMax, v) == Filled(f, o, r, v)
  {
    hide Cell, Shown;
    if r.xMin <= r.xMax && r.yMin <= r.yMax {
      if r.yMin == r.yMax {
        assert DrawBox(f, o, r.xMin, r.yMin, Span(r.xMin, r.xMax), 0, v) == f;
      }
      if r.xMin == r.xMax {
        forall x, y | OnScreen(o, x, y)
          ensures Shown(LineV(f, o, r.xMin, r.yMin, r.yMax, v), o, x, y) == Shown(Filled(f, o, r, v), o, x, y)
        {
          ColumnShows(f, o, r.xMin, r.yMin, Span(r.yMin, r.yMax), v, x, y);
          FilledShows(f, o, r, v, x, y);
        }
        SameFrame(LineV(f, o, r.xMin, r.yMin, r.yMax, v), Filled(f, o, r, v), o);
      }
    }
  }

  // ---- steps of the cursor -----------------------------------------------------------------

  /** The next value of a row lands at the cursor. */
  lemma RowGrows(f: Frame, o: Orientation, x: int, y: int, values: seq<Pixel>, n: nat)
    requires n < |values| && RowFits(o, x, y, |values|)
    ensures OnScreen(o, x + n, y) && 0 <= Cell(o, x + n, y) < CELLS
    ensures DrawRow(f, o, x, y, values[..n])[Cell(o, x + n, y) := values[n]] == DrawRow(f, o, x, y, values[..n + 1])
    ensures Cell(o, x + n + 1, y) == Cell(o, x + n, y) + HorizontalInc(o)
  {
    hide Cell;
    CellsDistinct(o, x + n, y, x + n, y);
    CellSteps(o, x + n, y);
    assert values[..n + 1][..n] == values[..n];
  }

  lemma RowStarts(f: Frame, o: Orientation, x: int, y: int, values: seq<Pixel>)
    requires RowFits(o, x, y, |values|)
    ensures DrawRow(f, o, x, y, values[..0]) == f
  {
  }

  lemma ColumnGrows(f: Frame, o: Orientation, x: int, y: int, n: nat, v: Pixel)
    requires ColumnFits(o, x, y, n + 1)
    ensures OnScreen(o, x, y + n) && 0 <= Cell(o, x, y + n) < CELLS
    ensures DrawColumn(f, o, x, y, n, v)[Cell(o, x, y + n) := v] == DrawColumn(f, o, x, y, n + 1, v)
    ensures Cell(o, x, y + n + 1) == Cell(o, x, y + n) + VerticalInc(o)
  {
  }

  /** The two pixels of a byte of 4-bit data. */
  lemma NibblePixel(data: seq<bv8>, palette: seq<bv8>, at: nat, low: bool)
    requires HasPixel(Bpp4, data, palette, if low then 2 * at + 1 else 2 * at)
    ensures at < |data|
    ensures var nibble := if low then LowNibble(data[at]) else HighNibble(data[at]);
      && 3 * nibble + 3 <= |palette|
      && PixelAt(Bpp4, data, palette, if low then 2 * at + 1 else 2 * at) == Colour(palette, nibble)
  {
  }

  /** A bit of a byte of 1-bit data. */
  lemma BitPixel(data: seq<bv8>, palette: seq<bv8>, at: nat, bit: nat)
    requires bit < 8 && HasPixel(Bpp1, data, palette, 8 * at + bit)
    ensures at < |data| && 4 * Bit(data[at], bit) + 4 <= |palette|
    ensures PixelAt(Bpp1, data, palette, 8 * at + bit) == HalfWord(palette, 4 * Bit(data[at], bit))
  {
  }

  // ---- where the loop over 4-bit data ends --------------------------------------------------

  /** The count at the first test of the loop: an odd start has drawn a pixel by then. */
  function FirstLeft(x0: nat, count: int): int {
    count - x0 % 2
  }

  /** The loop tests the count before the upper nibble and again before the lower one. */
  predicate EndsWithin(left: int, turns: nat)
    decreases turns
  {
    left == 0 || (turns > 0 && EndsWithin(if left == 1 then 0 else left - 2, turns - 1))
  }

  lemma {:induction false} PositiveEnds(left: nat)
    ensures EndsWithin(left, (left + 1) / 2)
  {
    if left > 1 {
      PositiveEnds(left - 2);
    }
  }

  lemma {:induction false} NegativeGoesOn(left: int, turns: nat)
    requires left < 0
    ensures !EndsWithin(left, turns)
    decreases turns
  {
    if turns > 0 {
      NegativeGoesOn(left - 2, turns - 1);
    }
  }

  ghost predicate Ends(left: int) {
    exists turns: nat :: EndsWithin(left, turns)
  }

  /** The loop ends exactly if the count is not negative, and not zero for an odd start. */
  lemma Draw4EndsIff(x0: nat, count: int)
    ensures Ends(FirstLeft(x0, count)) <==> count >= x0 % 2
  {
    hide EndsWithin;
    var left := FirstLeft(x0, count);
    if left >= 0 {
      PositiveEnds(left);
    } else {
      forall turns: nat
        ensures !EndsWithin(left, turns)
      {
        NegativeGoesOn(left, turns);
      }
    }
  }

  /** No pixel at all from an odd start: however many turns, the loop goes on. */
  lemma OddEmptyRunGoesOn(turns: nat)
    ensures !EndsWithin(FirstLeft(1, 0), turns)
  {
    NegativeGoesOn(-1, turns);
  }

  class Lcd {
    const buf: array<Pixel>
    var orientation: Orientation
    var width: nat
    var height: nat
    var horizontalInc: int
    var verticalInc: int

    ghost predicate Valid()
      reads this
    {
      && buf.Length == CELLS
      && width == Width(orientation) && height == Height(orientation)
      && horizontalInc == HorizontalInc(orientation) && verticalInc == VerticalInc(orientation)
    }

    ghost function Picture(): Frame
      requires Valid()
      reads this, buf
    {
      buf[..]
    }

    /** The hidden one of the two frame buffers. */
    constructor (buffer: array<Pixel>, o: Orientation)
      requires buffer.Length == CELLS
      ensures Valid() && buf == buffer && orientation == o
    {
      buf := buffer;
      new;
      OrientationSet(o);
    }

    method OrientationSet(o: Orientation)
      requires buf.Length == CELLS
      modifies `orientation, `width, `height, `horizontalInc, `verticalInc
      ensures Valid() && orientation == o
    {
      match o {
      case Landscape =>
        horizontalInc, verticalInc, width, height := 1, H_SIZE, H_SIZE, V_SIZE;
      case LandscapeFlip =>
        horizontalInc, verticalInc, width, height := -1, -H_SIZE, H_SIZE, V_SIZE;
      case Portrait =>
        horizontalInc, verticalInc, width, height := -H_SIZE, 1, V_SIZE, H_SIZE;
      case PortraitFlip =>
        horizontalInc, verticalInc, width, height := H_SIZE, -1, V_SIZE, H_SIZE;
      }
      orientation := o;
    }

    method PixelDraw(x: int, y: int, v: Pixel)
      requires Valid() && OnScreen(orientation, x, y)
      modifies buf
      ensures Picture() == Draw(old(Picture()), orientation, x, y, v)
    {
      CellsDistinct(orientation, x, y, x, y);
      var p := RemapY(orientation, x, y) * H_SIZE;
      p := p + RemapX(orientation, x, y);
      buf[p] := v;
    }

    /** The frame holds the first `n` of `values`, and the cursor stands behind them. */
    ghost predicate AtPixel(f: Frame, x: int, y: int, values: seq<Pixel>, n: nat, p: int)
      requires Valid()
      reads this, buf
    {
      && n <= |values| && RowFits(orientation, x, y, |values|)
      && Picture() == DrawRow(f, orientation, x, y, values[..n]) && p == Cell(orientation, x + n, y)
    }

    /** One pixel of a row: write and move on. */
    method Plot(p: int, v: Pixel, ghost f: Frame, ghost x: int, ghost y: int, ghost values: seq<Pixel>, ghost n: nat)
      returns (next: int)
      requires Valid() && AtPixel(f, x, y, values, n, p) && n < |values| && v == values[n]
      modifies buf
      ensures AtPixel(f, x, y, values, n + 1, next)
    {
      hide Cell, DrawRow;
      RowGrows(f, orientation, x, y, values, n);
      buf[p] := v;
      next := p + horizontalInc;
    }

    /** The first cell of a row, column or rectangle. */
    method Cursor(x: int, y: int) returns (p: int)
      requires Valid()
      ensures p == Cell(orientation, x, y)
    {
      p := RemapY(orientation, x, y) * H_SIZE;
      p := p + RemapX(orientation, x, y);
    }

    method LineDrawH(x1: int, x2: int, y: int, v: Pixel)
      requires Valid() && 0 <= x1 && x2 < width && 0 <= y < height
      modifies buf
      ensures Picture() == LineH(old(Picture()), orientation, x1, x2, y, v)
    {
      hide Cell, DrawRow;
      var p := Cursor(x1, y);
      ghost var f, values := Picture(), Plain(Span(x1, x2), v);
      if x1 <= x2 {
        RowStarts(f, orientation, x1, y, values);
      }
      var x := x1;
      while x <= x2
        invariant x1 <= x && (x1 <= x2 ==> x <= x2 + 1 && AtPixel(f, x1, y, values, x - x1, p))
        invariant x1 > x2 ==> Picture() == f
      {
        p := Plot(p, v, f, x1, y, values, x - x1);
        x := x + 1;
      }
      assert x1 <= x2 ==> values[..x - x1] == values;
    }

    method LineDrawV(x: int, y1: int, y2: int, v: Pixel)
      requires Valid() && 0 <= x < width && 0 <= y1 && y2 < height
      modifies buf
      ensures Picture() == LineV(old(Picture()), orientation, x, y1, y2, v)
    {
      hide Cell;
      var p := Cursor(x, y1);
      ghost var f := Picture();
      var y := y1;
      while y <= y2
        invariant y1 <= y && (y1 <= y2 ==> y <= y2 + 1 && p == Cell(orientation, x, y))
        invariant y1 <= y2 ==> Picture() == DrawColumn(f, orientation, x, y1, y - y1, v)
        invariant y1 > y2 ==> Picture() == f
      {
        ColumnGrows(f, orientation, x, y1, y - y1, v);
        buf[p] := v;
        p := p + verticalInc;
        y := y + 1;
      }
    }

    /** One row of a rectangle, from the row's cursor and the offset of its first pixel. */
    method FillRow(p: int, offset: int, x1: int, x2: int, ghost y: int, v: Pixel)
      requires Valid() && 0 <= x1 && x2 < width && 0 <= y < height
      requires p + offset == Cell(orientation, x1, y)
      modifies buf
      ensures Picture() == LineH(old(Picture()), orientation, x1, x2, y, v)
    {
      hide Cell, DrawRow;
      ghost var f, values := Picture(), Plain(Span(x1, x2), v);
      if x1 <= x2 {
        RowStarts(f, orientation, x1, y, values);
      }
      var at := offset;
      var x := x1;
      while x <= x2
        invariant x1 <= x && (x1 <= x2 ==> x <= x2 + 1 && AtPixel(f, x1, y, values, x - x1, p + at))
        invariant x1 > x2 ==> Picture() == f
      {
        var next := Plot(p + at, v, f, x1, y, values, x - x1);
        at := next - p;
        x := x + 1;
      }
      assert x1 <= x2 ==> values[..x - x1] == values;
    }

    method RectFill(r: Rectangle, v: Pixel)
      requires Valid() && RectFits(orientation, r)
      modifies buf
      ensures Picture() == Filled(old(Picture()), orientation, r, v)
    {
      hide Cell, DrawRow;
      var offset := RemapX(orientation, r.xMin, r.yMin);
      var p := RemapY(orientation, r.xMin, r.yMin) * H_SIZE;
      assert p + offset == Cell(orientation, r.xMin, r.yMin) by { CellIs(orientation, r.xMin, r.yMin); }
      ghost var f := Picture();
      ghost var drawn := r.xMin <= r.xMax && r.yMin <= r.yMax;
      var y := r.yMin;
      while y <= r.yMax
        invariant r.yMin <= y && (r.yMin <= r.yMax ==> y <= r.yMax + 1)
        invariant p + offset == Cell(orientation, r.xMin, y)
        invariant Picture() == if drawn
          then DrawBox(f, orientation, r.xMin, r.yMin, Span(r.xMin, r.xMax), y - r.yMin, v) else f
      {
        FillRow(p, offset, r.xMin, r.xMax, y, v);
        CellSteps(orientation, r.xMin, y);
        p := p + verticalInc;
        y := y + 1;
      }
    }

    // ---- image data ---------------------------------------------------------------------------

    /** A run of `count` pixels of 1-bit data: an inner loop over the bits of each byte. */
    method Draw1(p0: int, x0: nat, count: nat, data: seq<bv8>, palette: seq<bv8>, ghost x: int, ghost y: int)
      requires Valid() && p0 == Cell(orientation, x, y) && RowFits(orientation, x, y, count)
      requires forall k: nat | Skipped(Bpp1, x0) <= k < Skipped(Bpp1, x0) + count :: HasPixel(Bpp1, data, palette, k)
      modifies buf
      ensures Picture() == DrawRow(old(Picture()), orientation, x, y,
                                   Pixels(Bpp1, data, palette, Skipped(Bpp1, x0), count))
    {
      hide Cell, DrawRow, HalfWord, Bit, HasPixel, PixelAt;
      ghost var f, first := Picture(), Skipped(Bpp1, x0);
      ghost var values := Pixels(Bpp1, data, palette, first, count);
      RowStarts(f, orientation, x, y, values);
      var p, bit, left, at := p0, x0, count, 0;
      while left != 0
        invariant left <= count && AtPixel(f, x, y, values, count - left, p)
        invariant 0 <= bit && (left != 0 ==> if bit < 8 then 8 * at + bit == first + (count - left)
          else at == 0 && left == count && first == 8)
        decreases left, bit
      {
        BitPixel(data, palette, (first + count - left) / 8, (first + count - left) % 8);
        var byte := data[at];
        at := at + 1;
        while bit < 8 && left != 0
          invariant left <= count && AtPixel(f, x, y, values, count - left, p) && 0 <= bit
          invariant 0 < at <= |data| && byte == data[at - 1]
          invariant if bit <= 8 then 8 * (at - 1) + bit == first + (count - left)
            else left == count && first == 8 == 8 * at
          decreases left
        {
          BitPixel(data, palette, at - 1, bit);
          p := Plot(p, HalfWord(palette, 4 * Bit(byte, bit)), f, x, y, values, count - left);
          bit, left := bit + 1, left - 1;
        }
        bit := 0;
      }
      assert values[..count] == values;
    }

    /** One pixel of 4-bit data. */
    method DrawNibble(p: int, nibble: nat, palette: seq<bv8>, ghost f: Frame, ghost x: int, ghost y: int,
        ghost values: seq<Pixel>, ghost n: nat)
      returns (next: int)
      requires Valid() && AtPixel(f, x, y, values, n, p) && n < |values|
      requires 3 * nibble + 3 <= |palette| && values[n] == Colour(palette, nibble)
      modifies buf
      ensures AtPixel(f, x, y, values, n + 1, next)
    {
      hide Cell, DrawRow, Colour;
      next := Plot(p, Colour(palette, nibble), f, x, y, values, n);
    }

    /** A run of 4-bit data: for an odd start the loop is entered in its middle, at the lower nibble. */
    method Draw4(p0: int, x0: nat, count: nat, data: seq<bv8>, palette: seq<bv8>, ghost x: int, ghost y: int)
      requires Valid() && p0 == Cell(orientation, x, y) && RowFits(orientation, x, y, count)
      requires x0 % 2 == 1 ==> count > 0
      requires forall k: nat | x0 % 2 <= k < x0 % 2 + count :: HasPixel(Bpp4, data, palette, k)
      modifies buf
      ensures Picture() == DrawRow(old(Picture()), orientation, x, y, Pixels(Bpp4, data, palette, x0 % 2, count))
    {
      hide Cell, DrawRow, Colour, HighNibble, LowNibble, HasPixel, PixelAt;
      ghost var f, odd, values := Picture(), x0 % 2, Pixels(Bpp4, data, palette, x0 % 2, count);
      RowStarts(f, orientation, x, y, values);
      var p, left, at := p0, count, 0;
      if x0 % 2 == 1 {
        NibblePixel(data, palette, 0, true);
        p := DrawNibble(p, LowNibble(data[at]), palette, f, x, y, values, 0);
        at, left := 1, left - 1;
      }
      while left != 0
        invariant left <= count && AtPixel(f, x, y, values, count - left, p)
        invariant left != 0 ==> 2 * at == odd + (count - left)
        decreases left
      {
        NibblePixel(data, palette, at, false);
        p := DrawNibble(p, HighNibble(data[at]), palette, f, x, y, values, count - left);
        left := left - 1;
        if left != 0 {
          NibblePixel(data, palette, at, true);
          p := DrawNibble(p, LowNibble(data[at]), palette, f, x, y, values, count - left);
          at, left := at + 1, left - 1;
        }
      }
      assert values[..count] == values;
    }

    /** A run of 8-bit data. */
    method Draw8(p0: int, count: nat, data: seq<bv8>, palette: seq<bv8>, ghost x: int, ghost y: int)
      requires Valid() && p0 == Cell(orientation, x, y) && RowFits(orientation, x, y, count)
      requires forall k: nat | 0 <= k < count :: HasPixel(Bpp8, data, palette, k)
      modifies buf
      ensures Picture() == DrawRow(old(Picture()), orientation, x, y, Pixels(Bpp8, data, palette, 0, count))
    {
      hide Cell, DrawRow, Colour;
      ghost var f, values := Picture(), Pixels(Bpp8, data, palette, 0, count);
      RowStarts(f, orientation, x, y, values);
      var p, left, at := p0, count, 0;
      while left != 0
        invariant left <= count && at == count - left && AtPixel(f, x, y, values, at, p)
        decreases left
      {
        assert HasPixel(Bpp8, data, palette, at);
        p := Plot(p, Colour(palette, data[at] as nat), f, x, y, values, at);
        at, left := at + 1, left - 1;
      }
      assert values[..count] == values;
    }

    /** A run of pixels in the display's own format. */
    method Draw16(p0: int, count: nat, data: seq<bv8>, palette: seq<bv8>, ghost x: int, ghost y: int)
      requires Valid() && p0 == Cell(orientation, x, y) && RowFits(orientation, x, y, count)
      requires forall k: nat | 0 <= k < count :: HasPixel(Bpp16, data, palette, k)
      modifies buf
      ensures Picture() == DrawRow(old(Picture()), orientation, x, y, Pixels(Bpp16, data, palette, 0, count))
    {
      hide Cell, DrawRow, HalfWord;
      ghost var f, values := Picture(), Pixels(Bpp16, data, palette, 0, count);
      RowStarts(f, orientation, x, y, values);
      var p, left, at := p0, count, 0;
      while left != 0
        invariant left <= count && at == 2 * (count - left) && AtPixel(f, x, y, values, count - left, p)
        decreases left
      {
        assert HasPixel(Bpp16, data, palette, count - left);
        p := Plot(p, HalfWord(data, at), f, x, y, values, count - left);
        at, left := at + 2, left - 1;
      }
      assert values[..count] == values;
    }

    /** A run of image data at any depth leaves what single pixels would. */
    method PixelDrawMultiple(x: int, y: int, x0: nat, count: nat, depth: Depth, data: seq<bv8>, palette: seq<bv8>)
      requires Valid() && RowFits(orientation, x, y, count)
      requires depth.Bpp4? && x0 % 2 == 1 ==> count > 0
      requires forall k: nat | Skipped(depth, x0) <= k < Skipped(depth, x0) + count :: HasPixel(depth, data, palette, k)
      modifies buf
      ensures Picture() == DrawRow(old(Picture()), orientation, x, y,
                                   Pixels(depth, data, palette, Skipped(depth, x0), count))
    {
      hide Cell, DrawRow, HasPixel;
      var p := Cursor(x, y);
      match depth
      case Bpp1 => Draw1(p, x0, count, data, palette, x, y);
      case Bpp4 => Draw4(p, x0, count, data, palette, x, y);
      case Bpp8 => Draw8(p, count, data, palette, x, y);
      case Bpp16 => Draw16(p, count, data, palette, x, y);
    }
  }

  lemma CellIs(o: Orientation, x: int, y: int)
    ensures Cell(o, x, y) == RemapY(o, x, y) * H_SIZE + RemapX(o, x, y)
  {
  }
}
