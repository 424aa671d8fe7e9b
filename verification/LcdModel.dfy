/** Drawing by single pixels in drivers/lcd_driver.c: where each pixel of the four orientations lies in the
    frame buffer, what a run of `LCD_PixelDraw` calls leaves there, and how image data is read. */
module LcdModel {
  import opened BitNumbers
  import opened Octets

  const H_SIZE := 320
  const V_SIZE := 240
  const CELLS := 76800

  type Pixel = bv16
  type Frame = f: seq<Pixel> | |f| == CELLS witness seq(CELLS, i => 0)

  // ---- orientations -------------------------------------------------------------------------

  datatype Orientation = Landscape | LandscapeFlip | Portrait | PortraitFlip

  function Width(o: Orientation): nat {
    if o.Landscape? || o.LandscapeFlip? then H_SIZE else V_SIZE
  }

  function Height(o: Orientation): nat {
    if o.Landscape? || o.LandscapeFlip? then V_SIZE else H_SIZE
  }

  function HorizontalInc(o: Orientation): int {
    match o
    case Landscape => 1
    case LandscapeFlip => -1
    case Portrait => -H_SIZE
    case PortraitFlip => H_SIZE
  }

  function VerticalInc(o: Orientation): int {
    match o
    case Landscape => H_SIZE
    case LandscapeFlip => -H_SIZE
    case Portrait => 1
    case PortraitFlip => -1
  }

  function RemapX(o: Orientation, x: int, y: int): int {
    match o
    case Landscape => x
    case LandscapeFlip => 319 - x
    case Portrait => y
    case PortraitFlip => 319 - y
  }

  function RemapY(o: Orientation, x: int, y: int): int {
    match o
    case Landscape => y
    case LandscapeFlip => 239 - y
    case Portrait => 239 - x
    case PortraitFlip => x
  }

  predicate OnScreen(o: Orientation, x: int, y: int) {
    0 <= x < Width(o) && 0 <= y < Height(o)
  }

  /** The place of a pixel in the frame buffer. */
  function Cell(o: Orientation, x: int, y: int): int {
    RemapY(o, x, y) * H_SIZE + RemapX(o, x, y)
  }

  /** One pixel to the right or down is one increment of the cursor, on the screen or off it. */
  lemma CellSteps(o: Orientation, x: int, y: int)
    ensures Cell(o, x + 1, y) == Cell(o, x, y) + HorizontalInc(o)
    ensures Cell(o, x, y + 1) == Cell(o, x, y) + VerticalInc(o)
  {
  }

  /** Different pixels lie in different cells of the frame. */
  lemma CellsDistinct(o: Orientation, x: int, y: int, x': int, y': int)
    requires OnScreen(o, x, y) && OnScreen(o, x', y')
    ensures 0 <= Cell(o, x, y) < CELLS
    ensures Cell(o, x, y) == Cell(o, x', y') <==> x == x' && y == y'
  {
  }

  /** The pixel a cell belongs to. */
  function PixelOf(o: Orientation, cell: nat): (int, int) {
    var row, column := cell / H_SIZE, cell % H_SIZE;
    match o
    case Landscape => (column, row)
    case LandscapeFlip => (319 - column, 239 - row)
    case Portrait => (239 - row, column)
    case PortraitFlip => (row, 319 - column)
  }

  /** Every cell belongs to a pixel of the screen. */
  lemma CellsCovered(o: Orientation, cell: nat)
    requires cell < CELLS
    ensures var p := PixelOf(o, cell); OnScreen(o, p.0, p.1) && Cell(o, p.0, p.1) == cell
  {
  }

  /** On its side or upside down the picture is the same, turned by quarters: the upright one begins at the first cell,
      the flipped one at the last, and the portrait ones at the ends of the edges between. */
  lemma QuarterTurns(x: int, y: int)
    ensures Cell(Landscape, x, y) == 320 * y + x
    ensures Cell(LandscapeFlip, x, y) == Cell(Landscape, 319 - x, 239 - y)
    ensures Cell(Portrait, x, y) == Cell(Landscape, y, 239 - x)
    ensures Cell(PortraitFlip, x, y) == Cell(Portrait, 239 - x, 319 - y)
    ensures Width(Landscape) == Width(LandscapeFlip) == Height(Portrait) == Height(PortraitFlip) == 320
    ensures Height(Landscape) == Height(LandscapeFlip) == Width(Portrait) == Width(PortraitFlip) == 240
  {
  }

  // ---- drawing by pixels --------------------------------------------------------------------

  /** The colour shown at a pixel. */
  function Shown(f: Frame, o: Orientation, x: int, y: int): Pixel
    requires OnScreen(o, x, y)
  {
    CellsDistinct(o, x, y, x, y);
    f[Cell(o, x, y)]
  }

  /** The effect of `LCD_PixelDraw`. */
  function Draw(f: Frame, o: Orientation, x: int, y: int, v: Pixel): Frame
    requires OnScreen(o, x, y)
  {
    CellsDistinct(o, x, y, x, y);
    f[Cell(o, x, y) := v]
  }

  predicate RowFits(o: Orientation, x: int, y: int, n: nat) {
    0 <= x && x + n <= Width(o) && 0 <= y < Height(o)
  }

  /** Pixels drawn one by one to the right. */
  function DrawRow(f: Frame, o: Orientation, x: int, y: int, values: seq<Pixel>): Frame
    requires RowFits(o, x, y, |values|)
  {
    if values == [] then f
    else
      var n := |values| - 1;
      Draw(DrawRow(f, o, x, y, values[..n]), o, x + n, y, values[n])
  }

  predicate ColumnFits(o: Orientation, x: int, y: int, n: nat) {
    0 <= x < Width(o) && 0 <= y && y + n <= Height(o)
  }

  /** `n` pixels of one colour drawn one by one downwards. */
  function DrawColumn(f: Frame, o: Orientation, x: int, y: int, n: nat, v: Pixel): Frame
    requires ColumnFits(o, x, y, n)
  {
    if n == 0 then f else Draw(DrawColumn(f, o, x, y, n - 1, v), o, x, y + n - 1, v)
  }

  function Plain(n: nat, v: Pixel): (r: seq<Pixel>)
    ensures |r| == n
  {
    seq(n, i => v)
  }

  predicate BoxFits(o: Orientation, x: int, y: int, columns: nat, rows: nat) {
    0 <= x && x + columns <= Width(o) && 0 <= y && y + rows <= Height(o)
  }

  /** A rectangle of one colour drawn pixel by pixel, row by row. */
  function DrawBox(f: Frame, o: Orientation, x: int, y: int, columns: nat, rows: nat, v: Pixel): Frame
    requires BoxFits(o, x, y, columns, rows)
  {
    if rows == 0 then f
    else DrawRow(DrawBox(f, o, x, y, columns, rows - 1, v), o, x, y + rows - 1, Plain(columns, v))
  }

  /** A row of pixels shows its values and leaves every other pixel alone. */
  lemma {:induction false} RowShows(f: Frame, o: Orientation, x: int, y: int, values: seq<Pixel>, px: int, py: int)
    requires RowFits(o, x, y, |values|) && OnScreen(o, px, py)
    ensures Shown(DrawRow(f, o, x, y, values), o, px, py) ==
      if py == y && x <= px < x + |values| then values[px - x] else Shown(f, o, px, py)
    decreases |values|
  {
    hide Cell;
    if values != [] {
      var n := |values| - 1;
      CellsDistinct(o, x + n, y, px, py);
      CellsDistinct(o, px, py, px, py);
      RowShows(f, o, x, y, values[..n], px, py);
    }
  }

  lemma {:induction false} ColumnShows(f: Frame, o: Orientation, x: int, y: int, n: nat, v: Pixel, px: int, py: int)
    requires ColumnFits(o, x, y, n) && OnScreen(o, px, py)
    ensures Shown(DrawColumn(f, o, x, y, n, v), o, px, py) ==
      if px == x && y <= py < y + n then v else Shown(f, o, px, py)
    decreases n
  {
    hide Cell;
    if n > 0 {
      CellsDistinct(o, x, y + n - 1, px, py);
      CellsDistinct(o, px, py, px, py);
      ColumnShows(f, o, x, y, n - 1, v, px, py);
    }
  }

  lemma {:induction false} BoxShows(f: Frame, o: Orientation, x: int, y: int, columns: nat, rows: nat, v: Pixel,
      px: int, py: int)
    requires BoxFits(o, x, y, columns, rows) && OnScreen(o, px, py)
    ensures Shown(DrawBox(f, o, x, y, columns, rows, v), o, px, py) ==
      if x <= px < x + columns && y <= py < y + rows then v else Shown(f, o, px, py)
    decreases rows
  {
    hide Cell, Shown;
    if rows > 0 {
      BoxShows(f, o, x, y, columns, rows - 1, v, px, py);
      RowShows(DrawBox(f, o, x, y, columns, rows - 1, v), o, x, y + rows - 1, Plain(columns, v), px, py);
    }
  }

  /** Frames that show the same on the whole screen are equal. */
  lemma SameFrame(f: Frame, g: Frame, o: Orientation)
    requires forall x, y | OnScreen(o, x, y) :: Shown(f, o, x, y) == Shown(g, o, x, y)
    ensures f == g
  {
    forall c | 0 <= c < CELLS ensures f[c] == g[c] {
      CellsCovered(o, c);
      var p := PixelOf(o, c);
      assert Shown(f, o, p.0, p.1) == Shown(g, o, p.0, p.1);
    }
  }

  // ---- image data ---------------------------------------------------------------------------

  /** A 24-bit colour, blue in the lowest byte, as a pixel of five, six and five bits. */
  function Translate(c: bv32): Pixel {
    (((c & 0xf8_0000) >> 8) | ((c & 0xfc00) >> 5) | ((c & 0xf8) >> 3)) as bv16
  }

  /** The pixel keeps the highest bits of each channel. */
  lemma TranslateKeepsChannels(c: bv32)
    ensures Translate(c) >> 11 == (((c >> 16) & 0xff) >> 3) as bv16
    ensures (Translate(c) >> 5) & 0x3f == (((c >> 8) & 0xff) >> 2) as bv16
    ensures Translate(c) & 0x1f == ((c & 0xff) >> 3) as bv16
  {
  }

  /** Entry `k` of a palette of three bytes a colour. The program reads four bytes and masks the last one off. */
  function Colour(palette: seq<bv8>, k: nat): Pixel
    requires 3 * k + 3 <= |palette|
  {
    Translate(palette[3 * k] as bv32 | (palette[3 * k + 1] as bv32 << 8) | (palette[3 * k + 2] as bv32 << 16))
  }

  function HalfWord(bytes: seq<bv8>, at: nat): bv16
    requires at + 2 <= |bytes|
  {
    bytes[at] as bv16 | (bytes[at + 1] as bv16 << 8)
  }

  function Bit(b: bv8, at: nat): (k: nat)
    requires at < 8
    ensures k < 2
  {
    ((b >> (7 - at)) & 1) as nat
  }

  function HighNibble(b: bv8): (k: nat)
    ensures k < 16
  {
    (b >> 4) as nat
  }

  function LowNibble(b: bv8): (k: nat)
    ensures k < 16
  {
    (b & 15) as nat
  }

  /** The three bytes of a palette entry are blue, green and red; the pixel has red in its highest five bits, green in
      the next six and blue in the lowest five. */
  lemma ColourChannels(palette: seq<bv8>, k: nat)
    requires 3 * k + 3 <= |palette|
    ensures var c := Colour(palette, k);
      && c >> 11 == (palette[3 * k + 2] >> 3) as bv16
      && (c >> 5) & 0x3F == (palette[3 * k + 1] >> 2) as bv16
      && c & 0x1F == (palette[3 * k] >> 3) as bv16
  {
    ChannelsOf(palette[3 * k], palette[3 * k + 1], palette[3 * k + 2]);
  }

  lemma ChannelsOf(b: bv8, g: bv8, r: bv8)
    ensures var c := Translate(b as bv32 | (g as bv32 << 8) | (r as bv32 << 16));
      && c >> 11 == (r >> 3) as bv16 && (c >> 5) & 0x3F == (g >> 2) as bv16 && c & 0x1F == (b >> 3) as bv16
  {
  }

  lemma HalfWordIs(bytes: seq<bv8>, at: nat)
    requires at + 2 <= |bytes|
    ensures HalfWord(bytes, at) == bytes[at] as bv16 | (bytes[at + 1] as bv16 << 8)
  {
  }

  /** Pixels in the display's own format have their low byte first. */
  lemma HalfWordNumber(bytes: seq<bv8>, at: nat)
    requires at + 2 <= |bytes|
    ensures Value16(HalfWord(bytes, at)) == FromByte(bytes[at]) + 256 * FromByte(bytes[at + 1])
  {
    hide HalfWord, Value16, FromByte;
    HalfWordIs(bytes, at);
    WordNumber(bytes[at + 1], bytes[at]);
    WordSwapped(bytes[at + 1], bytes[at]);
  }

  /** The leftmost of the eight pixels of a byte is its highest bit. */
  lemma BitsNumber8(b: bv8)
    ensures FromByte(b) == 128 * Bit(b, 0) + 64 * Bit(b, 1) + 32 * Bit(b, 2) + 16 * Bit(b, 3)
      + 8 * Bit(b, 4) + 4 * Bit(b, 5) + 2 * Bit(b, 6) + Bit(b, 7)
  {
  }

  /** The left one of the two pixels of a byte is its upper half. */
  lemma NibblesNumber(b: bv8)
    ensures FromByte(b) == 16 * HighNibble(b) + LowNibble(b)
  {
  }

  datatype Depth = Bpp1 | Bpp4 | Bpp8 | Bpp16

  /** Where the first pixel of the data lies, in pixels from the first byte. A starting bit behind the first byte means
      the first bit of the second. */
  function Skipped(depth: Depth, x0: nat): nat {
    match depth
    case Bpp1 => if x0 < 8 then x0 else 8
    case Bpp4 => x0 % 2
    case _ => 0
  }

  /** The data has a pixel number `k`, and the palette its colour. */
  predicate HasPixel(depth: Depth, data: seq<bv8>, palette: seq<bv8>, k: nat) {
    match depth
    case Bpp1 => k / 8 < |data| && 4 * Bit(data[k / 8], k % 8) + 4 <= |palette|
    case Bpp4 =>
      && k / 2 < |data|
      && 3 * (if k % 2 == 0 then HighNibble(data[k / 2]) else LowNibble(data[k / 2])) + 3 <= |palette|
    case Bpp8 => k < |data| && 3 * (data[k] as nat) + 3 <= |palette|
    case Bpp16 => 2 * k + 2 <= |data|
  }

  /** The colour of pixel number `k` of the data: the leftmost pixel is in the highest bits of a byte. */
  function PixelAt(depth: Depth, data: seq<bv8>, palette: seq<bv8>, k: nat): Pixel
    requires HasPixel(depth, data, palette, k)
  {
    match depth
    case Bpp1 => HalfWord(palette, 4 * Bit(data[k / 8], k % 8))
    case Bpp4 => Colour(palette, if k % 2 == 0 then HighNibble(data[k / 2]) else LowNibble(data[k / 2]))
    case Bpp8 => Colour(palette, data[k] as nat)
    case Bpp16 => HalfWord(data, 2 * k)
  }

  /** The `count` colours of a run. */
  function Pixels(depth: Depth, data: seq<bv8>, palette: seq<bv8>, first: nat, count: nat): (r: seq<Pixel>)
    requires forall k: nat | first <= k < first + count :: HasPixel(depth, data, palette, k)
    ensures |r| == count && forall i :: 0 <= i < count ==> r[i] == PixelAt(depth, data, palette, first + i)
  {
    seq(count, i requires 0 <= i < count => PixelAt(depth, data, palette, first + i))
  }

  /** Pixel `k` of 1-bit data is the low half of one of two palette entries of four bytes. */
  lemma BitPixels(data: seq<bv8>, palette: seq<bv8>, k: nat)
    requires HasPixel(Bpp1, data, palette, k)
    ensures var b := Bit(data[k / 8], k % 8);
      Value16(PixelAt(Bpp1, data, palette, k)) == FromByte(palette[4 * b]) + 256 * FromByte(palette[4 * b + 1])
  {
    hide HalfWord, Bit, Value16, FromByte;
    HalfWordNumber(palette, 4 * Bit(data[k / 8], k % 8));
  }

  /** Of 4-bit data it is the palette entry its half of a byte names, */
  lemma NibblePixels(data: seq<bv8>, palette: seq<bv8>, k: nat)
    requires HasPixel(Bpp4, data, palette, k)
    ensures var n := FromByte(data[k / 2]);
      var entry := if k % 2 == 0 then n / 16 else n % 16;
      3 * entry + 3 <= |palette| && PixelAt(Bpp4, data, palette, k) == Colour(palette, entry)
  {
    hide Colour, HighNibble, LowNibble, FromByte;
    NibblesNumber(data[k / 2]);
  }

  /** of 8-bit data the entry its byte names, */
  lemma BytePixels(data: seq<bv8>, palette: seq<bv8>, k: nat)
    requires HasPixel(Bpp8, data, palette, k)
    ensures var entry := FromByte(data[k]);
      3 * entry + 3 <= |palette| && PixelAt(Bpp8, data, palette, k) == Colour(palette, entry)
  {
    hide Colour;
  }

  /** and in the display's own format it stands for itself. */
  lemma WordPixels(data: seq<bv8>, palette: seq<bv8>, k: nat)
    requires HasPixel(Bpp16, data, palette, k)
    ensures Value16(PixelAt(Bpp16, data, palette, k)) == FromByte(data[2 * k]) + 256 * FromByte(data[2 * k + 1])
  {
    hide HalfWord, Value16, FromByte;
    HalfWordNumber(data, 2 * k);
  }
}
