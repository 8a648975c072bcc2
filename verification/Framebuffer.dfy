/** The boot test pattern: three brightness ramps inside a white frame, written in
    place into a framebuffer whose rows are `stride` pixels apart. */
module Framebuffer {
  import opened Words

  const PIXEL_RGBX: u32 := 0

  /** One pixel: blue at bit 16 and red at bit 0 for RGBX, exchanged for any other format. */
  function Pack(format: u32, r: bv8, g: bv8, b: bv8): bv32 {
    if format == PIXEL_RGBX then ((b as bv32) << 16) | ((g as bv32) << 8) | (r as bv32)
    else ((r as bv32) << 16) | ((g as bv32) << 8) | (b as bv32)
  }

  /** The bytes a display controller of each format reads as red, green and blue. */
  function Red(format: u32, w: bv32): bv8 {
    if format == 0 then (w & 0xFF) as bv8 else ((w >> 16) & 0xFF) as bv8
  }

  function Green(w: bv32): bv8 {
    ((w >> 8) & 0xFF) as bv8
  }

  function Blue(format: u32, w: bv32): bv8 {
    if format == 0 then ((w >> 16) & 0xFF) as bv8 else (w & 0xFF) as bv8
  }

  /** Every channel comes back out of a packed pixel, and the top byte is clear. */
  lemma PackedChannels(format: u32, r: bv8, g: bv8, b: bv8)
    ensures Red(format, Pack(format, r, g, b)) == r
    ensures Green(Pack(format, r, g, b)) == g
    ensures Blue(format, Pack(format, r, g, b)) == b
    ensures Pack(format, r, g, b) >> 24 == 0
  {
  }

  // ---- the ramp ---------------------------------------------------------------------

  /** Which third of the row a pixel is in; 3 and more for the remainder. */
  function Channel(width: nat, x: nat): nat {
    var bar := width / 3;
    if bar != 0 then x / bar else 0
  }

  function Offset(width: nat, x: nat): nat {
    var bar := width / 3;
    if bar != 0 then x % bar else x
  }

  /** Width of a ramp: a third of the row, or the whole row where that is nothing. */
  function Span(width: nat): nat {
    if width / 3 != 0 then width / 3 else width
  }

  /** `offset * 223` in 32 bits, wrap-around included, over the width of the ramp. */
  function Scaled(offset: nat, span: nat): nat
    requires 0 < span
  {
    offset * 223 % 0x1_0000_0000 / span
  }

  /** Brightness of column `x`, before the cast to 8 bits. */
  function Level(width: nat, x: nat): nat
    requires x < width
  {
    32 + Scaled(Offset(width, x), Span(width))
  }

  lemma OffsetInSpan(width: nat, x: nat)
    requires x < width
    ensures Offset(width, x) < Span(width)
  {
  }

  /** Never black and never white, whatever the width: the cast loses nothing. */
  lemma LevelBounds(width: nat, x: nat)
    requires x < width
    ensures 32 <= Level(width, x) <= 254
  {
    OffsetInSpan(width, x);
    var n := Offset(width, x) * 223 % 0x1_0000_0000;
    assert n <= Offset(width, x) * 223 < 223 * Span(width);
    QuotientBelow(n, Span(width), 223);
  }

  lemma QuotientBelow(n: nat, d: nat, q: nat)
    requires 0 < d && n < q * d
    ensures n / d < q
  {
    if n / d >= q {
      Monotone(q, n / d, d);
    }
  }

  lemma Monotone(a: nat, b: nat, c: nat)
    requires a <= b
    ensures a * c <= b * c
  {
  }

  lemma QuotientMonotone(a: nat, b: nat, d: nat)
    requires a <= b && 0 < d
    ensures a / d <= b / d
  {
    if a / d > b / d {
      Monotone(b / d + 1, a / d, d);
    }
  }

  lemma QuotientIs(x: nat, d: nat, q: nat)
    requires 0 < d && q * d <= x < (q + 1) * d
    ensures x / d == q && x % d == x - q * d
  {
    QuotientBelow(x, d, q + 1);
    if x / d < q {
      Monotone(x / d + 1, q, d);
    }
  }

  lemma ScaledMonotone(o: nat, o': nat, span: nat)
    requires o <= o' && 0 < span && o' * 223 < 0x1_0000_0000
    ensures Scaled(o, span) <= Scaled(o', span)
  {
    QuotientMonotone(o * 223, o' * 223, span);
  }

  /** Nowhere does the brightness fall between two pixels of the same bar. */
  ghost predicate RampRises(width: nat) {
    forall x, x' :: 0 <= x <= x' < width && Channel(width, x) == Channel(width, x') ==> Level(width, x) <= Level(width, x')
  }

  /** The ramps rise from dark to bright exactly when the widest offset times 223 still
      fits 32 bits; past that width every bar falls back to dark at the wrap. */
  lemma RampRisesExactly(width: nat)
    requires width <= 0xFFFF_FFFF
    ensures RampRises(width) <==> width / 3 * 223 < 0x1_0000_0000 + 223
  {
    var bar := width / 3;
    if bar * 223 < 0x1_0000_0000 + 223 {
      forall x, x' | 0 <= x <= x' < width && Channel(width, x) == Channel(width, x')
        ensures Level(width, x) <= Level(width, x')
      {
        NoFall(width, x, x');
      }
    } else {
      FallsAtWrap(width);
    }
  }

  lemma NoFall(width: nat, x: nat, x': nat)
    requires x <= x' < width && Channel(width, x) == Channel(width, x')
    requires width / 3 * 223 < 0x1_0000_0000 + 223
    ensures Level(width, x) <= Level(width, x')
  {
    hide Scaled;
    OffsetInSpan(width, x');
    OffsetsOrdered(width, x, x');
    ScaledMonotone(Offset(width, x), Offset(width, x'), Span(width));
  }

  lemma OffsetsOrdered(width: nat, x: nat, x': nat)
    requires x <= x' < width && Channel(width, x) == Channel(width, x')
    ensures Offset(width, x) <= Offset(width, x')
  {
    var bar := width / 3;
    if bar != 0 {
      assert x == bar * (x / bar) + x % bar;
      assert x' == bar * (x' / bar) + x' % bar;
    }
  }

  /** The first offset whose product wraps. */
  const FIRST_WRAP: nat := 19259944

  /** The first wrapping offset is dark again, beside a brighter one. */
  lemma FallsAtWrap(width: nat)
    requires width <= 0xFFFF_FFFF && width / 3 * 223 >= 0x1_0000_0000 + 223
    ensures !RampRises(width)
  {
    var bar := width / 3;
    ScaledAtWrap(bar);
    QuotientIs(FIRST_WRAP, bar, 0);
    QuotientIs(FIRST_WRAP - 1, bar, 0);
    assert Channel(width, FIRST_WRAP - 1) == Channel(width, FIRST_WRAP);
    assert Level(width, FIRST_WRAP) < Level(width, FIRST_WRAP - 1) by {
      hide Scaled;
    }
  }

  lemma ScaledAtWrap(bar: nat)
    requires FIRST_WRAP < bar <= 0x5555_5555
    ensures Scaled(FIRST_WRAP, bar) == 0 < Scaled(FIRST_WRAP - 1, bar)
  {
    assert FIRST_WRAP * 223 % 0x1_0000_0000 == 216;
    QuotientIs(216, bar, 0);
    assert (FIRST_WRAP - 1) * 223 % 0x1_0000_0000 == 4294967289;
    QuotientMonotone(bar, 4294967289, bar);
  }

  /** Does the brightness of the last colour rise all the way to the right edge? */
  ghost predicate LastColourRises(width: nat) {
    forall x, x' :: 2 * (width / 3) <= x <= x' < width ==> Level(width, x) <= Level(width, x')
  }

  /** The remainder columns carry the last colour but start its ramp again: it rises to
      the edge only without a remainder, or where the bars are too narrow for a ramp. */
  lemma LastColourRisesExactly(width: nat)
    requires width <= 0xFFFF_FFFF
    ensures LastColourRises(width) <==>
      width / 3 * 223 < 0x1_0000_0000 + 223 && (width % 3 == 0 || width < 6)
  {
    var bar := width / 3;
    if bar * 223 >= 0x1_0000_0000 + 223 {
      LastColourFallsAtWrap(width);
    } else if width % 3 == 0 || width < 6 {
      forall x, x' | 2 * bar <= x <= x' < width ensures Level(width, x) <= Level(width, x') {
        if bar == 1 {
          assert x % 1 == 0 && x' % 1 == 0;
        } else {
          if bar > 1 {
            QuotientIs(x, bar, 2);
            QuotientIs(x', bar, 2);
          }
          NoFall(width, x, x');
        }
      }
    } else {
      RampStartsAgain(width);
    }
  }

  lemma RampStartsAgain(width: nat)
    requires width / 3 * 223 < 0x1_0000_0000 + 223 && width % 3 != 0 && 6 <= width
    ensures !LastColourRises(width)
  {
    var bar := width / 3;
    var x := 3 * bar - 1;
    QuotientIs(x, bar, 2);
    QuotientIs(x + 1, bar, 3);
    assert Offset(width, x) == bar - 1 && Offset(width, x + 1) == 0;
    ScaledAtEnds(bar);
    assert Level(width, x + 1) < Level(width, x) by {
      hide Scaled;
    }
  }

  lemma ScaledAtEnds(bar: nat)
    requires 2 <= bar && bar * 223 < 0x1_0000_0000 + 223
    ensures Scaled(bar - 1, bar) > 0 == Scaled(0, bar)
  {
    var high := (bar - 1) * 223;
    assert high >= bar && high % 0x1_0000_0000 == high;
    QuotientMonotone(bar, high, bar);
  }

  lemma LastColourFallsAtWrap(width: nat)
    requires width <= 0xFFFF_FFFF && width / 3 * 223 >= 0x1_0000_0000 + 223
    ensures !LastColourRises(width)
  {
    var bar := width / 3;
    var x := 2 * bar + FIRST_WRAP;
    ScaledAtWrap(bar);
    QuotientIs(x, bar, 2);
    QuotientIs(x - 1, bar, 2);
    assert Level(width, x) < Level(width, x - 1) by {
      hide Scaled;
    }
  }

  /** The cast to 8 bits of a number that fits them. */
  function ByteOf(n: nat): (b: bv8)
    requires n < 256
    ensures b as int == n
  {
    if n == 0 then 0
    else
      NextByte(ByteOf(n - 1));
      ByteOf(n - 1) + 1
  }

  lemma NextByte(b: bv8)
    requires b as int < 255
    ensures (b + 1) as int == b as int + 1
  {
  }

  /** Channel value `c` is the brightness of column `x`: with `o` columns into a ramp of
      `span`, 32 plus the 223 parts of the way, rounded down, the product being taken in
      32 bits. The remainder columns start a ramp of their own; a row of one or two
      columns is one ramp. */
  predicate Lit(width: nat, x: nat, c: int)
    requires x < width
  {
    var bar := width / 3;
    var span := if bar == 0 then width else bar;
    var o := if bar == 0 then x else x - x / bar * bar;
    (c - 32) * span <= o * 223 % 0x1_0000_0000 < (c - 31) * span
  }

  predicate Rounded(q: int, d: nat, n: nat) {
    q * d <= n < (q + 1) * d
  }

  lemma LitMeans(width: nat, x: nat, c: int)
    requires x < width
    ensures Lit(width, x, c) <==> Rounded(c - 32, Span(width), Offset(width, x) * 223 % 0x1_0000_0000)
  {
    var bar := width / 3;
    assert bar != 0 ==> x == x / bar * bar + x % bar;
  }

  lemma QuotientRounded(n: nat, d: nat)
    requires 0 < d
    ensures Rounded(n / d, d, n)
  {
  }

  lemma RoundedOnce(q: int, q': int, d: nat, n: nat)
    requires Rounded(q, d, n) && Rounded(q', d, n)
    ensures q == q'
  {
    NextProduct(q, q', d);
    NextProduct(q', q, d);
  }

  lemma NextProduct(q: int, q': int, d: nat)
    ensures q < q' ==> (q + 1) * d <= q' * d
  {
    if q < q' {
      assert (q' - q - 1) * d >= 0;
    }
  }

  lemma LitByLevel(width: nat, x: nat)
    requires x < width
    ensures Lit(width, x, Level(width, x))
  {
    OffsetInSpan(width, x);
    LitMeans(width, x, Level(width, x));
    QuotientRounded(Offset(width, x) * 223 % 0x1_0000_0000, Span(width));
  }

  /** Each column has one brightness, between dark and white. */
  lemma LitOnce(width: nat, x: nat, c: int)
    requires x < width && Lit(width, x, c)
    ensures c == Level(width, x) && 32 <= c <= 254
  {
    LitByLevel(width, x);
    LevelBounds(width, x);
    LitMeans(width, x, c);
    LitMeans(width, x, Level(width, x));
    hide *;
    RoundedOnce(c - 32, Level(width, x) - 32, Span(width), Offset(width, x) * 223 % 0x1_0000_0000);
  }

  // ---- the picture ----------------------------------------------------------------------

  /** The one-channel ramp pixel of column `x`. */
  function Ramp(format: u32, width: nat, x: nat): bv32
    requires x < width
  {
    LevelBounds(width, x);
    var level := ByteOf(Level(width, x));
    match Channel(width, x)
    case 0 => Pack(format, level, 0, 0)
    case 1 => Pack(format, 0, level, 0)
    case _ => Pack(format, 0, 0, level)
  }

  predicate OnFrame(width: nat, height: nat, x: nat, y: nat) {
    y == 0 || y == height - 1 || x == 0 || x == width - 1
  }

  /** What the eye should see at column `x` of row `y`: full white on the frame, and
      inside it the brightness of the column in one channel, the other two dark. */
  ghost predicate Shows(format: u32, width: nat, height: nat, x: nat, y: nat, pixel: bv32)
    requires x < width && y < height
  {
    var r, g, b := Red(format, pixel) as int, Green(pixel) as int, Blue(format, pixel) as int;
    if OnFrame(width, height, x, y) then r == g == b == 255
    else if x < width / 3 || width < 3 then Lit(width, x, r) && g == b == 0
    else if x < 2 * (width / 3) then Lit(width, x, g) && r == b == 0
    else Lit(width, x, b) && r == g == 0
  }

  lemma RampShows(format: u32, width: nat, height: nat, x: nat, y: nat)
    requires x < width && y < height && !OnFrame(width, height, x, y)
    ensures Shows(format, width, height, x, y, Ramp(format, width, x))
  {
    LevelBounds(width, x);
    LitByLevel(width, x);
    var level := ByteOf(Level(width, x));
    PackedChannels(format, level, 0, 0);
    PackedChannels(format, 0, level, 0);
    PackedChannels(format, 0, 0, level);
    hide Pack, Red, Green, Blue, Level, ByteOf, Lit;
    var bar := width / 3;
    if bar != 0 {
      if x < bar {
        QuotientIs(x, bar, 0);
      } else if x < 2 * bar {
        QuotientIs(x, bar, 1);
      } else {
        QuotientMonotone(2 * bar, x, bar);
        QuotientIs(2 * bar, bar, 2);
      }
    }
  }

  lemma WhiteShows(format: u32, width: nat, height: nat, x: nat, y: nat)
    requires x < width && y < height && OnFrame(width, height, x, y)
    ensures Shows(format, width, height, x, y, Pack(format, 255, 255, 255))
  {
    PackedChannels(format, 255, 255, 255);
    hide Pack, Red, Green, Blue;
  }

  // ---- drawing ----------------------------------------------------------------------------

  /** Index of column `x` of row `y`. */
  function At(stride: nat, x: nat, y: nat): nat {
    y * stride + x
  }

  /** Index `i` is a cell of row `y`. */
  predicate InRow(width: nat, stride: nat, y: nat, i: nat) {
    At(stride, 0, y) <= i < At(stride, 0, y) + width
  }

  /** The first `rows` rows lie inside the buffer and show the picture. */
  ghost predicate Shown(cells: seq<bv32>, format: u32, width: nat, height: nat, stride: nat, rows: nat)
    requires rows <= height
  {
    forall x, y :: 0 <= x < width && 0 <= y < rows ==>
      At(stride, x, y) < |cells| && Shows(format, width, height, x, y, cells[At(stride, x, y)])
  }

  /** Only cells of the first `rows` rows have changed. */
  ghost predicate Untouched(before: seq<bv32>, after: seq<bv32>, width: nat, stride: nat, rows: nat) {
    && |after| == |before|
    && forall i :: 0 <= i < |before| && (forall y :: 0 <= y < rows ==> !InRow(width, stride, y, i)) ==>
                     after[i] == before[i]
  }

  /** No cell belongs to two rows that want different pixels in it: there are no inner
      rows, no inner columns, or rows overlap in their end columns at most. */
  predicate Compatible(width: nat, height: nat, stride: nat) {
    height <= 2 || width <= 2 || width <= stride + 1
  }

  /** Where two rows of a compatible screen share a cell, both have it on the frame. */
  lemma SharedCellOnFrame(width: nat, height: nat, stride: nat, x: nat, y: nat, x': nat, y': nat)
    requires Compatible(width, height, stride) && x < width && x' < width && y < y' < height
    requires At(stride, x, y) == At(stride, x', y')
    ensures OnFrame(width, height, x, y) && OnFrame(width, height, x', y')
  {
    Monotone(y + 1, y', stride);
    assert x >= stride + x';
  }

  /** One more row, drawn without touching anything else. */
  lemma RowDrawn(middle: seq<bv32>, after: seq<bv32>, format: u32, width: nat, height: nat, stride: nat, y: nat)
    requires Compatible(width, height, stride) && y < height && Shown(middle, format, width, height, stride, y)
    requires |after| == |middle| && At(stride, 0, y) + width <= |after|
    requires forall i :: 0 <= i < |middle| && !InRow(width, stride, y, i) ==> after[i] == middle[i]
    requires forall x :: 0 <= x < width ==> Shows(format, width, height, x, y, after[At(stride, x, y)])
    ensures Shown(after, format, width, height, stride, y + 1)
  {
    hide Shows, Compatible;
    forall x, y' | 0 <= x < width && 0 <= y' < y + 1
      ensures At(stride, x, y') < |after| && Shows(format, width, height, x, y', after[At(stride, x, y')])
    {
      if y' < y && InRow(width, stride, y, At(stride, x, y')) {
        var x' := At(stride, x, y') - At(stride, 0, y);
        SharedCellOnFrame(width, height, stride, x, y', x', y);
        assert Shows(format, width, height, x', y, after[At(stride, x', y)]);
        SamePixelOnFrame(format, width, height, x, y', x', y, after[At(stride, x, y')]);
      }
    }
  }

  /** All frame cells look alike. */
  lemma SamePixelOnFrame(format: u32, width: nat, height: nat, x: nat, y: nat, x': nat, y': nat, pixel: bv32)
    requires x < width && x' < width && y < height && y' < height
    requires OnFrame(width, height, x, y) && OnFrame(width, height, x', y')
    ensures Shows(format, width, height, x, y, pixel) == Shows(format, width, height, x', y', pixel)
  {
    hide Red, Green, Blue, Lit;
  }

  lemma RowUntouched(before: seq<bv32>, middle: seq<bv32>, after: seq<bv32>, width: nat, stride: nat, y: nat)
    requires Untouched(before, middle, width, stride, y) && |after| == |middle|
    requires forall i :: 0 <= i < |middle| && !InRow(width, stride, y, i) ==> after[i] == middle[i]
    ensures Untouched(before, after, width, stride, y + 1)
  {
    hide InRow;
    forall i | 0 <= i < |before| && (forall y' :: 0 <= y' < y + 1 ==> !InRow(width, stride, y', i))
      ensures after[i] == before[i]
    {
      assert !InRow(width, stride, y, i);
    }
  }

  /** Fills one row with the three ramps. */
  method FillRow(fb: array<bv32>, row: nat, format: u32, width: u32)
    requires row + width <= fb.Length
    modifies fb
    ensures forall i :: row <= i < row + width ==> fb[i] == Ramp(format, width, i - row)
    ensures forall i :: 0 <= i < fb.Length && !(row <= i < row + width) ==> fb[i] == old(fb[i])
  {
    hide Pack, Channel, Level;
    for x := 0 to width
      invariant forall i :: row <= i < row + x ==> fb[i] == Ramp(format, width, i - row)
      invariant forall i :: 0 <= i < fb.Length && !(row <= i < row + x) ==> fb[i] == old(fb[i])
    {
      LevelBounds(width, x);
      var level := ByteOf(Level(width, x));
      match Channel(width, x) {
        case 0 => fb[row + x] := Pack(format, level, 0, 0);
        case 1 => fb[row + x] := Pack(format, 0, level, 0);
        case _ => fb[row + x] := Pack(format, 0, 0, level);
      }
    }
  }

  /** Draws the frame over a filled row. Between the first and the last it stores at both
      ends, and those must exist. */
  method FrameRow(fb: array<bv32>, row: nat, format: u32, width: u32, height: u32, y: u32)
    requires row + width <= fb.Length && EndsExist(width, height, y)
    modifies fb
    ensures forall i :: row <= i < row + width ==>
      fb[i] == if OnFrame(width, height, i - row, y) then Pack(format, 255, 255, 255) else old(fb[i])
    ensures forall i :: 0 <= i < fb.Length && !(row <= i < row + width) ==> fb[i] == old(fb[i])
  {
    hide Pack;
    var white := Pack(format, 255, 255, 255);
    if y == 0 || y == height - 1 {
      for x := 0 to width
        invariant forall i :: row <= i < row + x ==> fb[i] == white
        invariant forall i :: 0 <= i < fb.Length && !(row <= i < row + x) ==> fb[i] == old(fb[i])
      {
        fb[row + x] := white;
      }
    } else {
      fb[row] := white;
      fb[row + width - 1] := white;
    }
  }

  /** Only inner rows need a first and a last column. */
  predicate EndsExist(width: nat, height: nat, y: nat) {
    y == 0 || y == height - 1 || 0 < width
  }

  /** Index of the second end store, with its 32-bit wrap-around. */
  function LastStore(width: nat, stride: nat, y: nat): nat {
    At(stride, (width - 1) % 0x1_0000_0000, y)
  }

  /** Both end stores of every inner row stay inside a buffer that ends with the last
      visible cell, or anywhere below 2^32 pixels, exactly when there is a column or no
      inner row. */
  lemma EndStoresInside(width: u32, height: u32, stride: u32, pixels: nat)
    requires height > 0 ==> At(stride, 0, height - 1) + width <= pixels
    requires pixels <= 0xFFFF_FFFF
    ensures (forall y :: 0 < y < height - 1 ==> At(stride, 0, y) < pixels && LastStore(width, stride, y) < pixels)
            <==> 0 < width || height <= 2
  {
    if 0 < width {
      forall y | 0 < y < height - 1 ensures At(stride, 0, y) < pixels && LastStore(width, stride, y) < pixels {
        Monotone(y, height - 1, stride);
      }
    } else if 2 < height {
      assert (width - 1) % 0x1_0000_0000 == 0xFFFF_FFFF;
      assert LastStore(width, stride, 1) >= pixels;
    }
  }

  /** Rows closer together cannot show the picture at all: a cell inside the frame of
      row 1 is also on the frame, of row 0 or of row 2. */
  lemma OverlappingRowsCannotShow(cells: seq<bv32>, format: u32, width: nat, height: nat, stride: nat)
    requires !Compatible(width, height, stride)
    requires height > 0 ==> At(stride, 0, height - 1) + width <= |cells|
    ensures !Shown(cells, format, width, height, stride, height)
  {
    hide Shows, At;
    FirstRows(stride);
    InBuffer(stride, 2, height);
    InBuffer(stride, 1, height);
    if stride == 0 {
      FrameOrInside(format, width, height, 1, 1, 1, 0, cells[At(stride, 1, 1)]);
    } else {
      FrameOrInside(format, width, height, stride, 1, 0, 2, cells[At(stride, stride, 1)]);
    }
  }

  lemma FirstRows(stride: nat)
    ensures At(stride, 0, 0) == 0 && At(stride, 0, 1) == stride && At(stride, 0, 2) == stride + stride
    ensures At(stride, 1, 0) == 1 && At(stride, 1, 1) == stride + 1 && At(stride, stride, 1) == stride + stride
  {
  }

  /** No pixel does for a cell on the frame and for one inside it. */
  lemma FrameOrInside(format: u32, width: nat, height: nat, x: nat, y: nat, x': nat, y': nat, pixel: bv32)
    requires x < width && y < height && !OnFrame(width, height, x, y)
    requires x' < width && y' < height && OnFrame(width, height, x', y')
    ensures !(Shows(format, width, height, x, y, pixel) && Shows(format, width, height, x', y', pixel))
  {
    hide Red, Green, Blue, Lit;
    if Shows(format, width, height, x', y', pixel) {
      NotWhiteInside(format, width, height, x, y, pixel);
    }
  }

  lemma NotWhiteInside(format: u32, width: nat, height: nat, x: nat, y: nat, pixel: bv32)
    requires x < width && y < height && !OnFrame(width, height, x, y)
    requires Red(format, pixel) as int == Green(pixel) as int == Blue(format, pixel) as int == 255
    ensures !Shows(format, width, height, x, y, pixel)
  {
    if Lit(width, x, 255) {
      LitOnce(width, x, 255);
    }
    hide Red, Green, Blue, Lit;
  }

  /** Draws the whole pattern, row by row. The picture is shown exactly when no two rows
      want different pixels in one cell; cells of no row stay as they were in any case. */
  method DrawPattern(fb: array<bv32>, format: u32, width: u32, height: u32, stride: u32)
    requires 0 < width || height <= 2
    requires height > 0 ==> At(stride, 0, height - 1) + width <= fb.Length
    modifies fb
    ensures Untouched(old(fb[..]), fb[..], width, stride, height)
    ensures Shown(fb[..], format, width, height, stride, height) <==> Compatible(width, height, stride)
  {
    hide Pack, Ramp, Shows, Compatible, Shown, Untouched;
    ghost var before := fb[..];
    NothingDrawn(before, format, width, height, stride);
    for y := 0 to height
      invariant Untouched(before, fb[..], width, stride, y)
      invariant Compatible(width, height, stride) ==> Shown(fb[..], format, width, height, stride, y)
    {
      ghost var middle := fb[..];
      var row := y * stride;
      InBuffer(stride, y, height);
      FillRow(fb, row, format, width);
      FrameRow(fb, row, format, width, height, y);
      forall x | 0 <= x < width ensures Shows(format, width, height, x, y, fb[..][At(stride, x, y)]) {
        if OnFrame(width, height, x, y) {
          WhiteShows(format, width, height, x, y);
        } else {
          RampShows(format, width, height, x, y);
        }
      }
      RowUntouched(before, middle, fb[..], width, stride, y);
      if Compatible(width, height, stride) {
        RowDrawn(middle, fb[..], format, width, height, stride, y);
      }
    }
    if !Compatible(width, height, stride) {
      OverlappingRowsCannotShow(fb[..], format, width, height, stride);
    }
  }

  lemma NothingDrawn(cells: seq<bv32>, format: u32, width: nat, height: nat, stride: nat)
    ensures Untouched(cells, cells, width, stride, 0) && Shown(cells, format, width, height, stride, 0)
  {
  }

  lemma InBuffer(stride: nat, y: nat, height: nat)
    requires y < height
    ensures At(stride, 0, y) <= At(stride, 0, height - 1)
  {
    Monotone(y, height - 1, stride);
  }
}
