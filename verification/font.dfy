/**
 * The 6-pixel proportional font of Font_06px.c.
 *
 * Each of the 48 table rows holds two glyphs side by side: the printable
 * characters 0x20..0x7F pair up, the even one on the left. Bytes 0..5 are
 * the six scanlines, the right glyph in the low bits and the left glyph
 * above it; byte 6 packs the left width in its high nibble and the right
 * width in its low nibble. Drawing a character only makes calls to the
 * framebuffer's `set_pixel`, so it is modelled by the calls it makes.
 *
 * `char` is taken as a byte, 0..255. Whether the compiler makes it signed
 * or not, the characters from 0x80 on land outside the table (as a
 * negative or as a too large row) and take the fallback glyph.
 */
module Font {
  import opened Common
  import opened Canvas

  type Char = c: nat | c < 0x100

  /** FONT_06PX_HEIGHT. */
  const Height: nat := 6
  /** FONT_06PX_CHAR_IDX_MAX. */
  const LastRow: nat := 47
  /** FONT_06PX_CHAR_WIDTH_BYTE_IDX. */
  const WidthByte: nat := 6

  /** A row of the `font_06px` table: six scanlines and the width byte. */
  datatype Entry = Entry(s0: nat, s1: nat, s2: nat, s3: nat, s4: nat, s5: nat, widths: nat)

  /** The rows of the table as a list, row 0 first. */
  datatype Rows = Nil | Cons(head: Entry, tail: Rows)

  /** The `font_06px` table. */
  const FontTable: Rows :=
    Cons(Entry(0x01, 0x01, 0x01, 0x00, 0x01, 0x00, 0x21),
    Cons(Entry(0xAA, 0xBF, 0x0A, 0x1F, 0x0A, 0x00, 0x35),
    Cons(Entry(0x74, 0xA1, 0x72, 0x2C, 0xF1, 0x20, 0x53),
    Cons(Entry(0x11, 0x29, 0x12, 0x2C, 0x28, 0x14, 0x42),
    Cons(Entry(0x06, 0x09, 0x09, 0x09, 0x06, 0x00, 0x22),
    Cons(Entry(0x48, 0x32, 0x7F, 0x32, 0x48, 0x00, 0x43),
    Cons(Entry(0x00, 0x00, 0x07, 0x08, 0x08, 0x10, 0x23),
    Cons(Entry(0x00, 0x01, 0x02, 0x04, 0x18, 0x00, 0x14),
    Cons(Entry(0x1D, 0x17, 0x15, 0x15, 0x1D, 0x00, 0x32),
    Cons(Entry(0x3F, 0x09, 0x3B, 0x21, 0x3F, 0x00, 0x33),
    Cons(Entry(0x27, 0x2C, 0x3F, 0x09, 0x0F, 0x00, 0x33),
    Cons(Entry(0x27, 0x21, 0x39, 0x29, 0x39, 0x00, 0x33),
    Cons(Entry(0x3F, 0x2D, 0x3F, 0x29, 0x39, 0x00, 0x33),
    Cons(Entry(0x00, 0x05, 0x00, 0x05, 0x02, 0x00, 0x12),
    Cons(Entry(0x08, 0x17, 0x20, 0x17, 0x08, 0x00, 0x33),
    Cons(Entry(0x12, 0x09, 0x06, 0x08, 0x12, 0x00, 0x32),
    Cons(Entry(0x66, 0x99, 0xBF, 0x89, 0x69, 0x00, 0x44),
    Cons(Entry(0xE7, 0x98, 0xE8, 0x98, 0xE7, 0x00, 0x44),
    Cons(Entry(0x77, 0x4C, 0x4E, 0x4C, 0x77, 0x00, 0x43),
    Cons(Entry(0x76, 0x48, 0x6B, 0x49, 0x46, 0x00, 0x34),
    Cons(Entry(0x4F, 0x4A, 0x7A, 0x4A, 0x4F, 0x00, 0x43),
    Cons(Entry(0xF9, 0x1A, 0x1C, 0x9A, 0x69, 0x00, 0x44),
    Cons(Entry(0x9B, 0x95, 0x95, 0x91, 0xF1, 0x00, 0x35),
    Cons(Entry(0x96, 0xD9, 0xB9, 0x99, 0x96, 0x00, 0x44),
    Cons(Entry(0xE6, 0x99, 0xE9, 0x89, 0x86, 0x01, 0x44),
    Cons(Entry(0xE6, 0x98, 0xE6, 0x91, 0x96, 0x00, 0x44),
    Cons(Entry(0x79, 0x29, 0x29, 0x29, 0x26, 0x00, 0x34),
    Cons(Entry(0xB1, 0xB1, 0xB5, 0xB5, 0x4A, 0x00, 0x35),
    Cons(Entry(0x2D, 0x2D, 0x12, 0x2A, 0x2A, 0x00, 0x33),
    Cons(Entry(0x1F, 0x06, 0x0A, 0x12, 0x1F, 0x00, 0x32),
    Cons(Entry(0x03, 0x21, 0x11, 0x09, 0x07, 0x00, 0x42),
    Cons(Entry(0x10, 0x28, 0x00, 0x00, 0x00, 0x07, 0x33),
    Cons(Entry(0x20, 0x27, 0x19, 0x09, 0x07, 0x00, 0x24),
    Cons(Entry(0x40, 0x73, 0x4C, 0x4C, 0x73, 0x00, 0x43),
    Cons(Entry(0x08, 0x3B, 0x4F, 0x4C, 0x3B, 0x00, 0x43),
    Cons(Entry(0x30, 0x27, 0x79, 0x27, 0x21, 0x0E, 0x34),
    Cons(Entry(0x42, 0x70, 0x4E, 0x4A, 0x4F, 0x00, 0x43),
    Cons(Entry(0x28, 0x09, 0x7E, 0x19, 0x19, 0x60, 0x34),
    Cons(Entry(0xC0, 0x5E, 0x55, 0x55, 0x75, 0x00, 0x35),
    Cons(Entry(0x00, 0xE6, 0x99, 0x99, 0x96, 0x00, 0x44),
    Cons(Entry(0x00, 0xE7, 0x99, 0xE7, 0x81, 0x81, 0x44),
    Cons(Entry(0x00, 0x0F, 0x12, 0x11, 0x13, 0x00, 0x32),
    Cons(Entry(0x20, 0x79, 0x29, 0x29, 0x37, 0x00, 0x34),
    Cons(Entry(0x00, 0xB1, 0xB5, 0xB5, 0x4A, 0x00, 0x35),
    Cons(Entry(0x00, 0x99, 0x69, 0x67, 0x91, 0x0E, 0x44),
    Cons(Entry(0x03, 0x72, 0x14, 0x22, 0x3B, 0x00, 0x43),
    Cons(Entry(0x0E, 0x0A, 0x01, 0x0A, 0x0E, 0x00, 0x13),
    Cons(Entry(0x2A, 0x55, 0x02, 0x00, 0x00, 0x00, 0x43),
    Nil))))))))))))))))))))))))))))))))))))))))))))))))

  /** Entry `i` of a list of rows; past the end (which the drawing code
      never reaches) an empty row. */
  function Nth(rows: Rows, i: nat): Entry {
    if rows.Nil? then Entry(0, 0, 0, 0, 0, 0, 0)
    else if i == 0 then rows.head
    else Nth(rows.tail, i - 1)
  }

  /** Row `i` of the `font_06px` table. */
  function Row(i: nat): Entry
    requires i <= LastRow
  {
    Nth(FontTable, i)
  }

  /** Byte `j` of table row `row`. */
  function Table(row: nat, j: nat): nat
    requires row <= LastRow && j <= WidthByte
  {
    var e := Row(row);
    match j
    case 0 => e.s0
    case 1 => e.s1
    case 2 => e.s2
    case 3 => e.s3
    case 4 => e.s4
    case 5 => e.s5
    case _ => e.widths
  }

  // ---------------------------------------------------------------------
  // glyph selection
  // ---------------------------------------------------------------------

  /** A glyph: a table row and which of its two halves. */
  datatype Glyph = Glyph(row: nat, left: bool)

  /** The glyph the source picks: `(character - 0x20) >> 1` is the row and
      the residue modulo 2 the half, even offsets on the left. A row outside
      0..47 falls back to the left glyph of row 1, which is 0x22 ('"'),
      although the source means to print the space there. An arithmetic
      right shift by one is floor division by two, which is what Dafny's
      `/` by 2 computes also for negative operands. */
  function SelectAsWritten(c: Char): (g: Glyph)
    ensures g.row <= LastRow
  {
    var idx := (c - 0x20) / 2;
    if 0 <= idx <= LastRow then Glyph(idx, (c - 0x20) % 2 == 0) else Glyph(1, true)
  }

  /** The selection corrected: an unknown character draws the space, the
      left glyph of row 0. */
  function Select(c: Char): (g: Glyph)
    ensures g.row <= LastRow
    ensures 0x20 <= c < 0x80 ==> g == SelectAsWritten(c)
    ensures !(0x20 <= c < 0x80) ==> g == Glyph(0, true)
  {
    var idx := (c - 0x20) / 2;
    if 0 <= idx <= LastRow then Glyph(idx, (c - 0x20) % 2 == 0) else Glyph(0, true)
  }

  /** The character a glyph of the table stands for. */
  function CharOf(g: Glyph): (c: nat)
    requires g.row <= LastRow
    ensures 0x20 <= c < 0x80
  {
    0x20 + 2 * g.row + (if g.left then 0 else 1)
  }

  /** Every glyph of the table is selected by its own character. */
  lemma SelectCharOf(g: Glyph)
    requires g.row <= LastRow
    ensures Select(CharOf(g) as Char) == g
  {
  }

  /** Every printable character selects the glyph standing for it. */
  lemma CharOfSelect(c: Char)
    requires 0x20 <= c < 0x80
    ensures CharOf(Select(c)) == c
  {
  }

  // ---------------------------------------------------------------------
  // widths and scanlines
  // ---------------------------------------------------------------------

  /** `(byte6 >> 4) & 0xF`. */
  function LeftWidth(row: nat): nat
    requires row <= LastRow
  {
    Table(row, WidthByte) / 16 % 16
  }

  /** `byte6 & 0xF`. */
  function RightWidth(row: nat): nat
    requires row <= LastRow
  {
    Table(row, WidthByte) % 16
  }

  /** The width `*char_width` receives. */
  function Width(g: Glyph): (w: nat)
    requires g.row <= LastRow
    ensures w < 16
  {
    if g.left then LeftWidth(g.row) else RightWidth(g.row)
  }

  /** How far the scanlines are shifted right: past the right glyph for
      the left one, not at all for the right one. */
  function Offset(g: Glyph): nat
    requires g.row <= LastRow
  {
    if g.left then RightWidth(g.row) else 0
  }

  /** `line >> k`. */
  function Shr(line: nat, k: nat): nat {
    if k == 0 then line else Shr(line / 2, k - 1)
  }

  lemma {:induction false} ShrShr(line: nat, m: nat, k: nat)
    ensures Shr(Shr(line, m), k) == Shr(line, m + k)
    decreases m
  {
    if m > 0 {
      ShrShr(line / 2, m - 1, k);
    }
  }

  /** Whether the glyph's pixel in scanline `y`, `k` columns left of its
      right edge, is lit: bit `offset + k` of the table byte. */
  function Lit(g: Glyph, y: nat, k: nat): bool
    requires g.row <= LastRow && y < Height
  {
    Shr(Table(g.row, y), Offset(g) + k) % 2 == 1
  }

  /** The scanline the drawing loop starts from: the table byte with the
      right glyph pushed out when the left one is wanted. */
  function Scanline(g: Glyph, y: nat): nat
    requires g.row <= LastRow && y < Height
  {
    Shr(Table(g.row, y), Offset(g))
  }

  /** The low `n` bits of `line`, lowest first: the order the drawing loop
      shifts them out in. */
  function Bits(line: nat, n: nat): (r: seq<bool>)
    ensures |r| == n
  {
    if n == 0 then [] else [line % 2 == 1] + Bits(line / 2, n - 1)
  }

  /** Element k of `Bits` is bit k. */
  lemma {:induction false} BitsAt(line: nat, n: nat, k: nat)
    requires k < n
    ensures Bits(line, n)[k] == (Shr(line, k) % 2 == 1)
    decreases k
  {
    if k > 0 {
      BitsAt(line / 2, n - 1, k - 1);
    }
  }

  /** The bits the loop tests in scanline `y` are the glyph's lit pixels. */
  lemma ScanlineBits(g: Glyph, y: nat, k: nat)
    requires g.row <= LastRow && y < Height && k < Width(g)
    ensures Bits(Scanline(g, y), Width(g))[k] == Lit(g, y, k)
  {
    BitsAt(Scanline(g, y), Width(g), k);
    ShrShr(Table(g.row, y), Offset(g), k);
  }

  /** A row's bits are the right glyph's followed by the left glyph's:
      shifting by the right width exposes exactly the bits above it. */
  lemma {:induction false} BitsSplit(line: nat, lo: nat, hi: nat)
    ensures Bits(line, lo + hi) == Bits(line, lo) + Bits(Shr(line, lo), hi)
    decreases lo
  {
    if lo > 0 {
      BitsSplit(line / 2, lo - 1, hi);
      assert Bits(line, lo + hi) == [line % 2 == 1] + Bits(line / 2, lo - 1 + hi);
    }
  }

  /** Both glyphs of a row are the two bit fields of its scanlines. */
  lemma RowHoldsBothGlyphs(row: nat, y: nat)
    requires row <= LastRow && y < Height
    ensures Bits(Table(row, y), RightWidth(row) + LeftWidth(row)) ==
              Bits(Scanline(Glyph(row, false), y), RightWidth(row))
              + Bits(Scanline(Glyph(row, true), y), LeftWidth(row))
  {
    BitsFields(Table(row, y), RightWidth(row), LeftWidth(row));
  }

  lemma BitsFields(line: nat, lo: nat, hi: nat)
    ensures Bits(line, lo + hi) == Bits(Shr(line, 0), lo) + Bits(Shr(line, lo), hi)
  {
    BitsSplit(line, lo, hi);
  }

  // ---------------------------------------------------------------------
  // drawing a character
  // ---------------------------------------------------------------------

  /** A glyph as the drawing loop sees it: its width and its six scanlines,
      shifted so that the glyph's rightmost column is bit 0. */
  datatype Bitmap = Bitmap(width: nat, lines: seq<nat>)

  function Image(g: Glyph): (b: Bitmap)
    requires g.row <= LastRow
    ensures b.width == Width(g) && |b.lines| == Height
    ensures forall y :: 0 <= y < Height ==> b.lines[y] == Scanline(g, y)
  {
    Bitmap(Width(g), seq(Height, y requires 0 <= y < Height => Scanline(g, y)))
  }

  /** The inner `while (x > 0)` loop over one scanline: `x` counts down
      from the width, the pixel drawn is column `x0 + x - 1`, and the bit
      tested is the lowest of what is left of the scanline. A set bit is
      drawn with `v`; a clear one is drawn with 0 only when `solid` (the
      mode FONT_BACKGROUND_OPAQUE). */
  function ScanCalls(line: nat, x0: nat, yy: nat, v: nat, solid: bool, x: nat): seq<Call>
    decreases x
  {
    if x == 0 then []
    else
      var here := if line % 2 == 1 then [Call(U16(x0 + x - 1), yy, v)]
                  else if solid then [Call(U16(x0 + x - 1), yy, 0)]
                  else [];
      here + ScanCalls(line / 2, x0, yy, v, solid, x - 1)
  }

  /** The `do … while (y < 6)` loop from scanline `y` on. */
  function RowCalls(b: Bitmap, v: nat, x0: nat, y0: nat, solid: bool, y: nat): seq<Call>
    requires |b.lines| == Height && y <= Height
    decreases Height - y
  {
    if y == Height then []
    else ScanCalls(b.lines[y], x0, U16(y0 + y), v, solid, b.width) + RowCalls(b, v, x0, y0, solid, y + 1)
  }

  /** The calls made for a glyph at (x0, y0); its width is the width
      reported. */
  function Draw(g: Glyph, v: nat, x0: nat, y0: nat, solid: bool): seq<Call>
    requires g.row <= LastRow
  {
    RowCalls(Image(g), v, x0, y0, solid, 0)
  }

  /** `font_06px_draw_character` as written: the calls it makes and the
      width it reports. The framebuffer is asserted non-NULL rather than
      checked, so the status is always OK. */
  function DrawCharacterAsWritten(c: Char, v: nat, x0: nat, y0: nat, solid: bool): (r: (Status, seq<Call>, nat))
    ensures r.0 == Ok && r.2 == Width(SelectAsWritten(c)) && r.2 < 16
  {
    var g := SelectAsWritten(c);
    (Ok, Draw(g, v, x0, y0, solid), Width(g))
  }

  /** `font_06px_draw_character` with the corrected fallback glyph. */
  function DrawCharacter(c: Char, v: nat, x0: nat, y0: nat, solid: bool): (r: (Status, seq<Call>, nat))
    ensures r.0 == Ok && r.2 == Width(Select(c)) && r.2 < 16
    ensures 0x20 <= c < 0x80 ==> r == DrawCharacterAsWritten(c, v, x0, y0, solid)
  {
    var g := Select(c);
    (Ok, Draw(g, v, x0, y0, solid), Width(g))
  }

  lemma {:induction false} ScanCallsLength(line: nat, x0: nat, yy: nat, v: nat, x: nat)
    ensures |ScanCalls(line, x0, yy, v, true, x)| == x
    decreases x
  {
    if x > 0 {
      ScanCallsLength(line / 2, x0, yy, v, x - 1);
    }
  }

  /** In solid mode call k of the scanline loop draws bit k at column
      `x0 + x - 1 - k`: with `v` if the bit is set and 0 if it is clear. */
  lemma {:induction false} ScanCallAt(line: nat, x0: nat, yy: nat, v: nat, x: nat, k: nat)
    requires k < x
    ensures |ScanCalls(line, x0, yy, v, true, x)| == x
    ensures ScanCalls(line, x0, yy, v, true, x)[k] ==
              Call(U16(x0 + x - 1 - k), yy, if Bits(line, x)[k] then v else 0)
    decreases k
  {
    ScanCallsLength(line, x0, yy, v, x);
    if k > 0 {
      ScanCallAt(line / 2, x0, yy, v, x - 1, k - 1);
      var r := ScanCalls(line, x0, yy, v, true, x);
      var rest := ScanCalls(line / 2, x0, yy, v, true, x - 1);
      assert r[k] == rest[k - 1];
      assert Bits(line, x)[k] == Bits(line / 2, x - 1)[k - 1];
    }
  }

  /** The calls for scanline `y`. */
  function Scan(b: Bitmap, v: nat, x0: nat, y0: nat, solid: bool, y: nat): seq<Call>
    requires |b.lines| == Height && y < Height
  {
    ScanCalls(b.lines[y], x0, U16(y0 + y), v, solid, b.width)
  }

  /** `n * w`, counted out one scanline at a time. */
  function Stride(n: nat, w: nat): nat {
    if n == 0 then 0 else Stride(n - 1, w) + w
  }

  lemma {:induction false} StrideIsProduct(n: nat, w: nat)
    ensures Stride(n, w) == n * w
  {
    if n > 0 {
      StrideIsProduct(n - 1, w);
      assert n * w == (n - 1) * w + w;
    }
  }

  /** In solid mode the row loop from scanline `j` on makes width calls
      per remaining scanline. */
  lemma {:induction false} RowCallsLength(b: Bitmap, v: nat, x0: nat, y0: nat, j: nat)
    requires |b.lines| == Height && j <= Height
    ensures |RowCalls(b, v, x0, y0, true, j)| == Stride(6 - j, b.width)
    decreases Height - j
  {
    if j < Height {
      ScanCallsLength(b.lines[j], x0, U16(y0 + j), v, b.width);
      RowCallsLength(b, v, x0, y0, j + 1);
    }
  }

  /** The six scanlines of a bitmap make width × 6 calls in solid mode. */
  lemma RowsLength(b: Bitmap, v: nat, x0: nat, y0: nat)
    requires |b.lines| == Height
    ensures |RowCalls(b, v, x0, y0, true, 0)| == b.width * 6
  {
    RowCallsLength(b, v, x0, y0, 0);
    StrideIsProduct(6, b.width);
  }

  /** A glyph makes width calls per scanline in solid mode. */
  lemma DrawLength(g: Glyph, v: nat, x0: nat, y0: nat)
    requires g.row <= LastRow
    ensures |Draw(g, v, x0, y0, true)| == Width(g) * 6
  {
    var b := Image(g);
    assert Draw(g, v, x0, y0, true) == RowCalls(b, v, x0, y0, true, 0);
    RowsLength(b, v, x0, y0);
  }

  /** Where the calls for scanline `y` start in the solid trace of a glyph
      `w` pixels wide. */
  function RowStart(y: nat, w: nat): (r: nat)
    requires y < Height
    ensures r + w <= w * 6
  {
    StrideIsProduct(y, w);
    StrideIsProduct(y + 1, w);
    assert (y + 1) * w <= 6 * w;
    Stride(y, w)
  }

  /** Scanline `y` starts after `y` full scanlines. */
  lemma RowStartIsProduct(y: nat, w: nat)
    requires y < Height
    ensures RowStart(y, w) == y * w
  {
    StrideIsProduct(y, w);
  }

  /** Walking the row loop from scanline `j`: the call `(y - j) * width + k`
      of what is left is call k of scanline y. */
  lemma {:induction false} RowsFrom(b: Bitmap, v: nat, x0: nat, y0: nat, j: nat, y: nat, k: nat)
    requires |b.lines| == Height && j <= y < Height && k < b.width
    ensures Stride(y - j, b.width) + k < |RowCalls(b, v, x0, y0, true, j)|
    ensures k < |Scan(b, v, x0, y0, true, y)|
    ensures RowCalls(b, v, x0, y0, true, j)[Stride(y - j, b.width) + k] == Scan(b, v, x0, y0, true, y)[k]
    decreases y - j
  {
    var here := Scan(b, v, x0, y0, true, j);
    var rest := RowCalls(b, v, x0, y0, true, j + 1);
    assert RowCalls(b, v, x0, y0, true, j) == here + rest;
    ScanCallsLength(b.lines[j], x0, U16(y0 + j), v, b.width);
    if j == y {
      assert Stride(y - j, b.width) == 0;
      assert (here + rest)[k] == here[k];
    } else {
      RowsFrom(b, v, x0, y0, j + 1, y, k);
      var i := Stride(y - (j + 1), b.width) + k;
      assert Stride(y - j, b.width) + k == |here| + i;
      assert (here + rest)[|here| + i] == rest[i];
    }
  }

  /** In solid mode the rows make width × 6 calls, and call
      `y * width + k` draws bit k of scanline y. */
  lemma ScanAt(b: Bitmap, v: nat, x0: nat, y0: nat, y: nat, k: nat)
    requires |b.lines| == Height && y < Height && k < b.width
    ensures k < |Scan(b, v, x0, y0, true, y)|
    ensures Scan(b, v, x0, y0, true, y)[k] ==
              Call(U16(x0 + b.width - 1 - k), U16(y0 + y), if Bits(b.lines[y], b.width)[k] then v else 0)
  {
    ScanCallAt(b.lines[y], x0, U16(y0 + y), v, b.width, k);
  }

  lemma RowsAt(b: Bitmap, v: nat, x0: nat, y0: nat, y: nat, k: nat, w: nat, line: nat)
    requires |b.lines| == Height && y < Height && k < b.width
    requires w == b.width && line == b.lines[y]
    ensures |RowCalls(b, v, x0, y0, true, 0)| == w * 6
    ensures RowCalls(b, v, x0, y0, true, 0)[RowStart(y, w) + k] ==
              Call(U16(x0 + w - 1 - k), U16(y0 + y), if Bits(line, w)[k] then v else 0)
  {
    RowsLength(b, v, x0, y0);
    RowsFrom(b, v, x0, y0, 0, y, k);
    ScanAt(b, v, x0, y0, y, k);
    assert RowStart(y, b.width) == Stride(y - 0, b.width);
  }

  /** In solid mode a glyph makes width × 6 calls, and call `y * width + k`
      draws the pixel of scanline `y` that is `k` columns left of the
      glyph's right edge: column `x0 + width - 1 - k`, row `y0 + y`, with
      `v` if the pixel is lit and 0 if it is not. */
  lemma DrawSolid(g: Glyph, v: nat, x0: nat, y0: nat, y: nat, k: nat)
    requires g.row <= LastRow && y < Height && k < Width(g)
    ensures |Draw(g, v, x0, y0, true)| == Width(g) * 6
    ensures Draw(g, v, x0, y0, true)[RowStart(y, Width(g)) + k] ==
              Call(U16(x0 + Width(g) - 1 - k), U16(y0 + y), if Lit(g, y, k) then v else 0)
  {
    DrawScanline(g, v, x0, y0, y, k);
    ScanlineBits(g, y, k);
  }

  /** `DrawSolid` with the pixel given as a bit of the shifted scanline. */
  lemma DrawScanline(g: Glyph, v: nat, x0: nat, y0: nat, y: nat, k: nat)
    requires g.row <= LastRow && y < Height && k < Width(g)
    ensures |Draw(g, v, x0, y0, true)| == Width(g) * 6
    ensures Draw(g, v, x0, y0, true)[RowStart(y, Width(g)) + k] ==
              Call(U16(x0 + Width(g) - 1 - k), U16(y0 + y), if Bits(Scanline(g, y), Width(g))[k] then v else 0)
  {
    var w := Width(g);
    var col := x0 + w - 1 - k;
    RowsAt(Image(g), v, x0, y0, y, k, w, Scanline(g, y));
    assert Draw(g, v, x0, y0, true)[RowStart(y, w) + k] ==
             Call(U16(col), U16(y0 + y), if Bits(Scanline(g, y), w)[k] then v else 0);
  }

  /** The calls at the positions `keep` marks, in order. */
  function Masked(calls: seq<Call>, keep: seq<bool>): (r: seq<Call>)
    requires |calls| == |keep|
    ensures |r| <= |calls|
  {
    if calls == [] then [] else (if keep[0] then [calls[0]] else []) + Masked(calls[1..], keep[1..])
  }

  lemma {:induction false} MaskedConcat(a: seq<Call>, ka: seq<bool>, b: seq<Call>, kb: seq<bool>)
    requires |a| == |ka| && |b| == |kb|
    ensures Masked(a + b, ka + kb) == Masked(a, ka) + Masked(b, kb)
    decreases |a|
  {
    if a != [] {
      assert (a + b)[0] == a[0] && (ka + kb)[0] == ka[0];
      assert (a + b)[1..] == a[1..] + b;
      assert (ka + kb)[1..] == ka[1..] + kb;
      MaskedConcat(a[1..], ka[1..], b, kb);
      var h := if ka[0] then [a[0]] else [];
      assert Masked(a + b, ka + kb) == h + Masked(a[1..] + b, ka[1..] + kb);
      assert Masked(a, ka) == h + Masked(a[1..], ka[1..]);
      AppendAssoc(h, Masked(a[1..], ka[1..]), Masked(b, kb));
    } else {
      assert a + b == b && ka + kb == kb;
    }
  }

  /** In transparent mode the scanline loop makes the solid mode's calls
      at the set bits only. */
  lemma {:induction false} ScanMasked(line: nat, x0: nat, yy: nat, v: nat, x: nat)
    ensures |ScanCalls(line, x0, yy, v, true, x)| == x
    ensures ScanCalls(line, x0, yy, v, false, x) == Masked(ScanCalls(line, x0, yy, v, true, x), Bits(line, x))
    decreases x
  {
    ScanCallsLength(line, x0, yy, v, x);
    if x > 0 {
      ScanMasked(line / 2, x0, yy, v, x - 1);
      var r := ScanCalls(line, x0, yy, v, true, x);
      assert r[1..] == ScanCalls(line / 2, x0, yy, v, true, x - 1);
      assert Bits(line, x)[1..] == Bits(line / 2, x - 1);
    }
  }

  /** The pixels a glyph lights, scanline by scanline from `y` on, in the
      order the solid mode draws them. */
  function LitMask(b: Bitmap, y: nat): seq<bool>
    requires |b.lines| == Height && y <= Height
    decreases Height - y
  {
    if y == Height then [] else Bits(b.lines[y], b.width) + LitMask(b, y + 1)
  }

  lemma {:induction false} RowMasked(b: Bitmap, v: nat, x0: nat, y0: nat, y: nat)
    requires |b.lines| == Height && y <= Height
    ensures |RowCalls(b, v, x0, y0, true, y)| == |LitMask(b, y)|
    ensures RowCalls(b, v, x0, y0, false, y) == Masked(RowCalls(b, v, x0, y0, true, y), LitMask(b, y))
    decreases Height - y
  {
    if y < Height {
      RowMasked(b, v, x0, y0, y + 1);
      ScanMasked(b.lines[y], x0, U16(y0 + y), v, b.width);
      MaskedConcat(ScanCalls(b.lines[y], x0, U16(y0 + y), v, true, b.width), Bits(b.lines[y], b.width),
                   RowCalls(b, v, x0, y0, true, y + 1), LitMask(b, y + 1));
    }
  }

  lemma {:induction false} ScanTransparent(line: nat, x0: nat, yy: nat, v: nat, x: nat)
    ensures Uniform(ScanCalls(line, x0, yy, v, false, x), v)
    decreases x
  {
    if x > 0 {
      ScanTransparent(line / 2, x0, yy, v, x - 1);
    }
  }

  lemma {:induction false} RowCallsTransparent(b: Bitmap, v: nat, x0: nat, y0: nat, y: nat)
    requires |b.lines| == Height && y <= Height
    ensures Uniform(RowCalls(b, v, x0, y0, false, y), v)
    decreases Height - y
  {
    if y < Height {
      RowCallsTransparent(b, v, x0, y0, y + 1);
      ScanTransparent(b.lines[y], x0, U16(y0 + y), v, b.width);
    }
  }

  /** In transparent mode a glyph makes the solid mode's calls at its lit
      pixels only, so it only ever writes `v`. */
  lemma DrawTransparent(g: Glyph, v: nat, x0: nat, y0: nat)
    requires g.row <= LastRow
    ensures |Draw(g, v, x0, y0, true)| == |LitMask(Image(g), 0)|
    ensures Draw(g, v, x0, y0, false) == Masked(Draw(g, v, x0, y0, true), LitMask(Image(g), 0))
    ensures Uniform(Draw(g, v, x0, y0, false), v)
  {
    RowMasked(Image(g), v, x0, y0, 0);
    RowCallsTransparent(Image(g), v, x0, y0, 0);
  }

  // ---------------------------------------------------------------------
  // the fallback glyph
  // ---------------------------------------------------------------------

  /** As written, an unknown character draws the glyph of 0x22 ('"'): in
      solid mode its first call lights a pixel with `v`. */
  lemma AsWrittenUnknownDrawsQuote(c: Char, v: nat, x0: nat, y0: nat)
    requires !(0x20 <= c < 0x80)
    ensures SelectAsWritten(c) == Glyph(1, true) == Select(0x22)
    ensures var (_, calls, w) := DrawCharacterAsWritten(c, v, x0, y0, true);
      w == 3 && |calls| == 18 && calls[0] == Call(U16(x0 + 2), y0 % 0x1_0000, v)
  {
    var g := Glyph(1, true);
    assert Table(1, WidthByte) == 0x35 && Table(1, 0) == 0xAA;
    assert Width(g) == 3 && Offset(g) == 5;
    assert Shr(0xAA, 5) == 5;
    DrawSolid(g, v, x0, y0, 0, 0);
  }

  /** Corrected, an unknown character draws the space: two columns, none
      lit, so in solid mode it only clears pixels. */
  lemma UnknownDrawsSpace(c: Char, v: nat, x0: nat, y0: nat)
    requires !(0x20 <= c < 0x80)
    ensures Select(c) == Glyph(0, true) == Select(0x20)
    ensures var (_, calls, w) := DrawCharacter(c, v, x0, y0, true);
      w == 2 && |calls| == 12 && Uniform(calls, 0)
  {
    assert Image(Glyph(0, true)) == Bitmap(2, [0, 0, 0, 0, 0, 0]);
    DrawLength(Glyph(0, true), v, x0, y0);
    BlankRows(Bitmap(2, [0, 0, 0, 0, 0, 0]), v, x0, y0, 0);
  }

  /** A glyph with no lit pixel only clears pixels in solid mode. */
  lemma {:induction false} BlankRows(b: Bitmap, v: nat, x0: nat, y0: nat, y: nat)
    requires |b.lines| == Height && y <= Height
    requires forall j :: 0 <= j < Height ==> b.lines[j] == 0
    ensures Uniform(RowCalls(b, v, x0, y0, true, y), 0)
    decreases Height - y
  {
    if y < Height {
      BlankRows(b, v, x0, y0, y + 1);
      BlankScan(x0, U16(y0 + y), v, b.width);
    }
  }

  lemma {:induction false} BlankScan(x0: nat, yy: nat, v: nat, x: nat)
    ensures Uniform(ScanCalls(0, x0, yy, v, true, x), 0)
    decreases x
  {
    if x > 0 {
      BlankScan(x0, yy, v, x - 1);
    }
  }

  // ---------------------------------------------------------------------
  // drawing a string
  // ---------------------------------------------------------------------

  /** The bytes from the start can be read up to a NUL or for 256 bytes. */
  predicate Terminated(s: seq<Char>) {
    |s| >= 256 || 0 in s
  }

  /** The loop over `idx < 256` from `idx` on: the characters before the
      first NUL. */
  function TextFrom(s: seq<Char>, idx: nat): (t: seq<Char>)
    requires Terminated(s) && idx <= 256 && idx <= |s|
    requires forall j :: 0 <= j < idx ==> s[j] != 0
    ensures idx + |t| <= 256 && idx + |t| <= |s| && t == s[idx..idx + |t|]
    ensures idx + |t| < 256 ==> idx + |t| < |s| && s[idx + |t|] == 0
    ensures forall j :: idx <= j < idx + |t| ==> s[j] != 0
    decreases 256 - idx
  {
    if idx == 256 then []
    else
      assert idx < |s| by {
        if |s| < 256 {
          var j :| 0 <= j < |s| && s[j] == 0;
        }
      }
      if s[idx] == 0 then [] else [s[idx]] + TextFrom(s, idx + 1)
  }

  /** The characters `font_06px_draw_string` draws: those before the first
      NUL, at most 256 of them. */
  function Text(s: seq<Char>): (t: seq<Char>)
    requires Terminated(s)
    ensures |t| <= 256 && |t| <= |s| && t == s[..|t|]
    ensures forall i :: 0 <= i < |t| ==> t[i] != 0
    ensures |t| < 256 ==> |t| < |s| && s[|t|] == 0
  {
    TextFrom(s, 0)
  }

  /** Characters after the first NUL are never drawn. */
  lemma StopsAtNul(t: seq<Char>, u: seq<Char>)
    requires |t| < 256 && forall i :: 0 <= i < |t| ==> t[i] != 0
    ensures Terminated(t + [0] + u) && Text(t + [0] + u) == t
  {
    var s := t + [0] + u;
    assert s[|t|] == 0;
    assert s[..|t|] == t;
  }

  /** How far the string advances: width + 1 per character. */
  function Advance(t: seq<Char>): nat {
    if t == [] then 0 else Width(Select(t[0])) + 1 + Advance(t[1..])
  }

  /** The sum of the widths of the characters. */
  function Widths(t: seq<Char>): nat {
    if t == [] then 0 else Width(Select(t[0])) + Widths(t[1..])
  }

  lemma {:induction false} AdvanceCounts(t: seq<Char>)
    ensures Advance(t) == Widths(t) + |t|
  {
    if t != [] {
      AdvanceCounts(t[1..]);
    }
  }

  lemma {:induction false} AdvanceConcat(a: seq<Char>, b: seq<Char>)
    ensures Advance(a + b) == Advance(a) + Advance(b)
  {
    if a != [] {
      assert (a + b)[0] == a[0];
      assert (a + b)[1..] == a[1..] + b;
      AdvanceConcat(a[1..], b);
    } else {
      assert a + b == b;
    }
  }

  lemma AppendAssoc(a: seq<Call>, b: seq<Call>, c: seq<Call>)
    ensures a + (b + c) == a + b + c
  {
  }

  /** A character and the offset from `x0` it is drawn at. */
  datatype Placed = Placed(c: Char, x: nat)

  /** Where the string loop draws each character of `t` when `x_pos`
      starts at `xpos`: `x_pos` grows by the character's width + 1. */
  function Layout(t: seq<Char>, xpos: nat): (r: seq<Placed>)
    ensures |r| == |t|
  {
    if t == [] then [] else [Placed(t[0], xpos)] + Layout(t[1..], xpos + Width(Select(t[0])) + 1)
  }

  /** The calls for the placed characters, one after the other, each drawn
      solid at `x0` plus its offset. */
  function Render(ps: seq<Placed>, v: nat, x0: nat, y0: nat): seq<Call> {
    if ps == [] then [] else DrawCharacter(ps[0].c, v, U16(x0 + ps[0].x), y0, true).1 + Render(ps[1..], v, x0, y0)
  }

  /** `*string_width` as written: the advance accumulated in a `uint8_t`,
      less the trailing gap when the wrapped total is not 0. An advance of
      exactly 256 wraps to 0 and is reported as 0. */
  function StringWidthAsWritten(advance: nat): (r: nat)
    ensures r < 256
    ensures 0 < advance < 256 ==> r == advance - 1
    ensures advance == 0 ==> r == 0
  {
    var total := advance % 256;
    if total > 0 then total - 1 else 0
  }

  /** `*string_width` corrected: the trailing gap is taken off before the
      value is narrowed to a `uint8_t`, so every width that fits is exact. */
  function StringWidth(advance: nat): (r: nat)
    ensures r < 256
    ensures 0 < advance <= 256 ==> r == advance - 1
    ensures advance == 0 ==> r == 0
    ensures advance < 256 ==> r == StringWidthAsWritten(advance)
  {
    if advance > 0 then (advance - 1) % 256 else 0
  }

  /** A string advancing exactly 256 pixels is 255 pixels wide, yet the
      source reports 0. */
  lemma AsWrittenWidthWraps()
    ensures StringWidthAsWritten(256) == 0 && StringWidth(256) == 255
  {
  }

  /** `font_06px_draw_string` (with the corrected fallback glyph and
      width): the status, the calls and the reported width.
      `background` is not used: the characters are always drawn solid. */
  function DrawString(s: seq<Char>, v: nat, x0: nat, y0: nat, background: nat): (r: (Status, seq<Call>, nat))
    requires Terminated(s)
    ensures r.0 == Ok && r.2 < 256
    ensures |r.1| == Widths(Text(s)) * 6
    ensures Text(s) == [] ==> r.1 == [] && r.2 == 0
    ensures Text(s) != [] && Advance(Text(s)) <= 256 ==> r.2 == Widths(Text(s)) + |Text(s)| - 1
  {
    var t := Text(s);
    RenderCount(t, v, x0, y0, 0);
    AdvanceCounts(t);
    (Ok, Render(Layout(t, 0), v, x0, y0), StringWidth(Advance(t)))
  }

  lemma {:induction false} RenderCount(t: seq<Char>, v: nat, x0: nat, y0: nat, xpos: nat)
    ensures |Render(Layout(t, xpos), v, x0, y0)| == Widths(t) * 6
  {
    if t != [] {
      RenderCount(t[1..], v, x0, y0, xpos + Width(Select(t[0])) + 1);
      LayoutStep(t, xpos);
      RenderStep(Layout(t, xpos), v, x0, y0);
      DrawLength(Select(t[0]), v, U16(x0 + xpos), y0);
    }
  }

  lemma LayoutStep(t: seq<Char>, xpos: nat)
    requires t != []
    ensures Layout(t, xpos)[0] == Placed(t[0], xpos)
    ensures Layout(t, xpos)[1..] == Layout(t[1..], xpos + Width(Select(t[0])) + 1)
  {
  }

  lemma RenderStep(ps: seq<Placed>, v: nat, x0: nat, y0: nat)
    requires ps != []
    ensures |Render(ps, v, x0, y0)| == |Draw(Select(ps[0].c), v, U16(x0 + ps[0].x), y0, true)| + |Render(ps[1..], v, x0, y0)|
  {
  }

  /** Character i is placed at `xpos` plus the advance of the characters
      before it. */
  lemma {:induction false} LayoutAt(t: seq<Char>, xpos: nat, i: nat)
    requires i < |t|
    ensures Layout(t, xpos)[i] == Placed(t[i], xpos + Advance(t[..i]))
    decreases i
  {
    if i > 0 {
      LayoutAt(t[1..], xpos + Width(Select(t[0])) + 1, i - 1);
      assert t[..i][0] == t[0] && t[..i][1..] == t[1..][..i - 1];
      assert Layout(t, xpos)[i] == Layout(t[1..], xpos + Width(Select(t[0])) + 1)[i - 1];
    } else {
      assert t[..i] == [];
    }
  }

  /** The calls `font_06px_draw_string` makes are those of
      `font_06px_draw_character` for each character before the first NUL,
      in order, character i drawn solid at `x0` plus the widths of the
      characters before it plus one pixel of gap after each. */
  lemma StringPlacement(s: seq<Char>, v: nat, x0: nat, y0: nat, background: nat)
    requires Terminated(s)
    ensures var t := Text(s);
      DrawString(s, v, x0, y0, background).1 ==
        Render(seq(|t|, i requires 0 <= i < |t| => Placed(t[i], Advance(t[..i]))), v, x0, y0)
  {
    var t := Text(s);
    forall i | 0 <= i < |t|
      ensures Layout(t, 0)[i] == Placed(t[i], Advance(t[..i]))
    {
      LayoutAt(t, 0, i);
    }
    assert Layout(t, 0) == seq(|t|, i requires 0 <= i < |t| => Placed(t[i], Advance(t[..i])));
  }

  /** The characters after the first NUL change nothing, and neither does
      the background argument. */
  lemma DrawStringStopsAtNul(t: seq<Char>, u: seq<Char>, v: nat, x0: nat, y0: nat, background: nat)
    requires |t| < 256 && forall i :: 0 <= i < |t| ==> t[i] != 0
    ensures Terminated(t + [0]) && Terminated(t + [0] + u)
    ensures DrawString(t + [0] + u, v, x0, y0, background) == DrawString(t + [0], v, x0, y0, 0)
  {
    StopsAtNul(t, u);
    StopsAtNul(t, []);
    assert t + [0] + [] == t + [0];
  }
}
