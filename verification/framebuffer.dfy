/**
 * The tile-organised 1-bit framebuffer with dirty-tile tracking.
 *
 * Both framebuffer implementations of the repository (the stand-alone
 * 1-bit framebuffer and the one behind the generic framebuffer interface
 * for the SSD1306) keep the same state and share these semantics; the few
 * places where they differ (NULL handling, what `get_pixel` leaves in its
 * out-parameter on failure) are separate functions below.
 *
 * A tile is one byte holding 8 vertically adjacent pixels of one column of
 * one page; bit n is the pixel at vertical offset n. Tiles are stored page
 * by page, column by column. The dirty index holds one flag per tile.
 */
module Framebuffer {
  import opened Common
  import opened Bits
  import Arith

  /** `sizeof(framebuffer_tile_t) << 3`. */
  const BitsPerTile: nat := 8

  /** The framebuffer record. The packed dirty bitmap of the source (one bit
      per tile, eight tiles per byte) is modelled as one flag per tile; the
      byte and bit it would occupy are given by DirtyByteIndex/DirtyBitIndex. */
  datatype Framebuffer = Framebuffer(
    columns: nat,
    pages: nat,
    tiles: seq<bv8>,
    dirty: seq<bool>,
    dirtyCount: nat)

  /** Number of tiles, `columns * pages` (the `bytes` field). */
  function Bytes(fb: Framebuffer): (r: nat)
    ensures r > 0 ==> fb.columns > 0 && fb.pages > 0
  {
    fb.columns * fb.pages
  }

  /** Both buffers are allocated with the size the geometry calls for. */
  predicate Shape(fb: Framebuffer) {
    |fb.tiles| == Bytes(fb) && |fb.dirty| == |fb.tiles|
  }

  /** The framebuffer's central invariant: the dirty counter is the number of dirty flags. */
  predicate Valid(fb: Framebuffer) {
    Shape(fb) && fb.dirtyCount == CountTrue(fb.dirty)
  }

  /** The bounds check of every pixel operation: `x < columns`, `y < pages * bits_per_tile`. */
  predicate InBounds(fb: Framebuffer, x: int, y: int) {
    0 <= x < fb.columns && 0 <= y < fb.pages * BitsPerTile
  }

  /** The tile a pixel lives in and the bit it occupies there. */
  datatype Location = Location(tile: nat, bit: nat)

  /** Tile of pixel (x, y): its page `y / 8` times the row length plus its column. */
  function TileIndex(columns: nat, x: nat, y: nat): nat {
    (y / BitsPerTile) * columns + x
  }

  /** The pixel a tile bit shows: the inverse of Locate. */
  function PixelAt(columns: nat, loc: Location): (nat, nat)
    requires columns > 0
  {
    (loc.tile % columns, (loc.tile / columns) * BitsPerTile + loc.bit)
  }

  /** `get_framebuffer_indizes`: rejects pixels outside the buffer, otherwise
      yields tile `(y / 8) * columns + x` and bit `y % 8`. */
  function Locate(fb: Framebuffer, x: nat, y: nat): (r: Option<Location>)
    ensures r.Some? <==> InBounds(fb, x, y)
    ensures r.Some? ==> r.value.tile < Bytes(fb) && r.value.bit < BitsPerTile
    ensures r.Some? ==> PixelAt(fb.columns, r.value) == (x, y)
  {
    if x >= fb.columns || y >= fb.pages * BitsPerTile then None
    else
      LocateRoundTrip(fb, x, y);
      Some(Location(TileIndex(fb.columns, x, y), y % BitsPerTile))
  }

  lemma LocateRoundTrip(fb: Framebuffer, x: nat, y: nat)
    requires InBounds(fb, x, y)
    ensures TileIndex(fb.columns, x, y) < Bytes(fb)
    ensures PixelAt(fb.columns, Location(TileIndex(fb.columns, x, y), y % BitsPerTile)) == (x, y)
  {
    var q := y / BitsPerTile;
    Arith.RowMajorBound(q, fb.pages, fb.columns, x);
    assert fb.pages * fb.columns == Bytes(fb);
    Arith.DivModUnique(TileIndex(fb.columns, x, y), fb.columns, q, x);
  }

  /** Two distinct pixels never share a tile bit. */
  lemma LocateInjective(fb: Framebuffer, x: nat, y: nat, x': nat, y': nat)
    requires InBounds(fb, x, y) && InBounds(fb, x', y')
    requires (x, y) != (x', y')
    ensures Locate(fb, x, y) != Locate(fb, x', y')
  {
  }

  /** Value, 0 or 1, of pixel (x, y). */
  function Pixel(fb: Framebuffer, x: nat, y: nat): (r: nat)
    requires Shape(fb) && InBounds(fb, x, y)
    ensures r <= 1
  {
    var loc := Locate(fb, x, y).value;
    BitOf(fb.tiles[loc.tile], loc.bit)
  }

  /** The value a pixel holds after `pixel_value` is written: set if positive, cleared otherwise. */
  function Bit(v: nat): nat {
    if v > 0 then 1 else 0
  }

  // ---------------------------------------------------------------------
  // dirty index addressing
  // ---------------------------------------------------------------------

  /** Byte of the packed dirty index that holds tile `t`'s flag (`tile_idx >> 3`). */
  function DirtyByteIndex(t: nat): nat {
    t / 8
  }

  /** Bit of that byte holding tile `t`'s flag, as intended: `t % 8`. Together
      with the byte index it identifies the tile uniquely. */
  function DirtyBitIndex(t: nat): (r: nat)
    ensures r < 8
    ensures DirtyByteIndex(t) * 8 + r == t
  {
    t % 8
  }

  /** The bit position as the source computes it, `tile_idx % ((tile_idx >> 3) << 3)`.
      `None` stands for the division by zero that expression performs for tiles 0..7. */
  function DirtyBitIndexAsWritten(t: nat): (r: Option<nat>)
    ensures r.Some? <==> t >= 8
    ensures r.Some? ==> r.value < (t / 8) * 8
  {
    var divisor := (t / 8) * 8;
    if divisor == 0 then None else Some(t % divisor)
  }

  /** The source's bit position agrees with `t % 8` from tile 8 on and divides by zero below. */
  lemma DirtyBitIndexAsWrittenAgrees(t: nat)
    ensures t >= 8 ==> DirtyBitIndexAsWritten(t) == Some(DirtyBitIndex(t))
    ensures t < 8 ==> DirtyBitIndexAsWritten(t) == None
  {
    if t >= 8 {
      var d := (t / 8) * 8;
      Arith.DivModUnique(t, d, 1, t % 8);
    }
  }

  /** Size in bytes of the dirty index as allocated: `bytes >> 3`. */
  function DirtyIndexSizeAsWritten(bytes: nat): nat {
    bytes / 8
  }

  /** When the tile count is not a multiple of 8 the last tile's flag lies beyond the allocated index. */
  lemma DirtyIndexAsWrittenTooSmall(bytes: nat)
    requires bytes % 8 != 0
    ensures DirtyByteIndex(bytes - 1) >= DirtyIndexSizeAsWritten(bytes)
  {
  }

  /** Size of a dirty index with room for every tile's flag: `bytes` rounded up to whole bytes. */
  function DirtyIndexSize(bytes: nat): (r: nat)
    ensures forall t :: 0 <= t < bytes ==> DirtyByteIndex(t) < r
    ensures r * 8 < bytes + 8
  {
    (bytes + 7) / 8
  }

  // ---------------------------------------------------------------------
  // lifecycle
  // ---------------------------------------------------------------------

  /** What the allocator does for `init`: whether each `malloc` succeeds and
      the indeterminate content the fresh buffers start with. */
  datatype Allocation = Allocation(
    tilesOk: bool,
    dirtyOk: bool,
    tilesContent: nat -> bv8,
    dirtyContent: nat -> bool)

  /** `framebuffer_init` / `framebuffer_ssd1306_init`: geometry from the display size,
      counter 0, buffers as the allocator hands them out (a failed allocation is an
      empty buffer). The dirty flags are NOT cleared, so the invariant holds only
      if the fresh dirty buffer happens to be all clear; callers clear first. */
  function Init(width: nat, height: nat, mem: Allocation): (r: (Status, Framebuffer))
    ensures r.1.columns == width && r.1.pages == height / BitsPerTile && r.1.dirtyCount == 0
    ensures r.0 == Ok <==> mem.tilesOk && mem.dirtyOk
    ensures r.0 != Ok ==> r.0 == ErrNoMemory
    ensures r.0 == Ok ==> Shape(r.1)
    ensures r.0 == Ok ==> (Valid(r.1) <==> forall t :: 0 <= t < Bytes(r.1) ==> !mem.dirtyContent(t))
  {
    var columns := width;
    var pages := height / BitsPerTile;
    var bytes := columns * pages;
    var tiles := if mem.tilesOk then seq(bytes, (i: int) requires 0 <= i => mem.tilesContent(i)) else [];
    var dirty := if mem.dirtyOk then seq(bytes, (i: int) requires 0 <= i => mem.dirtyContent(i)) else [];
    var fb := Framebuffer(columns, pages, tiles, dirty, 0);
    if mem.tilesOk && mem.dirtyOk then
      CountTrueZero(dirty);
      assert forall t :: 0 <= t < bytes ==> dirty[t] == mem.dirtyContent(t);
      (Ok, fb)
    else (ErrNoMemory, fb)
  }

  /** `clear`: every tile zero, every tile dirty, counter = number of tiles. */
  function Clear(fb: Framebuffer): (r: Framebuffer)
    ensures Valid(r)
    ensures r.columns == fb.columns && r.pages == fb.pages
    ensures r.dirtyCount == Bytes(fb)
    ensures forall x: nat, y: nat :: InBounds(r, x, y) ==> Pixel(r, x, y) == 0
  {
    var bytes := Bytes(fb);
    var r := Framebuffer(fb.columns, fb.pages, seq(bytes, _ => 0 as bv8), seq(bytes, _ => true), bytes);
    CountTrueFull(r.dirty);
    r
  }

  /** `framebuffer_clear` of the 1-bit framebuffer: a NULL framebuffer is left alone. */
  function Clear1bit(fb: Option<Framebuffer>): (r: Option<Framebuffer>)
    ensures fb.None? ==> r.None?
    ensures fb.Some? ==> r.Some? && Valid(r.value) && r.value.dirtyCount == Bytes(fb.value)
  {
    match fb
    case None => None
    case Some(f) => Some(Clear(f))
  }

  /** What the display driver does to a tile it has sent: the tile's flag
      is cleared and the counter decreased. */
  function MarkClean(fb: Framebuffer, t: nat): (r: Framebuffer)
    requires Valid(fb) && t < Bytes(fb) && fb.dirty[t]
    ensures Valid(r) && r.dirtyCount + 1 == fb.dirtyCount && |r.dirty| == |fb.dirty|
    ensures !r.dirty[t] && forall i :: 0 <= i < |fb.dirty| && i != t ==> r.dirty[i] == fb.dirty[i]
    ensures r.columns == fb.columns && r.pages == fb.pages && r.tiles == fb.tiles
  {
    CountTrueClear(fb.dirty, t);
    fb.(dirty := fb.dirty[t := false], dirtyCount := fb.dirtyCount - 1)
  }

  /** What the display driver does after sending every tile: the whole
      dirty index wiped and the counter zeroed. */
  function MarkAllClean(fb: Framebuffer): (r: Framebuffer)
    requires Shape(fb)
    ensures Valid(r) && r.dirtyCount == 0
    ensures forall t :: 0 <= t < |r.dirty| ==> !r.dirty[t]
    ensures r.columns == fb.columns && r.pages == fb.pages && r.tiles == fb.tiles
  {
    var r := fb.(dirty := seq(|fb.dirty|, _ => false), dirtyCount := 0);
    CountTrueZero(r.dirty);
    r
  }

  /** Wiping the dirty index twice is wiping it once. */
  lemma MarkAllCleanIdempotent(fb: Framebuffer)
    requires Shape(fb)
    ensures MarkAllClean(MarkAllClean(fb)) == MarkAllClean(fb)
  {
  }

  // ---------------------------------------------------------------------
  // pixel access
  // ---------------------------------------------------------------------

  /** Pixel write shared by `framebuffer_draw_pixel` and `framebuffer_ssd1306_set_pixel`.
      Out of bounds: INVALID_ARG, nothing changes. Equal to the stored value: no-op.
      Otherwise the bit is set (value > 0) or cleared, and a clean tile is marked
      dirty and counted. */
  function SetPixel(fb: Framebuffer, x: nat, y: nat, v: nat): (r: (Status, Framebuffer))
    requires Shape(fb)
    ensures r.0 == Ok <==> InBounds(fb, x, y)
    ensures r.0 != Ok ==> r.0 == ErrInvalidArg && r.1 == fb
    ensures Shape(r.1) && r.1.columns == fb.columns && r.1.pages == fb.pages
    ensures InBounds(fb, x, y) && Pixel(fb, x, y) == v ==> r.1 == fb
    ensures InBounds(fb, x, y) && Pixel(fb, x, y) != v ==>
              var t := Locate(fb, x, y).value.tile;
              && r.1.dirty == fb.dirty[t := true]
              && r.1.dirtyCount == fb.dirtyCount + (if fb.dirty[t] then 0 else 1)
  {
    match Locate(fb, x, y)
    case None => (ErrInvalidArg, fb)
    case Some(loc) =>
      var current := BitOf(fb.tiles[loc.tile], loc.bit);
      if current == v then (Ok, fb)
      else
        var tiles := fb.tiles[loc.tile := WithBit(fb.tiles[loc.tile], loc.bit, v > 0)];
        if fb.dirty[loc.tile] then (Ok, fb.(tiles := tiles))
        else (Ok, fb.(tiles := tiles, dirty := fb.dirty[loc.tile := true], dirtyCount := fb.dirtyCount + 1))
  }

  /** After a successful write the pixel reads back the written value (as a bit). */
  lemma SetPixelReadsBack(fb: Framebuffer, x: nat, y: nat, v: nat)
    requires Shape(fb) && InBounds(fb, x, y)
    ensures InBounds(SetPixel(fb, x, y, v).1, x, y)
    ensures Pixel(SetPixel(fb, x, y, v).1, x, y) == Bit(v)
  {
    var loc := Locate(fb, x, y).value;
    if BitOf(fb.tiles[loc.tile], loc.bit) != v {
      WithBitReads(fb.tiles[loc.tile], loc.bit, v > 0, loc.bit);
    }
  }

  /** A pixel write leaves every other pixel as it was. */
  lemma SetPixelFrame(fb: Framebuffer, x: nat, y: nat, v: nat, x': nat, y': nat)
    requires Shape(fb) && InBounds(fb, x', y') && (x', y') != (x, y)
    ensures InBounds(SetPixel(fb, x, y, v).1, x', y')
    ensures Pixel(SetPixel(fb, x, y, v).1, x', y') == Pixel(fb, x', y')
  {
    if InBounds(fb, x, y) {
      var loc := Locate(fb, x, y).value;
      var loc' := Locate(fb, x', y').value;
      LocateInjective(fb, x, y, x', y');
      if BitOf(fb.tiles[loc.tile], loc.bit) != v && loc'.tile == loc.tile {
        WithBitReads(fb.tiles[loc.tile], loc.bit, v > 0, loc'.bit);
      }
    }
  }

  /** A pixel write keeps the dirty counter equal to the number of dirty flags. */
  lemma SetPixelKeepsValid(fb: Framebuffer, x: nat, y: nat, v: nat)
    requires Valid(fb)
    ensures Valid(SetPixel(fb, x, y, v).1)
  {
    if InBounds(fb, x, y) {
      var t := Locate(fb, x, y).value.tile;
      if Pixel(fb, x, y) != v && !fb.dirty[t] {
        CountTrueSet(fb.dirty, t);
      }
    }
  }

  /** `framebuffer_draw_pixel` of the 1-bit framebuffer: a NULL framebuffer is INVALID_ARG. */
  function DrawPixel1bit(fb: Option<Framebuffer>, x: nat, y: nat, v: nat): (r: (Status, Option<Framebuffer>))
    requires fb.Some? ==> Shape(fb.value)
    ensures fb.None? ==> r == (ErrInvalidArg, None)
    ensures fb.Some? ==> r.1.Some? && (r.0, r.1.value) == SetPixel(fb.value, x, y, v)
  {
    match fb
    case None => (ErrInvalidArg, None)
    case Some(f) =>
      var (s, f') := SetPixel(f, x, y, v);
      (s, Some(f'))
  }

  /** `framebuffer_get_pixel` of the 1-bit framebuffer: out of bounds it reports
      INVALID_ARG and leaves the out-parameter (`prior`) untouched. */
  function GetPixel1bit(fb: Framebuffer, x: nat, y: nat, prior: nat): (r: (Status, nat))
    requires Shape(fb)
    ensures InBounds(fb, x, y) ==> r == (Ok, Pixel(fb, x, y))
    ensures !InBounds(fb, x, y) ==> r == (ErrInvalidArg, prior)
  {
    if InBounds(fb, x, y) then (Ok, Pixel(fb, x, y)) else (ErrInvalidArg, prior)
  }

  /** `framebuffer_ssd1306_get_pixel`: out of bounds it reports INVALID_ARG and yields 0. */
  function GetPixelSsd1306(fb: Framebuffer, x: nat, y: nat): (r: (Status, nat))
    requires Shape(fb)
    ensures InBounds(fb, x, y) ==> r == (Ok, Pixel(fb, x, y))
    ensures !InBounds(fb, x, y) ==> r == (ErrInvalidArg, 0)
  {
    match Locate(fb, x, y)
    case None => (ErrInvalidArg, 0)
    case Some(loc) => (Ok, BitOf(fb.tiles[loc.tile], loc.bit))
  }
}
