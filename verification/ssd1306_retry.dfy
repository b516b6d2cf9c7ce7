/**
 * The differential update of `ssd1306_display_update` as written: passes
 * repeat while the status is not OK, and the `error` flag and the index of
 * the last tile sent are set once, before the first pass, and never reset.
 * After a failed write every later pass stops at the end of page 0, so a
 * dirty tile beyond page 0 is never reached again; when page 0 holds no
 * dirty tile any more, no later pass sends anything and the loop spins
 * (`StuckForever`). The corrected retry is `Ssd1306Diff.DiffPasses`.
 *
 * Dirty flags are read from the framebuffer's flag sequence here; how the
 * driver locates a flag in its packed index is `Framebuffer.DirtyBitIndexAsWritten`.
 */
module Ssd1306Retry {
  import opened Common
  import opened Arith
  import opened Bits
  import opened Bus
  import opened Ssd1306
  import FB = Framebuffer

  /** The variables of the as-written update that outlive one pass. */
  datatype Sweep = Sweep(status: Status, error: bool, prev: nat, f: FB.Framebuffer, b: Bus)

  /** Same framebuffer geometry and tiles; only dirty flags may differ. */
  predicate SameImage(f: FB.Framebuffer, g: FB.Framebuffer) {
    FB.Valid(g) && g.columns == f.columns && g.pages == f.pages && g.tiles == f.tiles && |g.dirty| == |f.dirty|
  }

  /** The state before the first pass. */
  function Start(fb: FB.Framebuffer, bus: Bus): Sweep {
    Sweep(ErrNotInitialized, false, 0, fb, bus)
  }

  /** Index of the tile in column `column` of page `page`. */
  function TileIndex(columns: nat, page: nat, column: nat): nat {
    page * columns + column
  }

  /** No tile of page `page` from column `from` on is dirty. */
  predicate RowClean(f: FB.Framebuffer, page: nat, from: nat) {
    forall c :: from <= c < f.columns ==>
      TileIndex(f.columns, page, c) < |f.dirty| && !f.dirty[TileIndex(f.columns, page, c)]
  }

  lemma SelectExtends(dev: Device, bus: Bus, page: bv8, column: bv8)
    ensures Extends(bus, SetTileNext(dev, bus, page, column).1)
  {
    SelectTileFacts(dev, bus, page, column);
  }

  /** The data write of dirty tile `t` once the bus stands at `b`: the
      byte is sent and the tile marked clean; a failure sets `error`. Once
      the last dirty tile is clean the inner loop breaks without recording
      the tile as the last one sent. */
  function DataAsWritten(dev: Device, s: Sweep, t: nat, b: Bus): (r: (Sweep, bool))
    requires FB.Valid(s.f) && t < FB.Bytes(s.f) && s.f.dirty[t]
    requires Extends(s.b, b) && b.sendStop == s.b.sendStop
    ensures SameImage(s.f, r.0.f) && Extends(s.b, r.0.b) && r.0.b.sendStop == s.b.sendStop
    ensures s.error ==> r.0.error
    ensures r.0.error != s.error ==> r.0.status != Ok && r.1 && r.0.f == s.f
  {
    var (sent, after) := SendByte(dev, b, s.f.tiles[t]);
    if sent != Ok then (Sweep(sent, true, s.prev, s.f, after), true)
    else
      var f := FB.MarkClean(s.f, t);
      if f.dirtyCount < 1 then (Sweep(Ok, s.error, s.prev, f, after), true)
      else (Sweep(Ok, s.error, t, f, after), false)
  }

  /** Dirty tile `t` at (`page`, `column`) in the as-written loop; the flag
      in the result is the inner loop's `break`. The tile is selected
      unless it is the successor of the last tile sent (tile 0 always is);
      a failed selection sets `error`. */
  function SendAsWritten(dev: Device, s: Sweep, t: nat, page: nat, column: nat): (r: (Sweep, bool))
    requires FB.Valid(s.f) && t < FB.Bytes(s.f) && s.f.dirty[t]
    ensures SameImage(s.f, r.0.f) && Extends(s.b, r.0.b) && r.0.b.sendStop == s.b.sendStop
    ensures s.error ==> r.0.error
    ensures r.0.error != s.error ==> r.0.status != Ok && r.1 && r.0.f == s.f
  {
    var selects := t == 0 || s.prev != t - 1;
    if !selects then DataAsWritten(dev, s, t, s.b)
    else
      SelectExtends(dev, s.b, Byte(page), Byte(column));
      var (selected, b1) := SetTileNext(dev, s.b, Byte(page), Byte(column));
      if selected != Ok then (Sweep(selected, true, s.prev, s.f, b1), true)
      else DataAsWritten(dev, s, t, b1)
  }

  /** Tile (`page`, `column`) in the as-written loop: nothing for a clean
      tile, `SendAsWritten` for a dirty one. */
  function TileAsWritten(dev: Device, s: Sweep, page: nat, column: nat): (r: (Sweep, bool))
    requires FB.Valid(s.f) && page < s.f.pages && column < s.f.columns
    ensures SameImage(s.f, r.0.f) && Extends(s.b, r.0.b) && r.0.b.sendStop == s.b.sendStop
    ensures s.error ==> r.0.error
    ensures r.0.error != s.error ==> r.0.status != Ok && r.1
  {
    RowMajorBound(page, s.f.pages, s.f.columns, column);
    var t := TileIndex(s.f.columns, page, column);
    if !s.f.dirty[t] then (s, false) else SendAsWritten(dev, s, t, page, column)
  }

  /** The column loop of page `page` from `column` on. */
  function RowAsWritten(dev: Device, s: Sweep, page: nat, column: nat): (r: (Sweep, bool))
    requires FB.Valid(s.f) && page < s.f.pages && column <= s.f.columns
    ensures SameImage(s.f, r.0.f) && Extends(s.b, r.0.b) && r.0.b.sendStop == s.b.sendStop
    ensures s.error ==> r.0.error
    ensures r.0.error != s.error ==> r.0.status != Ok && r.1
    decreases s.f.columns - column
  {
    if column == s.f.columns then (s, false)
    else
      var (s1, stop) := TileAsWritten(dev, s, page, column);
      if stop then (s1, true)
      else
        var r := RowAsWritten(dev, s1, page, column + 1);
        ExtendsTrans(s.b, s1.b, r.0.b);
        r
  }

  /** One pass of the page loop from `page` on: after each page the pass
      ends if `error` is set or no tile is dirty. */
  function PassAsWritten(dev: Device, s: Sweep, page: nat): (r: Sweep)
    requires FB.Valid(s.f) && page <= s.f.pages
    ensures SameImage(s.f, r.f) && Extends(s.b, r.b) && r.b.sendStop == s.b.sendStop
    ensures s.error ==> r.error
    decreases s.f.pages - page
  {
    if page == s.f.pages then s
    else
      var (s1, _) := RowAsWritten(dev, s, page, 0);
      if s1.error || s1.f.dirtyCount < 1 then s1
      else
        var r := PassAsWritten(dev, s1, page + 1);
        ExtendsTrans(s.b, s1.b, r.b);
        r
  }

  /** The outer loop: passes repeat while the status is not OK. `passes`
      bounds how many are looked at. */
  function RetryAsWritten(dev: Device, s: Sweep, passes: nat): (r: Sweep)
    requires FB.Valid(s.f)
    ensures SameImage(s.f, r.f) && Extends(s.b, r.b)
    ensures s.error ==> r.error
    decreases passes
  {
    if s.status == Ok || passes == 0 then s
    else
      var s1 := PassAsWritten(dev, s, 0);
      var r := RetryAsWritten(dev, s1, passes - 1);
      ExtendsTrans(s.b, s1.b, r.b);
      r
  }

  /** No dirty tile in page `page` from `column` on: the column loop
      changes nothing. */
  lemma {:induction false} CleanRowUntouched(dev: Device, s: Sweep, page: nat, column: nat)
    requires FB.Valid(s.f) && page < s.f.pages && column <= s.f.columns
    requires RowClean(s.f, page, column)
    ensures RowAsWritten(dev, s, page, column) == (s, false)
    decreases s.f.columns - column
  {
    if column < s.f.columns {
      assert !s.f.dirty[TileIndex(s.f.columns, page, column)];
      assert TileAsWritten(dev, s, page, column) == (s, false);
      CleanRowUntouched(dev, s, page, column + 1);
    }
  }

  /** Once `error` is set, a pass over a clean page 0 changes nothing: it
      stops after page 0 and leaves the status as it was. */
  lemma StuckPass(dev: Device, s: Sweep)
    requires FB.Valid(s.f) && s.f.pages > 0 && s.error
    requires RowClean(s.f, 0, 0)
    ensures PassAsWritten(dev, s, 0) == s
  {
    CleanRowUntouched(dev, s, 0, 0);
  }

  /** From such a state no number of passes ever reaches an OK status. */
  lemma {:induction false} StuckForever(dev: Device, s: Sweep, passes: nat)
    requires FB.Valid(s.f) && s.f.pages > 0 && s.error && s.status != Ok
    requires RowClean(s.f, 0, 0)
    ensures RetryAsWritten(dev, s, passes) == s
  {
    if passes > 0 {
      StuckPass(dev, s);
      StuckForever(dev, s, passes - 1);
    }
  }

  /** When only tile `columns` is dirty, page 0 is clean. */
  lemma OnlySecondPageDirty(fb: FB.Framebuffer)
    requires FB.Valid(fb) && fb.pages >= 2 && fb.columns >= 2
    requires forall i :: 0 <= i < FB.Bytes(fb) ==> fb.dirty[i] == (i == fb.columns)
    ensures RowClean(fb, 0, 0)
    ensures fb.dirty[TileIndex(fb.columns, 1, 0)] && fb.dirtyCount >= 1
  {
    RowMajorBound(1, fb.pages, fb.columns, 0);
    forall c | 0 <= c < fb.columns
      ensures TileIndex(fb.columns, 0, c) < |fb.dirty| && !fb.dirty[TileIndex(fb.columns, 0, c)]
    {
      RowMajorBound(0, fb.pages, fb.columns, c);
    }
    CountTrueZero(fb.dirty);
  }

  /** The first pass when only tile `columns` (page 1, column 0) is dirty
      and the first write on the bus fails: page 0 is skipped, the
      selection of the tile fails, and the pass ends with `error` set, the
      tile still dirty and the status not OK. */
  lemma FirstPassFails(dev: Device, fb: FB.Framebuffer, bus: Bus)
    requires FB.Valid(fb) && fb.pages >= 2 && fb.columns >= 2
    requires forall i :: 0 <= i < FB.Bytes(fb) ==> fb.dirty[i] == (i == fb.columns)
    requires Outcome(bus.results, 0) != Ok
    ensures var s := PassAsWritten(dev, Start(fb, bus), 0);
      s.error && s.status != Ok && s.f == fb
  {
    var s0 := Start(fb, bus);
    OnlySecondPageDirty(fb);
    CleanRowUntouched(dev, s0, 0, 0);
    var t := TileIndex(fb.columns, 1, 0);
    var r := SendAsWritten(dev, s0, t, 1, 0);
    assert !OkFor(bus.results, 6);
    assert r.0.error && r.0.f == fb && r.1;
    assert TileAsWritten(dev, s0, 1, 0) == r;
    assert RowAsWritten(dev, s0, 1, 0) == r;
    assert PassAsWritten(dev, s0, 1) == r.0;
  }

  /** The as-written retry loop never ends on that input: every number of
      passes leaves the status not OK, while `Ssd1306Diff.DiffPasses`
      always ends with every tile clean. */
  lemma AsWrittenRetrySpins(dev: Device, fb: FB.Framebuffer, bus: Bus, passes: nat)
    requires FB.Valid(fb) && fb.pages >= 2 && fb.columns >= 2
    requires forall i :: 0 <= i < FB.Bytes(fb) ==> fb.dirty[i] == (i == fb.columns)
    requires Outcome(bus.results, 0) != Ok
    ensures RetryAsWritten(dev, Start(fb, bus), passes + 1).status != Ok
  {
    FirstPassFails(dev, fb, bus);
    OnlySecondPageDirty(fb);
    var s1 := PassAsWritten(dev, Start(fb, bus), 0);
    StuckForever(dev, s1, passes);
  }
}
