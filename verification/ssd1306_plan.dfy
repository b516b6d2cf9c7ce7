/**
 * What an update of the SSD1306 sends, one step at a time, and what those
 * steps do to the controller's display RAM.
 *
 * An update is a list of steps: select the tile that receives the next data
 * byte (a page range command followed by a column range command), or send a
 * data byte. The controller runs in horizontal addressing mode (section
 * 10.1.3 of the SSD1306 datasheet): a data byte lands at the page/column
 * pointer, the column pointer then moves right, and once it has passed the
 * column end address it returns to the column start address on the next
 * page, wrapping from the page end address back to the page start address.
 */
module Ssd1306Plan {
  import opened Common
  import opened Bits
  import opened Bus
  import opened Ssd1306
  import FB = Framebuffer

  /** One step of an update. */
  datatype Step = Select(page: nat, column: nat) | Data(byte: bv8)

  /** The bus traffic of one step when every write succeeds. */
  function StepEvents(dev: Device, step: Step): (r: seq<Event>)
    ensures step.Data? ==> r == [Write(dev.address, [0x40, step.byte], false), Stop]
    ensures step.Select? ==> |r| == 8
  {
    match step
    case Select(page, column) => AddressTransmission(dev, Byte(page), Byte(column))
    case Data(b) =>
      assert Frames(dev.address, KindByte(DataKind), [b], false) == [Write(dev.address, [0x40, b], false)];
      Transmission(dev.address, DataKind, [b])
  }

  /** The bus traffic of a list of steps. */
  function Encode(dev: Device, steps: seq<Step>): seq<Event>
    decreases |steps|
  {
    if |steps| == 0 then [] else StepEvents(dev, steps[0]) + Encode(dev, steps[1..])
  }

  lemma {:induction false} EncodeAppend(dev: Device, a: seq<Step>, b: seq<Step>)
    ensures Encode(dev, a + b) == Encode(dev, a) + Encode(dev, b)
    decreases |a|
  {
    if |a| == 0 {
      assert a + b == b;
    } else {
      assert (a + b)[1..] == a[1..] + b;
      EncodeAppend(dev, a[1..], b);
    }
  }

  lemma EncodeSingle(dev: Device, step: Step)
    ensures Encode(dev, [step]) == StepEvents(dev, step)
  {
    assert [step][1..] == [];
  }

  /** One data step per tile, in tile order. */
  function DataSteps(tiles: seq<bv8>): (r: seq<Step>)
    ensures |r| == |tiles|
    ensures forall i :: 0 <= i < |tiles| ==> r[i] == Data(tiles[i])
  {
    seq(|tiles|, (i: int) requires 0 <= i < |tiles| => Data(tiles[i]))
  }

  /** `ssd1306_display_update_all`: select tile (0, 0) once, then every tile
      in page-major, column-minor order, which is tile-index order. */
  function FullSteps(fb: FB.Framebuffer): seq<Step> {
    [Select(0, 0)] + DataSteps(fb.tiles)
  }

  // ---------------------------------------------------------------------
  // The differential update
  // ---------------------------------------------------------------------

  /** When the differential update re-addresses the controller. `AsWritten`
      is the driver's rule: for tile 0, or when the previously sent tile is
      not the one just before. `Corrected` also re-addresses at the first
      column of every page, where the controller does not continue, and
      starts with no previous tile instead of tile 0. */
  datatype AddressRule = AsWritten | Corrected

  /** The initial `tile_idx_prev`. */
  function InitialPrev(rule: AddressRule): int {
    match rule
    case AsWritten => 0
    case Corrected => -1
  }

  predicate NeedsAddress(rule: AddressRule, columns: nat, t: nat, prev: int) {
    match rule
    case AsWritten => t == 0 || prev != t - 1
    case Corrected => prev != t - 1 || (columns > 0 && t % columns == 0)
  }

  /** The selection, if any, that precedes dirty tile `t`. */
  function Selection(rule: AddressRule, fb: FB.Framebuffer, t: nat, prev: int): (r: seq<Step>)
    requires fb.columns > 0
    ensures |r| <= 1
    ensures r != [] <==> NeedsAddress(rule, fb.columns, t, prev)
    ensures r != [] ==> r[0] == Select(t / fb.columns, t % fb.columns)
  {
    if NeedsAddress(rule, fb.columns, t, prev) then [Select(t / fb.columns, t % fb.columns)] else []
  }

  /** Number of data steps in a list of steps. */
  function CountData(steps: seq<Step>): nat
    decreases |steps|
  {
    if |steps| == 0 then 0 else (if steps[0].Data? then 1 else 0) + CountData(steps[1..])
  }

  lemma {:induction false} CountDataAppend(a: seq<Step>, b: seq<Step>)
    ensures CountData(a + b) == CountData(a) + CountData(b)
    decreases |a|
  {
    if |a| == 0 {
      assert a + b == b;
    } else {
      assert (a + b)[1..] == a[1..] + b;
      CountDataAppend(a[1..], b);
    }
  }

  /** The steps of the differential update from tile `t` on, `prev` being
      the last tile sent: each dirty tile in index order, preceded by a
      selection of that tile when the rule asks for one. Exactly one data
      byte goes out per dirty tile, and a selection always names the tile
      whose byte follows. */
  function DiffSteps(rule: AddressRule, fb: FB.Framebuffer, t: nat, prev: int): (r: seq<Step>)
    requires FB.Shape(fb) && t <= FB.Bytes(fb)
    ensures CountData(r) == CountTrue(fb.dirty[t..])
    decreases FB.Bytes(fb) - t
  {
    if t == FB.Bytes(fb) then
      assert fb.dirty[t..] == [];
      []
    else
      assert fb.dirty[t..] == [fb.dirty[t]] + fb.dirty[t + 1..];
      var rest := DiffSteps(rule, fb, t + 1, if fb.dirty[t] then t else prev);
      if !fb.dirty[t] then rest
      else
        var data := [Data(fb.tiles[t])];
        var select := Selection(rule, fb, t, prev);
        assert CountData(data) == 1;
        assert CountData(select) == 0;
        CountDataAppend(select, data);
        CountDataAppend(select + data, rest);
        select + data + rest
  }

  /** The bus traffic for dirty tile `t`: its selection if the rule asks for
      one, its data byte, then the traffic for the tiles after it. */
  lemma EncodeDirtyTile(rule: AddressRule, dev: Device, fb: FB.Framebuffer, t: nat, prev: int)
    requires FB.Shape(fb) && t < FB.Bytes(fb) && fb.dirty[t]
    ensures Encode(dev, DiffSteps(rule, fb, t, prev)) ==
      Encode(dev, Selection(rule, fb, t, prev)) + StepEvents(dev, Data(fb.tiles[t])) + Encode(dev, DiffSteps(rule, fb, t + 1, t))
  {
    var select := Selection(rule, fb, t, prev);
    var data := [Data(fb.tiles[t])];
    var rest := DiffSteps(rule, fb, t + 1, t);
    assert DiffSteps(rule, fb, t, prev) == select + data + rest;
    EncodeAppend(dev, select + data, rest);
    EncodeAppend(dev, select, data);
    EncodeSingle(dev, Data(fb.tiles[t]));
  }

  /** No dirty tile from `t` on: nothing left to send. */
  lemma {:induction false} DiffStepsClean(rule: AddressRule, fb: FB.Framebuffer, t: nat, prev: int)
    requires FB.Shape(fb) && t <= FB.Bytes(fb)
    requires forall i :: t <= i < FB.Bytes(fb) ==> !fb.dirty[i]
    ensures DiffSteps(rule, fb, t, prev) == []
    decreases FB.Bytes(fb) - t
  {
    if t < FB.Bytes(fb) {
      DiffStepsClean(rule, fb, t + 1, prev);
    }
  }

  /** Clearing the dirty flags below `t` does not change the steps from `t` on. */
  lemma {:induction false} DiffStepsFrame(rule: AddressRule, fb: FB.Framebuffer, fb': FB.Framebuffer, t: nat, prev: int)
    requires FB.Shape(fb) && FB.Shape(fb') && t <= FB.Bytes(fb)
    requires fb'.columns == fb.columns && fb'.pages == fb.pages && fb'.tiles == fb.tiles
    requires forall i :: t <= i < FB.Bytes(fb) ==> fb'.dirty[i] == fb.dirty[i]
    ensures DiffSteps(rule, fb', t, prev) == DiffSteps(rule, fb, t, prev)
    decreases FB.Bytes(fb) - t
  {
    if t < FB.Bytes(fb) {
      DiffStepsFrame(rule, fb, fb', t + 1, if fb.dirty[t] then t else prev);
    }
  }

  // ---------------------------------------------------------------------
  // The controller's display RAM
  // ---------------------------------------------------------------------

  /** Display RAM, one byte per tile in tile-index order, and the address
      pointers and ranges of horizontal addressing mode. */
  datatype Panel = Panel(
    ram: seq<bv8>,
    page: nat,
    column: nat,
    pageStart: nat,
    pageEnd: nat,
    columnStart: nat,
    columnEnd: nat)

  /** The RAM cell the pointers designate. */
  function Cell(p: Panel): nat {
    p.page * Width + p.column
  }

  /** Pointer movement after a data byte. */
  function Advance(p: Panel): (r: Panel)
    ensures r.ram == p.ram
    ensures p.column < p.columnEnd ==> Cell(r) == Cell(p) + 1
  {
    if p.column < p.columnEnd then p.(column := p.column + 1)
    else p.(column := p.columnStart, page := if p.page < p.pageEnd then p.page + 1 else p.pageStart)
  }

  /** One step as the controller executes it. The page range command sets
      the page pointer and the range [page, `lastPage`]; the column range
      command sets the column pointer and the range [column, 127]. The
      values travel as `uint8_t`, so the controller sees them modulo 256
      (`Bits.ByteValue`). */
  function Apply(p: Panel, lastPage: nat, step: Step): (r: Panel)
    ensures |r.ram| == |p.ram|
    ensures step.Data? && Cell(p) < |p.ram| ==>
      r.ram == p.ram[Cell(p) := step.byte]
    ensures step.Select? ==> r.ram == p.ram
  {
    match step
    case Select(page, column) =>
      p.(page := page % 256, column := column % 256, pageStart := page % 256, pageEnd := lastPage,
         columnStart := column % 256, columnEnd := Width - 1)
    case Data(b) =>
      Advance(p.(ram := if Cell(p) < |p.ram| then p.ram[Cell(p) := b] else p.ram))
  }

  function Run(p: Panel, lastPage: nat, steps: seq<Step>): (r: Panel)
    ensures |r.ram| == |p.ram|
    decreases |steps|
  {
    if |steps| == 0 then p else Run(Apply(p, lastPage, steps[0]), lastPage, steps[1..])
  }

  lemma {:induction false} RunAppend(p: Panel, lastPage: nat, a: seq<Step>, b: seq<Step>)
    ensures Run(p, lastPage, a + b) == Run(Run(p, lastPage, a), lastPage, b)
    decreases |a|
  {
    if |a| == 0 {
      assert a + b == b;
    } else {
      assert (a + b)[1..] == a[1..] + b;
      RunAppend(Apply(p, lastPage, a[0]), lastPage, a[1..], b);
    }
  }

  lemma RunSingle(p: Panel, lastPage: nat, step: Step)
    ensures Run(p, lastPage, [step]) == Apply(p, lastPage, step)
  {
    assert [step][1..] == [];
  }

  /** The framebuffers the driver is used with: 128 columns, and every page
      of the buffer addressable on the panel. */
  predicate PanelSized(fb: FB.Framebuffer, lastPage: nat) {
    FB.Shape(fb) && fb.columns == Width && fb.pages == lastPage + 1 && lastPage < 256
  }

  /** The pointer state a run of data bytes relies on at cell `k`. */
  predicate FillingAt(p: Panel, lastPage: nat, k: nat) {
    && Cell(p) == k
    && p.column < Width && p.columnStart == 0 && p.columnEnd == Width - 1 && p.pageEnd == lastPage
  }

  /** One data byte at cell `k` moves the pointer on to cell `k + 1`, also
      across the end of a page. */
  lemma AdvanceFills(p: Panel, lastPage: nat, k: nat)
    requires FillingAt(p, lastPage, k) && k + 1 < (lastPage + 1) * Width
    ensures FillingAt(Advance(p), lastPage, k + 1)
  {
    if p.column == Width - 1 {
      assert p.page * Width + Width < (lastPage + 1) * Width;
      assert p.page < lastPage;
    }
  }

  /** Data bytes sent from cell `k` on fill the RAM from `k` in order. */
  lemma {:induction false} RunDataFills(p: Panel, lastPage: nat, tiles: seq<bv8>, k: nat)
    requires |p.ram| == |tiles| == (lastPage + 1) * Width
    requires k <= |tiles|
    requires k < |tiles| ==> FillingAt(p, lastPage, k)
    requires forall i :: 0 <= i < k ==> p.ram[i] == tiles[i]
    ensures Run(p, lastPage, DataSteps(tiles)[k..]).ram == tiles
    decreases |tiles| - k
  {
    if k == |tiles| {
      assert DataSteps(tiles)[k..] == [];
      assert p.ram == tiles;
    } else {
      var written := p.(ram := p.ram[k := tiles[k]]);
      var q := Apply(p, lastPage, Data(tiles[k]));
      assert q == Advance(written);
      assert DataSteps(tiles)[k..][0] == Data(tiles[k]);
      assert DataSteps(tiles)[k..][1..] == DataSteps(tiles)[k + 1..];
      if k + 1 < |tiles| {
        AdvanceFills(written, lastPage, k);
      }
      RunDataFills(q, lastPage, tiles, k + 1);
    }
  }

  /** A complete update brings every RAM cell up to date, whatever the
      controller's state before it. */
  lemma FullStepsRefreshPanel(fb: FB.Framebuffer, p: Panel, lastPage: nat)
    requires PanelSized(fb, lastPage)
    requires |p.ram| == FB.Bytes(fb)
    ensures Run(p, lastPage, FullSteps(fb)).ram == fb.tiles
  {
    var q := Apply(p, lastPage, Select(0, 0));
    assert FullSteps(fb)[1..] == DataSteps(fb.tiles)[0..];
    RunDataFills(q, lastPage, fb.tiles, 0);
  }

  /** Where the controller's pointers stand after tile `prev` was written
      under the corrected rule: the column range ends at column 127, and
      unless `prev` was the last tile of its page the pointer designates the
      next tile. */
  predicate PointerAfter(p: Panel, lastPage: nat, prev: int) {
    prev >= 0 ==>
      p.columnEnd == Width - 1 && p.pageEnd == lastPage
      && (prev % Width < Width - 1 ==> p.page == prev / Width && p.column == prev % Width + 1)
  }

  /** The selection of tile `t` points the controller at `t`'s cell. */
  lemma SelectLands(p: Panel, lastPage: nat, t: nat)
    requires t / Width <= lastPage < 256
    ensures var q := Run(p, lastPage, [Select(t / Width, t % Width)]);
      q.ram == p.ram && q.page == t / Width && q.column == t % Width
      && q.columnEnd == Width - 1 && q.pageEnd == lastPage
  {
    RunSingle(p, lastPage, Select(t / Width, t % Width));
  }

  /** Under the corrected rule the pointer designates dirty tile `t` once
      its selection, if any, has gone out. */
  lemma SelectionPoints(fb: FB.Framebuffer, p: Panel, lastPage: nat, t: nat, prev: int)
    requires PanelSized(fb, lastPage) && t < FB.Bytes(fb)
    requires -1 <= prev < t
    requires PointerAfter(p, lastPage, prev)
    ensures var q := Run(p, lastPage, Selection(Corrected, fb, t, prev));
      q.ram == p.ram && q.page == t / Width && q.column == t % Width
      && q.columnEnd == Width - 1 && q.pageEnd == lastPage
  {
    var select := Selection(Corrected, fb, t, prev);
    assert t / Width < lastPage + 1;
    if select != [] {
      SelectLands(p, lastPage, t);
    } else {
      assert prev == t - 1 && t % Width != 0;
    }
  }

  /** A data byte at tile `t` lands in cell `t` and leaves the pointer
      where `PointerAfter` says. */
  lemma DataLands(p: Panel, lastPage: nat, t: nat, b: bv8)
    requires t < |p.ram|
    requires p.page == t / Width && p.column == t % Width
    requires p.columnEnd == Width - 1 && p.pageEnd == lastPage
    ensures Run(p, lastPage, [Data(b)]).ram == p.ram[t := b]
    ensures PointerAfter(Run(p, lastPage, [Data(b)]), lastPage, t)
  {
    RunSingle(p, lastPage, Data(b));
    assert Cell(p) == t;
  }

  /** The differential update under the corrected rule, from tile `t` on:
      a panel that already shows every tile below `t` and every clean tile
      shows the whole framebuffer afterwards. */
  lemma {:induction false} DiffStepsRefresh(fb: FB.Framebuffer, p: Panel, lastPage: nat, t: nat, prev: int)
    requires PanelSized(fb, lastPage) && |p.ram| == FB.Bytes(fb) && t <= FB.Bytes(fb)
    requires -1 <= prev < t
    requires PointerAfter(p, lastPage, prev)
    requires forall i :: 0 <= i < FB.Bytes(fb) && (i < t || !fb.dirty[i]) ==> p.ram[i] == fb.tiles[i]
    ensures Run(p, lastPage, DiffSteps(Corrected, fb, t, prev)).ram == fb.tiles
    decreases FB.Bytes(fb) - t
  {
    if t == FB.Bytes(fb) {
      assert p.ram == fb.tiles;
    } else if !fb.dirty[t] {
      DiffStepsRefresh(fb, p, lastPage, t + 1, prev);
    } else {
      var p2 := DirtyTileRefresh(fb, p, lastPage, t, prev);
      DiffStepsRefresh(fb, p2, lastPage, t + 1, t);
    }
  }

  /** One dirty tile under the corrected rule: the panel then shows that
      tile too, with its pointer just past it. */
  lemma DirtyTileRefresh(fb: FB.Framebuffer, p: Panel, lastPage: nat, t: nat, prev: int) returns (p2: Panel)
    requires PanelSized(fb, lastPage) && |p.ram| == FB.Bytes(fb) && t < FB.Bytes(fb) && fb.dirty[t]
    requires -1 <= prev < t
    requires PointerAfter(p, lastPage, prev)
    ensures Run(p, lastPage, DiffSteps(Corrected, fb, t, prev)) == Run(p2, lastPage, DiffSteps(Corrected, fb, t + 1, t))
    ensures p2.ram == p.ram[t := fb.tiles[t]] && PointerAfter(p2, lastPage, t)
  {
    var data := [Data(fb.tiles[t])];
    var select := Selection(Corrected, fb, t, prev);
    var rest := DiffSteps(Corrected, fb, t + 1, t);
    assert DiffSteps(Corrected, fb, t, prev) == select + data + rest;
    SelectionPoints(fb, p, lastPage, t, prev);
    var p1 := Run(p, lastPage, select);
    DataLands(p1, lastPage, t, fb.tiles[t]);
    p2 := Run(p1, lastPage, data);
    RunAppend(p, lastPage, select, data);
    RunAppend(p, lastPage, select + data, rest);
  }

  /** The corrected differential update brings the panel up to date,
      whatever the controller's pointers, provided the clean tiles already
      show what the framebuffer holds. */
  lemma CorrectedUpdateRefreshesPanel(fb: FB.Framebuffer, p: Panel, lastPage: nat)
    requires PanelSized(fb, lastPage) && |p.ram| == FB.Bytes(fb)
    requires forall i :: 0 <= i < FB.Bytes(fb) && !fb.dirty[i] ==> p.ram[i] == fb.tiles[i]
    ensures Run(p, lastPage, DiffSteps(Corrected, fb, 0, InitialPrev(Corrected))).ram == fb.tiles
  {
    DiffStepsRefresh(fb, p, lastPage, 0, -1);
  }

  /** As written, starting from `tile_idx_prev = 0` makes tile 1 look like
      the continuation of tile 0: when tile 1 is the only dirty tile no
      address goes out, and its byte lands wherever the pointer is. */
  lemma AsWrittenSkipsFirstAddress(fb: FB.Framebuffer, p: Panel, lastPage: nat)
    requires PanelSized(fb, lastPage) && |p.ram| == FB.Bytes(fb)
    requires forall i :: 0 <= i < FB.Bytes(fb) ==> fb.dirty[i] == (i == 1)
    requires Cell(p) != 1 && p.ram[1] != fb.tiles[1]
    ensures DiffSteps(AsWritten, fb, 0, InitialPrev(AsWritten)) == [Data(fb.tiles[1])]
    ensures Run(p, lastPage, DiffSteps(AsWritten, fb, 0, InitialPrev(AsWritten))).ram != fb.tiles
  {
    DiffStepsClean(AsWritten, fb, 2, 1);
    var steps := DiffSteps(AsWritten, fb, 0, 0);
    assert steps == DiffSteps(AsWritten, fb, 1, 0);
    assert !NeedsAddress(AsWritten, fb.columns, 1, 0);
    assert steps == [Data(fb.tiles[1])] + [];
    var q := Run(p, lastPage, steps);
    assert q == Run(Apply(p, lastPage, steps[0]), lastPage, []);
    assert q.ram[1] == p.ram[1];
  }

  /** The steps the driver as written sends when tiles 127 and 128, the
      last of page 0 and the first of page 1, are the only dirty ones. */
  lemma AsWrittenStepsAcrossPages(fb: FB.Framebuffer)
    requires FB.Shape(fb) && fb.columns == Width && fb.pages >= 2
    requires forall i :: 0 <= i < FB.Bytes(fb) ==> fb.dirty[i] == (i == Width - 1 || i == Width)
    ensures DiffSteps(AsWritten, fb, 0, InitialPrev(AsWritten))
      == [Select(0, Width - 1), Data(fb.tiles[Width - 1]), Data(fb.tiles[Width])]
  {
    DiffStepsClean(AsWritten, fb, Width + 1, Width);
    DiffStepsSkip(AsWritten, fb, 0, Width - 1, 0);
    assert !NeedsAddress(AsWritten, fb.columns, Width, Width - 1);
    assert DiffSteps(AsWritten, fb, Width, Width - 1) == [] + [Data(fb.tiles[Width])] + [];
    assert NeedsAddress(AsWritten, fb.columns, Width - 1, 0);
  }

  /** As written, two dirty tiles on either side of a page boundary are
      sent as one run, but the column range set for the first of them ends
      at column 127 and starts there too: the controller returns to column
      127 on the next page and the second byte lands in the wrong cell. */
  lemma AsWrittenBreaksAcrossPages(fb: FB.Framebuffer, p: Panel, lastPage: nat)
    requires PanelSized(fb, lastPage) && |p.ram| == FB.Bytes(fb) && lastPage >= 1
    requires forall i :: 0 <= i < FB.Bytes(fb) ==> fb.dirty[i] == (i == Width - 1 || i == Width)
    requires p.ram[Width] != fb.tiles[Width]
    ensures Run(p, lastPage, DiffSteps(AsWritten, fb, 0, InitialPrev(AsWritten))).ram != fb.tiles
  {
    AsWrittenStepsAcrossPages(fb);
    var a, b := fb.tiles[Width - 1], fb.tiles[Width];
    var p1 := Apply(p, lastPage, Select(0, Width - 1));
    var p2 := Apply(p1, lastPage, Data(a));
    var p3 := Apply(p2, lastPage, Data(b));
    assert Cell(p2) == 2 * Width - 1;
    assert p3.ram[Width] == p.ram[Width];
    RunSingle(p, lastPage, Select(0, Width - 1));
    RunSingle(p1, lastPage, Data(a));
    RunSingle(p2, lastPage, Data(b));
    RunAppend(p, lastPage, [Select(0, Width - 1)], [Data(a)]);
    RunAppend(p, lastPage, [Select(0, Width - 1)] + [Data(a)], [Data(b)]);
    assert [Select(0, Width - 1), Data(a), Data(b)] == [Select(0, Width - 1)] + [Data(a)] + [Data(b)];
  }

  /** Clean tiles contribute no steps: the steps from `t` equal those from
      the next dirty tile `u`. */
  lemma {:induction false} DiffStepsSkip(rule: AddressRule, fb: FB.Framebuffer, t: nat, u: nat, prev: int)
    requires FB.Shape(fb) && t <= u <= FB.Bytes(fb)
    requires forall i :: t <= i < u ==> !fb.dirty[i]
    ensures DiffSteps(rule, fb, t, prev) == DiffSteps(rule, fb, u, prev)
    decreases u - t
  {
    if t < u {
      DiffStepsSkip(rule, fb, t + 1, u, prev);
    }
  }
}
