/**
 * The differential update of `ssd1306_display_update`: only the dirty
 * tiles go out, each preceded by a selection of its tile when the
 * controller's pointer is not already there, and each is marked clean once
 * its byte went through. A failed write makes the driver start over, and
 * `ssd1306_display_update` itself picks between nothing, this and the full
 * update by the number of dirty tiles.
 */
module Ssd1306Diff {
  import opened Common
  import opened Bits
  import opened Bus
  import opened Ssd1306
  import opened Ssd1306Plan
  import opened Ssd1306Update
  import FB = Framebuffer

  // ---------------------------------------------------------------------
  // One pass, corrected
  // ---------------------------------------------------------------------

  /** The framebuffer `f` is `fb` with some dirty flags cleared: same
      geometry, same tiles, and no flag set that was not set in `fb`. */
  predicate ClearedFrom(f: FB.Framebuffer, fb: FB.Framebuffer) {
    && FB.Valid(f)
    && f.columns == fb.columns && f.pages == fb.pages && f.tiles == fb.tiles
    && |f.dirty| == |fb.dirty|
    && (forall i :: 0 <= i < |f.dirty| && f.dirty[i] ==> fb.dirty[i])
  }

  /** The traffic so far on `b` and the steps still to come from tile `t`
      on, `prev` being the last tile sent, add up to the whole pass. */
  predicate Remaining(dev: Device, fb: FB.Framebuffer, bus: Bus, b: Bus, t: nat, prev: int)
    requires FB.Shape(fb) && t <= FB.Bytes(fb)
  {
    bus.trace + Encode(dev, DiffSteps(Corrected, fb, 0, -1)) == b.trace + Encode(dev, DiffSteps(Corrected, fb, t, prev))
  }

  /** A clean tile adds no steps. */
  lemma CleanTileStep(dev: Device, fb: FB.Framebuffer, bus: Bus, b: Bus, t: nat, prev: int)
    requires FB.Shape(fb) && t < FB.Bytes(fb) && !fb.dirty[t]
    requires Remaining(dev, fb, bus, b, t, prev)
    ensures Remaining(dev, fb, bus, b, t + 1, prev)
  {
    assert DiffSteps(Corrected, fb, t, prev) == DiffSteps(Corrected, fb, t + 1, prev);
  }

  /** A dirty tile adds its selection, if any, and its data byte. */
  lemma DirtyTileStep(dev: Device, fb: FB.Framebuffer, bus: Bus, b: Bus, after: Bus, t: nat, prev: int)
    requires FB.Shape(fb) && t < FB.Bytes(fb) && fb.dirty[t]
    requires Remaining(dev, fb, bus, b, t, prev)
    requires after.trace == b.trace + Encode(dev, Selection(Corrected, fb, t, prev)) + StepEvents(dev, Data(fb.tiles[t]))
    ensures Remaining(dev, fb, bus, after, t + 1, t)
  {
    EncodeDirtyTile(Corrected, dev, fb, t, prev);
    var select := Encode(dev, Selection(Corrected, fb, t, prev));
    var data := StepEvents(dev, Data(fb.tiles[t]));
    var rest := Encode(dev, DiffSteps(Corrected, fb, t + 1, t));
    AppendAssoc(b.trace, select, data);
    AppendAssoc(b.trace, select + data, rest);
    AppendAssoc(after.trace, data, rest);
  }

  /** The traffic of a selection step list: the address transmission of
      the tile when there is one. */
  lemma SelectionEncode(dev: Device, fb: FB.Framebuffer, t: nat, prev: int)
    requires fb.columns > 0
    ensures Encode(dev, Selection(Corrected, fb, t, prev)) ==
      if NeedsAddress(Corrected, fb.columns, t, prev)
      then AddressTransmission(dev, Byte(t / fb.columns), Byte(t % fb.columns))
      else []
  {
    if NeedsAddress(Corrected, fb.columns, t, prev) {
      EncodeSingle(dev, Select(t / fb.columns, t % fb.columns));
    }
  }

  /** The selection before dirty tile `t`: the address transmission when
      the controller's pointer is not on the tile, nothing otherwise. */
  method SelectIfNeeded(dev: Device, fb: FB.Framebuffer, b: Bus, t: nat, prev: int)
    returns (status: Status, b': Bus)
    requires fb.columns > 0
    ensures b'.sendStop == b.sendStop && Extends(b, b')
    ensures status != Ok ==> |b'.results| < |b.results|
    ensures status == Ok ==> b'.trace == b.trace + Encode(dev, Selection(Corrected, fb, t, prev))
    ensures AllOk(b.results) ==> status == Ok && AllOk(b'.results)
  {
    SelectionEncode(dev, fb, t, prev);
    status, b' := Ok, b;
    if NeedsAddress(Corrected, fb.columns, t, prev) {
      status, b' := SelectTileNext(dev, b, Byte(t / fb.columns), Byte(t % fb.columns));
      if AllOk(b.results) {
        AllOkFor(b.results, 6);
        AllOkConsume(b.results, 6);
      }
    }
  }

  /** Dirty tile `t`: select it if the controller's pointer is not on it,
      send its byte, and mark it clean. A failure leaves the flags alone. */
  method DiffTile(dev: Device, fb: FB.Framebuffer, bus: Bus, f: FB.Framebuffer, b: Bus, t: nat, prev: int)
    returns (status: Status, f': FB.Framebuffer, b': Bus)
    requires FB.Valid(fb) && t < FB.Bytes(fb) && fb.dirty[t] && -1 <= prev < t
    requires ClearedFrom(f, fb) && f.dirty[t]
    requires Remaining(dev, fb, bus, b, t, prev)
    ensures b'.sendStop == b.sendStop && Extends(b, b')
    ensures status != Ok ==> f' == f && |b'.results| < |b.results|
    ensures status == Ok ==> f' == FB.MarkClean(f, t) && Remaining(dev, fb, bus, b', t + 1, t)
    ensures AllOk(b.results) ==> status == Ok && AllOk(b'.results)
  {
    var b1;
    status, b1 := SelectIfNeeded(dev, fb, b, t, prev);
    f', b' := f, b1;
    if status == Ok {
      var (s, after) := SendByte(dev, b1, fb.tiles[t]);
      assert after.trace == b1.trace + StepEvents(dev, Data(fb.tiles[t]));
      DirtyTileStep(dev, fb, bus, b, after, t, prev);
      if AllOk(b1.results) {
        AllOkConsume(b1.results, 1);
      }
      ExtendsTrans(b, b1, after);
      status, b' := s, after;
      if s == Ok {
        f' := FB.MarkClean(f, t);
      }
    }
  }

  /** Where a corrected pass stands before tile `t`: the tiles below `t`
      are clean, the ones from `t` on still carry their original flags, the
      bus has only moved forward and its traffic is the planned steps up to
      `t`. */
  predicate PassState(dev: Device, fb: FB.Framebuffer, bus: Bus, f: FB.Framebuffer, b: Bus, t: nat, prev: int)
    requires FB.Valid(fb)
  {
    && t <= FB.Bytes(fb) && -1 <= prev < t
    && ClearedFrom(f, fb)
    && (forall i :: t <= i < |f.dirty| ==> f.dirty[i] == fb.dirty[i])
    && (forall i :: 0 <= i < t ==> !f.dirty[i])
    && b.sendStop == bus.sendStop && Extends(bus, b)
    && Remaining(dev, fb, bus, b, t, prev)
    && (AllOk(bus.results) ==> AllOk(b.results))
  }

  /** Tile `t` of a corrected pass: nothing for a clean tile, `DiffTile`
      for a dirty one. */
  method PassTile(dev: Device, fb: FB.Framebuffer, bus: Bus, f: FB.Framebuffer, b: Bus, t: nat, prev: int)
    returns (status: Status, f': FB.Framebuffer, b': Bus, prev': int)
    requires FB.Valid(fb) && t < FB.Bytes(fb) && PassState(dev, fb, bus, f, b, t, prev)
    ensures status == Ok ==> PassState(dev, fb, bus, f', b', t + 1, prev')
    ensures status != Ok ==>
      ClearedFrom(f', fb) && b'.sendStop == bus.sendStop && Extends(bus, b') && |b'.results| < |bus.results|
    ensures AllOk(bus.results) ==> status == Ok
  {
    if fb.dirty[t] {
      status, f', b' := DiffTile(dev, fb, bus, f, b, t, prev);
      ExtendsTrans(bus, b, b');
      prev' := t;
    } else {
      CleanTileStep(dev, fb, bus, b, t, prev);
      status, f', b', prev' := Ok, f, b, prev;
    }
  }

  /** One pass of the differential update, corrected: every dirty tile in
      index order, with the address rule that also re-selects at the start
      of every page. The pass ends at the first failed write; after a pass
      that went through no tile is dirty and the traffic is exactly the
      planned steps. */
  method DiffPass(dev: Device, fb: FB.Framebuffer, bus: Bus) returns (status: Status, f: FB.Framebuffer, b: Bus)
    requires FB.Valid(fb)
    ensures ClearedFrom(f, fb)
    ensures b.sendStop == bus.sendStop && Extends(bus, b)
    ensures status != Ok ==> |b.results| < |bus.results|
    ensures status == Ok ==> f.dirtyCount == 0 && b.trace == bus.trace + Encode(dev, DiffSteps(Corrected, fb, 0, -1))
    ensures AllOk(bus.results) ==> status == Ok
  {
    status, f, b := Ok, fb, bus;
    var t, prev := 0, -1;
    while t < FB.Bytes(fb)
      invariant status == Ok && PassState(dev, fb, bus, f, b, t, prev)
    {
      status, f, b, prev := PassTile(dev, fb, bus, f, b, t, prev);
      if status != Ok {
        return;
      }
      t := t + 1;
    }
    CountTrueZero(f.dirty);
  }

  /** Clearing flags in two rounds is clearing flags. */
  lemma ClearedFromTrans(a: FB.Framebuffer, b: FB.Framebuffer, c: FB.Framebuffer)
    requires ClearedFrom(a, b) && ClearedFrom(b, c)
    ensures ClearedFrom(a, c)
  {
  }

  /** A framebuffer cleared from `fb` with no dirty tile left is `fb` with
      its dirty index wiped. */
  lemma ClearedAll(f: FB.Framebuffer, fb: FB.Framebuffer)
    requires ClearedFrom(f, fb) && f.dirtyCount == 0
    ensures f == FB.MarkAllClean(fb)
  {
    CountTrueZero(f.dirty);
    assert f.dirty == FB.MarkAllClean(fb).dirty;
  }

  // ---------------------------------------------------------------------
  // Retrying, corrected
  // ---------------------------------------------------------------------

  /** The retry loop of `ssd1306_display_update`, corrected: after a failed
      pass the next pass starts afresh, with the tiles still dirty and
      nothing assumed about the controller's pointer. Every failure uses up
      an outcome of the bus, so once they are used up a pass goes through.
      `pending` is the framebuffer the successful pass started from. */
  method DiffPasses(dev: Device, fb: FB.Framebuffer, bus: Bus) returns (f: FB.Framebuffer, pending: FB.Framebuffer, b: Bus)
    requires FB.Valid(fb)
    ensures f == FB.MarkAllClean(fb) && ClearedFrom(pending, fb)
    ensures b.sendStop == bus.sendStop && Extends(bus, b)
    ensures EndsWith(b.trace, bus.trace, Encode(dev, DiffSteps(Corrected, pending, 0, -1)))
    ensures AllOk(bus.results) ==> pending == fb && b.trace == bus.trace + Encode(dev, DiffSteps(Corrected, fb, 0, -1))
    decreases |bus.results|
  {
    var status, f1, after := DiffPass(dev, fb, bus);
    if status == Ok {
      ClearedAll(f1, fb);
      PassEndsTrace(bus.trace, bus.trace, after.trace, Encode(dev, DiffSteps(Corrected, fb, 0, -1)));
      return f1, fb, after;
    }
    var g;
    g, pending, b := DiffPasses(dev, f1, after);
    ExtendsTrans(bus, after, b);
    EndsWithExtends(bus, after, b.trace, Encode(dev, DiffSteps(Corrected, pending, 0, -1)));
    ClearedFromTrans(pending, f1, fb);
    ClearedFromTrans(g, f1, fb);
    ClearedAll(g, fb);
    f := g;
  }

  // ---------------------------------------------------------------------
  // The update, corrected
  // ---------------------------------------------------------------------

  /** The steps `ssd1306_display_update` plans for `fb` on a panel of
      geometry `g`: nothing when no tile is dirty, the full update above the
      threshold, the differential update otherwise. */
  function UpdateSteps(g: Geometry, fb: FB.Framebuffer): seq<Step>
    requires FB.Shape(fb)
  {
    if fb.dirtyCount == 0 then []
    else if fb.dirtyCount > Threshold(g) then FullSteps(fb)
    else DiffSteps(Corrected, fb, 0, -1)
  }

  /** Whatever branch it takes, the planned update leaves on the panel
      exactly the framebuffer's tiles, provided the panel already showed
      every clean tile. */
  lemma UpdateRefreshesPanel(g: Geometry, fb: FB.Framebuffer, p: Panel)
    requires FB.Valid(fb) && PanelSized(fb, Pages(g) - 1) && |p.ram| == FB.Bytes(fb)
    requires forall i :: 0 <= i < FB.Bytes(fb) && !fb.dirty[i] ==> p.ram[i] == fb.tiles[i]
    ensures Run(p, Pages(g) - 1, UpdateSteps(g, fb)).ram == fb.tiles
  {
    if fb.dirtyCount == 0 {
      CountTrueZero(fb.dirty);
      assert p.ram == fb.tiles;
    } else if fb.dirtyCount > Threshold(g) {
      FullStepsRefreshPanel(fb, p, Pages(g) - 1);
    } else {
      CorrectedUpdateRefreshesPanel(fb, p, Pages(g) - 1);
    }
  }

  /** `ssd1306_display_update`, corrected: nothing to do without a dirty
      tile; above the threshold the full update; otherwise send-stop is
      switched off (each sequence still ends with its own stop), the
      differential passes run until one goes through, a final stop is sent
      and the caller's send-stop setting is restored. `pending` is
      the framebuffer the last pass started from. */
  method Update(dev: Device, fb: FB.Framebuffer, bus: Bus) returns (status: Status, f: FB.Framebuffer, pending: FB.Framebuffer, b: Bus)
    requires FB.Valid(fb) && FB.Bytes(fb) > 0
    ensures status == Ok || status == LogicalTrue
    ensures b.sendStop == bus.sendStop
    ensures fb.dirtyCount == 0 ==> status == Ok && f == fb && b == bus
    ensures status == Ok ==> f == FB.MarkAllClean(fb) && ClearedFrom(pending, fb)
    ensures status != Ok ==> fb.dirtyCount > Threshold(dev.geometry) && f == fb
    ensures status == Ok && fb.dirtyCount > 0 ==>
      EndsWith(b.trace, bus.trace, Encode(dev, UpdateSteps(dev.geometry, pending)) + [Stop])
    ensures AllOk(bus.results) ==>
      status == Ok && pending == fb &&
      b.trace == bus.trace + Encode(dev, UpdateSteps(dev.geometry, fb)) + (if fb.dirtyCount == 0 then [] else [Stop])
  {
    pending := fb;
    if fb.dirtyCount == 0 {
      CountTrueZero(fb.dirty);
      assert fb.dirty == FB.MarkAllClean(fb).dirty;
      return Ok, fb, fb, bus;
    }
    if fb.dirtyCount > Threshold(dev.geometry) {
      status, f, b := UpdateAll(dev, fb, bus);
      return;
    }
    var held := SetSendStop(bus, false);
    f, pending, b := DiffPasses(dev, fb, held);
    var tail := Encode(dev, DiffSteps(Corrected, pending, 0, -1));
    EndsWithStop(b.trace, bus.trace, tail);
    assert pending.dirtyCount <= Threshold(dev.geometry) by {
      CountTrueMono(pending.dirty, fb.dirty);
    }
    b := SendStop(b);
    b := SetSendStop(b, bus.sendStop);
    status := Ok;
  }
}
