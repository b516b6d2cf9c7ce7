/**
 * Bringing the panel up to date from the framebuffer:
 * `ssd1306_display_update_all` sends every tile, `ssd1306_display_update`
 * sends only the dirty ones unless so many are dirty that sending all of
 * them is cheaper. Both switch the driver's send-stop off for the update,
 * although every command or data sequence still ends with a stop of its
 * own, then send a final stop and restore the caller's send-stop setting;
 * both repeat their work until it goes through (`while (status != STATUS_OK)`).
 *
 * A retried pass always consumes at least the outcome that failed, and the
 * bus oracle holds finitely many failures, so every retry loop here ends.
 */
module Ssd1306Update {
  import opened Common
  import opened Bits
  import opened Bus
  import opened Ssd1306
  import opened Ssd1306Plan
  import FB = Framebuffer
  import Arith

  /** Dirty-tile count above which the differential update hands over to
      the full update: 147 of the 512 tiles of a 32-row panel, 294 of the
      1024 of a 64-row one. */
  function Threshold(g: Geometry): (r: nat)
    ensures 0 < r < Pages(g) * Width
    ensures r * 512 == 147 * Pages(g) * Width
  {
    match g
    case Rows32 => 147
    case Rows64 => 294
  }

  /** `trace` starts with `prefix` and ends with `tail`, which come one
      after the other or with something in between. */
  predicate EndsWith(trace: seq<Event>, prefix: seq<Event>, tail: seq<Event>) {
    && |trace| >= |prefix| + |tail|
    && prefix <= trace
    && trace[|trace| - |tail|..] == tail
  }

  lemma EndsWithExtends(before: Bus, after: Bus, trace: seq<Event>, tail: seq<Event>)
    requires Extends(before, after) && EndsWith(trace, after.trace, tail)
    ensures EndsWith(trace, before.trace, tail)
  {
  }

  lemma EndsWithStop(trace: seq<Event>, prefix: seq<Event>, tail: seq<Event>)
    requires EndsWith(trace, prefix, tail)
    ensures EndsWith(trace + [Stop], prefix, tail + [Stop])
  {
    assert (trace + [Stop])[|trace + [Stop]| - |tail + [Stop]|..] == trace[|trace| - |tail|..] + [Stop];
  }

  // ---------------------------------------------------------------------
  // The full update
  // ---------------------------------------------------------------------

  /** Sending every tile, one data write each, stopping at the first
      failure: the data loop of the full update with a failure ending the
      whole pass. It goes through exactly when the next `|tiles|` writes
      do, and then the traffic is that of the data steps. */
  method SendTiles(dev: Device, bus: Bus, tiles: seq<bv8>) returns (status: Status, b: Bus)
    requires |tiles| > 0
    ensures b.sendStop == bus.sendStop && Extends(bus, b)
    ensures status == Ok <==> OkFor(bus.results, |tiles|)
    ensures status != Ok ==> |b.results| < |bus.results|
    ensures status == Ok ==> b.trace == bus.trace + Encode(dev, DataSteps(tiles)) && b.results == Consume(bus.results, |tiles|)
  {
    b, status := bus, Ok;
    var t := 0;
    while t < |tiles| && status == Ok
      invariant 0 <= t <= |tiles|
      invariant b.sendStop == bus.sendStop && Extends(bus, b)
      invariant status == Ok ==> TilesSent(dev, bus, b, tiles, t)
      invariant status != Ok ==> 0 < t && Outcome(bus.results, t - 1) != Ok && |b.results| < |bus.results|
    {
      var (s, after) := SendByte(dev, b, tiles[t]);
      TileSent(dev, bus, b, tiles, t);
      b, status, t := after, s, t + 1;
    }
    assert DataSteps(tiles)[..|tiles|] == DataSteps(tiles);
  }

  /** The first `t` tiles went out, each write succeeding. */
  predicate TilesSent(dev: Device, bus: Bus, b: Bus, tiles: seq<bv8>, t: nat)
    requires t <= |tiles|
  {
    && OkFor(bus.results, t)
    && b.results == Consume(bus.results, t)
    && b.trace == bus.trace + Encode(dev, DataSteps(tiles)[..t])
  }

  /** Sending tile `t` after the first `t`: the write takes the `t`-th
      outcome, and on success the first `t + 1` tiles went out. */
  lemma TileSent(dev: Device, bus: Bus, b: Bus, tiles: seq<bv8>, t: nat)
    requires t < |tiles| && TilesSent(dev, bus, b, tiles, t) && Extends(bus, b)
    ensures var (s, after) := SendByte(dev, b, tiles[t]);
      && s == Outcome(bus.results, t)
      && after.sendStop == b.sendStop && Extends(bus, after)
      && (s == Ok ==> TilesSent(dev, bus, after, tiles, t + 1))
      && (s != Ok ==> |after.results| < |bus.results|)
  {
    OutcomeConsume(bus.results, t, 0);
    if Outcome(bus.results, t) == Ok {
      OkForExtend(bus.results, t);
      ConsumeConsume(bus.results, t, 1);
      DataStepsPrefix(dev, tiles, t);
    }
  }

  /** The traffic of the first `t + 1` data steps. */
  lemma DataStepsPrefix(dev: Device, tiles: seq<bv8>, t: nat)
    requires t < |tiles|
    ensures Encode(dev, DataSteps(tiles)[..t + 1]) ==
      Encode(dev, DataSteps(tiles)[..t]) + [Write(dev.address, [0x40, tiles[t]], false), Stop]
  {
    var steps := DataSteps(tiles);
    assert steps[..t + 1] == steps[..t] + [Data(tiles[t])];
    EncodeAppend(dev, steps[..t], [Data(tiles[t])]);
    EncodeSingle(dev, Data(tiles[t]));
  }

  /** The traffic of the data steps from tile `t` on: tile `t`'s write and
      stop, then the rest. */
  lemma DataStepsEncode(dev: Device, tiles: seq<bv8>, t: nat)
    requires t < |tiles|
    ensures Encode(dev, DataSteps(tiles)[t..]) ==
      [Write(dev.address, [0x40, tiles[t]], false), Stop] + Encode(dev, DataSteps(tiles)[t + 1..])
    ensures t + 1 == |tiles| ==> Encode(dev, DataSteps(tiles)[t + 1..]) == []
  {
    var steps := DataSteps(tiles)[t..];
    assert steps[0] == Data(tiles[t]) && steps[1..] == DataSteps(tiles)[t + 1..];
    if t + 1 == |tiles| {
      assert DataSteps(tiles)[t + 1..] == [];
    }
  }

  /** First tile of the page after the one holding tile `t`. */
  function NextPage(t: nat, columns: nat): (r: nat)
    requires columns > 0
    ensures t < r && r % columns == 0 && r / columns == t / columns + 1
  {
    Arith.NextMultiple(t, columns);
    (t / columns + 1) * columns
  }

  /** The data loop of `ssd1306_display_update_all` as written: a failed
      write ends only the loop over the columns of its page, so the next
      page is still sent, and the pass reports the outcome of the last
      write it made. */
  function SendPagesAsWritten(dev: Device, bus: Bus, tiles: seq<bv8>, columns: nat, t: nat, status: Status): (r: (Status, Bus))
    requires columns > 0 && t <= |tiles|
    ensures r.1.sendStop == bus.sendStop
    ensures Extends(bus, r.1)
    ensures t == |tiles| ==> r == (status, bus)
    ensures t < |tiles| && r.0 != Ok ==> |r.1.results| < |bus.results|
    ensures t < |tiles| && AllOk(bus.results) ==>
      r.0 == Ok && r.1.trace == bus.trace + Encode(dev, DataSteps(tiles)[t..])
    decreases |tiles| - t
  {
    if t == |tiles| then (status, bus)
    else
      var w := SendByte(dev, bus, tiles[t]);
      var next := if w.0 == Ok then t + 1 else Min(NextPage(t, columns), |tiles|);
      var r := SendPagesAsWritten(dev, w.1, tiles, columns, next, w.0);
      ExtendsTrans(bus, w.1, r.1);
      if AllOk(bus.results) then
        SendPagesAllOk(dev, bus, tiles, columns, t, r);
        r
      else r
  }

  /** The step behind the last postcondition of `SendPagesAsWritten`. */
  lemma SendPagesAllOk(dev: Device, bus: Bus, tiles: seq<bv8>, columns: nat, t: nat, r: (Status, Bus))
    requires columns > 0 && t < |tiles| && AllOk(bus.results)
    requires t + 1 < |tiles| ==>
      r.0 == Ok && r.1.trace == SendByte(dev, bus, tiles[t]).1.trace + Encode(dev, DataSteps(tiles)[t + 1..])
    requires t + 1 == |tiles| ==> r == SendByte(dev, bus, tiles[t])
    ensures r.0 == Ok && r.1.trace == bus.trace + Encode(dev, DataSteps(tiles)[t..])
  {
    DataStepsEncode(dev, tiles, t);
    var head := [Write(dev.address, [0x40, tiles[t]], false), Stop];
    var rest := Encode(dev, DataSteps(tiles)[t + 1..]);
    assert SendByte(dev, bus, tiles[t]).1.trace == bus.trace + head;
    if t + 1 == |tiles| {
      assert head + rest == head;
    }
    AppendAssoc(bus.trace, head, rest);
  }

  function Min(a: nat, b: nat): (r: nat)
    ensures r <= a && r <= b && (r == a || r == b)
  {
    if a <= b then a else b
  }

  /** The retry loop of `ssd1306_display_update_all` as written: select tile
      (0, 0); if that fails, give up with its status; otherwise send the
      pages, wipe the dirty index whatever happened, and go round again if
      the last write failed. */
  function FullPassesAsWritten(dev: Device, fb: FB.Framebuffer, bus: Bus): (r: (Status, FB.Framebuffer, Bus))
    requires FB.Shape(fb) && FB.Bytes(fb) > 0
    ensures r.0 == Ok || r.0 == LogicalTrue
    ensures r.2.sendStop == bus.sendStop
    decreases |bus.results|
  {
    var (s1, b1) := SelectTile(dev, bus, 0, 0);
    SelectTileFacts(dev, bus, 0, 0);
    if s1 != Ok then (s1, fb, b1)
    else
      var (s2, b2) := SendPagesAsWritten(dev, b1, fb.tiles, fb.columns, 0, s1);
      var clean := FB.MarkAllClean(fb);
      if s2 == Ok then (Ok, clean, b2) else FullPassesAsWritten(dev, clean, b2)
  }

  /** The traffic of a full update: the selection of tile (0, 0), then
      every tile. */
  lemma FullStepsEncode(dev: Device, fb: FB.Framebuffer)
    ensures Encode(dev, FullSteps(fb)) == AddressTransmission(dev, 0, 0) + Encode(dev, DataSteps(fb.tiles))
  {
    var steps := FullSteps(fb);
    assert steps[0] == Select(0, 0) && steps[1..] == DataSteps(fb.tiles);
    assert Byte(0) == 0;
  }

  /** `ssd1306_display_update_all` as written. */
  function UpdateAllAsWritten(dev: Device, fb: FB.Framebuffer, bus: Bus): (r: (Status, FB.Framebuffer, Bus))
    requires FB.Shape(fb) && FB.Bytes(fb) > 0
    ensures r.0 == Ok || r.0 == LogicalTrue
    ensures r.2.sendStop == bus.sendStop
  {
    var (s, f, b) := FullPassesAsWritten(dev, fb, SetSendStop(bus, false));
    (s, f, SetSendStop(SendStop(b), bus.sendStop))
  }

  /** As written, with no write failing the full update sends the selection
      of tile (0, 0) and every tile once, and wipes the dirty index. */
  lemma UpdateAllAsWrittenAllOk(dev: Device, fb: FB.Framebuffer, bus: Bus)
    requires FB.Shape(fb) && FB.Bytes(fb) > 0 && AllOk(bus.results)
    ensures var r := UpdateAllAsWritten(dev, fb, bus);
      r.0 == Ok && r.1 == FB.MarkAllClean(fb) && r.2.trace == bus.trace + Encode(dev, FullSteps(fb)) + [Stop]
  {
    var b0 := SetSendStop(bus, false);
    var _ := OnePassAsWritten(dev, fb, b0);
    FullPassesAsWrittenAllOk(dev, fb, b0);
  }

  /** The traffic of that one pass. */
  lemma FullPassesAsWrittenAllOk(dev: Device, fb: FB.Framebuffer, bus: Bus)
    requires FB.Shape(fb) && FB.Bytes(fb) > 0 && AllOk(bus.results)
    ensures FullPassesAsWritten(dev, fb, bus).2.trace == bus.trace + Encode(dev, FullSteps(fb))
  {
    var b1 := OnePassAsWritten(dev, fb, bus);
    var data := PagesAsWrittenAllOk(dev, b1, fb);
    assert FullPassesAsWritten(dev, fb, bus).2 == data;
    FullStepsEncode(dev, fb);
    AppendAssoc(bus.trace, AddressTransmission(dev, 0, 0), Encode(dev, DataSteps(fb.tiles)));
  }

  lemma PagesAsWrittenAllOk(dev: Device, bus: Bus, fb: FB.Framebuffer) returns (b: Bus)
    requires FB.Shape(fb) && FB.Bytes(fb) > 0 && AllOk(bus.results)
    ensures SendPagesAsWritten(dev, bus, fb.tiles, fb.columns, 0, Ok) == (Ok, b)
    ensures b.trace == bus.trace + Encode(dev, DataSteps(fb.tiles))
  {
    b := SendPagesAsWritten(dev, bus, fb.tiles, fb.columns, 0, Ok).1;
    assert DataSteps(fb.tiles)[0..] == DataSteps(fb.tiles);
  }

  /** With no write failing, the as-written retry loop makes one pass. */
  lemma OnePassAsWritten(dev: Device, fb: FB.Framebuffer, bus: Bus) returns (b1: Bus)
    requires FB.Shape(fb) && FB.Bytes(fb) > 0 && AllOk(bus.results)
    ensures b1.trace == bus.trace + AddressTransmission(dev, 0, 0) && AllOk(b1.results)
    ensures FullPassesAsWritten(dev, fb, bus) ==
      (Ok, FB.MarkAllClean(fb), SendPagesAsWritten(dev, b1, fb.tiles, fb.columns, 0, Ok).1)
  {
    b1 := OriginSelectedAllOk(dev, bus);
  }

  /** With no write failing, the selection of tile (0, 0) goes through. */
  lemma OriginSelectedAllOk(dev: Device, bus: Bus) returns (b: Bus)
    requires AllOk(bus.results)
    ensures SelectTile(dev, bus, 0, 0) == (Ok, b)
    ensures b.trace == bus.trace + AddressTransmission(dev, 0, 0) && AllOk(b.results)
  {
    SelectTileFacts(dev, bus, 0, 0);
    AllOkFor(bus.results, 6);
    AllOkConsume(bus.results, 6);
    b := SelectTile(dev, bus, 0, 0).1;
  }

  /** As written, a failed write on any page but the last goes unnoticed:
      when the selection of tile (0, 0) goes through and the first data
      write is the one failure (say outcomes `[Ok, Ok, Ok, Ok, Ok, Ok,
      BusError(1)]`), the full update of a framebuffer of two pages or more
      reports success and marks every tile clean, although tile 0 never
      reached the panel. */
  lemma UpdateAllAsWrittenHidesFailure(dev: Device, fb: FB.Framebuffer, bus: Bus)
    requires FB.Shape(fb) && fb.columns > 0 && fb.pages >= 2
    requires |bus.results| == 7 && OkFor(bus.results, 6) && bus.results[6] != Ok
    ensures UpdateAllAsWritten(dev, fb, bus).0 == Ok
    ensures UpdateAllAsWritten(dev, fb, bus).1 == FB.MarkAllClean(fb)
  {
    var b0 := SetSendStop(bus, false);
    var (s1, b1) := SelectTile(dev, b0, 0, 0);
    FirstSelectionPasses(dev, b0);
    assert fb.columns < |fb.tiles| by {
      assert |fb.tiles| == fb.columns * fb.pages;
      assert fb.columns * fb.pages == fb.columns + fb.columns * (fb.pages - 1);
    }
    FirstPageFailureHidden(dev, b1, fb.tiles, fb.columns);
  }

  /** The selection of tile (0, 0) takes the six successful outcomes. */
  lemma FirstSelectionPasses(dev: Device, bus: Bus)
    requires |bus.results| == 7 && OkFor(bus.results, 6)
    ensures SelectTile(dev, bus, 0, 0).0 == Ok
    ensures SelectTile(dev, bus, 0, 0).1.results == bus.results[6..]
  {
    SelectTileFacts(dev, bus, 0, 0);
  }

  /** A data loop whose first write fails skips to the second page and then
      goes through, reporting success. */
  lemma FirstPageFailureHidden(dev: Device, bus: Bus, tiles: seq<bv8>, columns: nat)
    requires 0 < columns < |tiles| && |bus.results| == 1 && bus.results[0] != Ok
    ensures SendPagesAsWritten(dev, bus, tiles, columns, 0, Ok).0 == Ok
  {
    var (s, b) := SendByte(dev, bus, tiles[0]);
    assert s != Ok && b.results == [];
    assert NextPage(0, columns) == columns;
    assert AllOk(b.results);
    assert SendPagesAsWritten(dev, bus, tiles, columns, 0, Ok) == SendPagesAsWritten(dev, b, tiles, columns, columns, s);
  }

  /** One pass of the corrected full update: select tile (0, 0) and, if
      that went through, send every tile, stopping at the first failure.
      Every failure uses up at least one outcome. */
  method FullPass(dev: Device, fb: FB.Framebuffer, bus: Bus) returns (selected: Status, sent: Status, b: Bus)
    requires |fb.tiles| > 0
    ensures selected == Ok || selected == LogicalTrue
    ensures b.sendStop == bus.sendStop && Extends(bus, b)
    ensures (selected != Ok || sent != Ok) ==> |b.results| < |bus.results|
    ensures selected == Ok && sent == Ok ==> b.trace == bus.trace + Encode(dev, FullSteps(fb))
    ensures AllOk(bus.results) ==> selected == Ok && sent == Ok && AllOk(b.results)
  {
    var b1;
    selected, b1 := SelectTileNext(dev, bus, 0, 0);
    if AllOk(bus.results) {
      AllOkFor(bus.results, 6);
      AllOkConsume(bus.results, 6);
      AllOkFor(b1.results, |fb.tiles|);
    }
    if selected != Ok {
      sent, b := selected, b1;
    } else {
      sent, b := SendTiles(dev, b1, fb.tiles);
      ExtendsTrans(bus, b1, b);
      if AllOk(bus.results) {
        AllOkConsume(b1.results, |fb.tiles|);
      }
      if sent == Ok {
        FullStepsEncode(dev, fb);
        AppendAssoc(bus.trace, AddressTransmission(dev, 0, 0), Encode(dev, DataSteps(fb.tiles)));
      }
    }
  }

  lemma AppendAssoc(a: seq<Event>, b: seq<Event>, c: seq<Event>)
    ensures a + b + c == a + (b + c)
  {
  }

  /** The retry loop of `ssd1306_display_update_all`, corrected: passes
      are repeated until one goes through, or until the selection of tile
      (0, 0) fails, which gives up with its status. Success is reported only
      once every tile has gone out in one unbroken pass, which is then the
      last thing on the bus. */
  method FullPasses(dev: Device, fb: FB.Framebuffer, bus: Bus) returns (status: Status, b: Bus)
    requires |fb.tiles| > 0
    ensures status == Ok || status == LogicalTrue
    ensures b.sendStop == bus.sendStop && Extends(bus, b)
    ensures status == Ok ==> EndsWith(b.trace, bus.trace, Encode(dev, FullSteps(fb)))
    ensures AllOk(bus.results) ==> status == Ok && b.trace == bus.trace + Encode(dev, FullSteps(fb))
    decreases |bus.results|
  {
    var selected, sent, after := FullPass(dev, fb, bus);
    if selected != Ok {
      return selected, after;
    }
    if sent == Ok {
      PassEndsTrace(bus.trace, bus.trace, after.trace, Encode(dev, FullSteps(fb)));
      return Ok, after;
    }
    status, b := FullPasses(dev, fb, after);
    ExtendsTrans(bus, after, b);
    if status == Ok {
      EndsWithExtends(bus, after, b.trace, Encode(dev, FullSteps(fb)));
    }
  }

  /** A pass appended to a trace that extends `prefix` ends it. */
  lemma PassEndsTrace(prefix: seq<Event>, before: seq<Event>, after: seq<Event>, pass: seq<Event>)
    requires prefix <= before && after == before + pass
    ensures EndsWith(after, prefix, pass)
  {
    assert after[|after| - |pass|..] == pass;
  }

  /** `ssd1306_display_update_all`, corrected: a failed data write ends the
      pass, and the dirty index is wiped only after a pass that went
      through. Send-stop is off during the update, each sequence still ends
      with its own stop, a stop follows the update, and the caller's
      send-stop setting is restored. */
  method UpdateAll(dev: Device, fb: FB.Framebuffer, bus: Bus) returns (status: Status, f: FB.Framebuffer, b: Bus)
    requires FB.Shape(fb) && FB.Bytes(fb) > 0
    ensures status == Ok || status == LogicalTrue
    ensures b.sendStop == bus.sendStop
    ensures status == Ok ==> f == FB.MarkAllClean(fb) && EndsWith(b.trace, bus.trace, Encode(dev, FullSteps(fb)) + [Stop])
    ensures status != Ok ==> f == fb
    ensures AllOk(bus.results) ==> status == Ok && b.trace == bus.trace + Encode(dev, FullSteps(fb)) + [Stop]
  {
    var full := Encode(dev, FullSteps(fb));
    status, b := FullPasses(dev, fb, SetSendStop(bus, false));
    f := if status == Ok then FB.MarkAllClean(fb) else fb;
    if status == Ok {
      EndsWithStop(b.trace, bus.trace, full);
    }
    b := SendStop(b);
    b := SetSendStop(b, bus.sendStop);
  }
}
