/**
 * The fill test pattern of Draw_Fill_TestPattern.c.
 *
 * `draw_fill_testpattern` draws 28 fixed line segments, a 30 × 16 maze of
 * two nested boxes with crosses inside, open towards the top-left corner,
 * meant to be flood-filled from (x0 + 14, y0 + 7). The 28 `draw_line`
 * results are combined with C's short-circuit `||`.
 */
module TestPattern {
  import opened Common
  import opened Canvas
  import opened Raster

  /** One segment of the pattern: its endpoints as offsets from (x0, y0). */
  datatype Stroke = Stroke(sx: nat, sy: nat, ex: nat, ey: nat)

  /** The segments in drawing order. */
  const Strokes: seq<Stroke> := [
    // outer box, open to the screen border
    Stroke(29, 0, 29, 15), Stroke(29, 15, 0, 15),
    // left outer box
    Stroke(6, 13, 1, 13), Stroke(1, 13, 1, 1), Stroke(1, 1, 13, 1), Stroke(13, 1, 13, 13), Stroke(13, 13, 8, 13),
    // left inner box
    Stroke(8, 3, 11, 3), Stroke(11, 3, 11, 11), Stroke(11, 11, 3, 11), Stroke(3, 11, 3, 3), Stroke(3, 3, 6, 3),
    // left cross
    Stroke(4, 4, 9, 9), Stroke(4, 10, 9, 5),
    // left wall
    Stroke(0, 7, 2, 7),
    // right outer box
    Stroke(22, 1, 27, 1), Stroke(27, 1, 27, 13), Stroke(27, 13, 15, 13), Stroke(15, 13, 15, 1), Stroke(15, 1, 20, 1),
    // right inner box
    Stroke(20, 11, 17, 11), Stroke(17, 11, 17, 3), Stroke(17, 3, 25, 3), Stroke(25, 3, 25, 11), Stroke(25, 11, 22, 11),
    // right cross
    Stroke(19, 5, 24, 10), Stroke(19, 9, 24, 4),
    // right wall
    Stroke(26, 7, 28, 7)
  ]

  /** The pattern is 30 pixels wide and 16 high. */
  const PatternWidth: nat := 30
  const PatternHeight: nat := 16

  /** The segment a stroke becomes at (x0, y0): each coordinate is an `int`
      sum passed to a `uint16_t` parameter of `draw_line`. */
  function Place(st: Stroke, x0: nat, y0: nat): Segment {
    Segment(U16(x0 + st.sx), U16(y0 + st.sy), U16(x0 + st.ex), U16(y0 + st.ey))
  }

  /** The 28 segments at (x0, y0), in drawing order. */
  function Segments(x0: nat, y0: nat): (r: seq<Segment>)
    ensures |r| == |Strokes|
  {
    seq(|Strokes|, i requires 0 <= i < |Strokes| => Place(Strokes[i], x0, y0))
  }

  /** The calls of sequences run one after the other. */
  function Flatten(rs: seq<seq<Call>>): seq<Call> {
    if rs == [] then [] else rs[0] + Flatten(rs[1..])
  }

  /** The calls of the first `n` results. */
  function Outputs(results: seq<(Status, seq<Call>)>, n: nat): (r: seq<seq<Call>>)
    requires n <= |results|
    ensures |r| == n && forall i :: 0 <= i < n ==> r[i] == results[i].1
  {
    seq(n, i requires 0 <= i < n => results[i].1)
  }

  /** `a₀ || a₁ || … || aₙ₋₁` over the results of calls made left to right:
      an operand is evaluated (its calls made) only while every earlier one
      was zero, and the value is 0 when all are zero and 1 otherwise. */
  function OrChain(results: seq<(Status, seq<Call>)>): (r: (Status, seq<Call>))
    ensures r.0 == Ok || r.0 == LogicalTrue
    decreases |results|
  {
    if results == [] then (Ok, [])
    else if !results[0].0.IsOk() then (LogicalTrue, results[0].1)
    else
      var rest := OrChain(results[1..]);
      (LogicalOr(results[0].0, rest.0), results[0].1 + rest.1)
  }

  /** `draw_line` on every segment, with the pixel function and framebuffer
      given (`draw_fill_testpattern` has checked them already). */
  function LineResults(v: nat, segs: seq<Segment>): (r: seq<(Status, seq<Call>)>)
    ensures |r| == |segs|
    ensures forall i :: 0 <= i < |segs| ==> r[i] == DrawLine(true, v, segs[i])
  {
    seq(|segs|, i requires 0 <= i < |segs| => DrawLine(true, v, segs[i]))
  }

  /** `draw_fill_testpattern`: INVALID_ARG without drawing when the pixel
      function or the framebuffer is NULL (`given == false`), otherwise the
      `||` of the 28 `draw_line` results. */
  function DrawFillTestPattern(given: bool, v: nat, x0: nat, y0: nat): (r: (Status, seq<Call>))
    requires x0 < 0x1_0000 && y0 < 0x1_0000
    ensures !given ==> r == (ErrInvalidArg, [])
    ensures given ==> r.0 == Ok || r.0 == LogicalTrue
  {
    if !given then (ErrInvalidArg, [])
    else OrChain(LineResults(v, Segments(x0, y0)))
  }

  /** The calls of the whole pattern, segment after segment. */
  function PatternCalls(v: nat, x0: nat, y0: nat): seq<Call> {
    Flatten(Lines(v, x0, y0))
  }

  /** The calls of each segment on its own. */
  function Lines(v: nat, x0: nat, y0: nat): (r: seq<seq<Call>>)
    ensures |r| == |Strokes| && forall i :: 0 <= i < |Strokes| ==> r[i] == LineCalls(Segments(x0, y0)[i], v)
  {
    seq(|Strokes|, i requires 0 <= i < |Strokes| => LineCalls(Segments(x0, y0)[i], v))
  }

  // ---------------------------------------------------------------------
  // The `||` chain
  // ---------------------------------------------------------------------

  /** When every operand is zero, the chain is zero and every operand's
      calls are made, in order. */
  lemma {:induction false} OrChainAllOk(results: seq<(Status, seq<Call>)>)
    requires forall i :: 0 <= i < |results| ==> results[i].0 == Ok
    ensures OrChain(results) == (Ok, Flatten(Outputs(results, |results|)))
    decreases |results|
  {
    if results != [] {
      OrChainAllOk(results[1..]);
      assert Outputs(results, |results|)[1..] == Outputs(results[1..], |results| - 1);
    }
  }

  /** When operand `j` is the first non-zero one, the chain is 1 and only
      the operands up to and including `j` have made their calls. */
  lemma {:induction false} OrChainStops(results: seq<(Status, seq<Call>)>, j: nat)
    requires j < |results| && results[j].0 != Ok
    requires forall i :: 0 <= i < j ==> results[i].0 == Ok
    ensures OrChain(results) == (LogicalTrue, Flatten(Outputs(results, j + 1)))
    decreases j
  {
    var calls := Outputs(results, j + 1);
    if j == 0 {
      assert calls[1..] == [];
      assert Flatten(calls) == results[0].1 + Flatten([]);
      assert results[0].1 + [] == results[0].1;
      assert OrChain(results) == (LogicalTrue, results[0].1);
    } else {
      OrChainStops(results[1..], j - 1);
      assert calls[1..] == Outputs(results[1..], j);
    }
  }

  /** The chain is zero exactly when every operand is. */
  lemma {:induction false} OrChainOk(results: seq<(Status, seq<Call>)>)
    ensures OrChain(results).0 == Ok <==> forall i :: 0 <= i < |results| ==> results[i].0 == Ok
    decreases |results|
  {
    if results != [] {
      OrChainOk(results[1..]);
      assert forall i :: 1 <= i < |results| ==> results[i] == results[1..][i - 1];
    }
  }

  // ---------------------------------------------------------------------
  // The pattern
  // ---------------------------------------------------------------------

  /** The pattern's status and calls: INVALID_ARG and nothing drawn without
      a pixel function or framebuffer, otherwise OK with every segment drawn
      in order. */
  lemma PatternDrawn(given: bool, v: nat, x0: nat, y0: nat)
    requires x0 < 0x1_0000 && y0 < 0x1_0000
    ensures !given ==> DrawFillTestPattern(given, v, x0, y0) == (ErrInvalidArg, [])
    ensures given ==> DrawFillTestPattern(given, v, x0, y0) == (Ok, PatternCalls(v, x0, y0))
  {
    if given {
      var results := LineResults(v, Segments(x0, y0));
      OrChainAllOk(results);
      assert Outputs(results, |results|) == Lines(v, x0, y0);
    }
  }

  /** A call belongs to a flattened sequence exactly when it belongs to one
      of the parts. */
  lemma {:induction false} FlattenContains(rs: seq<seq<Call>>, c: Call)
    ensures c in Flatten(rs) <==> exists i :: 0 <= i < |rs| && c in rs[i]
    decreases |rs|
  {
    if rs != [] {
      FlattenContains(rs[1..], c);
      if c in Flatten(rs[1..]) {
        var i :| 0 <= i < |rs[1..]| && c in rs[1..][i];
        assert c in rs[i + 1];
      }
      if exists i :: 0 <= i < |rs| && c in rs[i] {
        var i :| 0 <= i < |rs| && c in rs[i];
        if i > 0 {
          assert rs[1..][i - 1] == rs[i];
        }
      }
    }
  }

  /** A stroke lies within the 30 × 16 box and keeps clear of the fill
      start (14, 7): its bounding box does not contain that point. */
  predicate Fits(st: Stroke) {
    && st.sx < PatternWidth && st.ex < PatternWidth
    && st.sy < PatternHeight && st.ey < PatternHeight
    && !(Between(st.sx, st.ex, 14) && Between(st.sy, st.ey, 7))
  }

  lemma StrokesFit()
    ensures forall i :: 0 <= i < |Strokes| ==> Fits(Strokes[i])
  {
  }

  /** A fitting stroke, placed where nothing wraps, draws inside the box
      and misses the fill start. */
  lemma StrokeInBox(st: Stroke, v: nat, x0: nat, y0: nat, c: Call)
    requires Fits(st) && x0 + PatternWidth <= 0x1_0000 && y0 + PatternHeight <= 0x1_0000
    requires c in LineCalls(Place(st, x0, y0), v)
    ensures x0 <= c.x < x0 + PatternWidth && y0 <= c.y < y0 + PatternHeight && c.v == v
    ensures (c.x, c.y) != (x0 + 14, y0 + 7)
  {
    var s := Place(st, x0, y0);
    assert s == Segment(x0 + st.sx, y0 + st.sy, x0 + st.ex, y0 + st.ey);
    var r := LineCalls(s, v);
    var k :| 0 <= k < |r| && r[k] == c;
    assert Between(s.x0, s.x1, c.x) && Between(s.y0, s.y1, c.y) && c.v == v;
  }

  /** Where the pattern fits on the 16-bit coordinate plane, every call
      lies inside the box [x0, x0 + 29] × [y0, y0 + 15], writes `v`, and
      misses the fill start (x0 + 14, y0 + 7). */
  lemma PatternInBox(v: nat, x0: nat, y0: nat, c: Call)
    requires x0 + PatternWidth <= 0x1_0000 && y0 + PatternHeight <= 0x1_0000
    requires c in PatternCalls(v, x0, y0)
    ensures x0 <= c.x < x0 + PatternWidth && y0 <= c.y < y0 + PatternHeight && c.v == v
    ensures (c.x, c.y) != (x0 + 14, y0 + 7)
  {
    var parts := Lines(v, x0, y0);
    FlattenContains(parts, c);
    var i :| 0 <= i < |parts| && c in parts[i];
    StrokesFit();
    assert parts[i] == LineCalls(Place(Strokes[i], x0, y0), v);
    StrokeInBox(Strokes[i], v, x0, y0, c);
  }

  /** Both endpoints of every segment are drawn. */
  lemma PatternHitsEndpoints(v: nat, x0: nat, y0: nat, i: nat)
    requires i < |Strokes|
    ensures var s := Segments(x0, y0)[i];
      Hits(PatternCalls(v, x0, y0), s.x0, s.y0) && Hits(PatternCalls(v, x0, y0), s.x1, s.y1)
  {
    var s := Segments(x0, y0)[i];
    var parts := Lines(v, x0, y0);
    var line := parts[i];
    var all := PatternCalls(v, x0, y0);
    assert line[0] == Call(s.x0, s.y0, v) && line[|line| - 1] == Call(s.x1, s.y1, v);
    FlattenContains(parts, line[0]);
    FlattenContains(parts, line[|line| - 1]);
    var a :| 0 <= a < |all| && all[a] == line[0];
    var b :| 0 <= b < |all| && all[b] == line[|line| - 1];
  }
}
