/**
 * The line, rectangle and circle rasterisers of Draw.c.
 *
 * Each is modelled as the sequence of pixel-write calls it makes; a NULL
 * pixel function or framebuffer is the flag `given == false`, which makes
 * the function return INVALID_ARG before any call.
 */
module Raster {
  import opened Common
  import opened Canvas

  function Abs(v: int): nat {
    if v < 0 then -v else v
  }

  function Min(a: nat, b: nat): nat {
    if a < b then a else b
  }

  function Max(a: nat, b: nat): nat {
    if a < b then b else a
  }

  /** `v` lies between `a` and `b`, in either order. */
  predicate Between(a: int, b: int, v: int) {
    (a <= v <= b) || (b <= v <= a)
  }

  /** `k` unit steps from `from` towards `to`. */
  function Move(from: nat, to: nat, k: nat): (r: nat)
    requires k <= Abs(to - from)
    ensures Between(from, to, r) && Abs(r - from) == k
    ensures r == to <==> k == Abs(to - from)
  {
    if from < to then from + k else from - k
  }

  /** Every position between `from` and `to` is reached by some number of steps. */
  lemma MoveOnto(from: nat, to: nat, p: nat)
    requires Between(from, to, p)
    ensures Abs(p - from) <= Abs(to - from) && Move(from, to, Abs(p - from)) == p
  {
  }

  // ---------------------------------------------------------------------
  // draw_line
  // ---------------------------------------------------------------------

  /** The endpoints of `draw_line` (its `uint16_t` parameters). */
  datatype Segment = Segment(x0: nat, y0: nat, x1: nat, y1: nat)

  /** `dx` of the source, and `-dy` (the source keeps `dy` negative). */
  function DX(s: Segment): nat { Abs(s.x1 - s.x0) }
  function DY(s: Segment): nat { Abs(s.y1 - s.y0) }

  /** Direction of travel, `sx` and `sy` of the source. */
  function SX(s: Segment): int { if s.x0 < s.x1 then 1 else -1 }
  function SY(s: Segment): int { if s.y0 < s.y1 then 1 else -1 }

  /** The call made after `X` steps in x and `Y` steps in y. */
  function At(s: Segment, X: nat, Y: nat, v: nat): (r: Call)
    requires X <= DX(s) && Y <= DY(s)
    ensures Between(s.x0, s.x1, r.x) && Between(s.y0, s.y1, r.y) && r.v == v
  {
    Call(Move(s.x0, s.x1, X), Move(s.y0, s.y1, Y), v)
  }

  /** Loop state of `draw_line` after `X` x-steps and `Y` y-steps: the
      error term `err` is `dx + dy + Y*dx + X*dy`, with the source's
      negative `dy`. */
  predicate Track(s: Segment, X: nat, Y: nat, err: int) {
    X <= DX(s) && Y <= DY(s) && err == DX(s) + Y * DX(s) - DY(s) - X * DY(s)
  }

  /** Consecutive calls of a line: 8-neighbours, each coordinate unchanged
      or moved one step towards the endpoint. */
  predicate Adjacent(s: Segment, a: Call, b: Call) {
    && (b.x == a.x || b.x == a.x + SX(s))
    && (b.y == a.y || b.y == a.y + SY(s))
    && (a.x, a.y) != (b.x, b.y)
  }

  /** The two decisions of one iteration, with `e2 = 2*err`: an x-step when
      `e2 >= dy`, a y-step when `e2 <= dx` (the source's `dy` is `-DY`). */
  predicate XStep(s: Segment, err: int) { 2 * err + DY(s) >= 0 }
  predicate YStep(s: Segment, err: int) { 2 * err <= DX(s) }

  /** With x at its end and y short of it, the x-step does not fire. */
  lemma NoXStepAtEnd(dx: nat, dy: nat, Y: nat, err: int)
    requires Y < dy && err == dx + Y * dx - dy - dx * dy
    ensures 2 * err + dy < 0
  {
    var k := dy - Y - 1;
    assert dx * dy == dx * Y + dx + dx * k;
    assert dx * k >= 0;
  }

  /** With y at its end and x short of it, the y-step does not fire. */
  lemma NoYStepAtEnd(dx: nat, dy: nat, X: nat, err: int)
    requires X < dx && err == dx + dy * dx - dy - X * dy
    ensures 2 * err > dx
  {
    var k := dx - X - 1;
    assert dx * dy == X * dy + dy + k * dy;
    assert k * dy >= 0;
  }

  /** One iteration's decision never overshoots an endpoint and always moves. */
  lemma StepInside(s: Segment, X: nat, Y: nat, err: int)
    requires Track(s, X, Y, err) && (X < DX(s) || Y < DY(s))
    ensures XStep(s, err) ==> X < DX(s)
    ensures YStep(s, err) ==> Y < DY(s)
    ensures XStep(s, err) || YStep(s, err)
  {
    if X == DX(s) {
      NoXStepAtEnd(DX(s), DY(s), Y, err);
    }
    if Y == DY(s) {
      NoYStepAtEnd(DX(s), DY(s), X, err);
    }
  }

  /** Step counts and error term after one iteration. */
  function NextX(s: Segment, X: nat, err: int): nat { if XStep(s, err) then X + 1 else X }
  function NextY(s: Segment, Y: nat, err: int): nat { if YStep(s, err) then Y + 1 else Y }
  function NextErr(s: Segment, err: int): int {
    err - (if XStep(s, err) then DY(s) else 0) + (if YStep(s, err) then DX(s) else 0)
  }

  /** The error term after one iteration matches the new step counts. */
  lemma StepTracks(s: Segment, X: nat, Y: nat, err: int)
    requires Track(s, X, Y, err) && (X < DX(s) || Y < DY(s))
    ensures Track(s, NextX(s, X, err), NextY(s, Y, err), NextErr(s, err))
  {
    StepInside(s, X, Y, err);
    assert (X + 1) * DY(s) == X * DY(s) + DY(s);
    assert (Y + 1) * DX(s) == Y * DX(s) + DX(s);
  }

  /** The calls of the `for(;;)` loop of `draw_line` from the given state:
      draw, stop at the endpoint, otherwise step. */
  function Walk(s: Segment, X: nat, Y: nat, err: int, v: nat): (r: seq<Call>)
    requires Track(s, X, Y, err)
    ensures |r| >= 1 && r[0] == At(s, X, Y, v)
    decreases DX(s) - X + DY(s) - Y
  {
    if X == DX(s) && Y == DY(s) then [At(s, X, Y, v)]
    else
      StepTracks(s, X, Y, err);
      StepInside(s, X, Y, err);
      [At(s, X, Y, v)] + Walk(s, NextX(s, X, err), NextY(s, Y, err), NextErr(s, err), v)
  }

  /** One unfolding of `Walk` short of the endpoint. */
  lemma WalkStep(s: Segment, X: nat, Y: nat, err: int, v: nat)
    requires Track(s, X, Y, err) && (X < DX(s) || Y < DY(s))
    ensures Track(s, NextX(s, X, err), NextY(s, Y, err), NextErr(s, err))
    ensures NextX(s, X, err) - X + NextY(s, Y, err) - Y >= 1
    ensures Walk(s, X, Y, err, v) == [At(s, X, Y, v)] + Walk(s, NextX(s, X, err), NextY(s, Y, err), NextErr(s, err), v)
  {
    StepTracks(s, X, Y, err);
    StepInside(s, X, Y, err);
  }

  /** The path a walk draws: it ends at the endpoint, reaches the endpoint
      only there, moves between 8-neighbours towards the endpoint, and stays
      inside the bounding box of the two endpoints. */
  predicate Path(s: Segment, v: nat, r: seq<Call>) {
    && |r| >= 1 && r[|r| - 1] == Call(s.x1, s.y1, v)
    && (forall i :: 0 <= i < |r| - 1 ==> Adjacent(s, r[i], r[i + 1]))
    && (forall i :: 0 <= i < |r| - 1 ==> r[i] != Call(s.x1, s.y1, v))
    && (forall i :: 0 <= i < |r| ==>
          Between(s.x0, s.x1, r[i].x) && Between(s.y0, s.y1, r[i].y) && r[i].v == v)
  }

  /** Prepending the previous position keeps a path a path. */
  lemma PathCons(s: Segment, v: nat, c: Call, r: seq<Call>)
    requires Path(s, v, r) && Adjacent(s, c, r[0]) && c != Call(s.x1, s.y1, v)
    requires Between(s.x0, s.x1, c.x) && Between(s.y0, s.y1, c.y) && c.v == v
    ensures Path(s, v, [c] + r)
  {
    var r' := [c] + r;
    assert forall i :: 1 <= i < |r'| ==> r'[i] == r[i - 1];
  }

  lemma {:induction false} WalkIsPath(s: Segment, X: nat, Y: nat, err: int, v: nat)
    requires Track(s, X, Y, err)
    ensures Path(s, v, Walk(s, X, Y, err, v))
    decreases DX(s) - X + DY(s) - Y
  {
    if X == DX(s) && Y == DY(s) {
      assert At(s, X, Y, v) == Call(s.x1, s.y1, v);
    } else {
      WalkStep(s, X, Y, err, v);
      var X', Y', err' := NextX(s, X, err), NextY(s, Y, err), NextErr(s, err);
      WalkIsPath(s, X', Y', err', v);
      var c := At(s, X, Y, v);
      var rest := Walk(s, X', Y', err', v);
      assert rest[0] == At(s, X', Y', v);
      assert c.x != s.x1 || c.y != s.y1;
      PathCons(s, v, c, rest);
    }
  }

  /** The state before the first iteration: no steps, `err = dx + dy`. */
  lemma TrackStart(s: Segment)
    ensures Track(s, 0, 0, DX(s) - DY(s))
  {
    assert 0 * DX(s) == 0 && 0 * DY(s) == 0;
  }

  /** The calls of `draw_line`: from (x0, y0) through 8-neighbours, every
      coordinate moving monotonically towards (x1, y1), ending right after
      the first time (x1, y1) is drawn. */
  function LineCalls(s: Segment, v: nat): (r: seq<Call>)
    ensures Path(s, v, r) && r[0] == Call(s.x0, s.y0, v)
  {
    TrackStart(s);
    WalkIsPath(s, 0, 0, DX(s) - DY(s), v);
    Walk(s, 0, 0, DX(s) - DY(s), v)
  }

  /** `draw_line`: INVALID_ARG without calls when the pixel function or the
      framebuffer is NULL, otherwise OK and the line's calls. */
  function DrawLine(given: bool, v: nat, s: Segment): (r: (Status, seq<Call>))
    ensures !given ==> r == (ErrInvalidArg, [])
    ensures given ==> r.0 == Ok && r.1 == LineCalls(s, v)
  {
    if !given then (ErrInvalidArg, []) else (Ok, LineCalls(s, v))
  }

  /** The error-term bound that makes the major axis step every time: for
      `dx >= dy` the x-step always fires, for `dy >= dx` the y-step does. */
  predicate Regime(s: Segment, X: nat, Y: nat, err: int) {
    && (DX(s) >= DY(s) ==> XStep(s, err) && DY(s) - Y <= DX(s) - X)
    && (DY(s) >= DX(s) ==> YStep(s, err) && DX(s) - X <= DY(s) - Y)
  }

  /** The regime bound is kept by one iteration, on plain integers: `xs`
      and `ys` are the two decisions. */
  lemma RegimeArith(dx: nat, dy: nat, X: nat, Y: nat, err: int, xs: bool, ys: bool)
    requires xs == (2 * err + dy >= 0) && ys == (2 * err <= dx)
    requires (xs ==> X < dx) && (ys ==> Y < dy)
    requires dx >= dy ==> xs && dy - Y <= dx - X
    requires dy >= dx ==> ys && dx - X <= dy - Y
    requires dx - X == dy - Y >= 1 ==> (dx >= dy ==> ys) && (dy >= dx ==> xs)
    ensures var X', Y', err' := (if xs then X + 1 else X), (if ys then Y + 1 else Y),
                                err - (if xs then dy else 0) + (if ys then dx else 0);
      && (dx >= dy ==> 2 * err' + dy >= 0 && dy - Y' <= dx - X')
      && (dy >= dx ==> 2 * err' <= dx && dx - X' <= dy - Y')
  {
  }

  /** With as many steps left in x as in y, the error term is
      `(dx - dy) * (1 - k)`: the minor axis steps as well. */
  lemma EqualRemaining(dx: nat, dy: nat, X: nat, Y: nat, err: int)
    requires X <= dx && Y <= dy && dx - X == dy - Y >= 1
    requires err == dx + Y * dx - dy - X * dy
    ensures dx >= dy ==> 2 * err <= dx
    ensures dy >= dx ==> 2 * err + dy >= 0
  {
    var k := dx - X;
    ErrorTerm(dx, dy, X, Y, k);
    MulNonneg(if dx >= dy then dx - dy else dy - dx, k - 1);
  }

  /** The error term after `X = dx - k` and `Y = dy - k` steps. */
  lemma ErrorTerm(dx: int, dy: int, X: int, Y: int, k: int)
    requires X == dx - k && Y == dy - k
    ensures dx + Y * dx - dy - X * dy == (dx - dy) - (dx - dy) * k
  {
    assert Y * dx == dy * dx - k * dx;
    assert X * dy == dx * dy - k * dy;
    assert (dx - dy) * k == dx * k - dy * k;
  }

  lemma MulNonneg(a: int, b: int)
    requires a >= 0 && b >= 0
    ensures a * b >= 0
  {
  }

  lemma RegimeStep(s: Segment, X: nat, Y: nat, err: int)
    requires Track(s, X, Y, err) && Regime(s, X, Y, err) && (X < DX(s) || Y < DY(s))
    ensures Regime(s, NextX(s, X, err), NextY(s, Y, err), NextErr(s, err))
  {
    StepInside(s, X, Y, err);
    if DX(s) - X == DY(s) - Y {
      EqualRemaining(DX(s), DY(s), X, Y, err);
    }
    RegimeArith(DX(s), DY(s), X, Y, err, XStep(s, err), YStep(s, err));
  }

  lemma {:induction false} WalkLength(s: Segment, X: nat, Y: nat, err: int, v: nat)
    requires Track(s, X, Y, err) && Regime(s, X, Y, err)
    ensures |Walk(s, X, Y, err, v)| == Max(DX(s) - X, DY(s) - Y) + 1
    decreases DX(s) - X + DY(s) - Y
  {
    if !(X == DX(s) && Y == DY(s)) {
      WalkStep(s, X, Y, err, v);
      RegimeStep(s, X, Y, err);
      StepInside(s, X, Y, err);
      WalkLength(s, NextX(s, X, err), NextY(s, Y, err), NextErr(s, err), v);
    }
  }

  /** A line makes exactly `max(dx, dy) + 1` calls: one per step along the major axis. */
  lemma LineLength(s: Segment, v: nat)
    ensures |LineCalls(s, v)| == Max(DX(s), DY(s)) + 1
  {
    TrackStart(s);
    WalkLength(s, 0, 0, DX(s) - DY(s), v);
  }

  /** Independent description of a horizontal walk: one call per column. */
  lemma {:induction false} WalkAlongX(s: Segment, X: nat, err: int, v: nat)
    requires DY(s) == 0 && Track(s, X, 0, err)
    ensures var r := Walk(s, X, 0, err, v);
      |r| == DX(s) - X + 1 && forall i :: 0 <= i < |r| ==> r[i] == At(s, X + i, 0, v)
    decreases DX(s) - X
  {
    if X < DX(s) {
      WalkStep(s, X, 0, err, v);
      StepInside(s, X, 0, err);
      WalkAlongX(s, X + 1, NextErr(s, err), v);
    }
  }

  /** Independent description of a vertical walk: one call per row. */
  lemma {:induction false} WalkAlongY(s: Segment, Y: nat, err: int, v: nat)
    requires DX(s) == 0 && Track(s, 0, Y, err)
    ensures var r := Walk(s, 0, Y, err, v);
      |r| == DY(s) - Y + 1 && forall i :: 0 <= i < |r| ==> r[i] == At(s, 0, Y + i, v)
    decreases DY(s) - Y
  {
    if Y < DY(s) {
      WalkStep(s, 0, Y, err, v);
      StepInside(s, 0, Y, err);
      WalkAlongY(s, Y + 1, NextErr(s, err), v);
    }
  }

  /** A horizontal or vertical line hits every pixel between its endpoints. */
  lemma AxisLineCovers(s: Segment, v: nat, x: nat, y: nat)
    requires s.y0 == s.y1 || s.x0 == s.x1
    requires Between(s.x0, s.x1, x) && Between(s.y0, s.y1, y)
    ensures Hits(LineCalls(s, v), x, y)
  {
    var r := LineCalls(s, v);
    TrackStart(s);
    if s.y0 == s.y1 {
      WalkAlongX(s, 0, DX(s) - DY(s), v);
      MoveOnto(s.x0, s.x1, x);
      var i := Abs(x - s.x0);
      assert r[i] == At(s, i, 0, v);
    } else {
      WalkAlongY(s, 0, DX(s) - DY(s), v);
      MoveOnto(s.y0, s.y1, y);
      var i := Abs(y - s.y0);
      assert r[i] == At(s, 0, i, v);
    }
  }

  // ---------------------------------------------------------------------
  // draw_rect
  // ---------------------------------------------------------------------

  /** (x, y) lies on the outline of the rectangle spanned by the two corners. */
  predicate OnBorder(x0: nat, y0: nat, x1: nat, y1: nat, x: nat, y: nat) {
    || (Between(x0, x1, x) && (y == y0 || y == y1))
    || (Between(y0, y1, y) && (x == x0 || x == x1))
  }

  /** The four sides in drawing order: top, right, bottom, left. */
  function Sides(x0: nat, y0: nat, x1: nat, y1: nat): seq<Segment> {
    [Segment(x0, y0, x1, y0), Segment(x1, y0, x1, y1), Segment(x1, y1, x0, y1), Segment(x0, y1, x0, y0)]
  }

  /** Every call of a side lies on the outline. */
  lemma SideOnBorder(x0: nat, y0: nat, x1: nat, y1: nat, k: nat, v: nat)
    requires k < 4
    ensures var c := LineCalls(Sides(x0, y0, x1, y1)[k], v);
      forall i :: 0 <= i < |c| ==> OnBorder(x0, y0, x1, y1, c[i].x, c[i].y) && c[i].v == v
  {
  }

  /** Calls that all lie on the outline. */
  predicate AllOnBorder(x0: nat, y0: nat, x1: nat, y1: nat, v: nat, c: seq<Call>) {
    forall i :: 0 <= i < |c| ==> OnBorder(x0, y0, x1, y1, c[i].x, c[i].y) && c[i].v == v
  }

  lemma AllOnBorderConcat(x0: nat, y0: nat, x1: nat, y1: nat, v: nat, a: seq<Call>, b: seq<Call>)
    requires AllOnBorder(x0, y0, x1, y1, v, a) && AllOnBorder(x0, y0, x1, y1, v, b)
    ensures AllOnBorder(x0, y0, x1, y1, v, a + b)
  {
  }

  /** The calls of the four sides, in drawing order. */
  function RectCalls(x0: nat, y0: nat, x1: nat, y1: nat, v: nat): (r: seq<Call>)
    ensures |r| >= 4 && r[0] == Call(x0, y0, v) && r[|r| - 1] == Call(x0, y0, v)
    ensures AllOnBorder(x0, y0, x1, y1, v, r)
  {
    var sides := Sides(x0, y0, x1, y1);
    var c1, c2, c3, c4 := LineCalls(sides[0], v), LineCalls(sides[1], v), LineCalls(sides[2], v), LineCalls(sides[3], v);
    SideOnBorder(x0, y0, x1, y1, 0, v);
    SideOnBorder(x0, y0, x1, y1, 1, v);
    SideOnBorder(x0, y0, x1, y1, 2, v);
    SideOnBorder(x0, y0, x1, y1, 3, v);
    AllOnBorderConcat(x0, y0, x1, y1, v, c1, c2);
    AllOnBorderConcat(x0, y0, x1, y1, v, c1 + c2, c3);
    AllOnBorderConcat(x0, y0, x1, y1, v, c1 + c2 + c3, c4);
    c1 + c2 + c3 + c4
  }

  /** `draw_rect`: the four sides in order, returning as soon as one
      reports a status other than OK. */
  function DrawRect(given: bool, v: nat, x0: nat, y0: nat, x1: nat, y1: nat): (r: (Status, seq<Call>))
    ensures !given ==> r == (ErrInvalidArg, [])
    ensures given ==> r.0 == Ok && r.1 == RectCalls(x0, y0, x1, y1, v)
  {
    var sides := Sides(x0, y0, x1, y1);
    var (s1, c1) := DrawLine(given, v, sides[0]);
    if s1 != Ok then (s1, c1)
    else
      var (s2, c2) := DrawLine(given, v, sides[1]);
      if s2 != Ok then (s2, c1 + c2)
      else
        var (s3, c3) := DrawLine(given, v, sides[2]);
        if s3 != Ok then (s3, c1 + c2 + c3)
        else
          var (s4, c4) := DrawLine(given, v, sides[3]);
          (s4, c1 + c2 + c3 + c4)
  }

  lemma HitsConcat(a: seq<Call>, b: seq<Call>, x: nat, y: nat)
    ensures Hits(a, x, y) || Hits(b, x, y) ==> Hits(a + b, x, y)
  {
    if Hits(a, x, y) {
      var i :| 0 <= i < |a| && a[i].x == x && a[i].y == y;
      assert (a + b)[i] == a[i];
    } else if Hits(b, x, y) {
      var i :| 0 <= i < |b| && b[i].x == x && b[i].y == y;
      assert (a + b)[|a| + i] == b[i];
    }
  }

  /** Every pixel of the outline is drawn. */
  lemma RectCovers(v: nat, x0: nat, y0: nat, x1: nat, y1: nat, x: nat, y: nat)
    requires OnBorder(x0, y0, x1, y1, x, y)
    ensures Hits(RectCalls(x0, y0, x1, y1, v), x, y)
  {
    var sides := Sides(x0, y0, x1, y1);
    var c1, c2, c3, c4 := LineCalls(sides[0], v), LineCalls(sides[1], v), LineCalls(sides[2], v), LineCalls(sides[3], v);
    if Between(x0, x1, x) && y == y0 {
      AxisLineCovers(sides[0], v, x, y);
    } else if Between(y0, y1, y) && x == x1 {
      AxisLineCovers(sides[1], v, x, y);
    } else if Between(x0, x1, x) && y == y1 {
      AxisLineCovers(sides[2], v, x, y);
    } else {
      AxisLineCovers(sides[3], v, x, y);
    }
    HitsConcat(c1, c2, x, y);
    HitsConcat(c1 + c2, c3, x, y);
    HitsConcat(c1 + c2 + c3, c4, x, y);
  }

  // ---------------------------------------------------------------------
  // draw_circle
  // ---------------------------------------------------------------------

  /** Loop state of `draw_circle` for radius `r`: `x` only falls from `r`,
      `y` only rises from 0, and `err` is `x*x - x + y*y + 2*y - r*r + r`.
      While the loop runs (`x >= y`), `err` stays within `[2*y - 2*x, 2*y + 1]`. */
  predicate CircleState(r: nat, x: int, y: int, err: int) {
    && 0 <= y && x <= r
    && err == x * x - x + y * y + 2 * y - r * r + r
    && (x >= y ==> 2 * y - 2 * x <= err <= 2 * y + 1)
  }

  /** Offset (x, y) lies within a pixel of the circle of radius `r`:
      `r*r - 2*r <= x*x + y*y <= r*r + 1`. */
  predicate NearCircle(r: nat, x: int, y: int) {
    r * r - 2 * r <= x * x + y * y <= r * r + 1
  }

  /** The loop starts at (r, 0) with `err == 0`. */
  lemma CircleStart(r: nat)
    ensures CircleState(r, r, 0, 0)
  {
  }

  /** The values of `x`, `err` after one iteration from (x, y, err). */
  function CircleNext(x: int, y: int, err: int): (int, int) {
    if err <= 0 then (x, err + 2 * (y + 1) + 1)
    else (x - 1, err + 2 * ((y + 1) - (x - 1)) + 1)
  }

  lemma CircleStep(r: nat, x: int, y: int, err: int)
    requires CircleState(r, x, y, err) && x >= y
    ensures CircleState(r, CircleNext(x, y, err).0, y + 1, CircleNext(x, y, err).1)
    ensures NearCircle(r, x, y)
  {
    assert (y + 1) * (y + 1) == y * y + 2 * y + 1;
    assert (x - 1) * (x - 1) == x * x - 2 * x + 1;
  }

  /** The (x, y) pairs of the `while (x >= y)` loop: `y` rises by one per
      iteration, `x` falls by at most one, every pair lies in the first
      octant, and the last pair is at the diagonal (`x - y <= 1`), so the
      octant is traced without a gap. */
  function Octant(r: nat, x: int, y: int, err: int): (res: seq<(int, int)>)
    requires CircleState(r, x, y, err)
    ensures forall i :: 0 <= i < |res| ==> res[i].1 == y + i && 0 <= res[i].1 <= res[i].0 <= x
    ensures forall i :: 0 <= i < |res| - 1 ==> res[i + 1].0 == res[i].0 || res[i + 1].0 == res[i].0 - 1
    ensures x >= y ==> |res| >= 1 && res[0] == (x, y) && res[|res| - 1].0 - res[|res| - 1].1 <= 1
    decreases x - y + 1
  {
    if x < y then []
    else
      CircleStep(r, x, y, err);
      var (x', err') := CircleNext(x, y, err);
      var rest := Octant(r, x', y + 1, err');
      assert forall i :: 1 <= i < |rest| + 1 ==> ([(x, y)] + rest)[i] == rest[i - 1];
      [(x, y)] + rest
  }

  /** Every pair of the loop lies within a pixel of the circle. */
  lemma {:induction false} OctantNear(r: nat, x: int, y: int, err: int)
    requires CircleState(r, x, y, err)
    ensures forall p :: p in Octant(r, x, y, err) ==> NearCircle(r, p.0, p.1)
    decreases x - y + 1
  {
    if x >= y {
      CircleStep(r, x, y, err);
      var (x', err') := CircleNext(x, y, err);
      OctantNear(r, x', y + 1, err');
    }
  }

  /** The eight reflections of offset (x, y), in the order `draw_circle` plots them. */
  function Reflections(x: int, y: int): seq<(int, int)> {
    [(x, y), (y, x), (-y, x), (-x, y), (-x, -y), (-y, -x), (y, -x), (x, -y)]
  }

  /** Offsets closed under the three reflections that generate all eight:
      swapping the axes, mirroring x, mirroring y. */
  predicate Symmetric(ps: seq<(int, int)>) {
    forall p :: p in ps ==> (p.1, p.0) in ps && (-p.0, p.1) in ps && (p.0, -p.1) in ps
  }

  /** The three generating reflections of the `i`-th reflection are among the eight. */
  lemma ReflectionImages(x: int, y: int, i: nat)
    requires i < 8
    ensures var rs := Reflections(x, y); var p := rs[i];
      (p.1, p.0) in rs && (-p.0, p.1) in rs && (p.0, -p.1) in rs
  {
    var rs := Reflections(x, y);
    if i == 0 { assert rs[1] == (y, x) && rs[3] == (-x, y) && rs[7] == (x, -y); }
    else if i == 1 { assert rs[0] == (x, y) && rs[2] == (-y, x) && rs[6] == (y, -x); }
    else if i == 2 { assert rs[7] == (x, -y) && rs[1] == (y, x) && rs[5] == (-y, -x); }
    else if i == 3 { assert rs[6] == (y, -x) && rs[0] == (x, y) && rs[4] == (-x, -y); }
    else if i == 4 { assert rs[5] == (-y, -x) && rs[7] == (x, -y) && rs[3] == (-x, y); }
    else if i == 5 { assert rs[4] == (-x, -y) && rs[6] == (y, -x) && rs[2] == (-y, x); }
    else if i == 6 { assert rs[3] == (-x, y) && rs[5] == (-y, -x) && rs[1] == (y, x); }
    else { assert rs[2] == (-y, x) && rs[4] == (-x, -y) && rs[0] == (x, y); }
  }

  lemma ReflectionsSymmetric(x: int, y: int)
    ensures Symmetric(Reflections(x, y))
  {
    var rs := Reflections(x, y);
    forall p | p in rs
      ensures (p.1, p.0) in rs && (-p.0, p.1) in rs && (p.0, -p.1) in rs
    {
      var i :| 0 <= i < 8 && rs[i] == p;
      ReflectionImages(x, y, i);
    }
  }

  lemma SymmetricConcat(a: seq<(int, int)>, b: seq<(int, int)>)
    requires Symmetric(a) && Symmetric(b)
    ensures Symmetric(a + b)
  {
  }

  lemma ReflectionsNear(r: nat, x: int, y: int)
    requires NearCircle(r, x, y)
    ensures forall p :: p in Reflections(x, y) ==> NearCircle(r, p.0, p.1)
  {
    assert (-x) * (-x) == x * x && (-y) * (-y) == y * y;
  }

  /** All offsets `draw_circle` plots: the reflections of each loop pair in turn. */
  function CircleOffsets(oct: seq<(int, int)>): (res: seq<(int, int)>)
    ensures |res| == 8 * |oct|
    ensures |oct| > 0 ==> res[..8] == Reflections(oct[0].0, oct[0].1)
  {
    if oct == [] then []
    else
      var head := Reflections(oct[0].0, oct[0].1);
      assert (head + CircleOffsets(oct[1..]))[..8] == head;
      head + CircleOffsets(oct[1..])
  }

  /** Eight-fold symmetry: the offsets are closed under every reflection of the square grid. */
  lemma {:induction false} OffsetsSymmetric(oct: seq<(int, int)>)
    ensures Symmetric(CircleOffsets(oct))
  {
    if oct != [] {
      ReflectionsSymmetric(oct[0].0, oct[0].1);
      OffsetsSymmetric(oct[1..]);
      SymmetricConcat(Reflections(oct[0].0, oct[0].1), CircleOffsets(oct[1..]));
    }
  }

  /** Reflection keeps the distance from the centre. */
  lemma {:induction false} OffsetsNear(r: nat, oct: seq<(int, int)>)
    requires forall p :: p in oct ==> NearCircle(r, p.0, p.1)
    ensures forall p :: p in CircleOffsets(oct) ==> NearCircle(r, p.0, p.1)
  {
    if oct != [] {
      ReflectionsNear(r, oct[0].0, oct[0].1);
      assert forall p :: p in oct[1..] ==> p in oct;
      OffsetsNear(r, oct[1..]);
    }
  }

  /** The offsets of the whole circle of radius `r`. */
  function Circle(r: nat): seq<(int, int)> {
    CircleStart(r);
    CircleOffsets(Octant(r, r, 0, 0))
  }

  /** The offsets of `draw_circle` are symmetric under all eight reflections
      and every one lies within a pixel of the circle of radius `r`. */
  lemma CircleShape(r: nat)
    ensures Symmetric(Circle(r))
    ensures forall p :: p in Circle(r) ==> NearCircle(r, p.0, p.1)
  {
    CircleStart(r);
    OctantNear(r, r, 0, 0);
    OffsetsSymmetric(Octant(r, r, 0, 0));
    OffsetsNear(r, Octant(r, r, 0, 0));
  }

  /** The calls of `draw_circle` around (x0, y0): each offset is added to
      the centre in `int` and passed as `uint16_t`. */
  function CircleCalls(x0: nat, y0: nat, r: nat, v: nat): (res: seq<Call>)
    ensures |res| == |Circle(r)|
  {
    var offsets := Circle(r);
    seq(|offsets|, i requires 0 <= i < |offsets| => Call(U16(x0 + offsets[i].0), U16(y0 + offsets[i].1), v))
  }

  /** `draw_circle`: INVALID_ARG without calls when the pixel function or
      the framebuffer is NULL, otherwise OK and the circle's calls. */
  function DrawCircle(given: bool, v: nat, x0: nat, y0: nat, r: nat): (res: (Status, seq<Call>))
    ensures !given ==> res == (ErrInvalidArg, [])
    ensures given ==> res.0 == Ok && res.1 == CircleCalls(x0, y0, r, v)
  {
    if !given then (ErrInvalidArg, []) else (Ok, CircleCalls(x0, y0, r, v))
  }

  lemma HitsAt(c: seq<Call>, i: nat, x: nat, y: nat)
    requires i < |c| && c[i].x == x && c[i].y == y
    ensures Hits(c, x, y)
  {
  }

  /** The first iteration (x = r, y = 0) always runs, so the four points at
      distance `r` on the axes through the centre are drawn. */
  lemma CircleHead(r: nat)
    ensures var n: int := r; var c := Circle(r);
      |c| >= 8 && c[0] == (n, 0) && c[1] == (0, n) && c[3] == (-n, 0) && c[5] == (0, -n)
  {
    CircleStart(r);
    var oct := Octant(r, r, 0, 0);
    assert oct[0] == (r, 0);
    var n: int := r;
    assert Circle(r)[..8] == Reflections(n, 0);
  }

  /** A call of the circle lands where the centre plus its offset lies. */
  lemma CircleCallAt(x0: nat, y0: nat, r: nat, v: nat, i: nat, px: int, py: int)
    requires i < |Circle(r)| && Circle(r)[i].0 == px - x0 && Circle(r)[i].1 == py - y0
    ensures i < |CircleCalls(x0, y0, r, v)|
    ensures CircleCalls(x0, y0, r, v)[i] == Call(U16(px), U16(py), v)
  {
  }

  /** The points at distance `r` left and right of the centre are drawn. */
  lemma CircleSides(x0: nat, y0: nat, r: nat, v: nat)
    ensures Hits(CircleCalls(x0, y0, r, v), U16(x0 + r), U16(y0))
    ensures Hits(CircleCalls(x0, y0, r, v), U16(x0 - r), U16(y0))
  {
    CircleHead(r);
    var offsets := Circle(r);
    var n: int := r;
    assert offsets[0].0 == n && offsets[0].1 == 0 && offsets[3].0 == -n && offsets[3].1 == 0;
    CircleCallAt(x0, y0, r, v, 0, x0 + r, y0);
    CircleCallAt(x0, y0, r, v, 3, x0 - r, y0);
    var c := CircleCalls(x0, y0, r, v);
    HitsAt(c, 0, U16(x0 + r), U16(y0));
    HitsAt(c, 3, U16(x0 - r), U16(y0));
  }

  /** The points at distance `r` above and below the centre are drawn. */
  lemma CircleTopBottom(x0: nat, y0: nat, r: nat, v: nat)
    ensures Hits(CircleCalls(x0, y0, r, v), U16(x0), U16(y0 + r))
    ensures Hits(CircleCalls(x0, y0, r, v), U16(x0), U16(y0 - r))
  {
    CircleHead(r);
    var offsets := Circle(r);
    var n: int := r;
    assert offsets[1].0 == 0 && offsets[1].1 == n && offsets[5].0 == 0 && offsets[5].1 == -n;
    CircleCallAt(x0, y0, r, v, 1, x0, y0 + r);
    CircleCallAt(x0, y0, r, v, 5, x0, y0 - r);
    var c := CircleCalls(x0, y0, r, v);
    HitsAt(c, 1, U16(x0), U16(y0 + r));
    HitsAt(c, 5, U16(x0), U16(y0 - r));
  }

  /** The first iteration (x = r, y = 0) always runs, so the four points at
      distance `r` on the axes through the centre are drawn. */
  lemma CircleExtremes(x0: nat, y0: nat, r: nat, v: nat)
    ensures var c := CircleCalls(x0, y0, r, v);
      && Hits(c, U16(x0 + r), U16(y0)) && Hits(c, U16(x0 - r), U16(y0))
      && Hits(c, U16(x0), U16(y0 + r)) && Hits(c, U16(x0), U16(y0 - r))
  {
    CircleSides(x0, y0, r, v);
    CircleTopBottom(x0, y0, r, v);
  }
}
