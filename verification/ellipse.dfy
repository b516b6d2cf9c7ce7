/**
 * `draw_ellipse_rect` of Draw.c: the ellipse inscribed in the rectangle
 * with corners (x0, y0) and (x1, y1).
 *
 * The source keeps the loop coordinates in its `uint16_t` parameters, so
 * `x1--` and `y1--` wrap from 0 to 65535. `wrap == true` models that; the
 * corrected algorithm (`wrap == false`) keeps them as `int`. Either way the
 * coordinates are passed to the pixel function as `uint16_t`. Neither loop
 * is proved to terminate for every rectangle: each is given a budget
 * `fuel` of iterations and reports whether it finished within it.
 */
module Ellipse {
  import opened Common
  import opened Canvas
  import Raster

  /** The variables of the function after its set-up: the loop coordinates,
      the increments `a = 8*a*a` and `b1 = 8*b*b`, and the error terms. */
  datatype State = State(x0: int, y0: int, x1: int, y1: int, a: int, b1: int, dx: int, dy: int, err: int)

  /** A value stored back into a loop coordinate: reduced modulo 2^16
      when the coordinates are `uint16_t`. */
  function Fit(v: int, wrap: bool): (r: int)
    ensures wrap ==> 0 <= r < 0x1_0000 && (r - v) % 0x1_0000 == 0
    ensures !wrap || 0 <= v < 0x1_0000 ==> r == v
  {
    if wrap && !(0 <= v < 0x1_0000) then U16(v) else v
  }

  /** Height `b` of the rectangle. */
  function Height(y0: nat, y1: nat): nat {
    Raster.Abs(y1 - y0)
  }

  /** The set-up: diameters, first error terms, corners ordered so that
      `x0 <= x1`, and the start rows in the middle of the rectangle
      (`y0 = top + (b + 1) / 2`, `y1 = y0 - (b & 1)`). The shifts of the
      source are multiplications. */
  function Setup(x0: nat, y0: nat, x1: nat, y1: nat, wrap: bool): State {
    var a := Raster.Abs(x1 - x0);
    var b := Height(y0, y1);
    var b1 := b % 2;
    var dx := 4 * ((1 - a) * b * b);
    var dy := 4 * ((b1 + 1) * a * a);
    var err := dx + dy + b1 * a * a;
    var left := if x0 > x1 then x1 else x0;
    var right := if x0 > x1 then x1 + a else x1;
    var top := if y0 > y1 then y1 else y0;
    var start := Fit(top + (b + 1) / 2, wrap);
    State(left, start, right, Fit(start - b1, wrap), 8 * a * a, 8 * b * b, dx, dy, err)
  }

  /** The four pixels of one iteration of the main loop, in drawing order. */
  function Group(s: State): seq<(int, int)> {
    [(s.x1, s.y0), (s.x0, s.y0), (s.x0, s.y1), (s.x1, s.y1)]
  }

  /** The updates of one main-loop iteration after its four pixels: a
      y-step when `2*err <= dy`, then an x-step when `2*err >= dx` (with the
      old error) or `2*err > dy` (with the updated error and increment). */
  function Step(s: State, wrap: bool): State {
    var e2 := 2 * s.err;
    var s1 :=
      if e2 <= s.dy then
        s.(y0 := Fit(s.y0 + 1, wrap), y1 := Fit(s.y1 - 1, wrap), dy := s.dy + s.a, err := s.err + s.dy + s.a)
      else s;
    if e2 >= s1.dx || 2 * s1.err > s1.dy then
      s1.(x0 := Fit(s1.x0 + 1, wrap), x1 := Fit(s1.x1 - 1, wrap), dx := s1.dx + s1.b1, err := s1.err + s1.dx + s1.b1)
    else s1
  }

  /** The `do … while (x0 <= x1)` loop with at most `fuel` iterations: the
      pixels drawn, the state it left, and whether it ended by itself. */
  function Main(s: State, wrap: bool, fuel: nat): (r: (seq<(int, int)>, State, bool))
    ensures fuel == 0 ==> r == ([], s, false)
    ensures fuel > 0 ==> |r.0| >= 4 && r.0[..4] == Group(s)
    decreases fuel
  {
    if fuel == 0 then ([], s, false)
    else
      var n := Step(s, wrap);
      if n.x0 <= n.x1 then
        var (rest, last, done) := Main(n, wrap, fuel - 1);
        assert (Group(s) + rest)[..4] == Group(s);
        (Group(s) + rest, last, done)
      else (Group(s), n, true)
  }

  /** The four pixels of one iteration of the tip loop. */
  function TipGroup(s: State): seq<(int, int)> {
    [(s.x0 - 1, s.y0), (s.x1 + 1, s.y0), (s.x0 - 1, s.y1), (s.x1 + 1, s.y1)]
  }

  /** The loop finishing the tips of flat ellipses, `while (y0 - y1 < b)`,
      with at most `fuel` iterations. */
  function Tip(s: State, b: nat, wrap: bool, fuel: nat): (r: (seq<(int, int)>, bool))
    decreases fuel
  {
    if fuel == 0 then ([], false)
    else if s.y0 - s.y1 >= b then ([], true)
    else
      var (rest, done) := Tip(s.(y0 := Fit(s.y0 + 1, wrap), y1 := Fit(s.y1 - 1, wrap)), b, wrap, fuel - 1);
      (TipGroup(s) + rest, done)
  }

  /** Both loops from state `s`, for a rectangle of height `b`: the
      pixels, and whether both ended within `fuel` iterations each. */
  function Run(s: State, b: nat, wrap: bool, fuel: nat): (r: (seq<(int, int)>, bool)) {
    var (main, last, done) := Main(s, wrap, fuel);
    if !done then (main, false)
    else
      var (tip, finished) := Tip(last, b, wrap, fuel);
      (main + tip, finished)
  }

  /** All pixels of the ellipse in the rectangle with corners (x0, y0) and (x1, y1). */
  function Points(x0: nat, y0: nat, x1: nat, y1: nat, wrap: bool, fuel: nat): (r: (seq<(int, int)>, bool)) {
    Run(Setup(x0, y0, x1, y1, wrap), Height(y0, y1), wrap, fuel)
  }

  /** Pixels passed to the pixel function as `uint16_t`. */
  function ToCalls(pts: seq<(int, int)>, v: nat): (r: seq<Call>)
    ensures |r| == |pts|
    ensures forall i :: 0 <= i < |r| ==> r[i] == Call(U16(pts[i].0), U16(pts[i].1), v)
  {
    seq(|pts|, i requires 0 <= i < |pts| => Call(U16(pts[i].0), U16(pts[i].1), v))
  }

  /** `draw_ellipse_rect` as written (16-bit loop coordinates). */
  function DrawEllipseAsWritten(given: bool, v: nat, x0: nat, y0: nat, x1: nat, y1: nat, fuel: nat): (r: (Status, seq<Call>, bool))
    ensures !given ==> r == (ErrInvalidArg, [], true)
    ensures given ==> r.0 == Ok
  {
    if !given then (ErrInvalidArg, [], true)
    else
      var (pts, done) := Points(x0, y0, x1, y1, true, fuel);
      (Ok, ToCalls(pts, v), done)
  }

  /** `draw_ellipse_rect` with `int` loop coordinates. */
  function DrawEllipse(given: bool, v: nat, x0: nat, y0: nat, x1: nat, y1: nat, fuel: nat): (r: (Status, seq<Call>, bool))
    ensures !given ==> r == (ErrInvalidArg, [], true)
    ensures given ==> r.0 == Ok
  {
    if !given then (ErrInvalidArg, [], true)
    else
      var (pts, done) := Points(x0, y0, x1, y1, false, fuel);
      (Ok, ToCalls(pts, v), done)
  }

  // ---------------------------------------------------------------------
  // the corrected algorithm: symmetry and column bounds
  // ---------------------------------------------------------------------

  /** Mirror images at the vertical line `x = sx / 2` and the horizontal
      line `y = sy / 2`. */
  function MirrorX(p: (int, int), sx: int): (int, int) { (sx - p.0, p.1) }
  function MirrorY(p: (int, int), sy: int): (int, int) { (p.0, sy - p.1) }

  /** Four pixels closed under both mirrors. */
  predicate ClosedQuad(q: seq<(int, int)>, sx: int, sy: int)
    requires |q| == 4
  {
    var s := {q[0], q[1], q[2], q[3]};
    && MirrorX(q[0], sx) in s && MirrorY(q[0], sy) in s
    && MirrorX(q[1], sx) in s && MirrorY(q[1], sy) in s
    && MirrorX(q[2], sx) in s && MirrorY(q[2], sy) in s
    && MirrorX(q[3], sx) in s && MirrorY(q[3], sy) in s
  }

  /** Pixels drawn four at a time, each four closed under both mirrors. */
  predicate Quads(pts: seq<(int, int)>, sx: int, sy: int)
    decreases |pts|
  {
    if pts == [] then true
    else |pts| >= 4 && ClosedQuad(pts[..4], sx, sy) && Quads(pts[4..], sx, sy)
  }

  /** Every pixel lies in the columns `[left, right]`. */
  predicate InColumns(pts: seq<(int, int)>, left: int, right: int) {
    forall i :: 0 <= i < |pts| ==> left <= pts[i].0 <= right
  }

  lemma {:induction false} QuadsConcat(a: seq<(int, int)>, b: seq<(int, int)>, sx: int, sy: int)
    requires Quads(a, sx, sy) && Quads(b, sx, sy)
    ensures Quads(a + b, sx, sy)
    decreases |a|
  {
    if a != [] {
      var c := a + b;
      assert c[..4] == a[..4];
      assert c[4..] == a[4..] + b;
      QuadsConcat(a[4..], b, sx, sy);
      assert c != [] && |c| >= 4;
      assert Quads(c[4..], sx, sy);
      assert ClosedQuad(c[..4], sx, sy);
      assert Quads(c, sx, sy);
    } else {
      assert a + b == b;
    }
  }

  /** Position among the first four pixels of a pixel known to be one of them. */
  function IndexIn4(pts: seq<(int, int)>, p: (int, int)): (j: nat)
    requires |pts| >= 4 && p in {pts[0], pts[1], pts[2], pts[3]}
    ensures j < 4 && pts[j] == p
  {
    if pts[0] == p then 0 else if pts[1] == p then 1 else if pts[2] == p then 2 else 3
  }

  /** Both mirror images of every pixel of a `Quads` sequence are drawn too,
      at positions `jx` and `jy`. */
  lemma {:induction false} QuadsMirror(pts: seq<(int, int)>, sx: int, sy: int, i: nat) returns (jx: nat, jy: nat)
    requires Quads(pts, sx, sy) && i < |pts|
    ensures jx < |pts| && pts[jx] == MirrorX(pts[i], sx)
    ensures jy < |pts| && pts[jy] == MirrorY(pts[i], sy)
    decreases |pts|
  {
    var q := pts[..4];
    assert ClosedQuad(q, sx, sy);
    assert pts[0] == q[0] && pts[1] == q[1] && pts[2] == q[2] && pts[3] == q[3];
    if i < 4 {
      assert pts[i] == q[i];
      jx := IndexIn4(pts, MirrorX(pts[i], sx));
      jy := IndexIn4(pts, MirrorY(pts[i], sy));
    } else {
      var kx, ky := QuadsMirror(pts[4..], sx, sy, i - 4);
      assert pts[i] == pts[4..][i - 4];
      jx, jy := kx + 4, ky + 4;
      assert pts[jx] == pts[4..][kx] && pts[jy] == pts[4..][ky];
    }
  }

  /** Loop state of the corrected main loop in the rectangle with columns
      `[left, right]` and rows summing to `sy`: both coordinate pairs keep
      their sums, and the columns have not crossed. */
  predicate MainInv(s: State, left: int, right: int, sy: int) {
    && s.x0 + s.x1 == left + right && s.y0 + s.y1 == sy
    && left <= s.x0 <= s.x1 <= right
  }

  /** State on leaving the main loop: the columns have just crossed, by one or two. */
  predicate TipInv(s: State, left: int, right: int, sy: int) {
    && left <= right
    && s.x0 + s.x1 == left + right && s.y0 + s.y1 == sy
    && s.x1 < s.x0 <= s.x1 + 2
  }

  /** A corrected step moves both columns inwards by the same amount and
      both rows outwards by the same amount. */
  lemma StepMoves(s: State)
    ensures var n := Step(s, false);
      && (n.x0 == s.x0 || n.x0 == s.x0 + 1) && n.x0 + n.x1 == s.x0 + s.x1
      && n.y0 + n.y1 == s.y0 + s.y1
  {
  }

  lemma GroupShape(s: State, left: int, right: int, sy: int)
    requires MainInv(s, left, right, sy)
    ensures ClosedQuad(Group(s), left + right, sy) && InColumns(Group(s), left, right)
  {
  }

  lemma TipGroupShape(s: State, left: int, right: int, sy: int)
    requires TipInv(s, left, right, sy)
    ensures ClosedQuad(TipGroup(s), left + right, sy) && InColumns(TipGroup(s), left, right)
  {
  }

  lemma {:induction false} MainShape(s: State, left: int, right: int, sy: int, fuel: nat)
    requires MainInv(s, left, right, sy)
    ensures Quads(Main(s, false, fuel).0, left + right, sy)
    ensures InColumns(Main(s, false, fuel).0, left, right)
    ensures Main(s, false, fuel).2 ==> TipInv(Main(s, false, fuel).1, left, right, sy)
    decreases fuel
  {
    if fuel > 0 {
      var n := Step(s, false);
      StepMoves(s);
      GroupShape(s, left, right, sy);
      var g := Group(s);
      if n.x0 <= n.x1 {
        MainShape(n, left, right, sy, fuel - 1);
        var rest := Main(n, false, fuel - 1);
        assert Main(s, false, fuel) == (g + rest.0, rest.1, rest.2);
        assert (g + rest.0)[..4] == g;
        assert (g + rest.0)[4..] == rest.0;
      } else {
        assert Main(s, false, fuel) == (g, n, true);
        assert g[..4] == g && g[4..] == [];
      }
    }
  }

  lemma {:induction false} TipShape(s: State, left: int, right: int, sy: int, b: nat, fuel: nat)
    requires TipInv(s, left, right, sy)
    ensures Quads(Tip(s, b, false, fuel).0, left + right, sy)
    ensures InColumns(Tip(s, b, false, fuel).0, left, right)
    decreases fuel
  {
    if fuel > 0 && s.y0 - s.y1 < b {
      var n := s.(y0 := s.y0 + 1, y1 := s.y1 - 1);
      TipShape(n, left, right, sy, b, fuel - 1);
      TipGroupShape(s, left, right, sy);
      var g := TipGroup(s);
      var rest := Tip(n, b, false, fuel - 1).0;
      assert Tip(s, b, false, fuel).0 == g + rest;
      assert (g + rest)[..4] == g;
      assert (g + rest)[4..] == rest;
    }
  }

  /** The corrected set-up starts inside the rectangle, with the two start
      rows summing to top + bottom. */
  lemma SetupInv(x0: nat, y0: nat, x1: nat, y1: nat)
    ensures MainInv(Setup(x0, y0, x1, y1, false), Raster.Min(x0, x1), Raster.Max(x0, x1), y0 + y1)
  {
    var b := Height(y0, y1);
    assert 2 * ((b + 1) / 2) - b % 2 == b;
  }

  /** Both corrected loops from a state satisfying `MainInv`. */
  lemma RunShape(s: State, left: int, right: int, sy: int, b: nat, fuel: nat)
    requires MainInv(s, left, right, sy)
    ensures Quads(Run(s, b, false, fuel).0, left + right, sy)
    ensures InColumns(Run(s, b, false, fuel).0, left, right)
  {
    MainShape(s, left, right, sy, fuel);
    var m := Main(s, false, fuel);
    if m.2 {
      var tip := Tip(m.1, b, false, fuel).0;
      TipShape(m.1, left, right, sy, b, fuel);
      QuadsConcat(m.0, tip, left + right, sy);
      assert Run(s, b, false, fuel).0 == m.0 + tip;
    }
  }

  /** With `int` coordinates the pixels are drawn in fours closed under
      mirroring at the rectangle's centre lines, and every pixel lies in
      the rectangle's columns. */
  lemma EllipseQuads(x0: nat, y0: nat, x1: nat, y1: nat, fuel: nat)
    ensures Quads(Points(x0, y0, x1, y1, false, fuel).0, x0 + x1, y0 + y1)
    ensures InColumns(Points(x0, y0, x1, y1, false, fuel).0, Raster.Min(x0, x1), Raster.Max(x0, x1))
  {
    SetupInv(x0, y0, x1, y1);
    RunShape(Setup(x0, y0, x1, y1, false), Raster.Min(x0, x1), Raster.Max(x0, x1), y0 + y1, Height(y0, y1), fuel);
  }

  /** The corrected ellipse is symmetric: with the pixel at position `i`
      it draws its mirror images at the rectangle's vertical and horizontal
      centre lines (at positions `jx` and `jy`), and it never leaves the
      rectangle's columns. */
  lemma EllipseShape(x0: nat, y0: nat, x1: nat, y1: nat, fuel: nat, i: nat) returns (jx: nat, jy: nat)
    requires i < |Points(x0, y0, x1, y1, false, fuel).0|
    ensures var pts := Points(x0, y0, x1, y1, false, fuel).0;
      && Raster.Min(x0, x1) <= pts[i].0 <= Raster.Max(x0, x1)
      && jx < |pts| && pts[jx] == MirrorX(pts[i], x0 + x1)
      && jy < |pts| && pts[jy] == MirrorY(pts[i], y0 + y1)
  {
    var pts := Points(x0, y0, x1, y1, false, fuel).0;
    EllipseQuads(x0, y0, x1, y1, fuel);
    jx, jy := QuadsMirror(pts, x0 + x1, y0 + y1, i);
  }

  /** The first four pixels are the left and right ends of the middle row(s). */
  lemma EllipseStart(x0: nat, y0: nat, x1: nat, y1: nat, wrap: bool, fuel: nat)
    requires fuel > 0
    ensures var pts := Points(x0, y0, x1, y1, wrap, fuel).0;
      var s := Setup(x0, y0, x1, y1, wrap);
      && |pts| >= 4
      && pts[..4] == [(Raster.Max(x0, x1), s.y0), (Raster.Min(x0, x1), s.y0), (Raster.Min(x0, x1), s.y1), (Raster.Max(x0, x1), s.y1)]
  {
    var (main, last, done) := Main(Setup(x0, y0, x1, y1, wrap), wrap, fuel);
    if done {
      var tip := Tip(last, Height(y0, y1), wrap, fuel).0;
      assert (main + tip)[..4] == main[..4];
    }
  }

  // ---------------------------------------------------------------------
  // the source as written: the x1-- wrap at column 0
  // ---------------------------------------------------------------------

  /** The state after k iterations in the 1x1 rectangle at the origin,
      once `x1` and `y1` have wrapped. */
  function Spun(k: nat): State {
    State(k, k, 0x1_0000 - k, 0x1_0000 - k, 0, 0, 0, 0, 0)
  }

  lemma {:induction false} SpunRunsOn(k: nat, fuel: nat)
    requires 1 <= k && k + fuel <= 0x7FFF
    ensures !Main(Spun(k), true, fuel).2
    decreases fuel
  {
    if fuel > 0 {
      assert Step(Spun(k), true) == Spun(k + 1);
      SpunRunsOn(k + 1, fuel - 1);
    }
  }

  /** The set-up for the 1x1 rectangle at the origin: everything zero. */
  lemma SetupAtOrigin(wrap: bool)
    ensures Setup(0, 0, 0, 0, wrap) == State(0, 0, 0, 0, 0, 0, 0, 0, 0)
  {
  }

  /** The first step at the origin: `x1 - 1` and `y1 - 1` wrap to 65535. */
  lemma FirstStepWraps()
    ensures Step(State(0, 0, 0, 0, 0, 0, 0, 0, 0), true) == Spun(1)
  {
    assert U16(-1) == 0xFFFF;
    assert Fit(0 - 1, true) == 0xFFFF && Fit(0 + 1, true) == 1;
  }

  lemma FirstStep()
    ensures Step(State(0, 0, 0, 0, 0, 0, 0, 0, 0), false) == State(1, 1, -1, -1, 0, 0, 0, 0, 0)
  {
  }

  /** In the 1x1 rectangle at the origin the source's first x-step turns
      `x1 = 0` into 65535, so the main loop goes on: its second group draws
      (1, 1), outside the rectangle, and the loop has not ended after
      32767 iterations. */
  lemma AsWrittenEllipseEscapes(fuel: nat)
    requires 2 <= fuel <= 0x7FFF
    ensures |Points(0, 0, 0, 0, true, fuel).0| > 5
    ensures Points(0, 0, 0, 0, true, fuel).0[5] == (1, 1)
    ensures !Points(0, 0, 0, 0, true, fuel).1
  {
    SetupAtOrigin(true);
    AsWrittenRunAtOrigin(fuel);
  }

  lemma AsWrittenRunAtOrigin(fuel: nat)
    requires 2 <= fuel <= 0x7FFF
    ensures var m := Main(State(0, 0, 0, 0, 0, 0, 0, 0, 0), true, fuel);
      |m.0| > 5 && m.0[5] == (1, 1) && Run(State(0, 0, 0, 0, 0, 0, 0, 0, 0), 0, true, fuel) == (m.0, false)
  {
    AsWrittenMainAtOrigin(fuel);
  }

  lemma SecondGroupWraps(fuel: nat)
    requires fuel >= 1
    ensures |Main(Spun(1), true, fuel).0| >= 4 && Main(Spun(1), true, fuel).0[1] == (1, 1)
  {
    var g := Group(Spun(1));
    assert g[1] == (1, 1);
  }

  lemma FirstIterationWraps(fuel: nat)
    requires fuel >= 2
    ensures var rest := Main(Spun(1), true, fuel - 1);
      Main(State(0, 0, 0, 0, 0, 0, 0, 0, 0), true, fuel) == (Group(State(0, 0, 0, 0, 0, 0, 0, 0, 0)) + rest.0, rest.1, rest.2)
  {
    FirstStepWraps();
  }

  lemma AsWrittenMainAtOrigin(fuel: nat)
    requires 2 <= fuel <= 0x7FFF
    ensures var m := Main(State(0, 0, 0, 0, 0, 0, 0, 0, 0), true, fuel);
      |m.0| > 5 && m.0[5] == (1, 1) && !m.2
  {
    FirstIterationWraps(fuel);
    SecondGroupWraps(fuel - 1);
    SpunRunsOn(1, fuel - 1);
  }

  lemma MainAtOrigin(fuel: nat)
    requires fuel >= 1
    ensures Main(State(0, 0, 0, 0, 0, 0, 0, 0, 0), false, fuel)
      == ([(0, 0), (0, 0), (0, 0), (0, 0)], State(1, 1, -1, -1, 0, 0, 0, 0, 0), true)
  {
    FirstStep();
  }

  lemma RunAtOrigin(fuel: nat)
    requires fuel >= 1
    ensures Run(State(0, 0, 0, 0, 0, 0, 0, 0, 0), 0, false, fuel) == ([(0, 0), (0, 0), (0, 0), (0, 0)], true)
  {
    MainAtOrigin(fuel);
    var g := [(0, 0), (0, 0), (0, 0), (0, 0)];
    assert Tip(State(1, 1, -1, -1, 0, 0, 0, 0, 0), 0, false, fuel) == ([], true);
    assert g + [] == g;
  }

  /** The corrected loop in the same rectangle draws (0, 0) four times and
      ends after one iteration. */
  lemma EllipseAtOrigin(fuel: nat)
    requires fuel >= 1
    ensures Points(0, 0, 0, 0, false, fuel) == ([(0, 0), (0, 0), (0, 0), (0, 0)], true)
  {
    SetupAtOrigin(false);
    RunAtOrigin(fuel);
  }
}
