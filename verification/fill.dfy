/**
 * `draw_fill` of Draw.c: the stack-based scanline flood fill.
 *
 * The fill reaches the framebuffer only through the `get_pixel` and
 * `draw_pixel` functions it is handed, so it is modelled over a `Surface`
 * with their semantics; `ReadsView` and `WritesView` show that the 1-bit
 * framebuffer's functions behave so. What `get_pixel` leaves in its
 * out-parameter after an out-of-bounds read never matters here, because
 * every such read ends the loop or test that made it. The stack is the
 * corrected one of `Stacks` in both fills; a push's memory outcome comes from `mem`
 * (push number k may grow the stack iff `k >= |mem| || mem[k]`), and the
 * fill ignores what a push returns, as the source does.
 */
module Fill {
  import opened Common
  import FB = Framebuffer
  import opened Canvas
  import opened Stacks

  /** The pixels as the fill sees them through its two function pointers:
      a width, a height and the value of each pixel. */
  datatype Surface = Surface(width: nat, height: nat, px: (nat, nat) -> nat)

  predicate Inside(s: Surface, x: int, y: int) {
    0 <= x < s.width && 0 <= y < s.height
  }

  /** `get_pixel`: the value of a pixel inside, otherwise INVALID_ARG with
      the out-parameter left as it was. */
  function Read(s: Surface, x: nat, y: nat, prior: nat): (r: (Status, nat))
    ensures r.0 == Ok <==> Inside(s, x, y)
    ensures r.0 != Ok ==> r == (ErrInvalidArg, prior)
  {
    if Inside(s, x, y) then (Ok, s.px(x, y)) else (ErrInvalidArg, prior)
  }

  /** `draw_pixel`: a pixel inside takes the bit the value stands for;
      outside it is INVALID_ARG and nothing changes. */
  function Write(s: Surface, x: nat, y: nat, v: nat): (r: (Status, Surface))
    ensures r.0 == Ok <==> Inside(s, x, y)
    ensures r.1.width == s.width && r.1.height == s.height
    ensures Inside(s, x, y) ==> r.1.px(x, y) == FB.Bit(v)
    ensures forall a: nat, b: nat :: (a, b) != (x, y) ==> r.1.px(a, b) == s.px(a, b)
  {
    if Inside(s, x, y) then
      (Ok, s.(px := (a: nat, b: nat) => if a == x && b == y then FB.Bit(v) else s.px(a, b)))
    else (ErrInvalidArg, s)
  }

  /** Two surfaces show the same pixels. */
  ghost predicate Same(s: Surface, t: Surface) {
    && s.width == t.width && s.height == t.height
    && forall a: nat, b: nat | Inside(s, a, b) :: s.px(a, b) == t.px(a, b)
  }

  /** The surface a 1-bit framebuffer shows its pixel functions. */
  ghost function View(fb: FB.Framebuffer): (r: Surface)
    requires FB.Shape(fb)
    ensures r.width == fb.columns && r.height == fb.pages * FB.BitsPerTile
    ensures forall a: nat, b: nat | FB.InBounds(fb, a, b) :: r.px(a, b) == FB.Pixel(fb, a, b)
  {
    Surface(fb.columns, fb.pages * FB.BitsPerTile,
            (a: nat, b: nat) => if FB.InBounds(fb, a, b) then FB.Pixel(fb, a, b) else 0)
  }

  /** The 1-bit framebuffer's `get_pixel` reads its view. */
  lemma ReadsView(fb: FB.Framebuffer, x: nat, y: nat, prior: nat)
    requires FB.Shape(fb)
    ensures FB.GetPixel1bit(fb, x, y, prior) == Read(View(fb), x, y, prior)
  {
  }

  /** The framebuffer's `draw_pixel` writes its view: the same status, and
      the framebuffer afterwards shows the written view. */
  lemma WritesView(fb: FB.Framebuffer, x: nat, y: nat, v: nat)
    requires FB.Shape(fb)
    ensures FB.SetPixel(fb, x, y, v).0 == Write(View(fb), x, y, v).0
    ensures Same(View(FB.SetPixel(fb, x, y, v).1), Write(View(fb), x, y, v).1)
  {
    var g := FB.SetPixel(fb, x, y, v).1;
    var t := Write(View(fb), x, y, v).1;
    forall a: nat, b: nat | Inside(View(g), a, b)
      ensures View(g).px(a, b) == t.px(a, b)
    {
      if (a, b) == (x, y) {
        FB.SetPixelReadsBack(fb, x, y, v);
      } else {
        FB.SetPixelFrame(fb, x, y, v, a, b);
      }
    }
  }

  /** Every pixel has 16-bit coordinates, as it does for any framebuffer
      built from a `uint16_t` width and height. Stepping left of column 0 or
      above row 0 then wraps to 65535, which reads outside. */
  predicate Addressable(s: Surface) {
    s.width < 0x1_0000 && s.height < 0x1_0000
  }

  /** The pixels holding `value`. */
  ghost function Matches(s: Surface, value: nat): set<(nat, nat)> {
    set a: nat, b: nat | a < s.width && b < s.height && s.px(a, b) == value :: (a, b)
  }

  /** `t` is `s` with some of the pixels that held `value` changed to the
      bit `paint` writes; nothing else differs. */
  ghost predicate Recolored(s: Surface, t: Surface, value: nat, paint: nat) {
    && t.width == s.width && t.height == s.height
    && forall a: nat, b: nat | Inside(s, a, b) ::
         t.px(a, b) == s.px(a, b) || (s.px(a, b) == value && t.px(a, b) == FB.Bit(paint))
  }

  lemma RecoloredRefl(s: Surface, value: nat, paint: nat)
    ensures Recolored(s, s, value, paint)
  {
  }

  lemma RecoloredTrans(s: Surface, t: Surface, u: Surface, value: nat, paint: nat)
    requires Recolored(s, t, value, paint) && Recolored(t, u, value, paint)
    ensures Recolored(s, u, value, paint)
  {
    forall a: nat, b: nat | Inside(s, a, b)
      ensures u.px(a, b) == s.px(a, b) || (s.px(a, b) == value && u.px(a, b) == FB.Bit(paint))
    {
      assert Inside(t, a, b);
    }
  }

  /** A pixel that a recolouring turned into the new bit keeps it through
      any later recolouring. */
  lemma RecoloredKeeps(s: Surface, t: Surface, value: nat, paint: nat, a: nat, b: nat)
    requires Recolored(s, t, value, paint)
    requires Inside(s, a, b) && s.px(a, b) == FB.Bit(paint)
    ensures Inside(t, a, b) && t.px(a, b) == FB.Bit(paint)
  {
  }

  /** Writing the new value over a matching pixel recolours exactly that
      pixel, which then no longer matches unless the new bit is `value`. */
  lemma DrawMatching(s: Surface, x: nat, y: nat, value: nat, paint: nat)
    requires Inside(s, x, y) && s.px(x, y) == value
    ensures var t := Write(s, x, y, paint).1;
      && Recolored(s, t, value, paint)
      && (x, y) in Matches(s, value)
      && (FB.Bit(paint) != value ==> Matches(t, value) == Matches(s, value) - {(x, y)})
  {
    var t := Write(s, x, y, paint).1;
    if FB.Bit(paint) == value {
      return;
    }
    forall p | p in Matches(t, value)
      ensures p in Matches(s, value) - {(x, y)}
    {
    }
    forall p | p in Matches(s, value) - {(x, y)}
      ensures p in Matches(t, value)
    {
    }
  }

  // ---------------------------------------------------------------------
  // the fill's state and its steps
  // ---------------------------------------------------------------------

  /** The fill's working state: the surface, the stack, and the number of
      pushes made so far (which selects each push's memory outcome). */
  datatype Work = Work(s: Surface, h: Handle, pushes: nat)

  predicate Good(w: Work) {
    Addressable(w.s) && LiveValid(w.h)
  }

  /** Whether push number `k` may grow the stack. */
  function GrowOk(mem: seq<bool>, k: nat): bool {
    k >= |mem| || mem[k]
  }

  /** The test of the pixel above (`dy == -1`) or below (`dy == 1`) the
      pixel (x, y) just filled. If it is inside and holds `value`, its row
      and then `x` are pushed, but only when `first` (the flag saying it
      starts a new run of such pixels); the flag returned is false exactly
      when the neighbour is inside and holds `value`. */
  function Neighbour(value: nat, mem: seq<bool>, w: Work, x: nat, y: nat, dy: int, first: bool): (r: (Work, bool))
    requires Good(w) && x < 0x1_0000
    ensures Good(r.0) && r.0.s == w.s
    ensures var ny := U16(y + dy);
      && (r.1 <==> !(Inside(w.s, x, ny) && w.s.px(x, ny) == value))
      && (r.0 != w ==> first && !r.1)
      && (first && !r.1 && GrowOk(mem, w.pushes) && GrowOk(mem, w.pushes + 1) ==>
            Contents(r.0.h.stack) == Contents(w.h.stack) + [ny as Entry, x as Entry])
  {
    var ny := U16(y + dy);
    var (ret, v) := Read(w.s, x, ny, 0);
    if ret == Ok && v == value then
      if first then
        var (_, h1) := Push(w.h, ny as Entry, GrowOk(mem, w.pushes));
        var (_, h2) := Push(h1, x as Entry, GrowOk(mem, w.pushes + 1));
        (Work(w.s, h2, w.pushes + 2), false)
      else (w, false)
    else (w, true)
  }

  /** The loop moving left from x: while the last pixel read holds `value`
      and was inside, step left and read. The column where it stopped. */
  function LeftStop(s: Surface, y: nat, value: nat, x: nat, cur: nat, ret: Status): (r: nat)
    requires Addressable(s) && x < 0x1_0000
    ensures r < 0x1_0000
    decreases if ret == ErrInvalidArg then 0 else x + 1
  {
    if cur == value && ret != ErrInvalidArg then
      var left := U16(x - 1);
      var (ret', cur') := Read(s, left, y, cur);
      LeftStop(s, y, value, left, cur', ret')
    else x
  }

  /** The body of the right loop at a pixel holding `value`: write the new
      value there, then test the pixels above and below. */
  function Visit(value: nat, paint: nat, mem: seq<bool>, w: Work, x: nat, y: nat, above: bool, below: bool): (r: (Work, bool, bool))
    requires Good(w)
    requires Inside(w.s, x, y) && w.s.px(x, y) == value
    ensures Good(r.0) && r.0.s == Write(w.s, x, y, paint).1
    ensures Recolored(w.s, r.0.s, value, paint)
    ensures FB.Bit(paint) != value ==> Matches(r.0.s, value) < Matches(w.s, value)
  {
    var (_, s1) := Write(w.s, x, y, paint);
    DrawMatching(w.s, x, y, value, paint);
    var (w1, above') := Neighbour(value, mem, w.(s := s1), x, y, -1, above);
    var (w2, below') := Neighbour(value, mem, w1, x, y, 1, below);
    (w2, above', below')
  }

  /** The loop moving right from x: while the pixel is inside and holds
      `value`, visit it. The write cannot fail, since the pixel was just
      read inside. */
  function RightRun(value: nat, paint: nat, mem: seq<bool>, w: Work, x: nat, y: nat, above: bool, below: bool): (r: Work)
    requires Good(w) && x < 0x1_0000
    ensures Good(r) && Recolored(w.s, r.s, value, paint)
    ensures FB.Bit(paint) != value ==> r == w || Matches(r.s, value) < Matches(w.s, value)
    decreases 0x1_0000 - x
  {
    var (ret, cur) := Read(w.s, x, y, 0);
    if ret == ErrInvalidArg || cur != value then
      RecoloredRefl(w.s, value, paint);
      w
    else
      var v := Visit(value, paint, mem, w, x, y, above, below);
      var r := RightRun(value, paint, mem, v.0, x + 1, y, v.1, v.2);
      RecoloredTrans(w.s, v.0.s, r.s, value, paint);
      r
  }

  /** One scanline span: the left loop from (x, y), starting with the last
      read `cur` and an OK status, then one step right and the right loop. */
  function Span(value: nat, paint: nat, mem: seq<bool>, w: Work, x: nat, y: nat, cur: nat): (r: Work)
    requires Good(w) && x < 0x1_0000
    ensures Good(r) && Recolored(w.s, r.s, value, paint)
    ensures FB.Bit(paint) != value ==> r == w || Matches(r.s, value) < Matches(w.s, value)
  {
    var stop := LeftStop(w.s, y, value, x, cur, Ok);
    RightRun(value, paint, mem, w, U16(stop + 1), y, true, true)
  }

  /** One round of the outer `do … while` loop: a span, then pop x and y.
      The work afterwards, and the popped position when both pops
      succeeded; the loop ends at the first failing pop. When the new bit
      differs from `value`, a round that goes on either recolours a pixel
      or shrinks the stack. */
  function Round(value: nat, paint: nat, mem: seq<bool>, w: Work, x: nat, y: nat, cur: nat): (r: (Work, Option<(Entry, Entry)>))
    requires Good(w) && x < 0x1_0000
    ensures Good(r.0) && Recolored(w.s, r.0.s, value, paint)
  {
    var w1 := Span(value, paint, mem, w, x, y, cur);
    var (px, ex, h1) := Pop(w1.h, true);
    if px != Ok then (w1, None)
    else
      var (py, ey, h2) := Pop(h1, true);
      if py != Ok then (w1.(h := h2), None)
      else (Work(w1.s, h2, w1.pushes), Some((ex, ey)))
  }

  /** What a round pops: the top two entries the span left, x on top. */
  lemma RoundPops(value: nat, paint: nat, mem: seq<bool>, w: Work, x: nat, y: nat, cur: nat)
    requires Good(w) && x < 0x1_0000
    ensures var r := Round(value, paint, mem, w, x, y, cur);
      var w1 := Span(value, paint, mem, w, x, y, cur);
      && r.0.s == w1.s
      && (r.1.None? <==> |Contents(w1.h.stack)| < 2)
      && (r.1.Some? ==> Contents(w1.h.stack) == Contents(r.0.h.stack) + [r.1.value.1, r.1.value.0])
  {
  }

  /** When the new bit differs from `value`, a round that goes on either
      recolours a pixel or shrinks the stack. */
  lemma RoundShrinks(value: nat, paint: nat, mem: seq<bool>, w: Work, x: nat, y: nat, cur: nat)
    requires Good(w) && x < 0x1_0000 && FB.Bit(paint) != value
    ensures var r := Round(value, paint, mem, w, x, y, cur);
      r.1.Some? ==>
        || Matches(r.0.s, value) < Matches(w.s, value)
        || (Matches(r.0.s, value) == Matches(w.s, value) && |Contents(r.0.h.stack)| < |Contents(w.h.stack)|)
  {
    RoundPops(value, paint, mem, w, x, y, cur);
  }

  /** The outer loop, when the new bit differs from `value`: rounds until a
      pop fails. A popped pixel is taken to hold `value` without reading it. */
  function Rounds(value: nat, paint: nat, mem: seq<bool>, w: Work, x: nat, y: nat, cur: nat): (r: Work)
    requires Good(w) && x < 0x1_0000 && FB.Bit(paint) != value
    ensures Good(r) && Recolored(w.s, r.s, value, paint)
    decreases Matches(w.s, value), |Contents(w.h.stack)|
  {
    var (w1, next) := Round(value, paint, mem, w, x, y, cur);
    RoundShrinks(value, paint, mem, w, x, y, cur);
    if next.None? then w1
    else
      var r := Rounds(value, paint, mem, w1, next.value.0 as nat, next.value.1 as nat, value);
      RecoloredTrans(w.s, w1.s, r.s, value, paint);
      r
  }

  /** The outer loop as written, for any two values: at most `fuel` rounds
      are run, and `None` says the loop had not ended by then. */
  function RoundsAsWritten(value: nat, paint: nat, mem: seq<bool>, w: Work, x: nat, y: nat, cur: nat, fuel: nat): (r: Option<Work>)
    requires Good(w) && x < 0x1_0000
    ensures r.Some? ==> Good(r.value) && Recolored(w.s, r.value.s, value, paint)
    decreases fuel
  {
    if fuel == 0 then None
    else
      var (w1, next) := Round(value, paint, mem, w, x, y, cur);
      if next.None? then Some(w1)
      else
        var r := RoundsAsWritten(value, paint, mem, w1, next.value.0 as nat, next.value.1 as nat, value, fuel - 1);
        if r.Some? then
          RecoloredTrans(w.s, w1.s, r.value.s, value, paint);
          r
        else r
  }

  /** The corrected loop runs a round and goes on from the popped position. */
  lemma RoundsStep(value: nat, paint: nat, mem: seq<bool>, w: Work, x: nat, y: nat, cur: nat)
    requires Good(w) && x < 0x1_0000 && FB.Bit(paint) != value
    ensures var (w1, next) := Round(value, paint, mem, w, x, y, cur);
      && (next.None? ==> Rounds(value, paint, mem, w, x, y, cur) == w1)
      && (next.Some? ==> Rounds(value, paint, mem, w, x, y, cur)
                           == Rounds(value, paint, mem, w1, next.value.0 as nat, next.value.1 as nat, value))
  {
  }

  /** A budget of at least one runs a round and goes on with one less. */
  lemma RoundsAsWrittenStep(value: nat, paint: nat, mem: seq<bool>, w: Work, x: nat, y: nat, cur: nat, fuel: nat)
    requires Good(w) && x < 0x1_0000 && fuel > 0
    ensures var (w1, next) := Round(value, paint, mem, w, x, y, cur);
      && (next.None? ==> RoundsAsWritten(value, paint, mem, w, x, y, cur, fuel) == Some(w1))
      && (next.Some? ==> RoundsAsWritten(value, paint, mem, w, x, y, cur, fuel)
                           == RoundsAsWritten(value, paint, mem, w1, next.value.0 as nat, next.value.1 as nat, value, fuel - 1))
  {
  }

  /** When the new bit differs from `value`, the loop as written ends
      within some budget, where the corrected loop ends. */
  lemma {:induction false} RoundsAsWrittenEnd(value: nat, paint: nat, mem: seq<bool>, w: Work, x: nat, y: nat, cur: nat)
    returns (fuel: nat)
    requires Good(w) && x < 0x1_0000 && FB.Bit(paint) != value
    ensures RoundsAsWritten(value, paint, mem, w, x, y, cur, fuel) == Some(Rounds(value, paint, mem, w, x, y, cur))
    decreases Matches(w.s, value), |Contents(w.h.stack)|
  {
    var (w1, next) := Round(value, paint, mem, w, x, y, cur);
    RoundShrinks(value, paint, mem, w, x, y, cur);
    if next.None? {
      fuel := 1;
    } else {
      var f := RoundsAsWrittenEnd(value, paint, mem, w1, next.value.0 as nat, next.value.1 as nat, value);
      fuel := f + 1;
      RoundsAsWrittenStep(value, paint, mem, w, x, y, cur, fuel);
    }
  }

  /** `draw_fill`'s stack: allocated with an initial capacity of 1. */
  function NewStack(structOk: bool, entriesOk: bool): (r: (Status, Handle))
    ensures r.0 == Ok ==> LiveValid(r.1)
    ensures r.0 != Ok ==> r.0 == ErrNoMemory
  {
    Allocate(true, 1, structOk, entriesOk)
  }

  /** The corrected fill from the seed (x, y), whose value `cur` was read,
      with a fresh stack, followed by the stack's release. When the new bit
      is `value` itself there is nothing to recolour and no round is run. */
  function Fill(value: nat, paint: nat, mem: seq<bool>, s: Surface, h: Handle, x: nat, y: nat, cur: nat): (r: (Status, Surface))
    requires Addressable(s) && LiveValid(h) && x < 0x1_0000
    ensures r.0 == Ok && Recolored(s, r.1, value, paint)
    ensures FB.Bit(paint) == value ==> r.1 == s
  {
    if FB.Bit(paint) == value then
      RecoloredRefl(s, value, paint);
      (Deallocate(h).0, s)
    else
      var w := Rounds(value, paint, mem, Work(s, h, 0), x, y, cur);
      var (released, _) := Deallocate(w.h);
      (released, w.s)
  }

  /** `draw_fill` as written. `given` says whether the pixel functions and
      the framebuffer are non-NULL; `structOk` and `entriesOk` are the
      outcomes of the stack's allocations. The outer loop runs at most
      `fuel` rounds; `None` says it was still running. */
  function DrawFillAsWritten(given: bool, s: Surface, value: nat, paint: nat, x: nat, y: nat,
                             structOk: bool, entriesOk: bool, mem: seq<bool>, fuel: nat): (r: Option<(Status, Surface)>)
    requires Addressable(s) && x < 0x1_0000 && y < 0x1_0000
    ensures !given || !Inside(s, x, y) ==> r == Some((ErrInvalidArg, s))
    ensures given && Inside(s, x, y) && !(structOk && entriesOk) ==> r == Some((ErrNoMemory, s))
    ensures given && Inside(s, x, y) && structOk && entriesOk && r.Some? ==> r.value.0 == Ok
    ensures r.Some? ==> Recolored(s, r.value.1, value, paint)
  {
    RecoloredRefl(s, value, paint);
    if !given then Some((ErrInvalidArg, s))
    else
      var (ret, cur) := Read(s, x, y, 0);
      if ret == ErrInvalidArg then Some((ret, s))
      else
        var (made, h) := NewStack(structOk, entriesOk);
        if made != Ok then Some((made, s))
        else
          var r := RoundsAsWritten(value, paint, mem, Work(s, h, 0), x, y, cur, fuel);
          if r.None? then None
          else
            var (released, _) := Deallocate(r.value.h);
            Some((released, r.value.s))
  }

  /** Where the seed holds `value` (or is outside) and the new bit
      differs, `draw_fill` as written ends within some budget, with the
      corrected fill's outcome and surface. */
  lemma AsWrittenAgrees(given: bool, s: Surface, value: nat, paint: nat, x: nat, y: nat,
                        structOk: bool, entriesOk: bool, mem: seq<bool>) returns (fuel: nat)
    requires Addressable(s) && x < 0x1_0000 && y < 0x1_0000 && FB.Bit(paint) != value
    requires Inside(s, x, y) ==> s.px(x, y) == value
    ensures DrawFillAsWritten(given, s, value, paint, x, y, structOk, entriesOk, mem, fuel)
              == Some(DrawFill(given, s, value, paint, x, y, structOk, entriesOk, mem))
  {
    fuel := 0;
    if given && Inside(s, x, y) {
      var (made, h) := NewStack(structOk, entriesOk);
      if made == Ok {
        fuel := RoundsAsWrittenEnd(value, paint, mem, Work(s, h, 0), x, y, value);
      }
    }
  }

  /** `draw_fill` corrected: a seed that does not hold `value` starts no
      fill (the left loop takes it to hold `value`, so the source fills the
      run to the seed's right instead), and a new bit equal to `value`
      changes nothing (the source then never ends on a region of two or more
      rows). */
  function DrawFill(given: bool, s: Surface, value: nat, paint: nat, x: nat, y: nat,
                    structOk: bool, entriesOk: bool, mem: seq<bool>): (r: (Status, Surface))
    requires Addressable(s) && x < 0x1_0000 && y < 0x1_0000
    ensures !given || !Inside(s, x, y) ==> r.0 == ErrInvalidArg && r.1 == s
    ensures given && Inside(s, x, y) && s.px(x, y) != value ==> r.0 == Ok && r.1 == s
    ensures given && Inside(s, x, y) && s.px(x, y) == value ==>
              r.0 == (if structOk && entriesOk then Ok else ErrNoMemory)
    ensures FB.Bit(paint) == value ==> r.1 == s
    ensures Recolored(s, r.1, value, paint)
  {
    RecoloredRefl(s, value, paint);
    if !given then (ErrInvalidArg, s)
    else
      var (ret, cur) := Read(s, x, y, 0);
      if ret == ErrInvalidArg then (ret, s)
      else if cur != value then (Ok, s)
      else
        var (made, h) := NewStack(structOk, entriesOk);
        if made != Ok then (made, s)
        else Fill(value, paint, mem, s, h, x, y, cur)
  }

  // ---------------------------------------------------------------------
  // which pixels get filled
  // ---------------------------------------------------------------------

  /** Left of column 0 the left loop wraps to column 65535 and stops. */
  lemma LeftStopAtEdge(s: Surface, y: nat, value: nat)
    requires Addressable(s)
    ensures LeftStop(s, y, value, 0, value, Ok) == 0xFFFF
  {
    assert U16(0 - 1) == 0xFFFF;
    assert !Inside(s, 0xFFFF, y);
  }

  /** The left loop stops after one step at a pixel that does not match. */
  lemma LeftStopHalts(s: Surface, y: nat, value: nat, x: nat)
    requires Addressable(s) && 0 < x < 0x1_0000
    requires !(Inside(s, x - 1, y) && s.px(x - 1, y) == value)
    ensures LeftStop(s, y, value, x, value, Ok) == x - 1
  {
    assert U16(x - 1) == x - 1;
  }

  /** The left loop passes over a pixel that matches. */
  lemma LeftStopPasses(s: Surface, y: nat, value: nat, x: nat)
    requires Addressable(s) && 0 < x < 0x1_0000
    requires Inside(s, x - 1, y) && s.px(x - 1, y) == value
    ensures LeftStop(s, y, value, x, value, Ok) == LeftStop(s, y, value, x - 1, value, Ok)
  {
    assert U16(x - 1) == x - 1;
  }

  /** Columns lo..hi of row y are all inside and hold `value`. */
  ghost predicate Run(s: Surface, y: nat, value: nat, lo: nat, hi: nat) {
    forall i: nat :: lo <= i <= hi ==> Inside(s, i, y) && s.px(i, y) == value
  }

  lemma RunExtend(s: Surface, y: nat, value: nat, lo: nat, hi: nat)
    requires Run(s, y, value, lo, hi) && Inside(s, hi + 1, y) && s.px(hi + 1, y) == value
    ensures Run(s, y, value, lo, hi + 1)
  {
  }

  /** The left loop from a pixel holding `value` stops just left of a run
      of pixels holding `value` that reaches the start; `lo` is the run's
      first column, where the right loop then starts. */
  lemma {:induction false} LeftStopRun(s: Surface, y: nat, value: nat, x: nat) returns (lo: nat)
    requires Addressable(s) && Inside(s, x, y) && s.px(x, y) == value
    ensures lo == U16(LeftStop(s, y, value, x, value, Ok) + 1)
    ensures lo <= x && Run(s, y, value, lo, x)
    decreases x
  {
    if x == 0 {
      LeftStopAtEdge(s, y, value);
      assert U16(0xFFFF + 1) == 0;
      lo := 0;
    } else if Inside(s, x - 1, y) && s.px(x - 1, y) == value {
      LeftStopPasses(s, y, value, x);
      lo := LeftStopRun(s, y, value, x - 1);
      RunExtend(s, y, value, lo, x - 1);
    } else {
      LeftStopHalts(s, y, value, x);
      lo := x;
    }
  }

  /** The right loop at a pixel holding `value` visits it and goes on one
      column to the right. */
  lemma RightRunVisits(value: nat, paint: nat, mem: seq<bool>, w: Work, x: nat, y: nat, above: bool, below: bool)
    requires Good(w)
    requires Inside(w.s, x, y) && w.s.px(x, y) == value
    ensures var v := Visit(value, paint, mem, w, x, y, above, below);
      RightRun(value, paint, mem, w, x, y, above, below) == RightRun(value, paint, mem, v.0, x + 1, y, v.1, v.2)
  {
  }

  /** The right loop started at a pixel holding `value` fills it. */
  lemma RightRunFillsStart(value: nat, paint: nat, mem: seq<bool>, w: Work, x: nat, y: nat, above: bool, below: bool)
    requires Good(w) && FB.Bit(paint) != value
    requires Inside(w.s, x, y) && w.s.px(x, y) == value
    ensures Inside(RightRun(value, paint, mem, w, x, y, above, below).s, x, y)
    ensures RightRun(value, paint, mem, w, x, y, above, below).s.px(x, y) == FB.Bit(paint)
  {
    var v := Visit(value, paint, mem, w, x, y, above, below);
    RightRunVisits(value, paint, mem, w, x, y, above, below);
    RecoloredKeeps(v.0.s, RightRun(value, paint, mem, v.0, x + 1, y, v.1, v.2).s, value, paint, x, y);
  }

  /** The right loop started on a run of pixels holding `value` fills the
      run up to its end `e` at least. */
  lemma {:induction false} RightRunCovers(value: nat, paint: nat, mem: seq<bool>, w: Work, lo: nat, e: nat, y: nat, above: bool, below: bool)
    requires Good(w) && FB.Bit(paint) != value
    requires lo <= e && Inside(w.s, e, y) && Run(w.s, y, value, lo, e)
    ensures Inside(RightRun(value, paint, mem, w, lo, y, above, below).s, e, y)
    ensures RightRun(value, paint, mem, w, lo, y, above, below).s.px(e, y) == FB.Bit(paint)
    decreases e - lo
  {
    assert Inside(w.s, lo, y) && w.s.px(lo, y) == value;
    if lo < e {
      var v := Visit(value, paint, mem, w, lo, y, above, below);
      RightRunVisits(value, paint, mem, w, lo, y, above, below);
      forall i: nat | lo + 1 <= i <= e
        ensures Inside(v.0.s, i, y) && v.0.s.px(i, y) == value
      {
        assert (i, y) != (lo, y);
      }
      RightRunCovers(value, paint, mem, v.0, lo + 1, e, y, v.1, v.2);
      var r1 := RightRun(value, paint, mem, w, lo, y, above, below);
      var r2 := RightRun(value, paint, mem, v.0, lo + 1, y, v.1, v.2);
      assert r1 == r2;
      assert r2.s.px(e, y) == FB.Bit(paint);
      assert r1.s.px(e, y) == FB.Bit(paint);
    } else {
      RightRunFillsStart(value, paint, mem, w, lo, y, above, below);
    }
  }

  /** Whatever the first span turns into the new bit stays so. */
  lemma FirstSpanKept(value: nat, paint: nat, mem: seq<bool>, w: Work, x: nat, y: nat, cur: nat)
    requires Good(w) && x < 0x1_0000 && FB.Bit(paint) != value
    ensures Recolored(Span(value, paint, mem, w, x, y, cur).s, Rounds(value, paint, mem, w, x, y, cur).s, value, paint)
  {
    var (w1, next) := Round(value, paint, mem, w, x, y, cur);
    RoundPops(value, paint, mem, w, x, y, cur);
    if next.None? {
      RecoloredRefl(w1.s, value, paint);
    }
  }


  /** Corrected fill: the whole run of pixels holding `value` that ends at
      the seed, the seed included, ends up holding the new bit. */
  lemma DrawFillFillsSeed(s: Surface, value: nat, paint: nat, x: nat, y: nat, mem: seq<bool>) returns (lo: nat)
    requires Addressable(s) && x < 0x1_0000 && y < 0x1_0000 && FB.Bit(paint) != value
    requires Inside(s, x, y) && s.px(x, y) == value
    ensures lo <= x && Run(s, y, value, lo, x)
    ensures DrawFill(true, s, value, paint, x, y, true, true, mem).1.px(x, y) == FB.Bit(paint)
  {
    var w := Work(s, NewStack(true, true).1, 0);
    lo := LeftStopRun(s, y, value, x);
    RightRunCovers(value, paint, mem, w, lo, x, y, true, true);
    FirstSpanKept(value, paint, mem, w, x, y, value);
    var w1 := Span(value, paint, mem, w, x, y, value);
    RecoloredKeeps(w1.s, Rounds(value, paint, mem, w, x, y, value).s, value, paint, x, y);
    assert DrawFill(true, s, value, paint, x, y, true, true, mem).1 == Rounds(value, paint, mem, w, x, y, value).s;
  }

  /** As written, a seed that does not hold `value` next to a pixel that
      does makes the fill recolour that neighbour, although the seed's own
      area is empty; the corrected fill leaves the surface unchanged. The
      run as written ends, and `fuel` is a budget it ends within. */
  lemma AsWrittenFillsBesideSeed(s: Surface, value: nat, paint: nat, x: nat, y: nat, mem: seq<bool>) returns (fuel: nat)
    requires Addressable(s) && y < 0x1_0000 && FB.Bit(paint) != value
    requires Inside(s, x, y) && s.px(x, y) != value
    requires Inside(s, x + 1, y) && s.px(x + 1, y) == value
    ensures DrawFillAsWritten(true, s, value, paint, x, y, true, true, mem, fuel).Some?
    ensures DrawFillAsWritten(true, s, value, paint, x, y, true, true, mem, fuel).value.1.px(x + 1, y) == FB.Bit(paint)
    ensures DrawFill(true, s, value, paint, x, y, true, true, mem) == (Ok, s)
  {
    var w := Work(s, NewStack(true, true).1, 0);
    var cur := s.px(x, y);
    assert LeftStop(s, y, value, x, cur, Ok) == x;
    assert Run(s, y, value, x + 1, x + 1);
    assert x + 1 < 0x1_0000;
    RightRunCovers(value, paint, mem, w, x + 1, x + 1, y, true, true);
    FirstSpanKept(value, paint, mem, w, x, y, cur);
    var w1 := Span(value, paint, mem, w, x, y, cur);
    RecoloredKeeps(w1.s, Rounds(value, paint, mem, w, x, y, cur).s, value, paint, x + 1, y);
    fuel := RoundsAsWrittenEnd(value, paint, mem, w, x, y, cur);
    var r := DrawFillAsWritten(true, s, value, paint, x, y, true, true, mem, fuel);
    assert r.value.1 == Rounds(value, paint, mem, w, x, y, cur).s;
  }

  // ---------------------------------------------------------------------
  // a new bit equal to the old value
  // ---------------------------------------------------------------------

  /** (x, y) holds `value`, and so does the pixel above or below it. */
  ghost predicate Paired(s: Surface, value: nat, x: nat, y: nat) {
    && Inside(s, x, y) && s.px(x, y) == value
    && ((Inside(s, x, y + 1) && s.px(x, y + 1) == value)
        || (y > 0 && Inside(s, x, y - 1) && s.px(x, y - 1) == value))
  }

  /** The stack holds at least one position, and its top (x, then y below
      it) is a pixel that holds `value` next to another one that does. */
  ghost predicate TopPaired(w: Work, value: nat) {
    && Good(w)
    && var c := Contents(w.h.stack);
    && |c| >= 2 && Paired(w.s, value, c[|c| - 1] as nat, c[|c| - 2] as nat)
  }

  /** `t` shows every pixel as `s` does. */
  ghost predicate Unchanged(s: Surface, t: Surface) {
    && t.width == s.width && t.height == s.height
    && forall a: nat, b: nat :: t.px(a, b) == s.px(a, b)
  }

  /** With the new bit equal to `value` and pushes that never fail, a
      neighbour test keeps a paired top, and makes one when it pushes. */
  lemma NeighbourPairs(value: nat, paint: nat, w: Work, x: nat, y: nat, dy: int, first: bool)
    requires Good(w) && x < 0x1_0000 && (dy == -1 || dy == 1)
    requires Inside(w.s, x, y) && w.s.px(x, y) == value
    ensures var r := Neighbour(value, [], w, x, y, dy, first);
      (TopPaired(w, value) || (first && !r.1)) ==> TopPaired(r.0, value)
  {
    var r := Neighbour(value, [], w, x, y, dy, first);
    var ny := U16(y + dy);
    if first && !r.1 {
      assert ny == y + dy;
      var c := Contents(r.0.h.stack);
      assert c[|c| - 1] as nat == x && c[|c| - 2] as nat == ny;
      if dy == -1 {
        assert ny + 1 == y;
      }
    } else if TopPaired(w, value) {
      assert r.0 == w;
    }
  }

  /** With the new bit equal to `value`, visiting a pixel changes no pixel,
      keeps a paired top, and leaves one whenever a flag says the last
      neighbour held `value`, or the pixel itself is paired. */
  lemma VisitPairs(value: nat, paint: nat, w: Work, x: nat, y: nat, above: bool, below: bool)
    requires Good(w) && FB.Bit(paint) == value
    requires Inside(w.s, x, y) && w.s.px(x, y) == value
    requires !above || !below ==> TopPaired(w, value)
    ensures var v := Visit(value, paint, [], w, x, y, above, below);
      && Unchanged(w.s, v.0.s)
      && (TopPaired(w, value) ==> TopPaired(v.0, value))
      && (!v.1 || !v.2 || Paired(w.s, value, x, y) ==> TopPaired(v.0, value))
  {
    var (_, s1) := Write(w.s, x, y, paint);
    var w0 := w.(s := s1);
    assert Unchanged(w.s, s1);
    assert TopPaired(w, value) ==> TopPaired(w0, value);
    NeighbourPairs(value, paint, w0, x, y, -1, above);
    var (w1, above') := Neighbour(value, [], w0, x, y, -1, above);
    NeighbourPairs(value, paint, w1, x, y, 1, below);
    var (w2, below') := Neighbour(value, [], w1, x, y, 1, below);
    if Paired(w.s, value, x, y) {
      if y > 0 && Inside(w.s, x, y - 1) && w.s.px(x, y - 1) == value {
        assert U16(y - 1) == y - 1;
      } else {
        assert U16(y + 1) == y + 1;
      }
    }
  }

  /** With the new bit equal to `value`, the right loop changes no pixel
      and keeps a paired top. */
  lemma {:induction false} RightRunKeeps(value: nat, paint: nat, w: Work, x: nat, y: nat, above: bool, below: bool)
    requires Good(w) && x < 0x1_0000 && FB.Bit(paint) == value
    requires !above || !below ==> TopPaired(w, value)
    ensures var r := RightRun(value, paint, [], w, x, y, above, below);
      Unchanged(w.s, r.s) && (TopPaired(w, value) ==> TopPaired(r, value))
    decreases 0x1_0000 - x
  {
    var (ret, cur) := Read(w.s, x, y, 0);
    if ret != ErrInvalidArg && cur == value {
      VisitPairs(value, paint, w, x, y, above, below);
      var v := Visit(value, paint, [], w, x, y, above, below);
      RightRunKeeps(value, paint, v.0, x + 1, y, v.1, v.2);
    }
  }

  /** With the new bit equal to `value`, the right loop over a run that
      ends at a paired pixel leaves a paired top. */
  lemma {:induction false} RightRunPairs(value: nat, paint: nat, w: Work, lo: nat, e: nat, y: nat, above: bool, below: bool)
    requires Good(w) && FB.Bit(paint) == value && e < 0x1_0000
    requires lo <= e && Run(w.s, y, value, lo, e) && Paired(w.s, value, e, y)
    requires !above || !below ==> TopPaired(w, value)
    ensures TopPaired(RightRun(value, paint, [], w, lo, y, above, below), value)
    decreases e - lo
  {
    assert Inside(w.s, lo, y) && w.s.px(lo, y) == value;
    VisitPairs(value, paint, w, lo, y, above, below);
    var v := Visit(value, paint, [], w, lo, y, above, below);
    RightRunVisits(value, paint, [], w, lo, y, above, below);
    var r1 := RightRun(value, paint, [], w, lo, y, above, below);
    var r2 := RightRun(value, paint, [], v.0, lo + 1, y, v.1, v.2);
    assert r1 == r2;
    if lo < e {
      assert Unchanged(w.s, v.0.s);
      forall i: nat | lo + 1 <= i <= e
        ensures Inside(v.0.s, i, y) && v.0.s.px(i, y) == value
      {
        assert Inside(w.s, i, y) && w.s.px(i, y) == value;
      }
      assert Paired(v.0.s, value, e, y);
      RightRunPairs(value, paint, v.0, lo + 1, e, y, v.1, v.2);
    } else {
      RightRunKeeps(value, paint, v.0, lo + 1, y, v.1, v.2);
    }
    assert TopPaired(r2, value);
  }

  /** A span from a pixel holding `value` is the right loop from the left
      end `lo` of its run. */
  lemma SpanStart(value: nat, paint: nat, mem: seq<bool>, w: Work, x: nat, y: nat) returns (lo: nat)
    requires Good(w) && x < 0x1_0000 && Inside(w.s, x, y) && w.s.px(x, y) == value
    ensures lo <= x && Run(w.s, y, value, lo, x)
    ensures Span(value, paint, mem, w, x, y, value) == RightRun(value, paint, mem, w, lo, y, true, true)
  {
    lo := LeftStopRun(w.s, y, value, x);
    var stop := LeftStop(w.s, y, value, x, value, Ok);
    assert lo == U16(stop + 1);
    var r := RightRun(value, paint, mem, w, lo, y, true, true);
    assert Span(value, paint, mem, w, x, y, value) == r;
  }

  /** With the new bit equal to `value`, a span from a paired pixel changes
      no pixel and leaves a paired top. */
  lemma SpanPairs(value: nat, paint: nat, w: Work, x: nat, y: nat)
    requires Good(w) && x < 0x1_0000 && FB.Bit(paint) == value && Paired(w.s, value, x, y)
    ensures var r := Span(value, paint, [], w, x, y, value);
      Unchanged(w.s, r.s) && TopPaired(r, value)
  {
    var lo := SpanStart(value, paint, [], w, x, y);
    RightRunKeeps(value, paint, w, lo, y, true, true);
    RightRunPairs(value, paint, w, lo, x, y, true, true);
  }

  /** With the new bit equal to `value` and pushes that never fail, rounds
      started at a paired pixel never end: every span pushes a paired
      pixel, which the next round pops and starts from. */
  lemma {:induction false} RoundsSpin(value: nat, paint: nat, w: Work, x: nat, y: nat, fuel: nat)
    requires Good(w) && x < 0x1_0000 && FB.Bit(paint) == value && Paired(w.s, value, x, y)
    ensures RoundsAsWritten(value, paint, [], w, x, y, value, fuel) == None
    decreases fuel
  {
    if fuel > 0 {
      RoundPairs(value, paint, w, x, y);
      RoundsAsWrittenStep(value, paint, [], w, x, y, value, fuel);
      var (w1, next) := Round(value, paint, [], w, x, y, value);
      RoundsSpin(value, paint, w1, next.value.0 as nat, next.value.1 as nat, fuel - 1);
    }
  }

  /** With the new bit equal to `value` and pushes that never fail, a round
      from a paired pixel pops a paired pixel. */
  lemma RoundPairs(value: nat, paint: nat, w: Work, x: nat, y: nat)
    requires Good(w) && x < 0x1_0000 && FB.Bit(paint) == value && Paired(w.s, value, x, y)
    ensures var (w1, next) := Round(value, paint, [], w, x, y, value);
      next.Some? && Paired(w1.s, value, next.value.0 as nat, next.value.1 as nat)
  {
    SpanPairs(value, paint, w, x, y);
    var sp := Span(value, paint, [], w, x, y, value);
    assert TopPaired(sp, value);
    var c := Contents(sp.h.stack);
    var (w1, next) := Round(value, paint, [], w, x, y, value);
    RoundPops(value, paint, [], w, x, y, value);
    assert next.Some? && w1.s == sp.s;
    var (nx, ny) := next.value;
    assert c == Contents(w1.h.stack) + [ny, nx];
    assert nx == c[|c| - 1] && ny == c[|c| - 2];
  }

  /** As written, filling a region of two rows or more with the value it
      already holds never ends, whatever the budget, even with memory for
      every push; the corrected fill returns OK and changes nothing. */
  lemma AsWrittenSameValueSpins(s: Surface, value: nat, paint: nat, x: nat, y: nat, fuel: nat)
    requires Addressable(s) && x < 0x1_0000 && y < 0x1_0000 && FB.Bit(paint) == value
    requires Inside(s, x, y) && s.px(x, y) == value
    requires Inside(s, x, y + 1) && s.px(x, y + 1) == value
    ensures DrawFillAsWritten(true, s, value, paint, x, y, true, true, [], fuel) == None
    ensures DrawFill(true, s, value, paint, x, y, true, true, []) == (Ok, s)
  {
    var w := Work(s, NewStack(true, true).1, 0);
    RoundsSpin(value, paint, w, x, y, fuel);
  }
}
