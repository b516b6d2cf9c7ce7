/**
 * Facts about multiplication, division and remainder that the tile
 * addressing relies on and the solver does not find unaided.
 */
module Arith {

  /** A row-major index `q * c + x` with `x < c` stays below `n * c` when `q < n`. */
  lemma RowMajorBound(q: nat, n: nat, c: nat, x: nat)
    requires q < n && x < c
    ensures q * c + x < n * c
  {
    MulMono(q + 1, n, c);
    assert (q + 1) * c == q * c + c;
  }

  /** Multiplying by a natural number keeps the order. */
  lemma {:induction false} MulMono(a: nat, b: nat, c: nat)
    requires a <= b
    ensures a * c <= b * c
    decreases b - a
  {
    if a < b {
      MulMono(a, b - 1, c);
      assert b * c == (b - 1) * c + c;
    }
  }

  /** Quotient and remainder are determined by any decomposition `q * d + r` with `r < d`. */
  lemma DivModUnique(t: nat, d: nat, q: nat, r: nat)
    requires 0 <= r < d && t == q * d + r
    ensures t / d == q && t % d == r
  {
    var q', r' := t / d, t % d;
    assert t == q' * d + r';
    if q' < q {
      RowMajorBound(q', q, d, r');
      assert false;
    } else if q < q' {
      RowMajorBound(q, q', d, r);
      assert false;
    }
  }

  /** The next multiple of `c` above `t`, `(t / c + 1) * c`, lies above `t`
      and has quotient `t / c + 1`. */
  lemma NextMultiple(t: nat, c: nat)
    requires c > 0
    ensures t < (t / c + 1) * c
    ensures ((t / c + 1) * c) / c == t / c + 1 && ((t / c + 1) * c) % c == 0
  {
    var q := t / c;
    assert t == q * c + t % c;
    assert (q + 1) * c == q * c + c;
    DivModUnique((q + 1) * c, c, q + 1, 0);
  }
}
