/**
 * Bit-level helpers: single bits of a byte, the C conversion of a count to
 * `uint8_t`, and population counts of flag sequences.
 */
module Bits {
  import opened Arith

  /** Conversion of a non-negative count to `uint8_t`, counted up one
      increment at a time; `ByteValue` shows it keeps the low eight bits. */
  function Byte(v: nat): bv8
    decreases v
  {
    if v == 0 then 0 else Byte(v - 1) + 1
  }

  /** A `uint8_t` increment wraps from 255 to 0. */
  lemma Increment(x: bv8)
    ensures (x + 1) as int == (x as int + 1) % 0x100
  {
  }

  lemma {:induction false} ByteValue(v: nat)
    ensures Byte(v) as int == v % 0x100
  {
    if v > 0 {
      ByteValue(v - 1);
      Increment(Byte(v - 1));
      var q, r := (v - 1) / 0x100, (v - 1) % 0x100;
      if r < 0xFF {
        DivModUnique(v, 0x100, q, r + 1);
      } else {
        DivModUnique(v, 0x100, q + 1, 0);
      }
    }
  }

  /** `1 << k` for a bit position of a byte. */
  function Mask(k: nat): (m: bv8)
    requires k < 8
    ensures m != 0 && m & (m - 1) == 0
  {
    match k
    case 0 => 0x01
    case 1 => 0x02
    case 2 => 0x04
    case 3 => 0x08
    case 4 => 0x10
    case 5 => 0x20
    case 6 => 0x40
    case _ => 0x80
  }

  /** `(b & (1 << k)) >> k`: the value, 0 or 1, of bit `k` of `b`. */
  function BitOf(b: bv8, k: nat): (r: nat)
    requires k < 8
    ensures r <= 1
  {
    if b & Mask(k) == 0 then 0 else 1
  }

  /** `b | (1 << k)` when `on` holds, `b & ~(1 << k)` otherwise. */
  function WithBit(b: bv8, k: nat, on: bool): bv8
    requires k < 8
  {
    if on then b | Mask(k) else b & !Mask(k)
  }

  /** Writing bit `k` changes bit `k` to the written value and no other bit. */
  lemma WithBitReads(b: bv8, k: nat, on: bool, j: nat)
    requires k < 8 && j < 8
    ensures BitOf(WithBit(b, k, on), j) == if j == k then (if on then 1 else 0) else BitOf(b, j)
  {
    var m, n := Mask(k), Mask(j);
    if j != k {
      assert m & n == 0;
    }
  }

  /** Writing a bit to the value it already holds leaves the byte unchanged. */
  lemma WithBitSame(b: bv8, k: nat, on: bool)
    requires k < 8
    requires BitOf(b, k) == (if on then 1 else 0)
    ensures WithBit(b, k, on) == b
  {
  }

  /** Number of set flags in `s`. */
  function CountTrue(s: seq<bool>): (r: nat)
    ensures r <= |s|
  {
    if |s| == 0 then 0 else (if s[0] then 1 else 0) + CountTrue(s[1..])
  }

  /** Setting one clear flag raises the count by exactly one. */
  lemma {:induction false} CountTrueSet(s: seq<bool>, i: nat)
    requires i < |s| && !s[i]
    ensures CountTrue(s[i := true]) == CountTrue(s) + 1
  {
    if i > 0 {
      assert s[i := true][1..] == s[1..][i - 1 := true];
      CountTrueSet(s[1..], i - 1);
    } else {
      assert s[i := true][1..] == s[1..];
    }
  }

  /** Clearing one set flag lowers the count by exactly one. */
  lemma {:induction false} CountTrueClear(s: seq<bool>, i: nat)
    requires i < |s| && s[i]
    ensures CountTrue(s[i := false]) + 1 == CountTrue(s)
  {
    if i > 0 {
      assert s[i := false][1..] == s[1..][i - 1 := false];
      CountTrueClear(s[1..], i - 1);
    } else {
      assert s[i := false][1..] == s[1..];
    }
  }

  /** The count is zero exactly when no flag is set. */
  lemma {:induction false} CountTrueZero(s: seq<bool>)
    ensures CountTrue(s) == 0 <==> forall i :: 0 <= i < |s| ==> !s[i]
  {
    if |s| > 0 {
      CountTrueZero(s[1..]);
      if CountTrue(s) == 0 {
        forall i | 0 <= i < |s| ensures !s[i] {
          if i > 0 { assert s[i] == s[1..][i - 1]; }
        }
      } else {
        if !s[0] {
          var j :| 0 <= j < |s[1..]| && s[1..][j];
          assert s[j + 1];
        }
      }
    }
  }

  /** The count is the length exactly when every flag is set. */
  lemma {:induction false} CountTrueFull(s: seq<bool>)
    requires forall i :: 0 <= i < |s| ==> s[i]
    ensures CountTrue(s) == |s|
  {
    if |s| > 0 {
      CountTrueFull(s[1..]);
    }
  }

  /** Clearing flags never raises the count. */
  lemma {:induction false} CountTrueMono(s: seq<bool>, t: seq<bool>)
    requires |s| == |t| && forall i :: 0 <= i < |s| && s[i] ==> t[i]
    ensures CountTrue(s) <= CountTrue(t)
  {
    if |s| > 0 {
      assert forall i :: 0 <= i < |s| - 1 && s[1..][i] ==> t[1..][i] by {
        forall i | 0 <= i < |s| - 1 && s[1..][i]
          ensures t[1..][i]
        {
          assert s[i + 1];
        }
      }
      CountTrueMono(s[1..], t[1..]);
    }
  }
}
