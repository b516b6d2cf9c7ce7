/**
 * The communication driver the display controller talks through: a
 * send-stop flag, a forced stop condition and a blocking, fallible write
 * to a bus address. The transport itself is not modelled: the bus records
 * what was asked of it and takes the outcome of every write from an oracle.
 */
module Bus {
  import opened Common

  /** Something observable on the bus: a write of `bytes` to `address`, made
      while the send-stop flag was `sendStop`, or an explicit stop condition. */
  datatype Event =
    | Write(address: nat, bytes: seq<bv8>, sendStop: bool)
    | Stop

  /** State of a bus binding: the send-stop flag, everything observed so far,
      and the outcomes the next writes will have. */
  datatype Bus = Bus(sendStop: bool, trace: seq<Event>, results: seq<Status>)

  /** Outcome of the i-th write from now; once the oracle is exhausted writes succeed. */
  function Outcome(results: seq<Status>, i: nat): (r: Status)
    ensures i >= |results| ==> r == Ok
  {
    if i < |results| then results[i] else Ok
  }

  /** The oracle after `n` writes. */
  function Consume(results: seq<Status>, n: nat): (r: seq<Status>)
    ensures |r| == if n <= |results| then |results| - n else 0
  {
    if n <= |results| then results[n..] else []
  }

  /** The i-th outcome after `n` writes is the (n + i)-th from now. */
  lemma OutcomeConsume(results: seq<Status>, n: nat, i: nat)
    ensures Outcome(Consume(results, n), i) == Outcome(results, n + i)
  {
  }

  lemma ConsumeConsume(results: seq<Status>, n: nat, m: nat)
    ensures Consume(Consume(results, n), m) == Consume(results, n + m)
  {
  }

  /** Every write from now on succeeds. */
  predicate AllOk(results: seq<Status>) {
    forall i :: 0 <= i < |results| ==> results[i] == Ok
  }

  /** The next `n` writes succeed. */
  predicate OkFor(results: seq<Status>, n: nat) {
    forall i :: 0 <= i < n ==> Outcome(results, i) == Ok
  }

  /** The next `n + 1` writes succeed exactly when the next one does and
      the `n` after it do. */
  lemma OkForStep(results: seq<Status>, n: nat)
    ensures OkFor(results, n + 1) <==> Outcome(results, 0) == Ok && OkFor(Consume(results, 1), n)
  {
    forall i | 0 <= i < n
      ensures Outcome(Consume(results, 1), i) == Outcome(results, i + 1)
    {
      OutcomeConsume(results, 1, i);
    }
    if Outcome(results, 0) == Ok && OkFor(Consume(results, 1), n) {
      forall i | 0 <= i < n + 1
        ensures Outcome(results, i) == Ok
      {
        if i > 0 {
          assert Outcome(Consume(results, 1), i - 1) == Ok;
        }
      }
    }
  }

  lemma AllOkFor(results: seq<Status>, n: nat)
    requires AllOk(results)
    ensures OkFor(results, n)
  {
    assert forall i :: 0 <= i < n ==> Outcome(results, i) == Ok by {
      forall i | 0 <= i < n
        ensures Outcome(results, i) == Ok
      {
        if i < |results| {
          assert results[i] == Ok;
        }
      }
    }
  }

  lemma OkForExtend(results: seq<Status>, n: nat)
    requires OkFor(results, n) && Outcome(results, n) == Ok
    ensures OkFor(results, n + 1)
  {
  }

  /** Index of the first failing write among the next `n`, or `n` when
      they all succeed. */
  function FirstFailure(results: seq<Status>, n: nat): (k: nat)
    ensures k <= n && OkFor(results, k)
    ensures k < n ==> Outcome(results, k) != Ok
  {
    if n == 0 then
      assert OkFor(results, 0);
      0
    else
      var j := FirstFailure(results, n - 1);
      if j < n - 1 then j
      else if Outcome(results, n - 1) != Ok then n - 1
      else
        assert OkFor(results, n) by {
          assert OkFor(results, n - 1);
        }
        n
  }

  /** The first failure is the one failing write preceded only by successes. */
  lemma FirstFailureUnique(results: seq<Status>, n: nat, j: nat)
    requires j <= n && OkFor(results, j)
    requires j < n ==> Outcome(results, j) != Ok
    ensures FirstFailure(results, n) == j
  {
    assert OkFor(results, FirstFailure(results, n));
  }

  lemma AllOkConsume(results: seq<Status>, n: nat)
    requires AllOk(results)
    ensures AllOk(Consume(results, n))
  {
  }

  /** `after` is a later state of the same binding: the trace has only grown
      and outcomes have only been used up. */
  predicate Extends(before: Bus, after: Bus) {
    before.trace <= after.trace && |after.results| <= |before.results|
  }

  lemma ExtendsTrans(a: Bus, b: Bus, c: Bus)
    requires Extends(a, b) && Extends(b, c)
    ensures Extends(a, c)
  {
  }

  /** `set_send_stop`. */
  function SetSendStop(bus: Bus, on: bool): (r: Bus)
    ensures r.sendStop == on && r.trace == bus.trace && r.results == bus.results
  {
    bus.(sendStop := on)
  }

  /** `send_stop`: a stop condition regardless of the flag. */
  function SendStop(bus: Bus): (r: Bus)
    ensures r.trace == bus.trace + [Stop]
    ensures r.sendStop == bus.sendStop && r.results == bus.results
  {
    bus.(trace := bus.trace + [Stop])
  }

  /** `write_wait`: records the write and consumes one outcome from the oracle. */
  function WriteWait(bus: Bus, address: nat, bytes: seq<bv8>): (r: (Status, Bus))
    ensures r.0 == Outcome(bus.results, 0)
    ensures r.1.trace == bus.trace + [Write(address, bytes, bus.sendStop)]
    ensures r.1.results == Consume(bus.results, 1)
    ensures r.1.sendStop == bus.sendStop
  {
    (Outcome(bus.results, 0), Bus(bus.sendStop, bus.trace + [Write(address, bytes, bus.sendStop)], Consume(bus.results, 1)))
  }
}
