/**
 * Status codes and small wrappers shared by every component.
 *
 * The display core reports every outcome as a status code of the Atmel
 * Software Framework. Only the codes the core produces or propagates are
 * modelled; their numeric values are not.
 */
module Common {

  /** Outcome of an operation. `LogicalTrue` is the integer 1 that a C `||`
      yields when one of its operands is a non-zero status: functions that
      combine statuses with `||` return it instead of the failing code. */
  datatype Status =
    | Ok
    | ErrInvalidArg
    | ErrNoMemory
    | ErrNotFound
    | ErrNotInitialized
    | LogicalTrue
    | BusError(code: nat)
  {
    predicate IsOk() { this == Ok }
  }

  /** A value that may be absent (a NULL pointer, an unwritten out-parameter). */
  datatype Option<+T> = None | Some(value: T)

  /** C's `a || b` on two statuses, once both operands have been evaluated:
      0 when both are zero, otherwise 1. Short-circuiting is modelled at the
      call sites, which do not evaluate `b` when `a` is non-zero. */
  function LogicalOr(a: Status, b: Status): (r: Status)
    ensures r.IsOk() <==> a.IsOk() && b.IsOk()
    ensures !r.IsOk() ==> r == LogicalTrue
  {
    if a.IsOk() && b.IsOk() then Ok else LogicalTrue
  }
}
