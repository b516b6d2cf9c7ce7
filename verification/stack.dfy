/**
 * The self-growing stack of `uint16_t` entries the flood fill keeps its
 * pending seeds on.
 *
 * Memory is not modelled as memory: every allocation takes its outcome from
 * a boolean the caller supplies, a NULL argument is `Null`, and a stack
 * whose management structure was released is `Released`. Fresh memory
 * holds zeroes here; in the driver its contents are indeterminate and are
 * never read before being written.
 */
module Stacks {
  import opened Common

  /** `Entry` is `uint16_t`. */
  newtype Entry = x: int | 0 <= x < 0x1_0000

  /** The management structure: `capacity` entries allocated in `slots`,
      the lowest `count` of them in use. */
  datatype Stack = Stack(capacity: nat, count: nat, slots: seq<Entry>)

  /** What a stack argument designates: a NULL pointer, a live stack, a
      structure that has been freed, or a stack some write went past or
      through after it was freed, whose behaviour C leaves undefined. */
  datatype Handle = Null | Live(stack: Stack) | Released | Undefined

  /** A handle the operations may be given: NULL or a live stack. */
  predicate Usable(h: Handle) {
    h.Null? || h.Live?
  }

  /** The allocated memory matches the capacity and the entries in use fit. */
  predicate Valid(s: Stack) {
    |s.slots| == s.capacity && s.count <= s.capacity
  }

  /** The entries on the stack, bottom first. */
  function Contents(s: Stack): (r: seq<Entry>)
    requires Valid(s)
    ensures |r| == s.count
  {
    s.slots[..s.count]
  }

  /** A live handle on a valid stack. */
  predicate LiveValid(h: Handle) {
    h.Live? && Valid(h.stack)
  }

  /** Memory of `n` entries that keeps the first `min(n, |slots|)` entries,
      as `realloc` does. */
  function Resize(slots: seq<Entry>, n: nat): (r: seq<Entry>)
    ensures |r| == n
    ensures forall i :: 0 <= i < n && i < |slots| ==> r[i] == slots[i]
  {
    if n <= |slots| then slots[..n] else slots + seq(n - |slots|, _ => 0)
  }

  /** `stack_allocate`. `given` says whether the handle pointer is non-NULL,
      `structOk` and `entriesOk` are the outcomes of the two allocations.
      An initial capacity of 0 is raised to 1. When the entry memory cannot
      be had the structure stays allocated with capacity 0. */
  function Allocate(given: bool, initial: nat, structOk: bool, entriesOk: bool): (r: (Status, Handle))
    requires initial < 0x100
    ensures !given ==> r == (ErrInvalidArg, Null)
    ensures given && !structOk ==> r == (ErrNoMemory, Null)
    ensures given && structOk && !entriesOk ==> r == (ErrNoMemory, Live(Stack(0, 0, [])))
    ensures r.0 == Ok <==> given && structOk && entriesOk
    ensures r.0 == Ok ==>
      && LiveValid(r.1) && Contents(r.1.stack) == []
      && r.1.stack.capacity == (if initial < 1 then 1 else initial)
  {
    if !given then (ErrInvalidArg, Null)
    else if !structOk then (ErrNoMemory, Null)
    else
      var capacity := if initial < 1 then 1 else initial;
      if !entriesOk then (ErrNoMemory, Live(Stack(0, 0, [])))
      else (Ok, Live(Stack(capacity, 0, seq(capacity, _ => 0))))
  }

  /** `stack_deallocate`: capacity and count go to zero and both blocks of
      memory are released, so the stack is gone. */
  function Deallocate(h: Handle): (r: (Status, Handle))
    requires Usable(h)
    ensures h.Null? <==> r.0 == ErrInvalidArg
    ensures r.0 == Ok ==> r.1 == Released
    ensures r.0 != Ok ==> r.1 == h
  {
    if h.Null? then (ErrInvalidArg, h) else (Ok, Released)
  }

  /** `stack_pop`. `given` says whether the entry pointer is non-NULL. An
      empty stack reports NOT_FOUND; otherwise the top entry comes off. */
  function Pop(h: Handle, given: bool): (r: (Status, Entry, Handle))
    requires Usable(h) && (h.Live? ==> Valid(h.stack))
    ensures h.Null? || !given ==> r == (ErrInvalidArg, 0, h)
    ensures h.Live? && given && h.stack.count == 0 ==> r == (ErrNotFound, 0, h)
    ensures r.0 == Ok <==> h.Live? && given && h.stack.count > 0
    ensures r.0 == Ok ==>
      && LiveValid(r.2) && r.2.stack.capacity == h.stack.capacity
      && Contents(h.stack) == Contents(r.2.stack) + [r.1]
  {
    if h.Null? || !given then (ErrInvalidArg, 0, h)
    else
      var s := h.stack;
      if s.count < 1 then (ErrNotFound, 0, h)
      else
        var t := s.(count := s.count - 1);
        assert Contents(s) == Contents(t) + [s.slots[s.count - 1]];
        (Ok, s.slots[s.count - 1], Live(t))
  }

  /** `stack_realloc` to `newCapacity`, with `ok` the outcome of the
      reallocation. A capacity of 0 deallocates the stack (and reports
      OK); a failed reallocation reports NO_MEMORY and changes nothing;
      otherwise the memory is resized keeping the entries that fit. The
      count is not touched. */
  function Realloc(h: Handle, newCapacity: nat, ok: bool): (r: (Status, Handle))
    requires newCapacity < 0x100 && Usable(h)
    requires h.Live? ==> |h.stack.slots| == h.stack.capacity
    ensures h.Null? ==> r == (ErrInvalidArg, Null)
    ensures h.Live? && newCapacity == 0 ==> r == (Ok, Released)
    ensures h.Live? && newCapacity > 0 && !ok ==> r == (ErrNoMemory, h)
    ensures h.Live? && newCapacity > 0 && ok ==>
      && r.0 == Ok && r.1.Live?
      && r.1.stack == h.stack.(capacity := newCapacity, slots := r.1.stack.slots)
      && |r.1.stack.slots| == newCapacity
      && (forall i :: 0 <= i < |h.stack.slots| && i < newCapacity ==> r.1.stack.slots[i] == h.stack.slots[i])
  {
    if h.Null? then (ErrInvalidArg, Null)
    else if newCapacity < 1 then Deallocate(h)
    else if !ok then (ErrNoMemory, h)
    else
      var s := h.stack;
      (Ok, Live(s.(slots := Resize(s.slots, newCapacity), capacity := newCapacity)))
  }

  /** `stack_push` as written: the count goes up first; if it then exceeds
      the capacity the stack is reallocated to twice the capacity, passed
      through the `uint8_t` parameter of `stack_realloc`. A failed
      reallocation returns with the count already raised. A doubled
      capacity of 256 arrives as 0 and deallocates the stack, after which
      the entry is written through the freed structure; a capacity above
      128 shrinks, and the entry is written past the end. Both are
      `Undefined`. */
  function PushAsWritten(h: Handle, e: Entry, grow: bool): (r: (Status, Handle))
    requires Usable(h) && (h.Live? ==> Valid(h.stack) && h.stack.capacity < 0x100)
    ensures h.Null? <==> r.0 == ErrInvalidArg
    ensures r.0 == Ok && r.1.Live? ==> h.Live? && LiveValid(r.1) && Contents(r.1.stack) == Contents(h.stack) + [e]
  {
    if h.Null? then (ErrInvalidArg, Null)
    else
      var s := h.stack.(count := h.stack.count + 1);
      if s.count > s.capacity then
        var (status, g) := Realloc(Live(s), (2 * s.capacity) % 0x100, grow);
        if status != Ok then (status, g)
        else if !g.Live? || g.stack.count > g.stack.capacity then (Ok, Undefined)
        else
          assert g.stack.slots[..s.count - 1] == Contents(h.stack);
          (Ok, Live(Write(g.stack, e)))
      else (Ok, Live(Write(s, e)))
  }

  /** The entry stored on top after the count was raised. */
  function Write(s: Stack, e: Entry): (r: Stack)
    requires 0 < s.count <= |s.slots| == s.capacity
    ensures Valid(r) && r.count == s.count && r.capacity == s.capacity
    ensures Contents(r) == s.slots[..s.count - 1] + [e]
  {
    var t := s.(slots := s.slots[s.count - 1 := e]);
    assert Contents(t) == s.slots[..s.count - 1] + [e];
    t
  }

  /** The capacity a full stack grows to: twice the old one, and at least
      one entry. */
  function Grown(capacity: nat): (r: nat)
    ensures r > capacity && r >= 2 * capacity
  {
    if capacity == 0 then 1 else 2 * capacity
  }

  /** `stack_push`, corrected: room is made before the count goes up, the
      doubled capacity is not truncated, an empty allocation grows to one
      entry, and a failed reallocation leaves the stack as it was. */
  function Push(h: Handle, e: Entry, grow: bool): (r: (Status, Handle))
    requires Usable(h) && (h.Live? ==> Valid(h.stack))
    ensures h.Null? ==> r == (ErrInvalidArg, Null)
    ensures r.0 == Ok <==> h.Live? && (h.stack.count < h.stack.capacity || grow)
    ensures r.0 != Ok ==> r.1 == h
    ensures r.0 == Ok ==> LiveValid(r.1) && Contents(r.1.stack) == Contents(h.stack) + [e]
    ensures r.0 == Ok ==>
      r.1.stack.capacity == (if h.stack.count < h.stack.capacity then h.stack.capacity else Grown(h.stack.capacity))
  {
    if h.Null? then (ErrInvalidArg, Null)
    else
      var s := h.stack;
      if s.count < s.capacity then
        (Ok, Live(Write(s.(count := s.count + 1), e)))
      else if !grow then (ErrNoMemory, h)
      else
        var c := Grown(s.capacity);
        var t := s.(capacity := c, slots := Resize(s.slots, c), count := s.count + 1);
        assert t.slots[..t.count - 1] == Contents(s);
        (Ok, Live(Write(t, e)))
  }

  /** Last in, first out: popping right after a push yields the pushed
      entry and the stack's earlier contents. */
  lemma PushThenPop(h: Handle, e: Entry, grow: bool)
    requires LiveValid(h)
    requires Push(h, e, grow).0 == Ok
    ensures var p := Pop(Push(h, e, grow).1, true);
      p.0 == Ok && p.1 == e && Contents(p.2.stack) == Contents(h.stack)
  {
    var q := Push(h, e, grow).1;
    var p := Pop(q, true);
    assert Contents(q.stack) == Contents(p.2.stack) + [p.1];
    assert Contents(q.stack)[..|Contents(q.stack)| - 1] == Contents(h.stack);
  }

  /** Entries pushed one after another, with room to grow: every push
      succeeds and the entries lie on top of the old contents in the order
      they were pushed. */
  function PushAll(h: Handle, es: seq<Entry>): (r: (Status, Handle))
    requires LiveValid(h)
    ensures r.0 == Ok ==> LiveValid(r.1) && Contents(r.1.stack) == Contents(h.stack) + es
    ensures r.0 == Ok
    decreases |es|
  {
    if es == [] then (Ok, h)
    else
      var (_, g) := Push(h, es[0], true);
      var r := PushAll(g, es[1..]);
      assert Contents(h.stack) + [es[0]] + es[1..] == Contents(h.stack) + es;
      r
  }

  /** With room left, the as-written push is the corrected one. */
  lemma AsWrittenPushWithRoom(h: Handle, e: Entry, grow: bool)
    requires LiveValid(h) && h.stack.capacity < 0x100
    requires h.stack.count < h.stack.capacity
    ensures PushAsWritten(h, e, grow) == Push(h, e, grow)
  {
  }

  /** A full stack of capacity 1 to 127 whose growth succeeds: the
      as-written push is the corrected one too. */
  lemma AsWrittenPushGrowing(h: Handle, e: Entry)
    requires LiveValid(h) && h.stack.count == h.stack.capacity
    requires 1 <= h.stack.capacity < 0x80
    ensures PushAsWritten(h, e, true) == Push(h, e, true)
  {
    var s := h.stack;
    var c := 2 * s.capacity;
    assert (2 * (s.count + 1 - 1)) % 0x100 == c;
  }

  /** As written, a push onto a full stack whose growth fails keeps the
      raised count: more entries in use than allocated. The corrected push
      leaves the stack alone. */
  lemma AsWrittenFailedGrowthOvercounts(h: Handle, e: Entry)
    requires LiveValid(h) && h.stack.count == h.stack.capacity
    requires 1 <= h.stack.capacity < 0x80
    ensures var r := PushAsWritten(h, e, false);
      r.0 == ErrNoMemory && r.1.Live? && r.1.stack.count == r.1.stack.capacity + 1 && !Valid(r.1.stack)
    ensures Push(h, e, false) == (ErrNoMemory, h)
  {
  }

  /** As written, a full stack of capacity 128 doubles to 256, which the
      `uint8_t` parameter turns into 0: the stack is deallocated and the
      entry written through the freed structure. So is a stack whose first
      allocation left it with capacity 0. Above 128 the doubled capacity
      wraps below the count and the entry lands past the end. The
      corrected push grows the stack. */
  lemma AsWrittenGrowthWraps(h: Handle, e: Entry)
    requires LiveValid(h) && h.stack.count == h.stack.capacity
    requires 0x80 <= h.stack.capacity < 0x100 || h.stack.capacity == 0
    ensures PushAsWritten(h, e, true) == (Ok, Undefined)
    ensures var r := Push(h, e, true);
      r.0 == Ok && LiveValid(r.1) && r.1.stack.capacity == Grown(h.stack.capacity)
      && Contents(r.1.stack) == Contents(h.stack) + [e]
  {
  }
}
