/**
 * The entity id allocator (`EntityAllocator` in src/ecdb_core/src/table.rs).
 *
 * The allocator keeps the next fresh id (`last_id`) and a last-in-first-out
 * list of recycled ids (`empties`). Its behaviour is given twice: as a pure
 * state machine over `AllocatorState` (used by the lemmas, which relate many
 * calls), and as the class `EntityAllocator` whose methods update their fields
 * in place and are proved to follow that state machine.
 */
module Allocator {
  import opened Entity

  /** The allocator's state: the next fresh id and the free list (its top is the last element). */
  datatype AllocatorState = AllocatorState(lastId: nat, empties: seq<EntityID>)

  /** What one `alloc` returns, with the state it leaves. */
  datatype Allocation = Allocation(id: EntityID, next: AllocatorState)

  /**
   * The state of `EntityAllocator::new`: it meets the allocator's invariant
   * with no id live.
   */
  function Init(): (s: AllocatorState)
    ensures Inv(s, {})
  {
    AllocatorState(0, [])
  }

  /**
   * `alloc`: pop the free list if it has an entry, otherwise issue the counter
   * and advance it. The id returned is a recycled one or the counter, the
   * counter never goes back and grows by at most one, and the free list only
   * loses entries from its end.
   */
  function AllocStep(s: AllocatorState): (a: Allocation)
    ensures a.id in s.empties || AsUsize(a.id) == s.lastId
    ensures s.lastId <= a.next.lastId <= s.lastId + 1
    ensures a.next.empties <= s.empties
  {
    if |s.empties| > 0 then
      Allocation(s.empties[|s.empties| - 1], AllocatorState(s.lastId, s.empties[..|s.empties| - 1]))
    else
      Allocation(New(s.lastId), AllocatorState(s.lastId + 1, s.empties))
  }

  /**
   * `dealloc`: push the id onto the free list; nothing is checked. The counter
   * is kept, and an `alloc` straight after it gives back `id` and restores
   * the state before the `dealloc`.
   */
  function DeallocStep(s: AllocatorState, id: EntityID): (r: AllocatorState)
    ensures r.lastId == s.lastId
    ensures AllocStep(r) == Allocation(id, s)
  {
    assert (s.empties + [id])[..|s.empties|] == s.empties;
    AllocatorState(s.lastId, s.empties + [id])
  }

  /** The sequential allocator: `last_id` and `empties` without the atomic and the mutex. */
  class EntityAllocator {
    var lastId: nat
    var empties: seq<EntityID>

    function State(): AllocatorState
      reads this
    {
      AllocatorState(lastId, empties)
    }

    /** `EntityAllocator::new`: the counter starts at 0 and the free list is empty. */
    constructor ()
      ensures lastId == 0 && empties == []
      ensures State() == Init()
    {
      lastId := 0;
      empties := [];
    }

    /** `EntityAllocator::alloc`. */
    method Alloc() returns (id: EntityID)
      modifies this
      ensures AllocStep(old(State())) == Allocation(id, State())
      ensures old(|empties|) > 0 ==>
        && id == old(empties[|empties| - 1])
        && empties == old(empties[..|empties| - 1])
        && lastId == old(lastId)
      ensures old(|empties|) == 0 ==>
        && id == New(old(lastId))
        && lastId == old(lastId) + 1
        && empties == old(empties)
    {
      if |empties| > 0 {
        id := empties[|empties| - 1];
        empties := empties[..|empties| - 1];
      } else {
        id := New(lastId);
        lastId := lastId + 1;
      }
    }

    /** `EntityAllocator::dealloc`: any id is accepted. */
    method Dealloc(id: EntityID)
      modifies this
      ensures State() == DeallocStep(old(State()), id)
      ensures empties == old(empties) + [id] && lastId == old(lastId)
    {
      empties := empties + [id];
    }
  }

  /** With a non-empty free list, `alloc` returns its last entry, drops only that entry and keeps the counter. */
  lemma AllocReusesLast(s: AllocatorState)
    requires |s.empties| > 0
    ensures AllocStep(s).id == s.empties[|s.empties| - 1]
    ensures AllocStep(s).next.empties + [AllocStep(s).id] == s.empties
    ensures AllocStep(s).next.lastId == s.lastId
  {
  }

  /** With an empty free list, `alloc` returns the counter and advances it by exactly one. */
  lemma AllocIssuesCounter(s: AllocatorState)
    requires s.empties == []
    ensures AsUsize(AllocStep(s).id) == s.lastId
    ensures AllocStep(s).next == AllocatorState(s.lastId + 1, [])
  {
  }

  // ---------------------------------------------------------------------------
  // Sequences of calls

  datatype Op = AllocOp | DeallocOp(id: EntityID)

  function Apply(s: AllocatorState, op: Op): AllocatorState
  {
    match op
    case AllocOp => AllocStep(s).next
    case DeallocOp(x) => DeallocStep(s, x)
  }

  /** The ids an operation returns: one for `alloc`, none for `dealloc`. */
  function Output(s: AllocatorState, op: Op): seq<EntityID>
  {
    match op
    case AllocOp => [AllocStep(s).id]
    case DeallocOp(_) => []
  }

  /** The state after running `ops` from `s`, first operation first. */
  function Run(s: AllocatorState, ops: seq<Op>): AllocatorState
    decreases |ops|
  {
    if ops == [] then s else Apply(Run(s, ops[..|ops| - 1]), ops[|ops| - 1])
  }

  /** The ids the `alloc` calls of `ops` return, in order. */
  function Issued(s: AllocatorState, ops: seq<Op>): seq<EntityID>
    decreases |ops|
  {
    if ops == [] then []
    else
      var prefix := ops[..|ops| - 1];
      Issued(s, prefix) + Output(Run(s, prefix), ops[|ops| - 1])
  }

  function AllocOps(n: nat): (ops: seq<Op>)
  {
    seq(n, _ => AllocOp)
  }

  function DeallocOps(xs: seq<EntityID>): (ops: seq<Op>)
  {
    seq(|xs|, i requires 0 <= i < |xs| => DeallocOp(xs[i]))
  }

  function Reversed(xs: seq<EntityID>): seq<EntityID>
  {
    if xs == [] then [] else Reversed(xs[1..]) + [xs[0]]
  }

  /** Running two sequences of operations one after the other is running their concatenation. */
  lemma {:induction false} RunAppend(s: AllocatorState, a: seq<Op>, b: seq<Op>)
    ensures Run(s, a + b) == Run(Run(s, a), b)
    ensures Issued(s, a + b) == Issued(s, a) + Issued(Run(s, a), b)
    decreases |b|
  {
    if b == [] {
      assert a + b == a;
    } else {
      var b' := b[..|b| - 1];
      assert (a + b)[..|a + b| - 1] == a + b';
      assert (a + b)[|a + b| - 1] == b[|b| - 1];
      RunAppend(s, a, b');
    }
  }

  /**
   * LIFO reuse: deallocating `xs` and then allocating as many times returns the
   * ids of `xs` in reverse order and leaves the allocator as it was.
   */
  lemma {:induction false} LifoReuse(s: AllocatorState, xs: seq<EntityID>)
    ensures Run(s, DeallocOps(xs) + AllocOps(|xs|)) == s
    ensures Issued(s, DeallocOps(xs) + AllocOps(|xs|)) == Reversed(xs)
    decreases |xs|
  {
    if xs == [] {
      assert DeallocOps(xs) + AllocOps(0) == [];
    } else {
      var x, rest := xs[0], xs[1..];
      var s1 := DeallocStep(s, x);
      var mid := DeallocOps(rest) + AllocOps(|rest|);
      var pre := [DeallocOp(x)] + mid;
      var ops := DeallocOps(xs) + AllocOps(|xs|);
      assert DeallocOps(xs) == [DeallocOp(x)] + DeallocOps(rest);
      assert AllocOps(|xs|) == AllocOps(|rest|) + [AllocOp];
      assert ops == pre + [AllocOp];
      assert ops[..|ops| - 1] == pre && ops[|ops| - 1] == AllocOp;
      // the inner deallocs and allocs cancel out
      LifoReuse(s1, rest);
      RunAppend(s, [DeallocOp(x)], mid);
      assert [DeallocOp(x)][..0] == [];
      assert Run(s, pre) == s1;
      assert Issued(s, pre) == Reversed(rest);
      // the final alloc pops x
      assert Run(s, ops) == AllocStep(s1).next;
      assert Issued(s, ops) == Reversed(rest) + [x];
    }
  }

  /**
   * Fresh ids come in order: from a state with an empty free list, `n` allocs
   * return `lastId`, `lastId + 1`, ..., `lastId + n - 1` and advance the counter by `n`.
   */
  lemma {:induction false} FreshIdsFrom(s: AllocatorState, n: nat)
    requires s.empties == []
    ensures Run(s, AllocOps(n)) == AllocatorState(s.lastId + n, [])
    ensures |Issued(s, AllocOps(n))| == n
    ensures forall i :: 0 <= i < n ==> Issued(s, AllocOps(n))[i] == New(s.lastId + i)
  {
    if n > 0 {
      assert AllocOps(n)[..n - 1] == AllocOps(n - 1);
      FreshIdsFrom(s, n - 1);
    }
  }

  /** Starting from `new`, `n` allocs with no deallocs return 0, 1, ..., n - 1. */
  lemma FreshIdsInOrder(n: nat)
    ensures Run(Init(), AllocOps(n)) == AllocatorState(n, [])
    ensures |Issued(Init(), AllocOps(n))| == n
    ensures forall i :: 0 <= i < n ==> AsUsize(Issued(Init(), AllocOps(n))[i]) == i
  {
    FreshIdsFrom(Init(), n);
  }

  // ---------------------------------------------------------------------------
  // Liveness discipline

  /** The ids issued by `ops` (run from `new`) and not deallocated since. */
  function LiveAfter(ops: seq<Op>): set<EntityID>
    decreases |ops|
  {
    if ops == [] then {}
    else
      var prefix := ops[..|ops| - 1];
      match ops[|ops| - 1]
      case AllocOp => LiveAfter(prefix) + {AllocStep(Run(Init(), prefix)).id}
      case DeallocOp(x) => LiveAfter(prefix) - {x}
  }

  /** Every `dealloc` in `ops` is given an id that is live at that point. */
  predicate Disciplined(ops: seq<Op>)
    decreases |ops|
  {
    ops == [] ||
    var prefix := ops[..|ops| - 1];
    && Disciplined(prefix)
    && (ops[|ops| - 1].DeallocOp? ==> ops[|ops| - 1].id in LiveAfter(prefix))
  }

  predicate NoDuplicates(xs: seq<EntityID>)
  {
    forall i, j :: 0 <= i < j < |xs| ==> xs[i] != xs[j]
  }

  /**
   * The allocator's invariant for a set of live ids: the free list has no
   * repeats and no live id, and the ids below the counter are exactly the live
   * ones together with the free ones.
   */
  ghost predicate Inv(s: AllocatorState, live: set<EntityID>)
  {
    && NoDuplicates(s.empties)
    && (forall i :: 0 <= i < |s.empties| ==> s.empties[i] !in live)
    && (forall x: EntityID :: (x in live || x in s.empties) <==> x.id < s.lastId)
  }

  lemma AllocKeepsInv(s: AllocatorState, live: set<EntityID>)
    requires Inv(s, live)
    ensures AllocStep(s).id !in live
    ensures Inv(AllocStep(s).next, live + {AllocStep(s).id})
  {
    if |s.empties| > 0 {
      var p, x := s.empties[..|s.empties| - 1], s.empties[|s.empties| - 1];
      assert s.empties == p + [x];
      forall y: EntityID
        ensures (y in live + {x} || y in p) <==> y.id < s.lastId
      {
        assert y in s.empties <==> y in p || y == x;
      }
    }
  }

  lemma DeallocKeepsInv(s: AllocatorState, live: set<EntityID>, x: EntityID)
    requires Inv(s, live) && x in live
    ensures Inv(DeallocStep(s, x), live - {x})
  {
    var e := s.empties + [x];
    forall y: EntityID
      ensures (y in live - {x} || y in e) <==> y.id < s.lastId
    {
      assert y in e <==> y in s.empties || y == x;
    }
  }

  /** Under the discipline, the invariant holds after every sequence of calls from `new`. */
  lemma {:induction false} DisciplinedKeepsInv(ops: seq<Op>)
    requires Disciplined(ops)
    ensures Inv(Run(Init(), ops), LiveAfter(ops))
    decreases |ops|
  {
    if ops != [] {
      var prefix := ops[..|ops| - 1];
      DisciplinedKeepsInv(prefix);
      match ops[|ops| - 1]
      case AllocOp => AllocKeepsInv(Run(Init(), prefix), LiveAfter(prefix));
      case DeallocOp(x) => DeallocKeepsInv(Run(Init(), prefix), LiveAfter(prefix), x);
    }
  }

  /**
   * If every `dealloc` so far was given a live id, every free-list id is below
   * the counter and the next `alloc` does not return a live id.
   */
  lemma AllocNeverLive(ops: seq<Op>)
    requires Disciplined(ops)
    ensures forall i :: 0 <= i < |Run(Init(), ops).empties| ==>
      AsUsize(Run(Init(), ops).empties[i]) < Run(Init(), ops).lastId
    ensures AllocStep(Run(Init(), ops)).id !in LiveAfter(ops)
  {
    DisciplinedKeepsInv(ops);
    AllocKeepsInv(Run(Init(), ops), LiveAfter(ops));
  }
}
