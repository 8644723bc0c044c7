/**
 * The table (`Table` in src/ecdb_core/src/table.rs): an ordered collection of
 * component containers, each behind its own reader/writer lock, plus one
 * entity allocator. Containers are opaque values of a type parameter `C`;
 * locks and guards are transparent cells around the container they protect.
 */
module Table {
  import opened Wrappers
  import opened Allocator

  /** A container behind its lock (`RwLock<Box<dyn Any>>`). */
  datatype RwLock<C> = RwLock(inner: C)

  /** Shared, read-only access to one container. */
  datatype ReadGuard<C> = ReadGuard(target: C)

  /** Exclusive read/write access to one container. */
  datatype WriteGuard<C> = WriteGuard(target: C)

  /** Wraps every container in its own lock, keeping their number and order. */
  function Wrap<C>(components: seq<C>): (locks: seq<RwLock<C>>)
    ensures |locks| == |components|
    ensures forall i :: 0 <= i < |locks| ==> locks[i].inner == components[i]
  {
    if components == [] then [] else [RwLock(components[0])] + Wrap(components[1..])
  }

  /** The containers behind a sequence of locks. */
  function Unwrap<C>(locks: seq<RwLock<C>>): (components: seq<C>)
  {
    if locks == [] then [] else [locks[0].inner] + Unwrap(locks[1..])
  }

  /** Wrapping loses nothing: unwrapping gives back the containers `new` was given. */
  lemma {:induction false} UnwrapWrap<C>(components: seq<C>)
    ensures Unwrap(Wrap(components)) == components
  {
    if components != [] {
      UnwrapWrap(components[1..]);
    }
  }

  datatype Table<C> = Table(components: seq<RwLock<C>>, entityAllocator: EntityAllocator)
  {
    /** `Table::borrow_component`: the container at `index`, or nothing when `index` is out of range. */
    function BorrowComponent(index: nat): (r: Option<ReadGuard<C>>)
      ensures r.None? <==> index >= |components|
      ensures r.Some? ==> r.value.target == components[index].inner
    {
      if index < |components| then Some(ReadGuard(components[index].inner)) else None
    }

    /** `Table::borrow_mut_component`: like `BorrowComponent`, with exclusive access. */
    function BorrowMutComponent(index: nat): (r: Option<WriteGuard<C>>)
      ensures r.None? <==> index >= |components|
      ensures r.Some? ==> r.value.target == components[index].inner
    {
      if index < |components| then Some(WriteGuard(components[index].inner)) else None
    }
  }

  /** `Table::new`: the containers in the given order, each in its own lock, and a fresh allocator. */
  method NewTable<C>(components: seq<C>) returns (t: Table<C>)
    ensures t.components == Wrap(components)
    ensures fresh(t.entityAllocator) && t.entityAllocator.State() == Init()
  {
    var allocator := new EntityAllocator();
    t := Table(Wrap(components), allocator);
  }

  /**
   * On a table built from `components`, both borrows reach the container the
   * caller put at that position, and nothing at or past the end.
   */
  lemma BorrowAfterNew<C>(components: seq<C>, allocator: EntityAllocator, index: nat)
    ensures Table(Wrap(components), allocator).BorrowComponent(index)
      == if index < |components| then Some(ReadGuard(components[index])) else None
    ensures Table(Wrap(components), allocator).BorrowMutComponent(index)
      == if index < |components| then Some(WriteGuard(components[index])) else None
  {
  }

  /** Read and write borrows of the same position see the same container. */
  lemma BorrowsAgree<C>(t: Table<C>, index: nat)
    ensures t.BorrowComponent(index).Some? <==> t.BorrowMutComponent(index).Some?
    ensures t.BorrowComponent(index).Some? ==>
      t.BorrowComponent(index).value.target == t.BorrowMutComponent(index).value.target
  {
  }
}
