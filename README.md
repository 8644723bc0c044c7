# ecdb storage core, modelled in Dafny

This project models the storage core of the `ecdb` entity-component database
(crate `ecdb_core`):

- **Entity identifiers** (`entity.rs`): `EntityID` is a bare wrapper around one
  integer, with no generation tag (`entity.dfy`, module `Entity`).
- **Entity allocator** (`EntityAllocator` in `table.rs`): a counter of the next
  fresh id and a last-in-first-out free list of recycled ids (`allocator.dfy`,
  module `Allocator`). `EntityAllocator` is a class whose `Alloc` and `Dealloc`
  methods update its two fields in place. Each method is proved to follow a pure
  state machine (`AllocStep`, `DeallocStep` over `AllocatorState`). The lemmas
  about sequences of calls are stated on that state machine: LIFO reuse, fresh
  ids in order, and the "never hands out a live id" theorem. That theorem holds
  when every `dealloc` is given an id that is currently live.
- **Table** (`Table` in `table.rs`): the containers in construction order, each
  behind its own lock, plus an allocator (`table.dfy`, module `Table`). Containers
  are opaque values of a type parameter. A lock and a guard are transparent
  cells around the container.
- **Sparse-set layout** (`Component<T>` and `DenseIndex` in `component.rs`):
  `toDense` maps entity ids to optional non-zero positions in `denseElements`
  (`component.dfy`, module `Component`). `Valid` states the documented invariant:
  positions are in range and no two entities share one. `Contents` gives the
  abstract entity-to-value map. The source has no operations on this structure,
  so the model has none either.

`wrappers.dfy` holds the `Option` type.

The source reserves slot 0 of the dense array: `DenseIndex` wraps a non-zero
integer, so every position is at least 1 and `denseElements[0]` is never
referenced.

## Model

| member | source | states |
|---|---|---|
| `Entity.New` | src/ecdb_core/src/entity.rs:7-9 | The identifier built from `id` gives back exactly `id` through `as_usize`. |
| `Entity.AsUsize` | src/ecdb_core/src/entity.rs:11-13 | The returned integer is all the identifier holds: the identifier is the one-field wrapper of it. |
| `Entity.NewOfAsUsize` | src/ecdb_core/src/entity.rs:4-13 | `new(as_usize(e)) == e` for every identifier `e`. |
| `Entity.AsUsizeOfNew` | src/ecdb_core/src/entity.rs:7-13 | `as_usize(new(n)) == n` for every `n`. |
| `Entity.NewInjective` | src/ecdb_core/src/entity.rs:4-9 | `new(m) == new(n)` exactly when `m == n`. |
| `Entity.NoGeneration` | src/ecdb_core/src/entity.rs:2-4 | Two identifiers are equal exactly when their integers are equal. There is no generation field, so a recycled id cannot be told apart from its earlier use. |
| `Allocator.Init` | src/ecdb_core/src/table.rs:52-57 | The state of a new allocator meets the allocator invariant with no live ids. |
| `Allocator.AllocStep` | src/ecdb_core/src/table.rs:59-66 | The id returned is either on the free list or equal to the counter. The counter never decreases and grows by at most one. The new free list is a prefix of the old one. |
| `Allocator.DeallocStep` | src/ecdb_core/src/table.rs:68-70 | The counter is unchanged. An `alloc` straight after the `dealloc(x)` returns `x` and restores the whole previous state. |
| `Allocator.EntityAllocator.constructor` | src/ecdb_core/src/table.rs:52-57 | A new allocator has counter 0 and an empty free list. |
| `Allocator.EntityAllocator.Alloc` | src/ecdb_core/src/table.rs:59-66 | The new state and the returned id are those of `AllocStep`. If the free list was non-empty, the method returns its last id, removes only that id and leaves the counter unchanged. Otherwise it returns the old counter and increases the counter by one. |
| `Allocator.EntityAllocator.Dealloc` | src/ecdb_core/src/table.rs:68-70 | Appends any id to the free list, unchecked, and leaves the counter unchanged. |
| `Allocator.AllocReusesLast` | src/ecdb_core/src/table.rs:60-63 | With a non-empty free list, `alloc` returns the last entry. The remaining list plus that entry is the old list, and the counter is unchanged. |
| `Allocator.AllocIssuesCounter` | src/ecdb_core/src/table.rs:64 | With an empty free list, `alloc` returns an id equal to the counter and increases the counter by exactly one. |
| `Allocator.LifoReuse` | src/ecdb_core/src/table.rs:59-70 | Deallocating `xs` and then allocating `|xs|` times returns `xs` reversed and leaves the state unchanged. |
| `Allocator.FreshIdsFrom` | src/ecdb_core/src/table.rs:64 | From any state with an empty free list, `n` allocs return `lastId`, `lastId + 1`, …, in order. The counter ends `n` higher. |
| `Allocator.FreshIdsInOrder` | src/ecdb_core/src/table.rs:52-65 | Starting from `new`, `n` allocs return 0, 1, …, n-1 in order and leave counter `n` with an empty free list. |
| `Allocator.AllocKeepsInv` | src/ecdb_core/src/table.rs:59-66 | Given the invariant, `alloc` returns an id that is not live, and the invariant holds after it with that id added to the live set. |
| `Allocator.DeallocKeepsInv` | src/ecdb_core/src/table.rs:68-70 | Given the invariant, `dealloc` of a live id keeps the invariant with that id removed from the live set. |
| `Allocator.DisciplinedKeepsInv` | src/ecdb_core/src/table.rs:46-71 | Suppose every `dealloc` so far was given a live id. Then the free list has no duplicates and no live id. The live ids and the free ids together are exactly the ids below the counter. |
| `Allocator.AllocNeverLive` | src/ecdb_core/src/table.rs:59-70 | Under the same condition, every free-list id is below the counter, and the next `alloc` does not return a currently live id. |
| `Table.Wrap` | src/ecdb_core/src/table.rs:17-22 | Wrapping the containers in locks keeps their number and their order. |
| `Table.UnwrapWrap` | src/ecdb_core/src/table.rs:17-22 | Unwrapping the locks gives back exactly the containers passed to `new`. |
| `Table.Table.BorrowComponent` | src/ecdb_core/src/table.rs:27-34 | Returns `None` exactly when the index is at least the number of containers. Otherwise the guard gives access to the container at that index. |
| `Table.Table.BorrowMutComponent` | src/ecdb_core/src/table.rs:36-43 | The same as `BorrowComponent`, for the exclusive guard. |
| `Table.NewTable` | src/ecdb_core/src/table.rs:17-25 | The table holds the given containers, each in its own lock and in order, plus a freshly allocated allocator in its initial state. |
| `Table.BorrowAfterNew` | src/ecdb_core/src/table.rs:17-43 | On a table built from `cs`, both borrows at index `i` reach `cs[i]` when `i < |cs|`, and return `None` otherwise. |
| `Table.BorrowsAgree` | src/ecdb_core/src/table.rs:27-43 | The read and the write borrow at the same index either both fail or reach the same container. |
| `Component.Component.Valid` | src/ecdb_core/src/component.rs:3-23 | The documented invariant: every recorded position is inside the dense array, and no two entities share a position. A valid layout never references slot 0, and every slot it references exists. |
| `Component.Component.Contents` | src/ecdb_core/src/component.rs:3-19 | The abstract entity-to-value map of the diagram. An entity has a value exactly when its `toDense` entry exists and is a position. An entity marked `None`, or never registered, has none. |
| `Component.ContentsLookup` | src/ecdb_core/src/component.rs:5-19 | An entity with a value finds it at `denseElements[k]`, where `Some(k)` is its `toDense` entry and `1 <= k < |denseElements|`. |
| `Component.ContentsDropLast` | src/ecdb_core/src/component.rs:5-19 | Induction step of `OneSlotPerEntity` over prefixes of a layout (no source operation shrinks `to_dense`). The prefix without the last entry is valid, and its map differs by at most the last entity's value. |
| `Component.SlotsDropLast` | src/ecdb_core/src/component.rs:5-19 | Induction step of `OneSlotPerEntity` over prefixes of a layout. The last entity's slot is used by no earlier entity, and the prefix's slots differ by at most that slot. |
| `Component.OneSlotPerEntity` | src/ecdb_core/src/component.rs:5-19 | Distinct entities use distinct slots: the number of entities with a value equals the number of referenced slots. |
| `Component.ValueCountBound` | src/ecdb_core/src/component.rs:14-23 | Slot 0 is reserved and slots are never shared, so a dense array of length `n > 0` holds at most `n - 1` entity values. An empty dense array holds none. |
| `Component.DocumentedExample` | src/ecdb_core/src/component.rs:5-12 | The documented picture (entities 0, 1, 3 in slots 1, 2, 3; entity 2 without a value) is valid. Its abstract map is `{0 ↦ a, 1 ↦ b, 3 ↦ d}`. |

## Left out

- Concurrency: the `RwLock` around each container, the `Mutex` around the free list, their guards' lock and release, and lock poisoning (the `.unwrap()` panics). The table and the allocator are modelled as sequential values.
- Allocator.EntityAllocator.Alloc: the counter is an unbounded `nat`. The `AtomicUsize::fetch_add` wrap-around after 2^64 fresh ids is not modelled. The "no live id is reissued" theorem therefore relies on the counter never wrapping.
- The memory ordering of the atomic counter (`Ordering::Relaxed`): it only matters under concurrency.
- Guards as handles: `ReadGuard` and `WriteGuard` hold a copy of the container. Writes through a `RwLockWriteGuard` change the locked container in place; the model has no writes through a guard, so that in-place update and the aliasing between guard and table are not captured.
- `Box<dyn Any>` type erasure and the caller's downcast: containers are values of one type parameter `C`.
- Sparse-set operations (registering an entity with or without a value, removal, lookup by id): the source defines none, only the layout and its invariant. So the model has none, and nothing about registration order or removal is stated.
- `src/ecdb_core/src/database.rs`: a single shared-pointer field with no behaviour. The `ComponentPool` trait it refers to is not part of this model.
