# InfinityMatrix, modelled in Dafny

InfinityMatrix is a sparse "infinite matrix": an N-dimensional array of
unbounded extent in which every cell starts empty and memory exists only for
coordinates that have been touched. A node, `Matrix<ElementType>`, maps each
index to a slot. A slot pairs an optional element with an optional child
node, and the child opens one further dimension. A client writes
`m(d1)(d2)...(dk)[idx]`:

- each `operator()` descends one dimension, creating the slot and child when
  they are missing;
- `operator[]` hands out an `Element` handle on slot `idx` of the node
  reached.

Every node keeps an occupancy counter, `_dims_size`. It must always equal
the number of present elements in the node's subtree. A handle raises an
"added" or "deleted" event only when its cell really changes between empty
and present. The owning node applies the event to its counter and forwards
it to its parent, and so on up to the root.

The model is functional:

- A node is an immutable value, `Node(slots: map<nat, Slot>, size: nat)`.
- A handle is a path: the dimensions `dims` and the final index `idx`.
- Every operation rebuilds the spine from the root down to the addressed
  node.
- A write's event is applied once by every node on that spine, innermost
  first. This is the chain of `OnValueAdded` / `OnValueDeleted` calls that
  the bound callbacks produce.

The ghost function `Occupancy.Count` counts present elements by a full
rescan, which the program never performs. `Occupancy.Valid` states that every
node's incremental counter agrees with it. Every operation preserves
`Valid`, and from it follows that a decrement never meets a zero counter.

Modules:

- `Wrappers`: `Option`.
- `Element`: the cell handle's three assignments and its read.
- `Matrix`: one node, `_create_dim_if_required`, `operator()`, the counter
  update, and `size()`.
- `Occupancy`: `Count` and `Valid`, and how single-slot changes affect them.
- `Cells`: addressing from the root, meaning descending, obtaining a handle,
  and writing with event propagation.
- `CellLaws`: the properties of those operations.
- `Writes`: `= val` and `= boost::none` as seen by a client.
- `Scenario`: the program's `main` and a deeper walk-through, both generic in
  indices and element type.

## Model

| member | source | states |
|---|---|---|
| Element.Assign | InfinityMatrix/InfinityMatrix/InfinityMatrix.cpp:40-55 | the cell holds the value afterwards; the event is never "deleted", and its delta equals the change in presence, so "added" fires exactly when the cell was empty |
| Element.Clear | InfinityMatrix/InfinityMatrix/InfinityMatrix.cpp:56-63 | the cell is empty afterwards; the event is never "added", and its delta equals the change in presence, so "deleted" fires exactly when the cell held a value |
| Element.Store | InfinityMatrix/InfinityMatrix/InfinityMatrix.cpp:40-63 | either overload leaves exactly the written value (or nothing) in the cell, and the event's delta is the change in presence |
| Element.IsEmpty | InfinityMatrix/InfinityMatrix/InfinityMatrix.cpp:71-74 | definition: true iff the cell holds no element |
| Element.Read | InfinityMatrix/InfinityMatrix/InfinityMatrix.cpp:65-69 | reading is allowed only on a non-empty cell, and yields the value it holds |
| Matrix.New | InfinityMatrix/InfinityMatrix/InfinityMatrix.cpp:105-116 | definition: both constructors give a node with no slots and counter 0 |
| Matrix.Size | InfinityMatrix/InfinityMatrix/InfinityMatrix.cpp:138-141 | definition: the node's counter `_dims_size` |
| Matrix.CreateDimIfRequired | InfinityMatrix/InfinityMatrix/InfinityMatrix.cpp:143-161 | the key set grows by exactly `id`, existing slots are untouched, a newly inserted slot has neither element nor child, and the counter is unchanged |
| Matrix.Enter | InfinityMatrix/InfinityMatrix/InfinityMatrix.cpp:126-136 | slot `id` ends up owning a child; an existing child is reused and then the node is unchanged; otherwise a fresh, empty child is created; the element, all other slots and the counter stay |
| Matrix.OnSignal | InfinityMatrix/InfinityMatrix/InfinityMatrix.cpp:164-173 | the counter moves by +1 for added, -1 for deleted, and the slots stay |
| Matrix.EnterIdempotent | InfinityMatrix/InfinityMatrix/InfinityMatrix.cpp:128-135 | entering the same index twice reuses the slot and child made by the first call |
| Matrix.CreateDimIdempotent | InfinityMatrix/InfinityMatrix/InfinityMatrix.cpp:145-160 | a slot that exists is found and not replaced |
| Occupancy.NewValid | InfinityMatrix/InfinityMatrix/InfinityMatrix.cpp:105-116 | a fresh node holds nothing and its counter 0 is exact |
| Occupancy.CreateDimKeepsCount | InfinityMatrix/InfinityMatrix/InfinityMatrix.cpp:143-161 | inserting an empty slot adds no element and keeps every counter exact |
| Occupancy.EnterKeepsCount | InfinityMatrix/InfinityMatrix/InfinityMatrix.cpp:126-136 | `operator()` adds no element; the node and the child it returns both keep exact counters |
| Occupancy.SignalKeepsValid | InfinityMatrix/InfinityMatrix/InfinityMatrix.cpp:164-173 | when one slot's weight moves by an event's delta and the node applies that event, every counter stays exact, and a deleted event never meets a zero counter |
| Occupancy.ValidIsLocal | InfinityMatrix/InfinityMatrix/InfinityMatrix.cpp:99-100 | with exact counters, each node's counter equals its own present elements plus its children's counters |
| Cells.IsEmpty | InfinityMatrix/InfinityMatrix/InfinityMatrix.cpp:71-74 | definition: true iff no element is held at the cell the path addresses (a missing node or slot counts as empty) |
| Cells.Read | InfinityMatrix/InfinityMatrix/InfinityMatrix.cpp:65-73 | the read of a handle on a non-empty cell is the element stored there |
| Cells.EnterPath | InfinityMatrix/InfinityMatrix/InfinityMatrix.cpp:126-136 | chained `operator()` calls leave the node for the whole path in place |
| Cells.Touch | InfinityMatrix/InfinityMatrix/InfinityMatrix.cpp:118-125 | obtaining a handle leaves the path and the cell's slot in place |
| Cells.Store | InfinityMatrix/InfinityMatrix/InfinityMatrix.cpp:118-136 | a write through a handle keeps all counters exact; the root's counter moves by the event's delta, and that delta is the cell's change in presence |
| CellLaws.StoreSizes | InfinityMatrix/InfinityMatrix/InfinityMatrix.cpp:164-173 | the event moves `size()` at every node from the root to the owning node, and at no other node |
| CellLaws.StoreCells | InfinityMatrix/InfinityMatrix/InfinityMatrix.cpp:40-63 | the written cell reads back the written value, every other cell is unchanged, and the cell's slot stays in place |
| CellLaws.TouchKeepsSizes | InfinityMatrix/InfinityMatrix/InfinityMatrix.cpp:118-125 | obtaining a handle changes `size()` at no node |
| CellLaws.TouchKeepsCells | InfinityMatrix/InfinityMatrix/InfinityMatrix.cpp:143-161 | obtaining a handle changes no cell's element |
| CellLaws.TouchKeepsCount | InfinityMatrix/InfinityMatrix/InfinityMatrix.cpp:180-182 | obtaining a handle adds no element and keeps every counter exact |
| CellLaws.TouchOccupiedIsIdentity | InfinityMatrix/InfinityMatrix/InfinityMatrix.cpp:118-136 | reading an occupied cell through `operator()` and `operator[]` leaves the tree exactly as it was, so `Cells.Read` and `Cells.IsEmpty` may skip the touch |
| CellLaws.EnterPathKeepsSizes | InfinityMatrix/InfinityMatrix/InfinityMatrix.cpp:126-136 | descending changes `size()` at no node |
| CellLaws.EnterPathKeepsCells | InfinityMatrix/InfinityMatrix/InfinityMatrix.cpp:128-135 | descending changes no cell's element |
| CellLaws.EnterPathKeepsCount | InfinityMatrix/InfinityMatrix/InfinityMatrix.cpp:131-133 | descending adds no element and keeps every counter exact, including in the nodes it creates |
| CellLaws.TouchIdempotent | InfinityMatrix/InfinityMatrix/InfinityMatrix.cpp:145-160 | a second handle on the same cell reuses everything the first one created |
| CellLaws.EnterPathIdempotent | InfinityMatrix/InfinityMatrix/InfinityMatrix.cpp:129-130 | descending the same path twice reuses every slot and child from the first descent |
| CellLaws.StoreOverwrite | InfinityMatrix/InfinityMatrix/InfinityMatrix.cpp:42-45 | the last write to a cell wins; an overwritten write leaves no trace in elements, slots or counters |
| CellLaws.ClearEmptyIsTouch | InfinityMatrix/InfinityMatrix/InfinityMatrix.cpp:58-61 | clearing an empty cell raises no event and leaves exactly what obtaining its handle does |
| CellLaws.OccupiedPathPositive | InfinityMatrix/InfinityMatrix/InfinityMatrix.cpp:169-173 | while a cell holds a value, `size()` is at least 1 at the owning node and at every ancestor |
| CellLaws.NewIsEmpty | InfinityMatrix/InfinityMatrix/InfinityMatrix.cpp:105-108 | a fresh matrix has no slots, `size()` 0 everywhere, and only empty cells |
| Writes.Assign | InfinityMatrix/InfinityMatrix/InfinityMatrix.cpp:40-55 | afterwards the cell reads back the value and other cells are unchanged; `size()` rises by 1 at the root, every node on the path and the owning node exactly when the cell was empty, and stays put everywhere else |
| Writes.Clear | InfinityMatrix/InfinityMatrix/InfinityMatrix.cpp:56-63 | afterwards the cell is empty, its slot remains and other cells are unchanged; `size()` falls by 1 along the path exactly when the cell held a value, and stays put everywhere else |
| Writes.ClearAfterAssign | InfinityMatrix/InfinityMatrix/InfinityMatrix.cpp:183-187 | assigning an empty cell and clearing it again gives the tree that only obtaining its handle would give |
| Writes.AssignIdempotent | InfinityMatrix/InfinityMatrix/InfinityMatrix.cpp:50-53 | assigning the same value twice equals assigning it once |
| Scenario.FreshHandle | InfinityMatrix/InfinityMatrix/InfinityMatrix.cpp:180-182 | `matrix(a)[b]` on a fresh matrix creates the slot, keeps every cell empty, and keeps `size()` 0 |
| Scenario.AssignThenClear | InfinityMatrix/InfinityMatrix/InfinityMatrix.cpp:183-187 | on a matrix holding nothing, a value is read back with `size()` 1, and clearing it brings `size()` back to 0 |
| Scenario.MainScenario | InfinityMatrix/InfinityMatrix/InfinityMatrix.cpp:176-188 | every assertion of `main` holds, for any indices and any value |
| Scenario.NestedFill | InfinityMatrix/InfinityMatrix/InfinityMatrix.cpp:164-168 | three values written at depths 1, 2 and 3 of one spine read back; each node's `size()` counts exactly the values at or below it, and every other node reads 0 |
| Scenario.NestedDrain | InfinityMatrix/InfinityMatrix/InfinityMatrix.cpp:169-173 | clearing those three values brings `size()` back to 0 at every node |

## Left out

- `InfinityMatrix.cpp` has no traversal of occupied cells, so none is
  modelled.
- The `boost::signal` / `boost::bind` wiring is not modelled as callbacks. A
  write returns its event, and each ancestor on the spine applies and
  forwards it. This is the only route those callbacks take.
- The root's own signals (`Matrix()` connects none) are the event returned
  to the caller, who ignores it.
- The `virtual` on `OnValueAdded` / `OnValueDeleted`, reserved for thread
  safety, is left out because concurrency is out of scope.
- Handle lifetime and its dangling reference to the slot's optional are left
  out, because a handle is a path here. The move constructor of `Element` is
  left out for the same reason.
- The `throw` after a failed `emplace` is left out. It follows a failed
  `find`, so it cannot be reached, and the map update in `CreateDimIfRequired`
  is total.
- `unordered_map` hashing and iteration order, `unique_ptr` allocation, and
  the `IMatrix` virtual interface are not modelled. A child is always a
  `Matrix`, so a node's children are simply nodes.
- Matrix.OnSignal: does not model `size_t` wrap-around on a decrement from
  0. It requires a positive counter instead, and `Cells.Store` proves that
  requirement holds on every valid tree, so the wrap is unreachable.
- Cells.IsEmpty: on an empty cell it does not create the slots and nodes
  that `operator()` and `operator[]` would. `CellLaws.TouchKeepsSizes` and
  `CellLaws.TouchKeepsCells` show that those are invisible to `size()` and
  to every cell; on an occupied cell the touch changes nothing
  (`CellLaws.TouchOccupiedIsIdentity`).
- Indices are `nat`, not `size_t`, so index wrap-around is not
  modelled.
- The literals of `main` (0, 100, 314) and its `int` element type are
  parameters of the scenarios, which therefore cover every choice of
  indices and every element type.
