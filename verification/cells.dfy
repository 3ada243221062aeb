/** Addressing cells from the root. A client writes `m(d1)(d2)...(dk)[idx]`:
    each `operator()` descends one dimension, creating what is missing, and
    `operator[]` yields the handle of slot `idx` in the node reached. Here a
    handle is the path itself: the dimensions `dims` and the final index
    `idx`. Operations rebuild the spine from the root down to that node, and
    a write's event is applied once by every node on the spine, innermost
    first, which is the chain of `OnValueAdded` / `OnValueDeleted` calls. */
module Cells {
  import opened Wrappers
  import opened Matrix
  import opened Occupancy
  import Element

  /** The node reached from `n` through `path`, without creating anything. */
  function Lookup<T>(n: Node<T>, path: seq<nat>): Option<Node<T>>
    decreases |path|
  {
    if path == [] then Some(n)
    else
      match ChildOf(n, path[0])
      case None => None
      case Some(c) => Lookup(c, path[1..])
  }

  /** `size()` of the node at `path`. A node that does not exist yet reads as
      0, the counter `operator()` would create it with. */
  function SizeAt<T>(n: Node<T>, path: seq<nat>): nat
  {
    match Lookup(n, path)
    case Some(m) => m.size
    case None => 0
  }

  /** The element of cell (`dims`, `idx`); a missing node or slot is empty. */
  function Get<T>(n: Node<T>, dims: seq<nat>, idx: nat): Option<T>
  {
    match Lookup(n, dims)
    case None => None
    case Some(m) => if idx in m.slots then m.slots[idx].element else None
  }

  /** `IsEmpty()` on the handle of cell (`dims`, `idx`). */
  predicate IsEmpty<T>(n: Node<T>, dims: seq<nat>, idx: nat)
  {
    Element.IsEmpty(Get(n, dims, idx))
  }

  /** Reading the handle of cell (`dims`, `idx`); the program asserts the cell
      is not empty. */
  function Read<T>(n: Node<T>, dims: seq<nat>, idx: nat): (r: T)
    requires !IsEmpty(n, dims, idx)
    ensures Get(n, dims, idx) == Some(r)
  {
    Element.Read(Get(n, dims, idx))
  }

  /** `m(d1)(d2)...(dk)`: descend through `dims`, creating every missing slot
      and child node on the way. The node reached is `Lookup(r, dims)`. */
  function EnterPath<T>(n: Node<T>, dims: seq<nat>): (r: Node<T>)
    ensures Lookup(r, dims).Some?
    decreases |dims|
  {
    if dims == [] then n
    else
      var d := dims[0];
      WithChild(Enter(n, d), d, EnterPath(Dim(n, d), dims[1..]))
  }

  /** `m(d1)...(dk)[idx]`: obtaining the handle of a cell, which creates the
      path and the (empty) slot `idx` at its end. */
  function Touch<T>(n: Node<T>, dims: seq<nat>, idx: nat): (r: Node<T>)
    ensures Lookup(r, dims).Some? && idx in Lookup(r, dims).value.slots
    decreases |dims|
  {
    if dims == [] then CreateDimIfRequired(n, idx)
    else
      var d := dims[0];
      WithChild(Enter(n, d), d, Touch(Dim(n, d), dims[1..], idx))
  }

  /** The tree after a write, with the event it raised to the caller of the
      root (which the root's default-constructed signal ignores). */
  datatype Propagated<T> = Propagated(node: Node<T>, signal: Element.Signal)

  /** `m(d1)...(dk)[idx] = v`, with `Some(val)` for a value and `None` for
      `boost::none`. The handle's write raises an event exactly when the cell
      changes between empty and present; the owning node applies it and every
      ancestor applies the same event once more on its way to the root. The
      counters of a valid tree stay exact, so no decrement meets a zero. */
  function Store<T>(n: Node<T>, dims: seq<nat>, idx: nat, v: Option<T>): (r: Propagated<T>)
    requires Valid(n)
    ensures Valid(r.node)
    ensures r.node.size == n.size + Element.Delta(r.signal)
    ensures Element.Delta(r.signal) == Element.Presence(v) - Element.Presence(Get(n, dims, idx))
    decreases |dims|
  {
    if dims == [] then
      var dim := CreateDimIfRequired(n, idx);
      CreateDimKeepsCount(n, idx);
      var w := Element.Store(dim.slots[idx].element, v);
      var s := Slot(w.cell, dim.slots[idx].child);
      SignalKeepsValid(dim, idx, s, w.signal);
      Propagated(OnSignal(WithElement(dim, idx, w.cell), w.signal), w.signal)
    else
      var d := dims[0];
      var e := Enter(n, d);
      EnterKeepsCount(n, d);
      EnterChildPath(n, d, dims[1..]);
      assert dims == [d] + dims[1..];
      var below := Store(Dim(n, d), dims[1..], idx, v);
      var s := Slot(e.slots[d].element, Some(below.node));
      SignalKeepsValid(e, d, s, below.signal);
      Propagated(OnSignal(WithChild(e, d, below.node), below.signal), below.signal)
  }

  /** What `Enter` creates looks, through `size()` and the cells, exactly like
      the nothing that was there before. */
  lemma EnterChildPath<T>(n: Node<T>, d: nat, q: seq<nat>)
    ensures SizeAt(n, [d] + q) == SizeAt(Dim(n, d), q)
    ensures forall i :: Get(n, [d] + q, i) == Get(Dim(n, d), q, i)
  {
    assert ([d] + q)[0] == d && ([d] + q)[1..] == q;
  }

  /** A write to a cell with no dimensions left, spelled out: the slot
      `idx` of the node, created if missing, holds `v` afterwards, and the
      event is the element's own. */
  lemma StoreLeafShape<T>(n: Node<T>, idx: nat, v: Option<T>)
    requires Valid(n)
    ensures Store(n, [], idx, v).node.slots == WithElement(CreateDimIfRequired(n, idx), idx, v).slots
    ensures Store(n, [], idx, v).signal == Element.Store(CreateDimIfRequired(n, idx).slots[idx].element, v).signal
  {
  }

  /** A write below dimension `d`, spelled out: slot `d` of `Enter(n, d)`
      now owns the child the write below produced, and the event is the one
      raised below. */
  lemma StoreInnerShape<T>(n: Node<T>, dims: seq<nat>, idx: nat, v: Option<T>)
    requires Valid(n)
    requires dims != []
    requires Valid(Dim(n, dims[0]))
    ensures Store(n, dims, idx, v).node.slots
            == WithChild(Enter(n, dims[0]), dims[0], Store(Dim(n, dims[0]), dims[1..], idx, v).node).slots
    ensures Store(n, dims, idx, v).signal == Store(Dim(n, dims[0]), dims[1..], idx, v).signal
  {
  }
}
