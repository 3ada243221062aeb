/** One node `Matrix<ElementType>` of the infinite matrix, as an immutable
    value. A node maps each index to a slot; a slot holds an optional element
    and an optional child node that opens one further dimension. Every child
    is owned by exactly one slot, so the structure is a tree. */
module Matrix {
  import opened Wrappers
  import Element

  datatype Slot<T> = Slot(element: Option<T>, child: Option<Node<T>>)

  /** `slots` is `_dims`; `size` is the occupancy counter `_dims_size`. */
  datatype Node<T> = Node(slots: map<nat, Slot<T>>, size: nat)

  /** The slot `_create_dim_if_required` inserts: no element, no child. */
  function EmptySlot<T>(): Slot<T>
  {
    Slot(None, None)
  }

  /** Both constructors: no slots, counter 0. The callbacks a child receives
      are modelled by the parent applying the child's signal (see OnSignal). */
  function New<T>(): Node<T>
  {
    Node(map[], 0)
  }

  /** `_create_dim_if_required`: the slot at `id`, inserted empty if missing.
      The `emplace` failure branch cannot be taken after a failed `find`, and
      a map update cannot fail, so it has no counterpart here. */
  function CreateDimIfRequired<T>(n: Node<T>, id: nat): (r: Node<T>)
    ensures r.size == n.size
    ensures r.slots.Keys == n.slots.Keys + {id}
    ensures forall k :: k in n.slots ==> r.slots[k] == n.slots[k]
    ensures id !in n.slots ==> r.slots[id] == EmptySlot()
  {
    if id in n.slots then n else n.(slots := n.slots[id := EmptySlot()])
  }

  /** `operator()(id)`: make sure slot `id` exists and owns a child node,
      creating a fresh one only when there is none. The child is read back
      with ChildAt. */
  function Enter<T>(n: Node<T>, id: nat): (r: Node<T>)
    ensures r.size == n.size
    ensures r.slots.Keys == n.slots.Keys + {id}
    ensures r.slots[id].child.Some?
    ensures forall k :: k in n.slots && k != id ==> r.slots[k] == n.slots[k]
    ensures id in n.slots && n.slots[id].child.Some? ==> r == n
    ensures id in n.slots ==> r.slots[id].element == n.slots[id].element
    ensures id !in n.slots ==> r.slots[id] == Slot(None, Some(New()))
    ensures id in n.slots && n.slots[id].child.None? ==> r.slots[id].child == Some(New())
  {
    var dims := CreateDimIfRequired(n, id);
    var dim := dims.slots[id];
    if dim.child.Some? then dims
    else dims.(slots := dims.slots[id := dim.(child := Some(New()))])
  }

  /** The child node owned by slot `id`. */
  function ChildAt<T>(n: Node<T>, id: nat): Node<T>
    requires id in n.slots && n.slots[id].child.Some?
  {
    n.slots[id].child.value
  }

  /** The child owned by slot `id`, if the slot exists and owns one. */
  function ChildOf<T>(n: Node<T>, id: nat): Option<Node<T>>
  {
    if id in n.slots then n.slots[id].child else None
  }

  /** The dimension `operator()(id)` returns a reference to. */
  function Dim<T>(n: Node<T>, id: nat): Node<T>
  {
    ChildAt(Enter(n, id), id)
  }

  /** Replace the child owned by slot `id`, keeping its element. */
  function WithChild<T>(n: Node<T>, id: nat, c: Node<T>): (r: Node<T>)
    requires id in n.slots
    ensures r.size == n.size
    ensures r.slots.Keys == n.slots.Keys
    ensures r.slots[id] == Slot(n.slots[id].element, Some(c))
    ensures forall k :: k in n.slots && k != id ==> r.slots[k] == n.slots[k]
  {
    n.(slots := n.slots[id := n.slots[id].(child := Some(c))])
  }

  /** Replace the element held in slot `id`, keeping its child. */
  function WithElement<T>(n: Node<T>, id: nat, e: Option<T>): (r: Node<T>)
    requires id in n.slots
    ensures r.size == n.size
    ensures r.slots.Keys == n.slots.Keys
    ensures r.slots[id] == Slot(e, n.slots[id].child)
    ensures forall k :: k in n.slots && k != id ==> r.slots[k] == n.slots[k]
  {
    n.(slots := n.slots[id := n.slots[id].(element := e)])
  }

  /** `OnValueAdded` / `OnValueDeleted`: the node's own counter moves by one
      and the same event is forwarded to the parent, which is the caller's
      job here. Decrementing needs a positive counter: `size_t` would wrap. */
  function OnSignal<T>(n: Node<T>, s: Element.Signal): (r: Node<T>)
    requires s == Element.Deleted ==> n.size >= 1
    ensures r.slots == n.slots
    ensures r.size == n.size + Element.Delta(s)
  {
    match s
    case Added => n.(size := n.size + 1)
    case Deleted => n.(size := n.size - 1)
    case Silent => n
  }

  /** `size()`. */
  function Size<T>(n: Node<T>): nat
  {
    n.size
  }

  /** Entering the same index twice reuses the slot and child the first
      entry made. */
  lemma EnterIdempotent<T>(n: Node<T>, id: nat)
    ensures Enter(Enter(n, id), id) == Enter(n, id)
  {
  }

  /** Creating a slot that already exists leaves the node as it is. */
  lemma CreateDimIdempotent<T>(n: Node<T>, id: nat)
    ensures CreateDimIfRequired(CreateDimIfRequired(n, id), id) == CreateDimIfRequired(n, id)
  {
  }
}
