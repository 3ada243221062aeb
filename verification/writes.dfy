/** The two statements a client writes through a handle: `= val` and
    `= boost::none`, addressed from the root. */
module Writes {
  import opened Wrappers
  import opened Matrix
  import opened Occupancy
  import opened Cells
  import opened CellLaws

  /** `m(d1)...(dk)[idx] = val`. */
  function Assign<T>(n: Node<T>, dims: seq<nat>, idx: nat, val: T): (r: Node<T>)
    requires Valid(n)
    ensures Valid(r)
    ensures !IsEmpty(r, dims, idx) && Read(r, dims, idx) == val
    ensures forall ds, i :: ds != dims || i != idx ==> Get(r, ds, i) == Get(n, ds, i)
    ensures forall p :: SizeAt(r, p) == SizeAt(n, p) + (if p <= dims && IsEmpty(n, dims, idx) then 1 else 0)
  {
    StoreSizes(n, dims, idx, Some(val));
    StoreCells(n, dims, idx, Some(val));
    Store(n, dims, idx, Some(val)).node
  }

  /** `m(d1)...(dk)[idx] = boost::none`. The slot stays in place. */
  function Clear<T>(n: Node<T>, dims: seq<nat>, idx: nat): (r: Node<T>)
    requires Valid(n)
    ensures Valid(r)
    ensures IsEmpty(r, dims, idx)
    ensures Lookup(r, dims).Some? && idx in Lookup(r, dims).value.slots
    ensures forall ds, i :: ds != dims || i != idx ==> Get(r, ds, i) == Get(n, ds, i)
    ensures forall p :: SizeAt(r, p) == SizeAt(n, p) - (if p <= dims && !IsEmpty(n, dims, idx) then 1 else 0)
  {
    StoreSizes(n, dims, idx, None);
    StoreCells(n, dims, idx, None);
    Store(n, dims, idx, None).node
  }

  /** Assigning an empty cell and clearing it again leaves exactly the tree
      that obtaining its handle would: the created slots and nodes stay. */
  lemma ClearAfterAssign<T>(n: Node<T>, dims: seq<nat>, idx: nat, val: T)
    requires Valid(n)
    requires IsEmpty(n, dims, idx)
    ensures Clear(Assign(n, dims, idx, val), dims, idx) == Touch(n, dims, idx)
  {
    StoreOverwrite(n, dims, idx, Some(val), None);
    ClearEmptyIsTouch(n, dims, idx);
  }

  /** Assigning the same value twice is assigning it once. */
  lemma AssignIdempotent<T>(n: Node<T>, dims: seq<nat>, idx: nat, val: T)
    requires Valid(n)
    ensures Assign(Assign(n, dims, idx, val), dims, idx, val) == Assign(n, dims, idx, val)
  {
    StoreOverwrite(n, dims, idx, Some(val), Some(val));
  }
}
