/** The program's own demonstration, and a deeper one in the same spirit,
    replayed on the model for any element type and any indices. Each
    function returns the successive matrices so that its postcondition can
    state what is observed after every step. */
module Scenario {
  import opened Wrappers
  import opened Matrix
  import opened Occupancy
  import opened Cells
  import opened CellLaws
  import opened Writes

  /** `matrix(a)[b]` on a fresh matrix, the handle only looked at: its slot
      and the node above it now exist, and still nothing is held. */
  function FreshHandle<T>(a: nat, b: nat): (m: Node<T>)
    ensures Valid(m) && Size(m) == 0
    ensures Lookup(m, [a]).Some? && b in Lookup(m, [a]).value.slots
    ensures forall ds, i :: IsEmpty(m, ds, i)
  {
    NewIsEmpty<T>();
    TouchKeepsSizes(New<T>(), [a], b);
    TouchKeepsCells(New<T>(), [a], b);
    TouchKeepsCount(New<T>(), [a], b);
    Touch(New<T>(), [a], b)
  }

  /** The second half of `main` on any valid matrix with an empty cell
      (`dims`, `i`) and nothing held: the value is read back and counted,
      and clearing it empties the matrix again. */
  function AssignThenClear<T>(m: Node<T>, dims: seq<nat>, i: nat, val: T): (states: seq<Node<T>>)
    requires Valid(m) && Size(m) == 0 && IsEmpty(m, dims, i)
    ensures |states| == 2
    ensures !IsEmpty(states[0], dims, i) && Read(states[0], dims, i) == val
    ensures Size(states[0]) == 1
    ensures IsEmpty(states[1], dims, i) && Size(states[1]) == 0
  {
    var m1 := Assign(m, dims, i, val);
    assert SizeAt(m1, []) == SizeAt(m, []) + 1;
    var m2 := Clear(m1, dims, i);
    assert SizeAt(m2, []) == SizeAt(m1, []) - 1;
    [m1, m2]
  }

  /** `main`, with `matrix(0)[0]` as `(a)[b]` and `matrix(100)[100] = 314`
      as `(d)[i] = val`: a fresh matrix; a handle that stays empty; a value
      read back; then cleared again. */
  function MainScenario<T>(a: nat, b: nat, d: nat, i: nat, val: T): (states: seq<Node<T>>)
    ensures |states| == 4
    ensures Size(states[0]) == 0
    ensures IsEmpty(states[1], [a], b) && Size(states[1]) == 0
    ensures !IsEmpty(states[2], [d], i) && Read(states[2], [d], i) == val
    ensures Size(states[2]) == 1
    ensures IsEmpty(states[3], [d], i) && Size(states[3]) == 0
  {
    var m := FreshHandle<T>(a, b);
    [New<T>(), m] + AssignThenClear(m, [d], i, val)
  }

  /** Writes `y` at (`[d, d]`, `i`) and `z` at (`[d, d, d]`, `i`) into a
      valid matrix that holds only `x` at (`[d]`, `i`). */
  function FillBelow<T>(m: Node<T>, d: nat, i: nat, x: T, y: T, z: T): (r: Node<T>)
    requires Valid(m)
    requires forall p :: SizeAt(m, p) == (if p <= [d] then 1 else 0)
    requires Get(m, [d], i) == Some(x) && IsEmpty(m, [d, d], i) && IsEmpty(m, [d, d, d], i)
    ensures Valid(r)
    ensures Get(r, [d], i) == Some(x)
    ensures Get(r, [d, d], i) == Some(y)
    ensures Get(r, [d, d, d], i) == Some(z)
    ensures forall p :: SizeAt(r, p) == (if p <= [d] then 1 else 0) + (if p <= [d, d] then 1 else 0) + (if p <= [d, d, d] then 1 else 0)
  {
    var m2 := Assign(m, [d, d], i, y);
    assert IsEmpty(m2, [d, d, d], i);
    Assign(m2, [d, d, d], i, z)
  }

  /** Three cells on one spine, `(d)[i] = x`, `(d)(d)[i] = y` and
      `(d)(d)(d)[i] = z`, written into a fresh matrix: `main`'s
      `matrix(100)[100] = 314` extended two levels deeper. Every node on the spine counts the cells
      below it, and nothing else is held anywhere. */
  function NestedFill<T>(d: nat, i: nat, x: T, y: T, z: T): (m: Node<T>)
    ensures Valid(m)
    ensures Get(m, [d], i) == Some(x)
    ensures Get(m, [d, d], i) == Some(y)
    ensures Get(m, [d, d, d], i) == Some(z)
    ensures forall p :: SizeAt(m, p) == (if p <= [d] then 1 else 0) + (if p <= [d, d] then 1 else 0) + (if p <= [d, d, d] then 1 else 0)
  {
    NewIsEmpty<T>();
    var m1 := Assign(New<T>(), [d], i, x);
    assert [] <= [d] <= [d, d] <= [d, d, d];
    assert !([d, d] <= [d]) && !([d, d, d] <= [d]) && !([d, d, d] <= [d, d]);
    FillBelow(m1, d, i, x, y, z)
  }

  /** Clears (`[d]`, `i`) from a matrix holding exactly the three cells of
      `NestedFill`. */
  function DrainTop<T>(m: Node<T>, d: nat, i: nat): (r: Node<T>)
    requires Valid(m)
    requires !IsEmpty(m, [d], i) && !IsEmpty(m, [d, d], i) && !IsEmpty(m, [d, d, d], i)
    requires forall p :: SizeAt(m, p) == (if p <= [d] then 1 else 0) + (if p <= [d, d] then 1 else 0) + (if p <= [d, d, d] then 1 else 0)
    ensures Valid(r)
    ensures !IsEmpty(r, [d, d], i) && !IsEmpty(r, [d, d, d], i)
    ensures forall p :: SizeAt(r, p) == (if p <= [d, d] then 1 else 0) + (if p <= [d, d, d] then 1 else 0)
  {
    Clear(m, [d], i)
  }

  /** Clears (`[d, d]`, `i`) from a matrix holding exactly it and
      (`[d, d, d]`, `i`). */
  function DrainMiddle<T>(m: Node<T>, d: nat, i: nat): (r: Node<T>)
    requires Valid(m)
    requires !IsEmpty(m, [d, d], i) && !IsEmpty(m, [d, d, d], i)
    requires forall p :: SizeAt(m, p) == (if p <= [d, d] then 1 else 0) + (if p <= [d, d, d] then 1 else 0)
    ensures Valid(r)
    ensures !IsEmpty(r, [d, d, d], i)
    ensures forall p :: SizeAt(r, p) == if p <= [d, d, d] then 1 else 0
  {
    Clear(m, [d, d], i)
  }

  /** Clears (`[d, d, d]`, `i`) from a matrix holding exactly that cell. */
  function DrainBottom<T>(m: Node<T>, d: nat, i: nat): (r: Node<T>)
    requires Valid(m)
    requires !IsEmpty(m, [d, d, d], i)
    requires forall p :: SizeAt(m, p) == if p <= [d, d, d] then 1 else 0
    ensures Valid(r)
    ensures forall p :: SizeAt(r, p) == 0
  {
    Clear(m, [d, d, d], i)
  }

  /** Clearing the three cells again brings every counter in the tree back
      to 0. */
  function NestedDrain<T>(d: nat, i: nat, x: T, y: T, z: T): (m: Node<T>)
    ensures Valid(m)
    ensures forall p :: SizeAt(m, p) == 0
  {
    DrainBottom(DrainMiddle(DrainTop(NestedFill(d, i, x, y, z), d, i), d, i), d, i)
  }
}
