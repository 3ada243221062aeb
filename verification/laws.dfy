/** What the operations on cells promise: which counters and which cells a
    write changes, that obtaining a handle or descending changes neither,
    that repeated access reuses what the first one created, that the last
    write to a cell wins, and that no counter on an occupied path is zero. */
module CellLaws {
  import opened Wrappers
  import opened Matrix
  import opened Occupancy
  import opened Cells
  import Element

  /** A node rebuilt after `Enter(n, d)` with a new child `c` in slot `d`:
      below `d` one sees `c`, below any other index what `n` had. */
  lemma EnterStepPath<T>(n: Node<T>, d: nat, c: Node<T>, m: Node<T>, p: seq<nat>)
    requires m.slots == WithChild(Enter(n, d), d, c).slots
    requires p != []
    ensures Lookup(m, p) == if p[0] == d then Lookup(c, p[1..]) else Lookup(n, p)
  {
    assert p[0] != d ==> ChildOf(m, p[0]) == ChildOf(n, p[0]);
  }

  /** ... and its own elements are those of `n`. */
  lemma EnterStepRoot<T>(n: Node<T>, d: nat, c: Node<T>, m: Node<T>, i: nat)
    requires m.slots == WithChild(Enter(n, d), d, c).slots
    ensures Get(m, [], i) == Get(n, [], i)
  {
  }

  /** A node rebuilt after `CreateDimIfRequired(n, idx)` with a new element in
      slot `idx`: below it nothing changed. */
  lemma LeafStepPath<T>(n: Node<T>, idx: nat, x: Option<T>, m: Node<T>, p: seq<nat>)
    requires m.slots == WithElement(CreateDimIfRequired(n, idx), idx, x).slots
    requires p != []
    ensures Lookup(m, p) == Lookup(n, p)
  {
    assert ChildOf(m, p[0]) == ChildOf(n, p[0]);
  }

  /** ... and its own elements are those of `n` but for slot `idx`. */
  lemma LeafStepRoot<T>(n: Node<T>, idx: nat, x: Option<T>, m: Node<T>, i: nat)
    requires m.slots == WithElement(CreateDimIfRequired(n, idx), idx, x).slots
    ensures Get(m, [], i) == if i == idx then x else Get(n, [], i)
  {
  }

  /** Counters after rebuilding one node around slot `idx`: only the node's
      own counter can have moved. */
  lemma LeafSizes<T>(n: Node<T>, idx: nat, x: Option<T>, m: Node<T>, delta: int)
    requires m.slots == WithElement(CreateDimIfRequired(n, idx), idx, x).slots
    requires m.size == n.size + delta
    ensures forall p :: SizeAt(m, p) == SizeAt(n, p) + (if p <= [] then delta else 0)
  {
    forall p | p != []
      ensures SizeAt(m, p) == SizeAt(n, p)
    {
      LeafStepPath(n, idx, x, m, p);
    }
  }

  /** Cells after rebuilding one node around slot `idx`: only that cell can
      have changed, and its slot exists. */
  lemma LeafCells<T>(n: Node<T>, idx: nat, x: Option<T>, m: Node<T>)
    requires m.slots == WithElement(CreateDimIfRequired(n, idx), idx, x).slots
    ensures forall ds, i :: ds != [] || i != idx ==> Get(m, ds, i) == Get(n, ds, i)
    ensures Get(m, [], idx) == x
    ensures idx in m.slots
  {
    forall ds, i | ds != [] || i != idx
      ensures Get(m, ds, i) == Get(n, ds, i)
    {
      if ds != [] {
        LeafStepPath(n, idx, x, m, ds);
      } else {
        LeafStepRoot(n, idx, x, m, i);
      }
    }
  }

  /** Counters after rebuilding a node around a new child for
      `Dim(n, dims[0])`: if the child's counters moved by `delta` exactly on
      the prefixes of `dims[1..]`, the node's moved by `delta` exactly on the
      prefixes of `dims`. */
  lemma RebuildSizes<T>(n: Node<T>, dims: seq<nat>, x: Node<T>, m: Node<T>, delta: int)
    requires dims != []
    requires m.slots == WithChild(Enter(n, dims[0]), dims[0], x).slots
    requires m.size == n.size + delta
    requires forall q :: SizeAt(x, q) == SizeAt(Dim(n, dims[0]), q) + (if q <= dims[1..] then delta else 0)
    ensures forall p :: SizeAt(m, p) == SizeAt(n, p) + (if p <= dims then delta else 0)
  {
    var d, rest := dims[0], dims[1..];
    assert dims == [d] + rest;
    forall p
      ensures SizeAt(m, p) == SizeAt(n, p) + (if p <= dims then delta else 0)
    {
      if p != [] {
        EnterStepPath(n, d, x, m, p);
        if p[0] == d {
          var q := p[1..];
          assert p == [d] + q;
          EnterChildPath(n, d, q);
          assert p <= dims <==> q <= rest;
        } else {
          assert !(p <= dims);
        }
      }
    }
  }

  /** Cells after rebuilding a node around a new child for
      `Dim(n, dims[0])`: if the child differs from `Dim(n, dims[0])` at most
      in cell (`dims[1..]`, `idx`), the node differs from `n` at most in cell
      (`dims`, `idx`). */
  lemma RebuildCells<T>(n: Node<T>, dims: seq<nat>, x: Node<T>, m: Node<T>, idx: nat)
    requires dims != []
    requires m.slots == WithChild(Enter(n, dims[0]), dims[0], x).slots
    requires forall ds, i :: ds != dims[1..] || i != idx ==> Get(x, ds, i) == Get(Dim(n, dims[0]), ds, i)
    ensures forall ds, i :: ds != dims || i != idx ==> Get(m, ds, i) == Get(n, ds, i)
    ensures Get(m, dims, idx) == Get(x, dims[1..], idx)
    ensures Get(n, dims, idx) == Get(Dim(n, dims[0]), dims[1..], idx)
    ensures Lookup(m, dims) == Lookup(x, dims[1..])
  {
    var d, rest := dims[0], dims[1..];
    assert dims == [d] + rest;
    forall ds, i | ds != dims || i != idx
      ensures Get(m, ds, i) == Get(n, ds, i)
    {
      if ds != [] {
        EnterStepPath(n, d, x, m, ds);
        if ds[0] == d {
          var q := ds[1..];
          assert ds == [d] + q;
          EnterChildPath(n, d, q);
        }
      } else {
        EnterStepRoot(n, d, x, m, i);
      }
    }
    EnterStepPath(n, d, x, m, dims);
    EnterChildPath(n, d, rest);
  }

  /** A write moves `size()` by the event's delta at the root, at every node
      on the way to the cell and at the owning node, and nowhere else. */
  lemma {:induction false} StoreSizes<T>(n: Node<T>, dims: seq<nat>, idx: nat, v: Option<T>)
    requires Valid(n)
    ensures forall p :: SizeAt(Store(n, dims, idx, v).node, p)
                        == SizeAt(n, p) + (if p <= dims then Element.Delta(Store(n, dims, idx, v).signal) else 0)
    decreases |dims|
  {
    var r := Store(n, dims, idx, v);
    if dims == [] {
      StoreLeafShape(n, idx, v);
      LeafSizes(n, idx, v, r.node, Element.Delta(r.signal));
    } else {
      var d := dims[0];
      EnterKeepsCount(n, d);
      StoreSizes(Dim(n, d), dims[1..], idx, v);
      StoreInnerShape(n, dims, idx, v);
      RebuildSizes(n, dims, Store(Dim(n, d), dims[1..], idx, v).node, r.node, Element.Delta(r.signal));
    }
  }

  /** A write sets its own cell, leaves every other cell as it was, and
      leaves the cell's slot in place even when it empties it. */
  lemma {:induction false} StoreCells<T>(n: Node<T>, dims: seq<nat>, idx: nat, v: Option<T>)
    requires Valid(n)
    ensures Get(Store(n, dims, idx, v).node, dims, idx) == v
    ensures forall ds, i :: ds != dims || i != idx ==> Get(Store(n, dims, idx, v).node, ds, i) == Get(n, ds, i)
    ensures Lookup(Store(n, dims, idx, v).node, dims).Some?
    ensures idx in Lookup(Store(n, dims, idx, v).node, dims).value.slots
    decreases |dims|
  {
    var r := Store(n, dims, idx, v);
    if dims == [] {
      StoreLeafShape(n, idx, v);
      LeafCells(n, idx, v, r.node);
    } else {
      var d := dims[0];
      EnterKeepsCount(n, d);
      StoreCells(Dim(n, d), dims[1..], idx, v);
      StoreInnerShape(n, dims, idx, v);
      RebuildCells(n, dims, Store(Dim(n, d), dims[1..], idx, v).node, r.node, idx);
    }
  }

  /** Obtaining a handle, `m(d1)...(dk)[idx]`, changes `size()` at no node. */
  lemma {:induction false} TouchKeepsSizes<T>(n: Node<T>, dims: seq<nat>, idx: nat)
    ensures forall p :: SizeAt(Touch(n, dims, idx), p) == SizeAt(n, p)
    decreases |dims|
  {
    var t := Touch(n, dims, idx);
    if dims == [] {
      assert t.slots == WithElement(CreateDimIfRequired(n, idx), idx, t.slots[idx].element).slots;
      LeafSizes(n, idx, t.slots[idx].element, t, 0);
    } else {
      var d := dims[0];
      TouchKeepsSizes(Dim(n, d), dims[1..], idx);
      RebuildSizes(n, dims, Touch(Dim(n, d), dims[1..], idx), t, 0);
    }
  }

  /** Obtaining a handle changes no cell's element. */
  lemma {:induction false} TouchKeepsCells<T>(n: Node<T>, dims: seq<nat>, idx: nat)
    ensures forall ds, i :: Get(Touch(n, dims, idx), ds, i) == Get(n, ds, i)
    decreases |dims|
  {
    var t := Touch(n, dims, idx);
    if dims == [] {
      assert t.slots == WithElement(CreateDimIfRequired(n, idx), idx, t.slots[idx].element).slots;
      LeafCells(n, idx, t.slots[idx].element, t);
    } else {
      var d := dims[0];
      TouchKeepsCells(Dim(n, d), dims[1..], idx);
      RebuildCells(n, dims, Touch(Dim(n, d), dims[1..], idx), t, idx);
    }
  }

  /** Obtaining a handle adds no element, and keeps a valid tree valid. */
  lemma {:induction false} TouchKeepsCount<T>(n: Node<T>, dims: seq<nat>, idx: nat)
    ensures Count(Touch(n, dims, idx)) == Count(n)
    ensures Valid(n) ==> Valid(Touch(n, dims, idx))
    decreases |dims|
  {
    if dims == [] {
      CreateDimKeepsCount(n, idx);
    } else {
      var d := dims[0];
      TouchKeepsCount(Dim(n, d), dims[1..], idx);
      RebuildKeepsCount(n, d, Touch(Dim(n, d), dims[1..], idx));
    }
  }

  /** Reading an occupied cell goes through `operator()` and `operator[]`
      like any access, and finds everything already in place: the touch
      leaves the tree exactly as it was. */
  lemma {:induction false} TouchOccupiedIsIdentity<T>(n: Node<T>, dims: seq<nat>, idx: nat)
    requires !IsEmpty(n, dims, idx)
    ensures Touch(n, dims, idx) == n
    decreases |dims|
  {
    if dims != [] {
      var d := dims[0];
      var c := ChildAt(n, d);
      assert dims == [d] + dims[1..];
      EnterChildPath(n, d, dims[1..]);
      assert Enter(n, d) == n;
      TouchOccupiedIsIdentity(c, dims[1..], idx);
      assert WithChild(n, d, c).slots == n.slots;
    }
  }

  /** Descending, `m(d1)...(dk)`, changes `size()` at no node. */
  lemma {:induction false} EnterPathKeepsSizes<T>(n: Node<T>, dims: seq<nat>)
    ensures forall p :: SizeAt(EnterPath(n, dims), p) == SizeAt(n, p)
    decreases |dims|
  {
    if dims != [] {
      var d := dims[0];
      EnterPathKeepsSizes(Dim(n, d), dims[1..]);
      RebuildSizes(n, dims, EnterPath(Dim(n, d), dims[1..]), EnterPath(n, dims), 0);
    }
  }

  /** Descending changes no cell's element. */
  lemma {:induction false} EnterPathKeepsCells<T>(n: Node<T>, dims: seq<nat>)
    ensures forall ds, i :: Get(EnterPath(n, dims), ds, i) == Get(n, ds, i)
    decreases |dims|
  {
    if dims != [] {
      var d := dims[0];
      EnterPathKeepsCells(Dim(n, d), dims[1..]);
      RebuildCells(n, dims, EnterPath(Dim(n, d), dims[1..]), EnterPath(n, dims), 0);
    }
  }

  /** Descending adds no element, and keeps a valid tree valid. */
  lemma {:induction false} EnterPathKeepsCount<T>(n: Node<T>, dims: seq<nat>)
    ensures Count(EnterPath(n, dims)) == Count(n)
    ensures Valid(n) ==> Valid(EnterPath(n, dims))
    decreases |dims|
  {
    if dims != [] {
      var d := dims[0];
      EnterPathKeepsCount(Dim(n, d), dims[1..]);
      RebuildKeepsCount(n, d, EnterPath(Dim(n, d), dims[1..]));
    }
  }

  /** Rebuilding slot `d` of `Enter(n, d)` around a child with the same
      Count keeps the Count, and keeps a valid tree valid. */
  lemma RebuildKeepsCount<T>(n: Node<T>, d: nat, c: Node<T>)
    requires Count(c) == Count(Dim(n, d))
    requires Valid(Dim(n, d)) ==> Valid(c)
    ensures Count(WithChild(Enter(n, d), d, c)) == Count(n)
    ensures Valid(n) ==> Valid(WithChild(Enter(n, d), d, c))
  {
    var e := Enter(n, d);
    EnterKeepsCount(n, d);
    var s := Slot(e.slots[d].element, Some(c));
    CountUpdate(e, d, s);
    if Valid(n) {
      SignalKeepsValid(e, d, s, Element.Silent);
    }
  }

  /** A second handle to the same cell reuses every slot and child the first
      one created. */
  lemma {:induction false} TouchIdempotent<T>(n: Node<T>, dims: seq<nat>, idx: nat)
    ensures Touch(Touch(n, dims, idx), dims, idx) == Touch(n, dims, idx)
    decreases |dims|
  {
    if dims != [] {
      TouchIdempotent(Dim(n, dims[0]), dims[1..], idx);
    }
  }

  /** Descending the same path twice reuses every slot and child the first
      descent created. */
  lemma {:induction false} EnterPathIdempotent<T>(n: Node<T>, dims: seq<nat>)
    ensures EnterPath(EnterPath(n, dims), dims) == EnterPath(n, dims)
    decreases |dims|
  {
    if dims != [] {
      EnterPathIdempotent(Dim(n, dims[0]), dims[1..]);
    }
  }

  /** Two writes in a row end with the counter a single write of the
      second value gives. */
  lemma StoreOverwriteSize<T>(n: Node<T>, dims: seq<nat>, idx: nat, v: Option<T>, w: Option<T>)
    requires Valid(n)
    ensures Store(Store(n, dims, idx, v).node, dims, idx, w).node.size == Store(n, dims, idx, w).node.size
  {
    StoreCells(n, dims, idx, v);
  }

  /** The slots after two writes to a cell of the node itself are those a
      single write of the second value gives. */
  lemma StoreOverwriteLeaf<T>(n: Node<T>, idx: nat, v: Option<T>, w: Option<T>)
    requires Valid(n)
    ensures Store(Store(n, [], idx, v).node, [], idx, w).node.slots == Store(n, [], idx, w).node.slots
  {
    var s1 := Store(n, [], idx, v).node;
    StoreLeafShape(n, idx, v);
    StoreLeafShape(s1, idx, w);
    StoreLeafShape(n, idx, w);
    assert CreateDimIfRequired(s1, idx) == s1;
  }

  /** The slots after two writes below dimension `d` are those a single
      write of the second value gives, once that holds one level down. */
  lemma StoreOverwriteInner<T>(n: Node<T>, dims: seq<nat>, idx: nat, v: Option<T>, w: Option<T>)
    requires Valid(n)
    requires dims != []
    requires Valid(Dim(n, dims[0]))
    requires Store(Store(Dim(n, dims[0]), dims[1..], idx, v).node, dims[1..], idx, w).node
             == Store(Dim(n, dims[0]), dims[1..], idx, w).node
    ensures Store(Store(n, dims, idx, v).node, dims, idx, w).node.slots == Store(n, dims, idx, w).node.slots
  {
    var d, rest := dims[0], dims[1..];
    var e := Enter(n, d);
    var c1 := Store(Dim(n, d), rest, idx, v).node;
    var c2 := Store(Dim(n, d), rest, idx, w).node;
    var s1 := Store(n, dims, idx, v).node;
    StoreInnerShape(n, dims, idx, v);
    assert s1.slots == WithChild(e, d, c1).slots;
    assert Enter(s1, d) == s1;
    assert Dim(s1, d) == c1;
    StoreInnerShape(s1, dims, idx, w);
    assert Store(s1, dims, idx, w).node.slots == WithChild(s1, d, c2).slots;
    StoreInnerShape(n, dims, idx, w);
    assert Store(n, dims, idx, w).node.slots == WithChild(e, d, c2).slots;
    ReplaceChildTwice(e, d, c1, c2, s1);
  }

  /** Replacing a child that was itself just replaced: only the last one
      stays. */
  lemma ReplaceChildTwice<T>(e: Node<T>, d: nat, c1: Node<T>, c2: Node<T>, s1: Node<T>)
    requires d in e.slots
    requires s1.slots == WithChild(e, d, c1).slots
    ensures WithChild(s1, d, c2).slots == WithChild(e, d, c2).slots
  {
  }

  /** The last write to a cell wins: a write that is overwritten leaves no
      trace, in the elements, the slots or the counters. */
  lemma {:induction false} StoreOverwrite<T>(n: Node<T>, dims: seq<nat>, idx: nat, v: Option<T>, w: Option<T>)
    requires Valid(n)
    ensures Store(Store(n, dims, idx, v).node, dims, idx, w).node == Store(n, dims, idx, w).node
    decreases |dims|
  {
    StoreOverwriteSize(n, dims, idx, v, w);
    if dims == [] {
      StoreOverwriteLeaf(n, idx, v, w);
    } else {
      EnterKeepsCount(n, dims[0]);
      StoreOverwrite(Dim(n, dims[0]), dims[1..], idx, v, w);
      StoreOverwriteInner(n, dims, idx, v, w);
    }
  }

  /** Clearing an empty cell raises nothing: the tree is exactly what
      obtaining its handle makes of it. */
  lemma {:induction false} ClearEmptyIsTouch<T>(n: Node<T>, dims: seq<nat>, idx: nat)
    requires Valid(n)
    requires IsEmpty(n, dims, idx)
    ensures Store(n, dims, idx, None).signal == Element.Silent
    ensures Store(n, dims, idx, None).node == Touch(n, dims, idx)
    decreases |dims|
  {
    var r := Store(n, dims, idx, None);
    Element.DeltaDeterminesSignal(r.signal, Element.Silent);
    if dims == [] {
      StoreLeafShape(n, idx, None);
      var dim := CreateDimIfRequired(n, idx);
      assert dim.slots[idx].element.None?;
      assert r.node.slots == dim.slots;
    } else {
      var d := dims[0];
      EnterKeepsCount(n, d);
      EnterChildPath(n, d, dims[1..]);
      assert dims == [d] + dims[1..];
      ClearEmptyIsTouch(Dim(n, d), dims[1..], idx);
      StoreInnerShape(n, dims, idx, None);
    }
  }

  /** A present element keeps the counter of the owning node and of every
      ancestor at 1 or more, so the deleted chain never decrements a zero. */
  lemma {:induction false} OccupiedPathPositive<T>(n: Node<T>, dims: seq<nat>, idx: nat)
    requires Valid(n)
    requires !IsEmpty(n, dims, idx)
    ensures forall p :: p <= dims ==> SizeAt(n, p) >= 1
    decreases |dims|
  {
    if dims == [] {
      CountCoversSlot(n, idx);
    } else {
      var d := dims[0];
      var c := ChildAt(n, d);
      assert dims == [d] + dims[1..];
      EnterChildPath(n, d, dims[1..]);
      OccupiedPathPositive(c, dims[1..], idx);
      CountCoversSlot(n, d);
      assert SizeAt(c, []) >= 1;
      forall p | p <= dims && p != []
        ensures SizeAt(n, p) >= 1
      {
        assert p == [d] + p[1..];
        assert p[1..] <= dims[1..];
        EnterChildPath(n, d, p[1..]);
      }
    }
  }

  /** A fresh matrix has no slots, every counter is 0, every cell is empty,
      and the occupancy invariant holds. */
  lemma NewIsEmpty<T>()
    ensures Size(New<T>()) == 0 && New<T>().slots.Keys == {}
    ensures Valid(New<T>())
    ensures forall p :: SizeAt(New<T>(), p) == 0
    ensures forall ds, i :: IsEmpty(New<T>(), ds, i)
  {
    NewValid<T>();
  }
}
