/** The occupancy invariant: a node's counter equals the number of present
    elements anywhere in its subtree, its own slots included. `Count` is the
    full rescan the program never performs; `Valid` says the incrementally
    kept counters agree with it at every node. */
module Occupancy {
  import opened Wrappers
  import opened Matrix
  import Element

  /** Present elements in the subtree rooted at `n`. */
  ghost function Count<T>(n: Node<T>): nat
    decreases n, 1
  {
    SlotsCount(n, n.slots.Keys)
  }

  /** Present elements reachable through the slots of `n` listed in `keys`. */
  ghost function SlotsCount<T>(n: Node<T>, keys: set<nat>): nat
    requires keys <= n.slots.Keys
    decreases n, 0, keys
  {
    if keys == {} then 0
    else
      var k :| k in keys;
      Weight(n.slots[k]) + SlotsCount(n, keys - {k})
  }

  /** Present elements reachable through one slot: its own element plus the
      subtree of its child. */
  ghost function Weight<T>(s: Slot<T>): nat
    decreases s
  {
    Element.Presence(s.element) + (if s.child.Some? then Count(s.child.value) else 0)
  }

  /** The counter of every node in the subtree equals its Count. */
  ghost predicate Valid<T>(n: Node<T>)
    decreases n
  {
    && n.size == Count(n)
    && forall k :: k in n.slots && n.slots[k].child.Some? ==> Valid(n.slots[k].child.value)
  }

  /** Any slot can be taken out of the sum first. */
  lemma {:induction false} SlotsCountRemove<T>(n: Node<T>, keys: set<nat>, k: nat)
    requires keys <= n.slots.Keys
    requires k in keys
    ensures SlotsCount(n, keys) == Weight(n.slots[k]) + SlotsCount(n, keys - {k})
    decreases keys
  {
    var j :| j in keys && SlotsCount(n, keys) == Weight(n.slots[j]) + SlotsCount(n, keys - {j});
    if j != k {
      SlotsCountRemove(n, keys - {j}, k);
      SlotsCountRemove(n, keys - {k}, j);
      assert keys - {j} - {k} == keys - {k} - {j};
    }
  }

  /** The sum only looks at the slots it is asked about. */
  lemma {:induction false} SlotsCountFrame<T>(n: Node<T>, m: Node<T>, keys: set<nat>)
    requires keys <= n.slots.Keys && keys <= m.slots.Keys
    requires forall k :: k in keys ==> n.slots[k] == m.slots[k]
    ensures SlotsCount(n, keys) == SlotsCount(m, keys)
    decreases keys
  {
    if keys != {} {
      var k :| k in keys && SlotsCount(n, keys) == Weight(n.slots[k]) + SlotsCount(n, keys - {k});
      SlotsCountRemove(m, keys, k);
      SlotsCountFrame(n, m, keys - {k});
    }
  }

  /** Count depends on the slots only, never on the counter. */
  lemma CountOfSlots<T>(n: Node<T>, m: Node<T>)
    requires n.slots == m.slots
    ensures Count(n) == Count(m)
  {
    SlotsCountFrame(n, m, n.slots.Keys);
  }

  /** Replacing (or inserting) the slot at `k` changes Count by the difference
      of the two slots' weights. */
  lemma CountUpdate<T>(n: Node<T>, k: nat, s: Slot<T>)
    ensures Count(n.(slots := n.slots[k := s]))
            == Count(n) + Weight(s) - (if k in n.slots then Weight(n.slots[k]) else 0)
  {
    var m := n.(slots := n.slots[k := s]);
    var keys := n.slots.Keys;
    SlotsCountRemove(m, m.slots.Keys, k);
    assert m.slots.Keys - {k} == keys - {k};
    SlotsCountFrame(m, n, keys - {k});
    if k in n.slots {
      SlotsCountRemove(n, keys, k);
    } else {
      assert keys - {k} == keys;
    }
  }

  /** A subtree never holds more than its whole tree. */
  lemma CountCoversSlot<T>(n: Node<T>, k: nat)
    requires k in n.slots
    ensures Weight(n.slots[k]) <= Count(n)
  {
    SlotsCountRemove(n, n.slots.Keys, k);
  }

  /** A fresh matrix is valid and holds nothing. */
  lemma NewValid<T>()
    ensures Count(New<T>()) == 0
    ensures Valid(New<T>())
  {
  }

  /** `_create_dim_if_required` adds no element anywhere. */
  lemma CreateDimKeepsCount<T>(n: Node<T>, id: nat)
    ensures Count(CreateDimIfRequired(n, id)) == Count(n)
    ensures Valid(n) ==> Valid(CreateDimIfRequired(n, id))
  {
    if id !in n.slots {
      CountUpdate(n, id, EmptySlot());
    }
  }

  /** `operator()` adds no element anywhere and keeps every counter right. */
  lemma EnterKeepsCount<T>(n: Node<T>, id: nat)
    ensures Count(Enter(n, id)) == Count(n)
    ensures Valid(n) ==> Valid(Enter(n, id)) && Valid(Dim(n, id))
  {
    var r := Enter(n, id);
    if !(id in n.slots && n.slots[id].child.Some?) {
      NewValid<T>();
      CountUpdate(n, id, r.slots[id]);
      assert r == n.(slots := n.slots[id := r.slots[id]]);
    }
  }

  /** One slot of a valid node is replaced by one whose weight differs by the
      event's delta, and the node applies the event. The result is valid, and
      a deleted event never finds the counter at zero. */
  lemma {:induction false} SignalKeepsValid<T>(n: Node<T>, k: nat, s: Slot<T>, sig: Element.Signal)
    requires Valid(n)
    requires k in n.slots
    requires s.child.Some? ==> Valid(s.child.value)
    requires Weight(s) == Weight(n.slots[k]) + Element.Delta(sig)
    ensures sig == Element.Deleted ==> n.size >= 1
    ensures sig == Element.Deleted ==> n.(slots := n.slots[k := s]).size >= 1
    ensures Valid(OnSignal(n.(slots := n.slots[k := s]), sig))
  {
    var m := n.(slots := n.slots[k := s]);
    CountCoversSlot(n, k);
    CountUpdate(n, k, s);
    var r := OnSignal(m, sig);
    CountOfSlots(r, m);
    assert r.size == Count(r);
  }

  /** What the slots of `n` listed in `keys` contribute to its counter, as
      the program keeps it: each present element counts 1 and each owned
      child counts its own counter `_dims_size`. */
  ghost function LocalSum<T>(n: Node<T>, keys: set<nat>): nat
    requires keys <= n.slots.Keys
    decreases keys
  {
    if keys == {} then 0
    else
      var k :| k in keys;
      LocalWeight(n.slots[k]) + LocalSum(n, keys - {k})
  }

  /** One slot's share of its node's counter: its element, and its child's
      counter. */
  function LocalWeight<T>(s: Slot<T>): nat
  {
    Element.Presence(s.element) + (if s.child.Some? then s.child.value.size else 0)
  }

  /** In a valid tree every counter also satisfies the one-level equation
      the notifications maintain: own present elements plus the children's
      counters. */
  lemma {:induction false} ValidIsLocal<T>(n: Node<T>, keys: set<nat>)
    requires Valid(n)
    requires keys <= n.slots.Keys
    ensures LocalSum(n, keys) == SlotsCount(n, keys)
    ensures keys == n.slots.Keys ==> n.size == LocalSum(n, keys)
    decreases keys
  {
    if keys != {} {
      var k :| k in keys && LocalSum(n, keys) == LocalWeight(n.slots[k]) + LocalSum(n, keys - {k});
      ValidIsLocal(n, keys - {k});
      SlotsCountRemove(n, keys, k);
      var s := n.slots[k];
      if s.child.Some? {
        assert Valid(s.child.value);
        assert s.child.value.size == Count(s.child.value);
      }
      assert Weight(s) == LocalWeight(s);
    }
  }
}
