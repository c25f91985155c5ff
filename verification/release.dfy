/**
 * The cycle-aware subgraph release kept (commented out) in Ptr::Release.
 * Before dropping a handle it writes the handle into a fresh domain that
 * follows references and constants, so each object reachable from it gets a
 * hit count. An object whose reference count equals its hits is held only by
 * the dropped handle and by that subgraph: a candidate. Every other object met
 * is kept, and a candidate that some kept object reaches is kept too. The
 * remaining candidates are destroyed together.
 *
 * The model evaluates the block on the state before the plain release clears
 * the handle, and removes the destroyed objects at once (ReleasedHeap). The
 * block itself zeroes their counts and deletes them one by one, so a member
 * whose field points at a member deleted earlier decrements freed memory
 * (FreedTouched).
 */
module SubgraphRelease {
  import opened ObjId
  import opened Ptr
  import opened Counting
  import opened Codec
  import opened Serializer

  /** Domain flags of the release traversal: kRefs | kConsts. */
  const ReleaseFlags: DomainFlags := Refs | Consts

  /** Hit counts of the traversal that writes the dropping handle into a fresh domain. */
  function RootTally(heap: Heap, root: Handle): (t: Tally)
    requires Closed(heap) && Points(heap, root)
    ensures t.Keys <= heap.Keys
    ensures root.Attached? ==> root.ref in t
    ensures ClosedSet(heap, t.Keys)
  {
    TraversalShape(heap, ReleaseFlags, root);
    WriteRef(heap, ReleaseFlags, EmptyWriter, root).1.tally
  }

  /** The objects met whose count equals their hits. */
  function Candidates(heap: Heap, root: Handle): (c: set<Ref>)
    requires Closed(heap) && Points(heap, root)
    ensures c <= RootTally(heap, root).Keys
    ensures forall x :: x in c <==> x in RootTally(heap, root) && heap[x].refCount == RootTally(heap, root)[x]
  {
    var t := RootTally(heap, root);
    set x | x in t && heap[x].refCount == t[x]
  }

  /** The objects met that something outside the subgraph also holds. */
  function Kept(heap: Heap, root: Handle): (k: set<Ref>)
    requires Closed(heap) && Points(heap, root)
    ensures k <= heap.Keys && k !! Candidates(heap, root)
  {
    RootTally(heap, root).Keys - Candidates(heap, root)
  }

  /** The objects met by writing a kept object's fields into a cleared domain (`k->Serialize(os2)`). */
  function ReachedFrom(heap: Heap, k: Ref): (r: set<Ref>)
    requires Closed(heap) && k in heap
    ensures forall j :: 0 <= j < |heap[k].fields| && heap[k].fields[j].Attached? ==> heap[k].fields[j].ref in r
    ensures ClosedSet(heap, r)
  {
    FieldsTraversalShape(heap, ReleaseFlags, heap[k].fields);
    WriteFields(heap, ReleaseFlags, EmptyWriter, heap[k].fields).1.tally.Keys
  }

  /** The candidates no kept object reaches: the set the block destroys. */
  function DestroySet(heap: Heap, root: Handle): (d: set<Ref>)
    requires Closed(heap) && Points(heap, root)
    ensures forall x :: x in d ==> x in heap && x in RootTally(heap, root) && heap[x].refCount == RootTally(heap, root)[x]
    ensures forall x :: x in d ==> x !in Kept(heap, root)
  {
    set x | x in Candidates(heap, root) && forall k :: k in Kept(heap, root) ==> x !in ReachedFrom(heap, k)
  }

  /**
   * The block's selection loop: start from every candidate and, for each kept
   * object in turn, strike out whatever writing its fields meets.
   */
  method Destroyed(heap: Heap, root: Handle) returns (release: set<Ref>)
    requires Closed(heap) && Points(heap, root)
    ensures release == DestroySet(heap, root)
  {
    var candidates := Candidates(heap, root);
    var kept := Kept(heap, root);
    release := candidates;
    var keep := kept;
    ghost var done: set<Ref> := {};
    while keep != {}
      invariant keep + done == kept && keep !! done
      invariant release == set x | x in candidates && forall k :: k in done ==> x !in ReachedFrom(heap, k)
      decreases keep
    {
      var k :| k in keep;
      var reached := ReachedFrom(heap, k);
      ghost var before := release;
      release := release - reached;
      keep := keep - {k};
      done := done + {k};
      forall x | x in release
        ensures x in candidates && forall k' :: k' in done ==> x !in ReachedFrom(heap, k')
      {
        assert x in before;
      }
    }
    assert done == kept;
  }

  /**
   * The objects left after the block: the destroyed ones removed, and each
   * survivor's count less the references the destroyed objects' fields and
   * the dropped handle held.
   */
  ghost function ReleasedHeap(heap: Heap, root: Handle, d: set<Ref>): (r: Heap)
    ensures r.Keys == heap.Keys - d
    ensures forall x :: x in r ==> r[x] == heap[x].(refCount := r[x].refCount)
  {
    map x | x in heap && x !in d :: heap[x].(refCount := heap[x].refCount - SumOcc(heap, d, x) - Occ([root], x))
  }

  // ---------------------------------------------------------------------------
  // The delete pass as written
  // ---------------------------------------------------------------------------

  /**
   * `for (auto r : release) delete r`, visiting the set in the order `order`
   * with `freed` already deleted. Deleting an object destroys its field
   * handles, and each one's Release decrements its target: the result is the
   * set of objects decremented after their own deletion. A field pointing at
   * the object being deleted is not among them, as that object is still alive
   * while its members are destroyed.
   */
  function FreedTouched(heap: Heap, order: seq<Ref>, freed: set<Ref>): (t: set<Ref>)
    ensures t <= freed + Elems(order)
    decreases |order|
  {
    if order == [] then {}
    else
      var rest := FreedTouched(heap, order[1..], freed + {order[0]});
      assert Elems(order) == {order[0]} + Elems(order[1..]);
      (set x | x in freed && Fan(heap, order[0], x) > 0) + rest
  }

  /** A field of the object at `b` points at the object deleted earlier, at `a`. */
  predicate LaterHolds(heap: Heap, order: seq<Ref>, a: int, b: int) {
    0 <= a < b < |order| && Fan(heap, order[b], order[a]) > 0
  }

  /**
   * An object is decremented after its deletion exactly when it was deleted
   * before the pass, or earlier in it, and a field of an object deleted later
   * points at it.
   */
  lemma {:induction false} FreedTouchedMeans(heap: Heap, order: seq<Ref>, freed: set<Ref>, x: Ref)
    ensures x in FreedTouched(heap, order, freed) <==>
      (x in freed && exists b :: 0 <= b < |order| && Fan(heap, order[b], x) > 0)
      || (exists a, b :: LaterHolds(heap, order, a, b) && order[a] == x)
    decreases |order|
  {
    if order != [] {
      var rest := order[1..];
      FreedTouchedMeans(heap, rest, freed + {order[0]}, x);
      if x in FreedTouched(heap, order, freed) {
        if x in freed && Fan(heap, order[0], x) > 0 {
        } else if x in freed + {order[0]} && exists b :: 0 <= b < |rest| && Fan(heap, rest[b], x) > 0 {
          var b :| 0 <= b < |rest| && Fan(heap, rest[b], x) > 0;
          if x !in freed {
            assert LaterHolds(heap, order, 0, b + 1);
          }
        } else {
          var a, b :| LaterHolds(heap, rest, a, b) && rest[a] == x;
          assert LaterHolds(heap, order, a + 1, b + 1);
        }
      }
      if x in freed && exists b :: 0 <= b < |order| && Fan(heap, order[b], x) > 0 {
        var b :| 0 <= b < |order| && Fan(heap, order[b], x) > 0;
        if b > 0 {
          assert Fan(heap, rest[b - 1], x) > 0;
        }
      } else if a, b :| LaterHolds(heap, order, a, b) && order[a] == x {
        if a == 0 {
          assert Fan(heap, rest[b - 1], x) > 0;
        } else {
          assert LaterHolds(heap, rest, a - 1, b - 1);
        }
      }
    }
  }

  /** The first position of `order` that holds a member of `s`. */
  lemma {:induction false} FirstInOrder(order: seq<Ref>, s: set<Ref>) returns (a: nat)
    requires s != {} && s <= Elems(order)
    ensures a < |order| && order[a] in s
    ensures forall b :: 0 <= b < a ==> order[b] !in s
    decreases |order|
  {
    var y :| y in s;
    assert y in order;
    if order[0] in s {
      a := 0;
    } else {
      assert s <= Elems(order[1..]) by {
        forall z | z in s ensures z in order[1..] {
          var b :| 0 <= b < |order| && order[b] == z;
          assert b > 0 && order[1..][b - 1] == z;
        }
      }
      var a' := FirstInOrder(order[1..], s);
      a := a' + 1;
    }
  }

  /** Member k of a cycle holds the member after it, the last one holding the first. */
  predicate HoldsNext(heap: Heap, cycle: seq<Ref>, k: int) {
    0 <= k < |cycle| && Fan(heap, cycle[k], cycle[(k + 1) % |cycle|]) > 0
  }

  /**
   * A cycle of two or more distinct members of the set, each holding the next:
   * whichever member the pass deletes first is decremented afterwards, by the
   * member before it on the cycle.
   */
  lemma CycleTouchesFreed(heap: Heap, order: seq<Ref>, cycle: seq<Ref>)
    requires |cycle| >= 2 && NoDup(cycle)
    requires forall k :: 0 <= k < |cycle| ==> cycle[k] in Elems(order)
    requires forall k :: 0 <= k < |cycle| ==> HoldsNext(heap, cycle, k)
    ensures FreedTouched(heap, order, {}) != {}
  {
    var a, b := FirstHeldLater(heap, order, cycle);
    FreedTouchedMeans(heap, order, {}, order[a]);
  }

  /** The cycle member deleted first, at `a`, and the member before it on the cycle, at `b`. */
  lemma FirstHeldLater(heap: Heap, order: seq<Ref>, cycle: seq<Ref>) returns (a: int, b: int)
    requires |cycle| >= 2 && NoDup(cycle)
    requires forall k :: 0 <= k < |cycle| ==> cycle[k] in Elems(order)
    requires forall k :: 0 <= k < |cycle| ==> HoldsNext(heap, cycle, k)
    ensures LaterHolds(heap, order, a, b)
  {
    assert cycle[0] in Elems(cycle);
    a := FirstInOrder(order, Elems(cycle));
    var x := order[a];
    var k :| 0 <= k < |cycle| && cycle[k] == x;
    var pk := Predecessor(heap, cycle, k);
    var p := cycle[pk];
    assert p in Elems(cycle) && p in Elems(order);
    b :| 0 <= b < |order| && order[b] == p;
  }

  /** The member before member k on the cycle: another object, and one that holds it. */
  lemma Predecessor(heap: Heap, cycle: seq<Ref>, k: int) returns (pk: int)
    requires |cycle| >= 2 && NoDup(cycle) && 0 <= k < |cycle|
    requires forall k :: 0 <= k < |cycle| ==> HoldsNext(heap, cycle, k)
    ensures 0 <= pk < |cycle| && cycle[pk] != cycle[k] && Fan(heap, cycle[pk], cycle[k]) > 0
  {
    pk := if k == 0 then |cycle| - 1 else k - 1;
    assert (pk + 1) % |cycle| == k;
    assert HoldsNext(heap, cycle, pk);
  }

  // ---------------------------------------------------------------------------
  // Soundness
  // ---------------------------------------------------------------------------

  /** The variables once the dropped handle is cleared. */
  function Cleared(vars: seq<Handle>, i: nat): seq<Handle>
    requires i < |vars|
  {
    vars[i := Detached(vars[i].cached)]
  }


  /**
   * For every object met, its count is its hits plus the holders outside the
   * subgraph: other variables and the fields of objects not met.
   */
  lemma Surplus(heap: Heap, vars: seq<Handle>, i: nat, x: Ref)
    requires Consistent(heap, vars) && Closed(heap)
    requires i < |vars| && vars[i].Attached? && Points(heap, vars[i])
    requires x in RootTally(heap, vars[i])
    ensures var t := RootTally(heap, vars[i]);
      heap[x].refCount == t[x] + Occ(Cleared(vars, i), x) + SumOcc(heap, heap.Keys - t.Keys, x)
  {
    var root := vars[i];
    var t := RootTally(heap, root);
    TraversalFacts(heap, ReleaseFlags, root);
    OccUpdate(vars, i, Detached(root.cached), x);
    OccSingle(Detached(root.cached), x);
    SumOccSubset(heap, t.Keys, heap.Keys, x);
    assert Holders(heap, vars, x) == RcOf(heap, x);
  }

  /** A field target of a member of a field-closed set is in the set. */
  lemma ClosedStep(heap: Heap, s: set<Ref>, o: Ref, x: Ref)
    requires ClosedSet(heap, s) && o in s && Fan(heap, o, x) > 0
    ensures x in s
  {
    OccPositive(heap[o].fields, x);
    assert FieldsIn(heap, o, s);
  }

  /** Removing an object nothing in a field-closed set points at leaves it closed. */
  lemma ClosedWithout(heap: Heap, s: set<Ref>, x: Ref)
    requires ClosedSet(heap, s) && forall o :: o in s ==> Fan(heap, o, x) == 0
    ensures ClosedSet(heap, s - {x})
  {
    forall o | o in s - {x} ensures FieldsIn(heap, o, s - {x}) {
      OccPositive(heap[o].fields, x);
      assert FieldsIn(heap, o, s);
    }
  }

  /** What a kept object reaches is field-closed, holds its field targets, and lies in every such set. */
  lemma ReachFacts(heap: Heap, k: Ref)
    requires Closed(heap) && k in heap
    ensures ClosedSet(heap, ReachedFrom(heap, k))
    ensures forall x :: Fan(heap, k, x) > 0 ==> x in ReachedFrom(heap, k)
    ensures forall s :: ClosedSet(heap, s) && (forall x :: Fan(heap, k, x) > 0 ==> x in s) ==> ReachedFrom(heap, k) <= s
  {
    var fs := heap[k].fields;
    FieldsTraversalFacts(heap, ReleaseFlags, fs);
    forall x | Fan(heap, k, x) > 0 ensures x in ReachedFrom(heap, k) {
      OccPositive(fs, x);
    }
    forall s | ClosedSet(heap, s) && (forall x :: Fan(heap, k, x) > 0 ==> x in s)
      ensures ReachedFrom(heap, k) <= s
    {
      forall j | 0 <= j < |fs| && fs[j].Attached? ensures fs[j].ref in s {
        OccPositive(fs, fs[j].ref);
      }
    }
  }

  /** An object a kept object's fields reach has a holder among that kept object and what it reaches. */
  lemma ReachHasHolder(heap: Heap, k: Ref, x: Ref) returns (y: Ref)
    requires Closed(heap) && k in heap && x in ReachedFrom(heap, k)
    ensures (y == k || y in ReachedFrom(heap, k)) && y in heap && Fan(heap, y, x) > 0
  {
    var reach := ReachedFrom(heap, k);
    ReachFacts(heap, k);
    if Fan(heap, k, x) > 0 {
      return k;
    }
    if y' :| y' in reach && Fan(heap, y', x) > 0 {
      return y';
    }
    // Otherwise the reach without x would be a smaller closed set holding k's targets.
    ClosedWithout(heap, reach, x);
    assert false;
  }

  /** Every reference into a destroyed object comes from a destroyed object or from the dropped handle. */
  lemma DestroyedHeldOnlyInside(heap: Heap, vars: seq<Handle>, i: nat, x: Ref, o: Ref)
    requires Consistent(heap, vars) && Closed(heap)
    requires i < |vars| && vars[i].Attached? && Points(heap, vars[i])
    requires x in DestroySet(heap, vars[i])
    requires o in heap && o !in DestroySet(heap, vars[i])
    ensures Fan(heap, o, x) == 0 && Occ(Cleared(vars, i), x) == 0
  {
    var root := vars[i];
    var t := RootTally(heap, root);
    Surplus(heap, vars, i, x);
    if Fan(heap, o, x) > 0 {
      if o !in t {
        SumOccAtLeast(heap, heap.Keys - t.Keys, o, x);
        assert false;
      } else if o in Kept(heap, root) {
        ReachFacts(heap, o);
        assert false;
      } else {
        var k :| k in Kept(heap, root) && o in ReachedFrom(heap, k);
        ReachFacts(heap, k);
        ClosedStep(heap, ReachedFrom(heap, k), o, x);
        assert false;
      }
    }
  }

  /** A survivor's released count is what the remaining variables and objects hold. */
  lemma SurvivorCount(heap: Heap, vars: seq<Handle>, i: nat, d: set<Ref>, x: Ref)
    requires Consistent(heap, vars) && i < |vars| && vars[i].Attached?
    requires d <= heap.Keys && x in heap && x !in d
    ensures ReleasedHeap(heap, vars[i], d)[x].refCount == Occ(Cleared(vars, i), x) + SumOcc(heap, heap.Keys - d, x)
  {
    var root := vars[i];
    SumOccSubset(heap, d, heap.Keys, x);
    OccUpdate(vars, i, Detached(root.cached), x);
    OccSingle(Detached(root.cached), x);
    assert Holders(heap, vars, x) == RcOf(heap, x);
  }

  /**
   * Destroying any set nothing outside it holds (but the dropped handle)
   * keeps the reference-count invariant for the remaining variables.
   */
  lemma ReleasedConsistent(heap: Heap, vars: seq<Handle>, i: nat, d: set<Ref>)
    requires Consistent(heap, vars) && i < |vars| && vars[i].Attached? && d <= heap.Keys
    requires forall y :: y in d ==> Occ(Cleared(vars, i), y) == 0
    requires forall y, o :: y in d && o in heap && o !in d ==> Fan(heap, o, y) == 0
    ensures Consistent(ReleasedHeap(heap, vars[i], d), Cleared(vars, i))
  {
    var heap' := ReleasedHeap(heap, vars[i], d);
    var vars' := Cleared(vars, i);
    forall x ensures Holders(heap', vars', x) == RcOf(heap', x) {
      SumOccFrame(heap', heap, heap.Keys - d, x);
      assert heap'.Keys == heap.Keys - d;
      if x in heap && x !in d {
        SurvivorCount(heap, vars, i, d, x);
      } else if x in d {
        SumOccZero(heap, heap.Keys - d, x);
      } else {
        assert Holders(heap, vars, x) == RcOf(heap, x);
        SumOccSubset(heap, d, heap.Keys, x);
        OccUpdate(vars, i, Detached(vars[i].cached), x);
      }
    }
  }

  /** What the destroyed objects or the dropped handle point at is met by the traversal. */
  lemma TouchedIsMet(heap: Heap, root: Handle, x: Ref)
    requires Closed(heap) && Points(heap, root) && root.Attached?
    requires SumOcc(heap, DestroySet(heap, root), x) + Occ([root], x) > 0
    ensures x in RootTally(heap, root)
  {
    var d := DestroySet(heap, root);
    var t := RootTally(heap, root);
    TraversalFacts(heap, ReleaseFlags, root);
    OccSingle(root, x);
    if Occ([root], x) == 0 {
      SumOccZero(heap, d, x);
      var o :| o in d && Fan(heap, o, x) != 0;
      ClosedStep(heap, t.Keys, o, x);
    }
  }

  /** A survivor that lost a reference in the release still has a holder. */
  lemma TouchedSurvivorHeld(heap: Heap, vars: seq<Handle>, i: nat, x: Ref)
    requires Consistent(heap, vars) && Closed(heap)
    requires i < |vars| && vars[i].Attached? && Points(heap, vars[i])
    requires x in heap && x !in DestroySet(heap, vars[i])
    requires SumOcc(heap, DestroySet(heap, vars[i]), x) + Occ([vars[i]], x) > 0
    ensures Occ(Cleared(vars, i), x) + SumOcc(heap, heap.Keys - DestroySet(heap, vars[i]), x) >= 1
  {
    var root := vars[i];
    var d := DestroySet(heap, root);
    var t := RootTally(heap, root);
    TouchedIsMet(heap, root, x);
    if x in Kept(heap, root) {
      Surplus(heap, vars, i, x);
      SumOccSubset(heap, heap.Keys - t.Keys, heap.Keys - d, x);
    } else {
      var k :| k in Kept(heap, root) && x in ReachedFrom(heap, k);
      var y := ReachHasHolder(heap, k, x);
      assert y !in d;
      SumOccAtLeast(heap, heap.Keys - d, y, x);
    }
  }

  /**
   * The release is sound: nothing outside the destroyed set (other than the
   * dropped handle) holds a destroyed object; after destroying the set and
   * dropping those references the reference-count invariant holds for the
   * remaining variables; and every survivor that lost a reference keeps a
   * positive count, so no destructor deletes anything beyond the set.
   */
  lemma ReleaseSound(heap: Heap, vars: seq<Handle>, i: nat)
    requires Consistent(heap, vars) && Closed(heap)
    requires i < |vars| && vars[i].Attached? && Points(heap, vars[i])
    ensures var d := DestroySet(heap, vars[i]);
      && d <= heap.Keys
      && (forall x, o :: x in d && o in heap && o !in d ==> Fan(heap, o, x) == 0)
      && (forall x :: x in d ==> Occ(Cleared(vars, i), x) == 0)
      && Consistent(ReleasedHeap(heap, vars[i], d), Cleared(vars, i))
      && (forall x :: x in heap && x !in d && SumOcc(heap, d, x) + Occ([vars[i]], x) > 0 ==>
            ReleasedHeap(heap, vars[i], d)[x].refCount >= 1)
  {
    var root := vars[i];
    var d := DestroySet(heap, root);
    forall x, o | x in d && o in heap && o !in d ensures Fan(heap, o, x) == 0 {
      DestroyedHeldOnlyInside(heap, vars, i, x, o);
    }
    forall x | x in d ensures Occ(Cleared(vars, i), x) == 0 {
      if root.ref in d {
        Surplus(heap, vars, i, x);
      } else {
        DestroyedHeldOnlyInside(heap, vars, i, x, root.ref);
      }
    }
    ReleasedConsistent(heap, vars, i, d);
    forall x | x in heap && x !in d && SumOcc(heap, d, x) + Occ([root], x) > 0
      ensures ReleasedHeap(heap, root, d)[x].refCount >= 1
    {
      SurvivorCount(heap, vars, i, d, x);
      TouchedSurvivorHeld(heap, vars, i, x);
    }
  }
}
