/**
 * The seven subgraph-release scenarios of the versioning test, on concrete
 * heaps. Every object has the test's class A_00 and one reference field
 * vector; object n has address n, id n and i_ == n, so the set of erased
 * i_ values is the set of destroyed addresses.
 *
 * Traversals are not unfolded on the concrete heaps. Instead, a derivation
 * chain lists the objects met together with the handle that leads to each;
 * a chain closed under fields is exactly what the traversal meets, and its
 * hits are the handle counts over the chain. The checks on a chain are
 * recursive so that they evaluate on literal heaps.
 */
module Scenarios {
  import opened ObjId
  import opened Ptr
  import opened Counting
  import opened Codec
  import opened Serializer
  import opened SubgraphRelease

  // ---------------------------------------------------------------------------
  // Derivation chains
  // ---------------------------------------------------------------------------

  /** How an object of a chain is reached: through a seed handle, or field k of an earlier chain object. */
  datatype Step = Seed(k: nat) | Field(j: nat, k: nat)

  /** Chain object i is live and reached as `via[i]` says. */
  predicate StepOk(heap: Heap, seeds: seq<Handle>, chain: seq<Ref>, via: seq<Step>, i: nat)
    requires i < |chain| == |via|
  {
    && chain[i] in heap
    && match via[i]
       case Seed(k) => k < |seeds| && seeds[k].Attached? && seeds[k].ref == chain[i]
       case Field(j, k) =>
         && j < i && chain[j] in heap && k < |heap[chain[j]].fields|
         && heap[chain[j]].fields[k].Attached? && heap[chain[j]].fields[k].ref == chain[i]
  }

  predicate DerivedTo(heap: Heap, seeds: seq<Handle>, chain: seq<Ref>, via: seq<Step>, n: nat)
    requires n <= |chain| == |via|
  {
    n == 0 || (DerivedTo(heap, seeds, chain, via, n - 1) && StepOk(heap, seeds, chain, via, n - 1))
  }

  /** Each chain object is live and reached from a seed or from an earlier chain object. */
  predicate Derives(heap: Heap, seeds: seq<Handle>, chain: seq<Ref>, via: seq<Step>) {
    |via| == |chain| && DerivedTo(heap, seeds, chain, via, |chain|)
  }

  lemma {:induction false} DerivedAt(heap: Heap, seeds: seq<Handle>, chain: seq<Ref>, via: seq<Step>, n: nat, i: nat)
    requires n <= |chain| == |via| && DerivedTo(heap, seeds, chain, via, n) && i < n
    ensures StepOk(heap, seeds, chain, via, i)
    decreases n
  {
    if i < n - 1 {
      DerivedAt(heap, seeds, chain, via, n - 1, i);
    }
  }

  /** Every attached handle of `hs` holds an object of the chain. */
  predicate Inside(hs: seq<Handle>, chain: seq<Ref>) {
    hs == [] || ((hs[0].Attached? ==> hs[0].ref in chain) && Inside(hs[1..], chain))
  }

  lemma {:induction false} InsideAt(hs: seq<Handle>, chain: seq<Ref>, k: nat)
    requires Inside(hs, chain) && k < |hs| && hs[k].Attached?
    ensures hs[k].ref in chain
    decreases k
  {
    if k > 0 {
      assert hs[1..][k - 1] == hs[k];
      InsideAt(hs[1..], chain, k - 1);
    }
  }

  predicate ShutTo(heap: Heap, chain: seq<Ref>, n: nat)
    requires n <= |chain|
  {
    n == 0 || (ShutTo(heap, chain, n - 1) && chain[n - 1] in heap && Inside(heap[chain[n - 1]].fields, chain))
  }

  /** Every seed, and every field of every chain object, holds null or an object of the chain. */
  predicate Shut(heap: Heap, seeds: seq<Handle>, chain: seq<Ref>) {
    Inside(seeds, chain) && ShutTo(heap, chain, |chain|)
  }

  lemma {:induction false} ShutAt(heap: Heap, chain: seq<Ref>, n: nat, i: nat)
    requires n <= |chain| && ShutTo(heap, chain, n) && i < n
    ensures chain[i] in heap && Inside(heap[chain[i]].fields, chain)
    decreases n
  {
    if i < n - 1 {
      ShutAt(heap, chain, n - 1, i);
    }
  }

  /** No object occurs twice, checked element by element. */
  predicate Distinct(chain: seq<Ref>) {
    chain == [] || (chain[0] !in chain[1..] && Distinct(chain[1..]))
  }

  lemma {:induction false} DistinctNoDup(chain: seq<Ref>)
    requires Distinct(chain)
    ensures NoDup(chain)
    decreases |chain|
  {
    if chain != [] {
      DistinctNoDup(chain[1..]);
      forall i, j | 0 <= i < j < |chain| ensures chain[i] != chain[j] {
        assert chain[j] == chain[1..][j - 1];
        if i > 0 {
          assert chain[i] == chain[1..][i - 1];
        }
      }
    }
  }

  /** A field-closed set holding every seed target. */
  ghost predicate Covers(heap: Heap, seeds: seq<Handle>, s: set<Ref>) {
    ClosedSet(heap, s) && forall k :: 0 <= k < |seeds| && seeds[k].Attached? ==> seeds[k].ref in s
  }

  lemma {:induction false} ChainIn(heap: Heap, seeds: seq<Handle>, chain: seq<Ref>, via: seq<Step>, s: set<Ref>, i: nat)
    requires Derives(heap, seeds, chain, via) && Covers(heap, seeds, s) && i < |chain|
    ensures chain[i] in s
    decreases i
  {
    DerivedAt(heap, seeds, chain, via, |chain|, i);
    match via[i]
    case Seed(k) =>
    case Field(j, k) =>
      ChainIn(heap, seeds, chain, via, s, j);
      assert FieldsIn(heap, chain[j], s);
  }

  /** A shut derivation chain is the least field-closed set covering its seeds. */
  lemma ChainLeast(heap: Heap, seeds: seq<Handle>, chain: seq<Ref>, via: seq<Step>)
    requires Derives(heap, seeds, chain, via) && Shut(heap, seeds, chain)
    ensures Covers(heap, seeds, Elems(chain))
    ensures forall s :: Covers(heap, seeds, s) ==> Elems(chain) <= s
  {
    forall o | o in Elems(chain) ensures o in heap && FieldsIn(heap, o, Elems(chain)) {
      var i :| 0 <= i < |chain| && chain[i] == o;
      ShutAt(heap, chain, |chain|, i);
      forall k | 0 <= k < |heap[o].fields| && heap[o].fields[k].Attached? ensures heap[o].fields[k].ref in Elems(chain) {
        InsideAt(heap[o].fields, chain, k);
      }
    }
    forall k | 0 <= k < |seeds| && seeds[k].Attached? ensures seeds[k].ref in Elems(chain) {
      InsideAt(seeds, chain, k);
    }
    forall s | Covers(heap, seeds, s) ensures Elems(chain) <= s {
      forall i | 0 <= i < |chain| ensures chain[i] in s {
        ChainIn(heap, seeds, chain, via, s, i);
      }
    }
  }

  /** Two least covering sets are equal. */
  lemma LeastUnique(heap: Heap, seeds: seq<Handle>, s1: set<Ref>, s2: set<Ref>)
    requires Covers(heap, seeds, s1) && forall s :: Covers(heap, seeds, s) ==> s1 <= s
    requires Covers(heap, seeds, s2) && forall s :: Covers(heap, seeds, s) ==> s2 <= s
    ensures s1 == s2
  {
  }

  // ---------------------------------------------------------------------------
  // Hits and counts along a chain
  // ---------------------------------------------------------------------------

  /** The handles of `chain`'s objects' fields that hold `x`, summed along the chain. */
  function FanList(heap: Heap, chain: seq<Ref>, x: Ref): nat {
    if chain == [] then 0 else Fan(heap, chain[0], x) + FanList(heap, chain[1..], x)
  }

  /** Summing over a duplicate-free chain is summing over its set. */
  lemma {:induction false} SumOccAsList(heap: Heap, chain: seq<Ref>, x: Ref)
    requires NoDup(chain)
    ensures SumOcc(heap, Elems(chain), x) == FanList(heap, chain, x)
    decreases |chain|
  {
    if chain == [] {
      assert Elems(chain) == {};
    } else {
      assert Elems(chain) - {chain[0]} == Elems(chain[1..]) by {
        forall y ensures y in Elems(chain) - {chain[0]} <==> y in Elems(chain[1..]) {
          if y in Elems(chain[1..]) {
            var i :| 0 <= i < |chain[1..]| && chain[1..][i] == y;
            assert chain[i + 1] == y;
          }
          if y in Elems(chain) && y != chain[0] {
            var i :| 0 <= i < |chain| && chain[i] == y;
            assert chain[1..][i - 1] == y;
          }
        }
      }
      assert chain[0] in Elems(chain);
      SumOccRemove(heap, Elems(chain), chain[0], x);
      SumOccAsList(heap, chain[1..], x);
    }
  }

  /** Whether the root handle holds `x`, as a number. */
  function RootHit(root: Handle, x: Ref): nat {
    if root.Attached? && root.ref == x then 1 else 0
  }

  lemma RootHitOcc(root: Handle, x: Ref)
    ensures Occ([root], x) == RootHit(root, x)
  {
    assert [root][1..] == [];
  }

  /** The hits the release traversal gives `x` when it meets `chain`: the root's handle and the chain's fields. */
  function Hit(heap: Heap, root: Handle, chain: seq<Ref>, x: Ref): nat {
    RootHit(root, x) + FanList(heap, chain, x)
  }

  /** The hits of the objects of `rest`. */
  function HitMap(heap: Heap, root: Handle, chain: seq<Ref>, rest: seq<Ref>): map<Ref, nat> {
    if rest == [] then map[] else HitMap(heap, root, chain, rest[1..])[rest[0] := Hit(heap, root, chain, rest[0])]
  }

  lemma {:induction false} HitMapFacts(heap: Heap, root: Handle, chain: seq<Ref>, rest: seq<Ref>)
    ensures var m := HitMap(heap, root, chain, rest);
      m.Keys == Elems(rest) && forall x :: x in m ==> m[x] == Hit(heap, root, chain, x)
    decreases |rest|
  {
    if rest != [] {
      assert Elems(rest) == Elems(rest[1..]) + {rest[0]};
      HitMapFacts(heap, root, chain, rest[1..]);
    }
  }

  /** The release traversal meets the least covering set of the root, once per handle holding each object. */
  lemma RootTallyLeast(heap: Heap, root: Handle)
    requires Closed(heap) && Points(heap, root)
    ensures var t := RootTally(heap, root);
      && Covers(heap, [root], t.Keys)
      && (forall s :: Covers(heap, [root], s) ==> t.Keys <= s)
      && forall x :: Cnt(t, x) == Occ([root], x) + SumOcc(heap, t.Keys, x)
  {
    TraversalFacts(heap, ReleaseFlags, root);
    var t := RootTally(heap, root);
    assert [root][0] == root;
    forall s | Covers(heap, [root], s) ensures t.Keys <= s {
      assert root.Attached? ==> root.ref in s;
    }
  }

  /**
   * Writing `root` for release meets exactly the objects of a shut chain
   * derived from it, and hits each once per handle holding it: the root
   * and the chain's fields.
   */
  lemma RootTallyIs(heap: Heap, root: Handle, chain: seq<Ref>, via: seq<Step>)
    requires Closed(heap) && Points(heap, root)
    requires Derives(heap, [root], chain, via) && Shut(heap, [root], chain) && Distinct(chain)
    ensures RootTally(heap, root) == HitMap(heap, root, chain, chain)
  {
    RootTallyLeast(heap, root);
    var t' := RootTally(heap, root);
    var t := HitMap(heap, root, chain, chain);
    ChainLeast(heap, [root], chain, via);
    LeastUnique(heap, [root], t'.Keys, Elems(chain));
    DistinctNoDup(chain);
    HitMapFacts(heap, root, chain, chain);
    forall x | x in t ensures t'[x] == t[x] {
      assert Cnt(t', x) == t'[x];
      SumOccAsList(heap, chain, x);
      RootHitOcc(root, x);
    }
  }

  /** Writing a kept object's fields meets exactly the objects of a shut chain derived from them. */
  lemma ReachedFromIs(heap: Heap, k: Ref, chain: seq<Ref>, via: seq<Step>)
    requires Closed(heap) && k in heap
    requires Derives(heap, heap[k].fields, chain, via) && Shut(heap, heap[k].fields, chain)
    ensures ReachedFrom(heap, k) == Elems(chain)
  {
    FieldsTraversalFacts(heap, ReleaseFlags, heap[k].fields);
    var t := WriteFields(heap, ReleaseFlags, EmptyWriter, heap[k].fields).1.tally;
    ChainLeast(heap, heap[k].fields, chain, via);
    LeastUnique(heap, heap[k].fields, t.Keys, Elems(chain));
  }

  /** The count `x` keeps once the objects of `d` are destroyed and the root handle is cleared. */
  function Remaining(heap: Heap, root: Handle, d: seq<Ref>, x: Ref): int
    requires x in heap
  {
    heap[x].refCount - FanList(heap, d, x) - RootHit(root, x)
  }

  /** `after` maps each object of `keys` to itself with its remaining count. */
  predicate SurvivorsAre(heap: Heap, root: Handle, d: seq<Ref>, keys: seq<Ref>, after: Heap) {
    keys == [] ||
      (&& keys[0] in heap && keys[0] in after
       && after[keys[0]] == heap[keys[0]].(refCount := Remaining(heap, root, d, keys[0]))
       && SurvivorsAre(heap, root, d, keys[1..], after))
  }

  lemma {:induction false} SurvivorsAt(heap: Heap, root: Handle, d: seq<Ref>, keys: seq<Ref>, after: Heap, x: Ref)
    requires SurvivorsAre(heap, root, d, keys, after) && x in keys
    ensures x in heap && x in after && after[x] == heap[x].(refCount := Remaining(heap, root, d, x))
    decreases |keys|
  {
    if x != keys[0] {
      assert x in keys[1..] by {
        var i :| 0 <= i < |keys| && keys[i] == x;
        assert keys[1..][i - 1] == x;
      }
      SurvivorsAt(heap, root, d, keys[1..], after, x);
    }
  }

  /** The heap after the release, checked along lists of the destroyed and the surviving objects. */
  lemma ReleasedHeapIs(heap: Heap, root: Handle, d: seq<Ref>, keys: seq<Ref>, after: Heap)
    requires Distinct(d) && Elems(keys) == heap.Keys - Elems(d)
    requires after.Keys == Elems(keys) && SurvivorsAre(heap, root, d, keys, after)
    ensures ReleasedHeap(heap, root, Elems(d)) == after
  {
    DistinctNoDup(d);
    var r := ReleasedHeap(heap, root, Elems(d));
    forall x | x in r ensures r[x] == after[x] {
      assert x in Elems(keys);
      SurvivorsAt(heap, root, d, keys, after, x);
      SumOccAsList(heap, d, x);
      RootHitOcc(root, x);
    }
  }

  // ---------------------------------------------------------------------------
  // The destroyed set, computed along lists
  // ---------------------------------------------------------------------------

  /** The release's first test: `x` is live and its count equals its hits. */
  predicate IsCand(heap: Heap, root: Handle, chain: seq<Ref>, x: Ref) {
    x in heap && heap[x].refCount == Hit(heap, root, chain, x)
  }

  /** `cands` and `kept` list, in order, the objects of `rest` that pass and that fail the first test. */
  predicate Split(heap: Heap, root: Handle, chain: seq<Ref>, rest: seq<Ref>, cands: seq<Ref>, kept: seq<Ref>)
    decreases |rest|
  {
    if rest == [] then cands == [] && kept == []
    else if IsCand(heap, root, chain, rest[0]) then
      cands != [] && cands[0] == rest[0] && Split(heap, root, chain, rest[1..], cands[1..], kept)
    else
      kept != [] && kept[0] == rest[0] && Split(heap, root, chain, rest[1..], cands, kept[1..])
  }

  lemma {:induction false} SplitFacts(heap: Heap, root: Handle, chain: seq<Ref>, rest: seq<Ref>, cands: seq<Ref>, kept: seq<Ref>, x: Ref)
    requires Split(heap, root, chain, rest, cands, kept)
    ensures x in cands <==> x in rest && IsCand(heap, root, chain, x)
    ensures x in kept <==> x in rest && !IsCand(heap, root, chain, x)
    decreases |rest|
  {
    if rest != [] {
      assert x in rest <==> x == rest[0] || x in rest[1..];
      if IsCand(heap, root, chain, rest[0]) {
        SplitFacts(heap, root, chain, rest[1..], cands[1..], kept, x);
        assert x in cands <==> x == cands[0] || x in cands[1..];
      } else {
        SplitFacts(heap, root, chain, rest[1..], cands, kept[1..], x);
        assert x in kept <==> x == kept[0] || x in kept[1..];
      }
    }
  }

  /** Each kept object comes with a shut chain derived from its fields. */
  predicate ReachesOk(heap: Heap, kept: seq<Ref>, reach: seq<(seq<Ref>, seq<Step>)>) {
    && |reach| == |kept|
    && (kept != [] ==>
          && kept[0] in heap
          && Derives(heap, heap[kept[0]].fields, reach[0].0, reach[0].1)
          && Shut(heap, heap[kept[0]].fields, reach[0].0)
          && ReachesOk(heap, kept[1..], reach[1..]))
  }

  /** Every object of every chain of `reach`. */
  function AllReached(reach: seq<(seq<Ref>, seq<Step>)>): seq<Ref> {
    if reach == [] then [] else reach[0].0 + AllReached(reach[1..])
  }

  /** The candidates no kept object reaches. */
  function Unreached(cands: seq<Ref>, reached: seq<Ref>): seq<Ref> {
    if cands == [] then []
    else if cands[0] in reached then Unreached(cands[1..], reached)
    else [cands[0]] + Unreached(cands[1..], reached)
  }

  lemma {:induction false} UnreachedFacts(cands: seq<Ref>, reached: seq<Ref>, x: Ref)
    ensures x in Unreached(cands, reached) <==> x in cands && x !in reached
    decreases |cands|
  {
    if cands != [] {
      UnreachedFacts(cands[1..], reached, x);
      assert x in cands <==> x == cands[0] || x in cands[1..];
    }
  }

  /** An object is in the union of the kept objects' reaches exactly when one of them reaches it. */
  lemma {:induction false} AllReachedFacts(heap: Heap, kept: seq<Ref>, reach: seq<(seq<Ref>, seq<Step>)>, x: Ref)
    requires Closed(heap) && ReachesOk(heap, kept, reach)
    ensures forall k :: k in kept ==> k in heap
    ensures x in AllReached(reach) <==> exists k :: k in kept && x in ReachedFrom(heap, k)
    decreases |kept|
  {
    if kept != [] {
      AllReachedFacts(heap, kept[1..], reach[1..], x);
      ReachedFromIs(heap, kept[0], reach[0].0, reach[0].1);
      assert forall k :: k in kept <==> k == kept[0] || k in kept[1..];
      assert x in AllReached(reach) <==> x in reach[0].0 || x in AllReached(reach[1..]);
    }
  }

  /**
   * The release destroys exactly the candidates (objects met whose count
   * equals their hits) that no kept object's chain holds, given a shut chain
   * for the root and one for each kept object.
   */
  lemma DestroySetIs(heap: Heap, root: Handle, chain: seq<Ref>, via: seq<Step>,
                      cands: seq<Ref>, kept: seq<Ref>, reach: seq<(seq<Ref>, seq<Step>)>)
    requires Closed(heap) && Points(heap, root)
    requires Derives(heap, [root], chain, via) && Shut(heap, [root], chain) && Distinct(chain)
    requires Split(heap, root, chain, chain, cands, kept) && ReachesOk(heap, kept, reach)
    ensures DestroySet(heap, root) == Elems(Unreached(cands, AllReached(reach)))
  {
    RootTallyIs(heap, root, chain, via);
    HitMapFacts(heap, root, chain, chain);
    assert Candidates(heap, root) == Elems(cands) by {
      forall x ensures x in Candidates(heap, root) <==> x in cands {
        SplitFacts(heap, root, chain, chain, cands, kept, x);
      }
    }
    assert Kept(heap, root) == Elems(kept) by {
      forall x ensures x in Kept(heap, root) <==> x in kept {
        SplitFacts(heap, root, chain, chain, cands, kept, x);
      }
    }
    forall x ensures x in DestroySet(heap, root) <==> x in Unreached(cands, AllReached(reach)) {
      UnreachedFacts(cands, AllReached(reach), x);
      AllReachedFacts(heap, kept, reach, x);
    }
  }

  // ---------------------------------------------------------------------------
  // The test's objects
  // ---------------------------------------------------------------------------
  /** The test class A_00 (its id is a hash; any value serves). */
  const AClass: ClassId := 1

  /** Object n of a scenario: count rc, id n, the given reference fields. */
  function A(n: nat, rc: int, fields: seq<Handle>): Object {
    Object(rc, Identity(n, Loaded, 0), AClass, fields)
  }

  /** A handle attached to object n. */
  function P(n: Ref): Handle {
    Attached(n, DefaultCache)
  }

  /** No object left. */
  function Gone(): Heap {
    map[]
  }

  /** Two objects left: 1 holds 2, and each has one holder. */
  function HeapAB(): Heap {
    map[1 := A(1, 1, [P(2)]), 2 := A(2, 1, [])]
  }

  // ---------------------------------------------------------------------------
  // Scenarios 1 and 2: a -> b <- c <-> d
  // ---------------------------------------------------------------------------
  /** a(1) and b(2); d(3) and c(4) hold each other, c holds b. Variables a and d1. */
  function Heap1(): Heap {
    map[1 := A(1, 1, [P(2)]), 2 := A(2, 2, []), 3 := A(3, 2, [P(4)]), 4 := A(4, 1, [P(2), P(3)])]
  }

  /** Scenario 1 after a is dropped. */
  function Heap1After(): Heap {
    map[2 := A(2, 1, []), 3 := A(3, 2, [P(4)]), 4 := A(4, 1, [P(2), P(3)])]
  }

  lemma Checks1A()
    ensures Closed(Heap1())
    ensures Derives(Heap1(), [P(1)], [1, 2], [Seed(0), Field(0, 0)]) && Shut(Heap1(), [P(1)], [1, 2]) && Distinct([1, 2])
  {
  }

  lemma Cand1A_1() ensures IsCand(Heap1(), P(1), [1, 2], 1) {}

  lemma Kept1A_2() ensures !IsCand(Heap1(), P(1), [1, 2], 2) {}

  lemma Split1A_1()
    ensures Split(Heap1(), P(1), [1, 2], [2], [], [2])
  {
    Kept1A_2();
  }

  lemma Split1A()
    ensures Split(Heap1(), P(1), [1, 2], [1, 2], [1], [2])
  {
    Cand1A_1();
    Split1A_1();
  }

  lemma Reach1A()
    ensures ReachesOk(Heap1(), [2], [([], [])])
  {
  }

  lemma Unreached1A()
    ensures DestroySet(Heap1(), P(1)) == Elems(Unreached([1], AllReached([([], [])])))
  {
    Checks1A();
    Split1A();
    Reach1A();
    DestroySetIs(Heap1(), P(1), [1, 2], [Seed(0), Field(0, 0)], [1], [2], [([], [])]);
  }

  lemma Destroy1A()
    ensures DestroySet(Heap1(), P(1)) == {1}
  {
    Unreached1A();
    assert Unreached([1], AllReached([([], [])])) == [1];
    assert Elems([1]) == {1};
  }

  lemma Survive1A()
    ensures Heap1After().Keys == Elems([2, 3, 4])
    ensures SurvivorsAre(Heap1(), P(1), [1], [2, 3, 4], Heap1After())
  {
  }

  lemma Released1A()
    ensures ReleasedHeap(Heap1(), P(1), {1}) == Heap1After()
  {
    assert Elems([1]) == {1} && Distinct([1]) && Elems([2, 3, 4]) == Heap1().Keys - Elems([1]);
    Survive1A();
    ReleasedHeapIs(Heap1(), P(1), [1], [2, 3, 4], Heap1After());
  }

  lemma Checks1B()
    ensures Closed(Heap1After())
    ensures Derives(Heap1After(), [P(3)], [3, 4, 2], [Seed(0), Field(0, 0), Field(1, 0)]) && Shut(Heap1After(), [P(3)], [3, 4, 2]) && Distinct([3, 4, 2])
  {
  }

  lemma Cand1B_3() ensures IsCand(Heap1After(), P(3), [3, 4, 2], 3) {}

  lemma Cand1B_4() ensures IsCand(Heap1After(), P(3), [3, 4, 2], 4) {}

  lemma Cand1B_2() ensures IsCand(Heap1After(), P(3), [3, 4, 2], 2) {}

  lemma Split1B_2()
    ensures Split(Heap1After(), P(3), [3, 4, 2], [2], [2], [])
  {
    Cand1B_2();
  }

  lemma Split1B_1()
    ensures Split(Heap1After(), P(3), [3, 4, 2], [4, 2], [4, 2], [])
  {
    Cand1B_4();
    Split1B_2();
  }

  lemma Split1B()
    ensures Split(Heap1After(), P(3), [3, 4, 2], [3, 4, 2], [3, 4, 2], [])
  {
    Cand1B_3();
    Split1B_1();
  }

  lemma Reach1B()
    ensures ReachesOk(Heap1After(), [], [])
  {
  }

  lemma Unreached1B()
    ensures DestroySet(Heap1After(), P(3)) == Elems(Unreached([3, 4, 2], AllReached([])))
  {
    Checks1B();
    Split1B();
    Reach1B();
    DestroySetIs(Heap1After(), P(3), [3, 4, 2], [Seed(0), Field(0, 0), Field(1, 0)], [3, 4, 2], [], []);
  }

  lemma Destroy1B()
    ensures DestroySet(Heap1After(), P(3)) == {2, 3, 4}
  {
    Unreached1B();
    assert Unreached([3, 4, 2], AllReached([])) == [3, 4, 2];
    assert Elems([3, 4, 2]) == {2, 3, 4};
  }

  lemma Survive1B()
    ensures Gone().Keys == Elems([])
    ensures SurvivorsAre(Heap1After(), P(3), [3, 4, 2], [], Gone())
  {
  }

  lemma Released1B()
    ensures ReleasedHeap(Heap1After(), P(3), {2, 3, 4}) == Gone()
  {
    assert Elems([3, 4, 2]) == {2, 3, 4} && Distinct([3, 4, 2]) && Elems([]) == Heap1After().Keys - Elems([3, 4, 2]);
    Survive1B();
    ReleasedHeapIs(Heap1After(), P(3), [3, 4, 2], [], Gone());
  }

  lemma Checks2A()
    ensures Closed(Heap1())
    ensures Derives(Heap1(), [P(3)], [3, 4, 2], [Seed(0), Field(0, 0), Field(1, 0)]) && Shut(Heap1(), [P(3)], [3, 4, 2]) && Distinct([3, 4, 2])
  {
  }

  lemma Cand2A_3() ensures IsCand(Heap1(), P(3), [3, 4, 2], 3) {}

  lemma Cand2A_4() ensures IsCand(Heap1(), P(3), [3, 4, 2], 4) {}

  lemma Kept2A_2() ensures !IsCand(Heap1(), P(3), [3, 4, 2], 2) {}

  lemma Split2A_2()
    ensures Split(Heap1(), P(3), [3, 4, 2], [2], [], [2])
  {
    Kept2A_2();
  }

  lemma Split2A_1()
    ensures Split(Heap1(), P(3), [3, 4, 2], [4, 2], [4], [2])
  {
    Cand2A_4();
    Split2A_2();
  }

  lemma Split2A()
    ensures Split(Heap1(), P(3), [3, 4, 2], [3, 4, 2], [3, 4], [2])
  {
    Cand2A_3();
    Split2A_1();
  }

  lemma Reach2A()
    ensures ReachesOk(Heap1(), [2], [([], [])])
  {
  }

  lemma Unreached2A()
    ensures DestroySet(Heap1(), P(3)) == Elems(Unreached([3, 4], AllReached([([], [])])))
  {
    Checks2A();
    Split2A();
    Reach2A();
    DestroySetIs(Heap1(), P(3), [3, 4, 2], [Seed(0), Field(0, 0), Field(1, 0)], [3, 4], [2], [([], [])]);
  }

  lemma Destroy2A()
    ensures DestroySet(Heap1(), P(3)) == {3, 4}
  {
    Unreached2A();
    assert Unreached([3, 4], AllReached([([], [])])) == [3, 4];
    assert Elems([3, 4]) == {3, 4};
  }

  lemma Survive2A()
    ensures HeapAB().Keys == Elems([1, 2])
    ensures SurvivorsAre(Heap1(), P(3), [3, 4], [1, 2], HeapAB())
  {
  }

  lemma Released2A()
    ensures ReleasedHeap(Heap1(), P(3), {3, 4}) == HeapAB()
  {
    assert Elems([3, 4]) == {3, 4} && Distinct([3, 4]) && Elems([1, 2]) == Heap1().Keys - Elems([3, 4]);
    Survive2A();
    ReleasedHeapIs(Heap1(), P(3), [3, 4], [1, 2], HeapAB());
  }

  lemma ChecksAB()
    ensures Closed(HeapAB())
    ensures Derives(HeapAB(), [P(1)], [1, 2], [Seed(0), Field(0, 0)]) && Shut(HeapAB(), [P(1)], [1, 2]) && Distinct([1, 2])
  {
  }

  lemma CandAB_1() ensures IsCand(HeapAB(), P(1), [1, 2], 1) {}

  lemma CandAB_2() ensures IsCand(HeapAB(), P(1), [1, 2], 2) {}

  lemma SplitAB_1()
    ensures Split(HeapAB(), P(1), [1, 2], [2], [2], [])
  {
    CandAB_2();
  }

  lemma SplitAB()
    ensures Split(HeapAB(), P(1), [1, 2], [1, 2], [1, 2], [])
  {
    CandAB_1();
    SplitAB_1();
  }

  lemma ReachAB()
    ensures ReachesOk(HeapAB(), [], [])
  {
  }

  lemma UnreachedAB()
    ensures DestroySet(HeapAB(), P(1)) == Elems(Unreached([1, 2], AllReached([])))
  {
    ChecksAB();
    SplitAB();
    ReachAB();
    DestroySetIs(HeapAB(), P(1), [1, 2], [Seed(0), Field(0, 0)], [1, 2], [], []);
  }

  lemma DestroyAB()
    ensures DestroySet(HeapAB(), P(1)) == {1, 2}
  {
    UnreachedAB();
    assert Unreached([1, 2], AllReached([])) == [1, 2];
    assert Elems([1, 2]) == {1, 2};
  }

  lemma SurviveAB()
    ensures Gone().Keys == Elems([])
    ensures SurvivorsAre(HeapAB(), P(1), [1, 2], [], Gone())
  {
  }

  lemma ReleasedAB()
    ensures ReleasedHeap(HeapAB(), P(1), {1, 2}) == Gone()
  {
    assert Elems([1, 2]) == {1, 2} && Distinct([1, 2]) && Elems([]) == HeapAB().Keys - Elems([1, 2]);
    SurviveAB();
    ReleasedHeapIs(HeapAB(), P(1), [1, 2], [], Gone());
  }

  /** Scenario 1: dropping a destroys a alone and leaves b with one holder. */
  lemma Scenario1DropA()
    ensures DestroySet(Heap1(), P(1)) == {1}
    ensures ReleasedHeap(Heap1(), P(1), {1}) == Heap1After()
  {
    Destroy1A();
    Released1A();
  }

  /** Scenario 1, then: dropping d1 destroys c, d and b, and nothing is left. */
  lemma Scenario1DropD()
    ensures DestroySet(Heap1After(), P(3)) == {2, 3, 4}
    ensures ReleasedHeap(Heap1After(), P(3), {2, 3, 4}) == Gone()
  {
    Destroy1B();
    Released1B();
  }

  /** Scenario 2: dropping d1 first destroys the cycle c, d but not b, which a still holds. */
  lemma Scenario2DropD()
    ensures DestroySet(Heap1(), P(3)) == {3, 4}
    ensures ReleasedHeap(Heap1(), P(3), {3, 4}) == HeapAB()
  {
    Destroy2A();
    Released2A();
  }

  /** Scenarios 2, 6 and 7, last step: with a holding b and nothing else left, dropping a destroys both. */
  lemma PairDropA()
    ensures DestroySet(HeapAB(), P(1)) == {1, 2}
    ensures ReleasedHeap(HeapAB(), P(1), {1, 2}) == Gone()
  {
    DestroyAB();
    ReleasedAB();
  }

  // ---------------------------------------------------------------------------
  // Scenario 3: a <-> b, dropped through a
  // ---------------------------------------------------------------------------
  /** a(1) and b(2) hold each other. Variable a1. */
  function Heap3(): Heap {
    map[1 := A(1, 2, [P(2)]), 2 := A(2, 1, [P(1)])]
  }

  lemma Checks3()
    ensures Closed(Heap3())
    ensures Derives(Heap3(), [P(1)], [1, 2], [Seed(0), Field(0, 0)]) && Shut(Heap3(), [P(1)], [1, 2]) && Distinct([1, 2])
  {
  }

  lemma Cand3_1() ensures IsCand(Heap3(), P(1), [1, 2], 1) {}

  lemma Cand3_2() ensures IsCand(Heap3(), P(1), [1, 2], 2) {}

  lemma Split3_1()
    ensures Split(Heap3(), P(1), [1, 2], [2], [2], [])
  {
    Cand3_2();
  }

  lemma Split3()
    ensures Split(Heap3(), P(1), [1, 2], [1, 2], [1, 2], [])
  {
    Cand3_1();
    Split3_1();
  }

  lemma Reach3()
    ensures ReachesOk(Heap3(), [], [])
  {
  }

  lemma Unreached3()
    ensures DestroySet(Heap3(), P(1)) == Elems(Unreached([1, 2], AllReached([])))
  {
    Checks3();
    Split3();
    Reach3();
    DestroySetIs(Heap3(), P(1), [1, 2], [Seed(0), Field(0, 0)], [1, 2], [], []);
  }

  lemma Destroy3()
    ensures DestroySet(Heap3(), P(1)) == {1, 2}
  {
    Unreached3();
    assert Unreached([1, 2], AllReached([])) == [1, 2];
    assert Elems([1, 2]) == {1, 2};
  }

  lemma Survive3()
    ensures Gone().Keys == Elems([])
    ensures SurvivorsAre(Heap3(), P(1), [1, 2], [], Gone())
  {
  }

  lemma Released3()
    ensures ReleasedHeap(Heap3(), P(1), {1, 2}) == Gone()
  {
    assert Elems([1, 2]) == {1, 2} && Distinct([1, 2]) && Elems([]) == Heap3().Keys - Elems([1, 2]);
    Survive3();
    ReleasedHeapIs(Heap3(), P(1), [1, 2], [], Gone());
  }

  /** Scenario 3: dropping a1 destroys the whole cycle. */
  lemma Scenario3DropA()
    ensures DestroySet(Heap3(), P(1)) == {1, 2}
    ensures ReleasedHeap(Heap3(), P(1), {1, 2}) == Gone()
  {
    Destroy3();
    Released3();
  }

  /**
   * The block's own delete pass over that set, in whichever order the domain
   * lists it, decrements an object it has already deleted: a and b hold each
   * other.
   */
  lemma Scenario3DeleteTouchesFreed(order: seq<Ref>)
    requires Elems(order) == DestroySet(Heap3(), P(1))
    ensures FreedTouched(Heap3(), order, {}) != {}
  {
    Destroy3();
    assert Fan(Heap3(), 1, 2) == 1 && Fan(Heap3(), 2, 1) == 1;
    assert HoldsNext(Heap3(), [1, 2], 0) && HoldsNext(Heap3(), [1, 2], 1);
    CycleTouchesFreed(Heap3(), order, [1, 2]);
  }

  // ---------------------------------------------------------------------------
  // Scenario 4: a -> c -> b -> a
  // ---------------------------------------------------------------------------
  /** The cycle a(1) -> c(3) -> b(2) -> a. Variables a1 and c1. */
  function Heap4(): Heap {
    map[1 := A(1, 2, [P(3)]), 2 := A(2, 1, [P(1)]), 3 := A(3, 2, [P(2)])]
  }

  /** Scenario 4 after a1 is dropped. */
  function Heap4After(): Heap {
    map[1 := A(1, 1, [P(3)]), 2 := A(2, 1, [P(1)]), 3 := A(3, 2, [P(2)])]
  }

  lemma Checks4A()
    ensures Closed(Heap4())
    ensures Derives(Heap4(), [P(1)], [1, 3, 2], [Seed(0), Field(0, 0), Field(1, 0)]) && Shut(Heap4(), [P(1)], [1, 3, 2]) && Distinct([1, 3, 2])
  {
  }

  lemma Cand4A_1() ensures IsCand(Heap4(), P(1), [1, 3, 2], 1) {}

  lemma Kept4A_3() ensures !IsCand(Heap4(), P(1), [1, 3, 2], 3) {}

  lemma Cand4A_2() ensures IsCand(Heap4(), P(1), [1, 3, 2], 2) {}

  lemma Split4A_2()
    ensures Split(Heap4(), P(1), [1, 3, 2], [2], [2], [])
  {
    Cand4A_2();
  }

  lemma Split4A_1()
    ensures Split(Heap4(), P(1), [1, 3, 2], [3, 2], [2], [3])
  {
    Kept4A_3();
    Split4A_2();
  }

  lemma Split4A()
    ensures Split(Heap4(), P(1), [1, 3, 2], [1, 3, 2], [1, 2], [3])
  {
    Cand4A_1();
    Split4A_1();
  }

  lemma Reach4A()
    ensures ReachesOk(Heap4(), [3], [([2, 1, 3], [Seed(0), Field(0, 0), Field(1, 0)])])
  {
  }

  lemma Unreached4A()
    ensures DestroySet(Heap4(), P(1)) == Elems(Unreached([1, 2], AllReached([([2, 1, 3], [Seed(0), Field(0, 0), Field(1, 0)])])))
  {
    Checks4A();
    Split4A();
    Reach4A();
    DestroySetIs(Heap4(), P(1), [1, 3, 2], [Seed(0), Field(0, 0), Field(1, 0)], [1, 2], [3], [([2, 1, 3], [Seed(0), Field(0, 0), Field(1, 0)])]);
  }

  lemma Destroy4A()
    ensures DestroySet(Heap4(), P(1)) == {}
  {
    Unreached4A();
    assert Unreached([1, 2], AllReached([([2, 1, 3], [Seed(0), Field(0, 0), Field(1, 0)])])) == [];
    assert Elems([]) == {};
  }

  lemma Survive4A()
    ensures Heap4After().Keys == Elems([1, 2, 3])
    ensures SurvivorsAre(Heap4(), P(1), [], [1, 2, 3], Heap4After())
  {
  }

  lemma Released4A()
    ensures ReleasedHeap(Heap4(), P(1), {}) == Heap4After()
  {
    assert Elems([]) == {} && Distinct([]) && Elems([1, 2, 3]) == Heap4().Keys - Elems([]);
    Survive4A();
    ReleasedHeapIs(Heap4(), P(1), [], [1, 2, 3], Heap4After());
  }

  lemma Checks4B()
    ensures Closed(Heap4After())
    ensures Derives(Heap4After(), [P(3)], [3, 2, 1], [Seed(0), Field(0, 0), Field(1, 0)]) && Shut(Heap4After(), [P(3)], [3, 2, 1]) && Distinct([3, 2, 1])
  {
  }

  lemma Cand4B_3() ensures IsCand(Heap4After(), P(3), [3, 2, 1], 3) {}

  lemma Cand4B_2() ensures IsCand(Heap4After(), P(3), [3, 2, 1], 2) {}

  lemma Cand4B_1() ensures IsCand(Heap4After(), P(3), [3, 2, 1], 1) {}

  lemma Split4B_2()
    ensures Split(Heap4After(), P(3), [3, 2, 1], [1], [1], [])
  {
    Cand4B_1();
  }

  lemma Split4B_1()
    ensures Split(Heap4After(), P(3), [3, 2, 1], [2, 1], [2, 1], [])
  {
    Cand4B_2();
    Split4B_2();
  }

  lemma Split4B()
    ensures Split(Heap4After(), P(3), [3, 2, 1], [3, 2, 1], [3, 2, 1], [])
  {
    Cand4B_3();
    Split4B_1();
  }

  lemma Reach4B()
    ensures ReachesOk(Heap4After(), [], [])
  {
  }

  lemma Unreached4B()
    ensures DestroySet(Heap4After(), P(3)) == Elems(Unreached([3, 2, 1], AllReached([])))
  {
    Checks4B();
    Split4B();
    Reach4B();
    DestroySetIs(Heap4After(), P(3), [3, 2, 1], [Seed(0), Field(0, 0), Field(1, 0)], [3, 2, 1], [], []);
  }

  lemma Destroy4B()
    ensures DestroySet(Heap4After(), P(3)) == {1, 2, 3}
  {
    Unreached4B();
    assert Unreached([3, 2, 1], AllReached([])) == [3, 2, 1];
    assert Elems([3, 2, 1]) == {1, 2, 3};
  }

  lemma Survive4B()
    ensures Gone().Keys == Elems([])
    ensures SurvivorsAre(Heap4After(), P(3), [3, 2, 1], [], Gone())
  {
  }

  lemma Released4B()
    ensures ReleasedHeap(Heap4After(), P(3), {1, 2, 3}) == Gone()
  {
    assert Elems([3, 2, 1]) == {1, 2, 3} && Distinct([3, 2, 1]) && Elems([]) == Heap4After().Keys - Elems([3, 2, 1]);
    Survive4B();
    ReleasedHeapIs(Heap4After(), P(3), [3, 2, 1], [], Gone());
  }

  /** Scenario 4: dropping a1 destroys nothing, since c1 still holds the cycle. */
  lemma Scenario4DropA()
    ensures DestroySet(Heap4(), P(1)) == {}
    ensures ReleasedHeap(Heap4(), P(1), {}) == Heap4After()
  {
    Destroy4A();
    Released4A();
  }

  /** Scenario 4, then: dropping c1 destroys all three. */
  lemma Scenario4DropC()
    ensures DestroySet(Heap4After(), P(3)) == {1, 2, 3}
    ensures ReleasedHeap(Heap4After(), P(3), {1, 2, 3}) == Gone()
  {
    Destroy4B();
    Released4B();
  }

  // ---------------------------------------------------------------------------
  // Scenario 5: a -> b <-> c
  // ---------------------------------------------------------------------------
  /** a(1) holds b(2); b and c(3) hold each other. Variables a and b3. */
  function Heap5(): Heap {
    map[1 := A(1, 1, [P(2)]), 2 := A(2, 3, [P(3)]), 3 := A(3, 1, [P(2)])]
  }

  /** Scenario 5 after a is dropped. */
  function Heap5After(): Heap {
    map[2 := A(2, 2, [P(3)]), 3 := A(3, 1, [P(2)])]
  }

  lemma Checks5A()
    ensures Closed(Heap5())
    ensures Derives(Heap5(), [P(1)], [1, 2, 3], [Seed(0), Field(0, 0), Field(1, 0)]) && Shut(Heap5(), [P(1)], [1, 2, 3]) && Distinct([1, 2, 3])
  {
  }

  lemma Cand5A_1() ensures IsCand(Heap5(), P(1), [1, 2, 3], 1) {}

  lemma Kept5A_2() ensures !IsCand(Heap5(), P(1), [1, 2, 3], 2) {}

  lemma Cand5A_3() ensures IsCand(Heap5(), P(1), [1, 2, 3], 3) {}

  lemma Split5A_2()
    ensures Split(Heap5(), P(1), [1, 2, 3], [3], [3], [])
  {
    Cand5A_3();
  }

  lemma Split5A_1()
    ensures Split(Heap5(), P(1), [1, 2, 3], [2, 3], [3], [2])
  {
    Kept5A_2();
    Split5A_2();
  }

  lemma Split5A()
    ensures Split(Heap5(), P(1), [1, 2, 3], [1, 2, 3], [1, 3], [2])
  {
    Cand5A_1();
    Split5A_1();
  }

  lemma Reach5A()
    ensures ReachesOk(Heap5(), [2], [([3, 2], [Seed(0), Field(0, 0)])])
  {
  }

  lemma Unreached5A()
    ensures DestroySet(Heap5(), P(1)) == Elems(Unreached([1, 3], AllReached([([3, 2], [Seed(0), Field(0, 0)])])))
  {
    Checks5A();
    Split5A();
    Reach5A();
    DestroySetIs(Heap5(), P(1), [1, 2, 3], [Seed(0), Field(0, 0), Field(1, 0)], [1, 3], [2], [([3, 2], [Seed(0), Field(0, 0)])]);
  }

  lemma Destroy5A()
    ensures DestroySet(Heap5(), P(1)) == {1}
  {
    Unreached5A();
    assert Unreached([1, 3], AllReached([([3, 2], [Seed(0), Field(0, 0)])])) == [1];
    assert Elems([1]) == {1};
  }

  lemma Survive5A()
    ensures Heap5After().Keys == Elems([2, 3])
    ensures SurvivorsAre(Heap5(), P(1), [1], [2, 3], Heap5After())
  {
  }

  lemma Released5A()
    ensures ReleasedHeap(Heap5(), P(1), {1}) == Heap5After()
  {
    assert Elems([1]) == {1} && Distinct([1]) && Elems([2, 3]) == Heap5().Keys - Elems([1]);
    Survive5A();
    ReleasedHeapIs(Heap5(), P(1), [1], [2, 3], Heap5After());
  }

  lemma Checks5B()
    ensures Closed(Heap5After())
    ensures Derives(Heap5After(), [P(2)], [2, 3], [Seed(0), Field(0, 0)]) && Shut(Heap5After(), [P(2)], [2, 3]) && Distinct([2, 3])
  {
  }

  lemma Cand5B_2() ensures IsCand(Heap5After(), P(2), [2, 3], 2) {}

  lemma Cand5B_3() ensures IsCand(Heap5After(), P(2), [2, 3], 3) {}

  lemma Split5B_1()
    ensures Split(Heap5After(), P(2), [2, 3], [3], [3], [])
  {
    Cand5B_3();
  }

  lemma Split5B()
    ensures Split(Heap5After(), P(2), [2, 3], [2, 3], [2, 3], [])
  {
    Cand5B_2();
    Split5B_1();
  }

  lemma Reach5B()
    ensures ReachesOk(Heap5After(), [], [])
  {
  }

  lemma Unreached5B()
    ensures DestroySet(Heap5After(), P(2)) == Elems(Unreached([2, 3], AllReached([])))
  {
    Checks5B();
    Split5B();
    Reach5B();
    DestroySetIs(Heap5After(), P(2), [2, 3], [Seed(0), Field(0, 0)], [2, 3], [], []);
  }

  lemma Destroy5B()
    ensures DestroySet(Heap5After(), P(2)) == {2, 3}
  {
    Unreached5B();
    assert Unreached([2, 3], AllReached([])) == [2, 3];
    assert Elems([2, 3]) == {2, 3};
  }

  lemma Survive5B()
    ensures Gone().Keys == Elems([])
    ensures SurvivorsAre(Heap5After(), P(2), [2, 3], [], Gone())
  {
  }

  lemma Released5B()
    ensures ReleasedHeap(Heap5After(), P(2), {2, 3}) == Gone()
  {
    assert Elems([2, 3]) == {2, 3} && Distinct([2, 3]) && Elems([]) == Heap5After().Keys - Elems([2, 3]);
    Survive5B();
    ReleasedHeapIs(Heap5After(), P(2), [2, 3], [], Gone());
  }

  /** Scenario 5: dropping a destroys a alone. */
  lemma Scenario5DropA()
    ensures DestroySet(Heap5(), P(1)) == {1}
    ensures ReleasedHeap(Heap5(), P(1), {1}) == Heap5After()
  {
    Destroy5A();
    Released5A();
  }

  /** Scenario 5, then: dropping b3 destroys b and c. */
  lemma Scenario5DropB()
    ensures DestroySet(Heap5After(), P(2)) == {2, 3}
    ensures ReleasedHeap(Heap5After(), P(2), {2, 3}) == Gone()
  {
    Destroy5B();
    Released5B();
  }

  // ---------------------------------------------------------------------------
  // Scenario 6: c -> a -> b <- c
  // ---------------------------------------------------------------------------
  /** a(1) holds b(2); c(3) holds a and b. Variables a1 and c. */
  function Heap6(): Heap {
    map[1 := A(1, 2, [P(2)]), 2 := A(2, 2, []), 3 := A(3, 1, [P(1), P(2)])]
  }

  lemma Checks6A()
    ensures Closed(Heap6())
    ensures Derives(Heap6(), [P(3)], [3, 1, 2], [Seed(0), Field(0, 0), Field(0, 1)]) && Shut(Heap6(), [P(3)], [3, 1, 2]) && Distinct([3, 1, 2])
  {
  }

  lemma Cand6A_3() ensures IsCand(Heap6(), P(3), [3, 1, 2], 3) {}

  lemma Kept6A_1() ensures !IsCand(Heap6(), P(3), [3, 1, 2], 1) {}

  lemma Cand6A_2() ensures IsCand(Heap6(), P(3), [3, 1, 2], 2) {}

  lemma Split6A_2()
    ensures Split(Heap6(), P(3), [3, 1, 2], [2], [2], [])
  {
    Cand6A_2();
  }

  lemma Split6A_1()
    ensures Split(Heap6(), P(3), [3, 1, 2], [1, 2], [2], [1])
  {
    Kept6A_1();
    Split6A_2();
  }

  lemma Split6A()
    ensures Split(Heap6(), P(3), [3, 1, 2], [3, 1, 2], [3, 2], [1])
  {
    Cand6A_3();
    Split6A_1();
  }

  lemma Reach6A()
    ensures ReachesOk(Heap6(), [1], [([2], [Seed(0)])])
  {
  }

  lemma Unreached6A()
    ensures DestroySet(Heap6(), P(3)) == Elems(Unreached([3, 2], AllReached([([2], [Seed(0)])])))
  {
    Checks6A();
    Split6A();
    Reach6A();
    DestroySetIs(Heap6(), P(3), [3, 1, 2], [Seed(0), Field(0, 0), Field(0, 1)], [3, 2], [1], [([2], [Seed(0)])]);
  }

  lemma Destroy6A()
    ensures DestroySet(Heap6(), P(3)) == {3}
  {
    Unreached6A();
    assert Unreached([3, 2], AllReached([([2], [Seed(0)])])) == [3];
    assert Elems([3]) == {3};
  }

  lemma Survive6A()
    ensures HeapAB().Keys == Elems([1, 2])
    ensures SurvivorsAre(Heap6(), P(3), [3], [1, 2], HeapAB())
  {
  }

  lemma Released6A()
    ensures ReleasedHeap(Heap6(), P(3), {3}) == HeapAB()
  {
    assert Elems([3]) == {3} && Distinct([3]) && Elems([1, 2]) == Heap6().Keys - Elems([3]);
    Survive6A();
    ReleasedHeapIs(Heap6(), P(3), [3], [1, 2], HeapAB());
  }

  /** Scenario 6: releasing c destroys c alone; a and b are left as in scenario 2. */
  lemma Scenario6ReleaseC()
    ensures DestroySet(Heap6(), P(3)) == {3}
    ensures ReleasedHeap(Heap6(), P(3), {3}) == HeapAB()
  {
    Destroy6A();
    Released6A();
  }

  // ---------------------------------------------------------------------------
  // Scenario 7: c -> d -> a -> b <- c
  // ---------------------------------------------------------------------------
  /** a(1) holds b(2); c(3) holds b and d(4); d holds a. Variables a1 and c. */
  function Heap7(): Heap {
    map[1 := A(1, 2, [P(2)]), 2 := A(2, 2, []), 3 := A(3, 1, [P(2), P(4)]), 4 := A(4, 1, [P(1)])]
  }

  lemma Checks7A()
    ensures Closed(Heap7())
    ensures Derives(Heap7(), [P(3)], [3, 2, 4, 1], [Seed(0), Field(0, 0), Field(0, 1), Field(2, 0)]) && Shut(Heap7(), [P(3)], [3, 2, 4, 1]) && Distinct([3, 2, 4, 1])
  {
  }

  lemma Cand7A_3() ensures IsCand(Heap7(), P(3), [3, 2, 4, 1], 3) {}

  lemma Cand7A_2() ensures IsCand(Heap7(), P(3), [3, 2, 4, 1], 2) {}

  lemma Cand7A_4() ensures IsCand(Heap7(), P(3), [3, 2, 4, 1], 4) {}

  lemma Kept7A_1() ensures !IsCand(Heap7(), P(3), [3, 2, 4, 1], 1) {}

  lemma Split7A_3()
    ensures Split(Heap7(), P(3), [3, 2, 4, 1], [1], [], [1])
  {
    Kept7A_1();
  }

  lemma Split7A_2()
    ensures Split(Heap7(), P(3), [3, 2, 4, 1], [4, 1], [4], [1])
  {
    Cand7A_4();
    Split7A_3();
  }

  lemma Split7A_1()
    ensures Split(Heap7(), P(3), [3, 2, 4, 1], [2, 4, 1], [2, 4], [1])
  {
    Cand7A_2();
    Split7A_2();
  }

  lemma Split7A()
    ensures Split(Heap7(), P(3), [3, 2, 4, 1], [3, 2, 4, 1], [3, 2, 4], [1])
  {
    Cand7A_3();
    Split7A_1();
  }

  lemma Reach7A()
    ensures ReachesOk(Heap7(), [1], [([2], [Seed(0)])])
  {
  }

  lemma Unreached7A()
    ensures DestroySet(Heap7(), P(3)) == Elems(Unreached([3, 2, 4], AllReached([([2], [Seed(0)])])))
  {
    Checks7A();
    Split7A();
    Reach7A();
    DestroySetIs(Heap7(), P(3), [3, 2, 4, 1], [Seed(0), Field(0, 0), Field(0, 1), Field(2, 0)], [3, 2, 4], [1], [([2], [Seed(0)])]);
  }

  lemma Destroy7A()
    ensures DestroySet(Heap7(), P(3)) == {3, 4}
  {
    Unreached7A();
    assert Unreached([3, 2, 4], AllReached([([2], [Seed(0)])])) == [3, 4];
    assert Elems([3, 4]) == {3, 4};
  }

  lemma Survive7A()
    ensures HeapAB().Keys == Elems([1, 2])
    ensures SurvivorsAre(Heap7(), P(3), [3, 4], [1, 2], HeapAB())
  {
  }

  lemma Released7A()
    ensures ReleasedHeap(Heap7(), P(3), {3, 4}) == HeapAB()
  {
    assert Elems([3, 4]) == {3, 4} && Distinct([3, 4]) && Elems([1, 2]) == Heap7().Keys - Elems([3, 4]);
    Survive7A();
    ReleasedHeapIs(Heap7(), P(3), [3, 4], [1, 2], HeapAB());
  }

  /** Scenario 7: releasing c destroys c and d; a and b are left as in scenario 2. */
  lemma Scenario7ReleaseC()
    ensures DestroySet(Heap7(), P(3)) == {3, 4}
    ensures ReleasedHeap(Heap7(), P(3), {3, 4}) == HeapAB()
  {
    Destroy7A();
    Released7A();
  }
}
