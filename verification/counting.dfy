/**
 * Reference counting: how many handles hold each object, and the invariant
 * that every object's reference_count is exactly that number (with no handle
 * left pointing at a deleted object). The handle operations of module Ptr
 * preserve it, except the cross-type move assignment, which leaks.
 */
module Counting {
  import opened Outcomes
  import opened ObjId
  import opened Ptr

  /** How many handles of `hs` are attached to `x`. */
  function Occ(hs: seq<Handle>, x: Ref): (n: nat)
    ensures n <= |hs|
  {
    if hs == [] then 0
    else (if hs[0].Attached? && hs[0].ref == x then 1 else 0) + Occ(hs[1..], x)
  }

  /** How many fields of object `o` are attached to `x` (none if `o` is not live). */
  function Fan(heap: Heap, o: Ref, x: Ref): nat {
    if o in heap then Occ(heap[o].fields, x) else 0
  }

  /** How many fields of the objects in `S` are attached to `x`. */
  ghost function SumOcc(heap: Heap, S: set<Ref>, x: Ref): nat
    decreases S
  {
    if S == {} then 0
    else
      var o :| o in S;
      Fan(heap, o, x) + SumOcc(heap, S - {o}, x)
  }

  /** Every handle attached to `x`: the variables' and every live object's fields. */
  ghost function Holders(heap: Heap, vars: seq<Handle>, x: Ref): nat {
    Occ(vars, x) + SumOcc(heap, heap.Keys, x)
  }

  /** The recorded count of `x`, 0 when `x` is not live. */
  function RcOf(heap: Heap, x: Ref): int {
    if x in heap then heap[x].refCount else 0
  }

  /** The reference-count invariant: each live object's count equals its holders, and nothing holds a dead object. */
  ghost predicate Consistent(heap: Heap, vars: seq<Handle>) {
    forall x :: Holders(heap, vars, x) == RcOf(heap, x)
  }

  // ---------------------------------------------------------------------------
  // Counting handles in sequences
  // ---------------------------------------------------------------------------

  lemma {:induction false} OccConcat(a: seq<Handle>, b: seq<Handle>, x: Ref)
    ensures Occ(a + b, x) == Occ(a, x) + Occ(b, x)
    decreases |a|
  {
    if a != [] {
      assert (a + b)[0] == a[0];
      assert (a + b)[1..] == a[1..] + b;
      OccConcat(a[1..], b, x);
    } else {
      assert a + b == b;
    }
  }

  lemma OccSingle(h: Handle, x: Ref)
    ensures Occ([h], x) == if h.Attached? && h.ref == x then 1 else 0
  {
    assert [h][1..] == [];
  }

  lemma OccUpdate(s: seq<Handle>, i: nat, v: Handle, x: Ref)
    requires i < |s|
    ensures Occ(s[i := v], x) + Occ([s[i]], x) == Occ(s, x) + Occ([v], x)
  {
    assert s == s[..i] + [s[i]] + s[i + 1..];
    assert s[i := v] == s[..i] + [v] + s[i + 1..];
    OccConcat(s[..i] + [s[i]], s[i + 1..], x);
    OccConcat(s[..i], [s[i]], x);
    OccConcat(s[..i] + [v], s[i + 1..], x);
    OccConcat(s[..i], [v], x);
  }

  lemma OccIndex(s: seq<Handle>, i: nat)
    requires i < |s| && s[i].Attached?
    ensures Occ(s, s[i].ref) >= 1
  {
    assert s == s[..i] + [s[i]] + s[i + 1..];
    OccConcat(s[..i] + [s[i]], s[i + 1..], s[i].ref);
    OccConcat(s[..i], [s[i]], s[i].ref);
    OccSingle(s[i], s[i].ref);
  }

  /** A handle attached to `x` occurs exactly when the count is positive. */
  lemma {:induction false} OccPositive(s: seq<Handle>, x: Ref)
    ensures Occ(s, x) > 0 <==> exists k :: 0 <= k < |s| && s[k].Attached? && s[k].ref == x
    decreases |s|
  {
    if s != [] {
      OccPositive(s[1..], x);
      if Occ(s[1..], x) > 0 {
        var k :| 0 <= k < |s[1..]| && s[1..][k].Attached? && s[1..][k].ref == x;
        assert s[k + 1] == s[1..][k];
      }
      forall k | 0 < k < |s| && s[k].Attached? && s[k].ref == x
        ensures Occ(s[1..], x) > 0
      {
        assert s[1..][k - 1] == s[k];
      }
    }
  }

  // ---------------------------------------------------------------------------
  // Summing over sets of objects
  // ---------------------------------------------------------------------------

  lemma {:induction false} SumOccRemove(heap: Heap, S: set<Ref>, y: Ref, x: Ref)
    requires y in S
    ensures SumOcc(heap, S, x) == Fan(heap, y, x) + SumOcc(heap, S - {y}, x)
    decreases S
  {
    var o :| o in S && SumOcc(heap, S, x) == Fan(heap, o, x) + SumOcc(heap, S - {o}, x);
    if o != y {
      SumOccRemove(heap, S - {o}, y, x);
      SumOccRemove(heap, S - {y}, o, x);
      assert S - {o} - {y} == S - {y} - {o};
    }
  }

  lemma {:induction false} SumOccUnion(heap: Heap, A: set<Ref>, B: set<Ref>, x: Ref)
    requires A !! B
    ensures SumOcc(heap, A + B, x) == SumOcc(heap, A, x) + SumOcc(heap, B, x)
    decreases A
  {
    if A != {} {
      var a :| a in A;
      SumOccRemove(heap, A, a, x);
      SumOccRemove(heap, A + B, a, x);
      assert (A + B) - {a} == (A - {a}) + B;
      SumOccUnion(heap, A - {a}, B, x);
    } else {
      assert A + B == B;
    }
  }

  lemma {:induction false} SumOccFrame(heap1: Heap, heap2: Heap, S: set<Ref>, x: Ref)
    requires forall o :: o in S ==> Fan(heap1, o, x) == Fan(heap2, o, x)
    ensures SumOcc(heap1, S, x) == SumOcc(heap2, S, x)
    decreases S
  {
    if S != {} {
      var a :| a in S;
      SumOccRemove(heap1, S, a, x);
      SumOccRemove(heap2, S, a, x);
      SumOccFrame(heap1, heap2, S - {a}, x);
    }
  }

  lemma SumOccSubset(heap: Heap, A: set<Ref>, B: set<Ref>, x: Ref)
    requires A <= B
    ensures SumOcc(heap, A, x) + SumOcc(heap, B - A, x) == SumOcc(heap, B, x)
  {
    assert B == A + (B - A);
    SumOccUnion(heap, A, B - A, x);
  }

  /** A sum is zero exactly when no object of the set has a field attached to `x`. */
  lemma {:induction false} SumOccZero(heap: Heap, S: set<Ref>, x: Ref)
    ensures SumOcc(heap, S, x) == 0 <==> forall o :: o in S ==> Fan(heap, o, x) == 0
    decreases S
  {
    if S != {} {
      var a :| a in S;
      SumOccRemove(heap, S, a, x);
      SumOccZero(heap, S - {a}, x);
    }
  }

  /** A set's sum counts at least the fields of each of its members. */
  lemma SumOccAtLeast(heap: Heap, S: set<Ref>, y: Ref, x: Ref)
    requires y in S
    ensures SumOcc(heap, S, x) >= Fan(heap, y, x)
  {
    SumOccRemove(heap, S, y, x);
  }

  lemma SumOccSingle(heap: Heap, y: Ref, x: Ref)
    ensures SumOcc(heap, {y}, x) == Fan(heap, y, x)
  {
    SumOccRemove(heap, {y}, y, x);
    assert {y} - {y} == {};
  }

  // ---------------------------------------------------------------------------
  // Consequences of the invariant
  // ---------------------------------------------------------------------------

  /** The invariant depends on the variables only through how many of them hold each object. */
  lemma ConsistentSameOcc(heap: Heap, v1: seq<Handle>, v2: seq<Handle>)
    requires Consistent(heap, v1)
    requires forall x :: Occ(v1, x) == Occ(v2, x)
    ensures Consistent(heap, v2)
  {
    forall x ensures Holders(heap, v2, x) == RcOf(heap, x) {
      assert Holders(heap, v1, x) == RcOf(heap, x);
    }
  }

  /** Under the invariant no handle dangles. */
  lemma ConsistentPoints(heap: Heap, vars: seq<Handle>)
    requires Consistent(heap, vars)
    ensures forall i :: 0 <= i < |vars| ==> Points(heap, vars[i])
    ensures forall o, i :: o in heap && 0 <= i < |heap[o].fields| ==> Points(heap, heap[o].fields[i])
  {
    forall i | 0 <= i < |vars| && vars[i].Attached?
      ensures vars[i].ref in heap
    {
      OccIndex(vars, i);
      assert Holders(heap, vars, vars[i].ref) == RcOf(heap, vars[i].ref);
    }
    forall o, i | o in heap && 0 <= i < |heap[o].fields| && heap[o].fields[i].Attached?
      ensures heap[o].fields[i].ref in heap
    {
      var x := heap[o].fields[i].ref;
      OccIndex(heap[o].fields, i);
      SumOccRemove(heap, heap.Keys, o, x);
      assert Holders(heap, vars, x) == RcOf(heap, x);
    }
  }

  /** Under the invariant every live object held by someone has a positive count. */
  lemma HeldIsCounted(heap: Heap, vars: seq<Handle>, i: nat)
    requires Consistent(heap, vars)
    requires i < |vars| && vars[i].Attached?
    ensures vars[i].ref in heap && heap[vars[i].ref].refCount >= 1
  {
    OccIndex(vars, i);
    assert Holders(heap, vars, vars[i].ref) == RcOf(heap, vars[i].ref);
  }

  // ---------------------------------------------------------------------------
  // Drop, DropAll and Release keep the invariant
  // ---------------------------------------------------------------------------

  /** Dropping the reference held by one handle removes exactly that holder. */
  lemma {:induction false} DropKeepsCounts(space: Space, ext: seq<Handle>, r: Ref, c: Identity)
    requires Consistent(space.heap, ext + [Attached(r, c)])
    ensures Consistent(Drop(space, r).heap, ext)
    decreases space.heap.Keys, 0
  {
    var heap := space.heap;
    var vars := ext + [Attached(r, c)];
    forall x ensures Occ(vars, x) == Occ(ext, x) + (if x == r then 1 else 0) {
      OccConcat(ext, [Attached(r, c)], x);
      OccSingle(Attached(r, c), x);
    }
    assert Holders(heap, vars, r) == RcOf(heap, r);
    assert r in heap;
    var o := heap[r];
    if o.refCount - 1 != 0 {
      var heap1 := heap[r := o.(refCount := o.refCount - 1)];
      forall x ensures Holders(heap1, ext, x) == RcOf(heap1, x) {
        SumOccFrame(heap, heap1, heap.Keys, x);
        assert heap1.Keys == heap.Keys;
        assert Holders(heap, vars, x) == RcOf(heap, x);
      }
    } else {
      var heap0 := heap - {r};
      var ext0 := ext + o.fields;
      SumOccZero(heap, heap.Keys, r);
      forall x ensures Holders(heap0, ext0, x) == RcOf(heap0, x) {
        assert heap0.Keys == heap.Keys - {r};
        SumOccFrame(heap0, heap, heap0.Keys, x);
        SumOccRemove(heap, heap.Keys, r, x);
        OccConcat(ext, o.fields, x);
        assert Holders(heap, vars, x) == RcOf(heap, x);
      }
      DropAllKeepsCounts(Space(heap0, space.resident), ext, o.fields);
    }
  }

  /** Releasing a sequence of handles removes exactly those holders. */
  lemma {:induction false} DropAllKeepsCounts(space: Space, ext: seq<Handle>, hs: seq<Handle>)
    requires Consistent(space.heap, ext + hs)
    ensures Consistent(DropAll(space, hs).heap, ext)
    decreases space.heap.Keys, |hs| + 1
  {
    if hs == [] {
      assert ext + hs == ext;
    } else {
      var h := hs[0];
      var rest := ext + hs[1..];
      forall x ensures Occ(ext + hs, x) == Occ(rest + [h], x) {
        assert hs == [h] + hs[1..];
        OccConcat(ext, hs, x);
        OccConcat([h], hs[1..], x);
        OccConcat(ext, hs[1..], x);
        OccConcat(rest, [h], x);
      }
      ConsistentSameOcc(space.heap, ext + hs, rest + [h]);
      if h.Attached? {
        DropKeepsCounts(space, rest, h.ref, h.cached);
        DropAllKeepsCounts(Drop(space, h.ref), ext, hs[1..]);
      } else {
        forall x ensures Occ(rest + [h], x) == Occ(rest, x) {
          OccConcat(rest, [h], x);
          OccSingle(h, x);
        }
        ConsistentSameOcc(space.heap, rest + [h], rest);
        DropAllKeepsCounts(space, ext, hs[1..]);
      }
    }
  }

  /** Ptr::Release keeps the invariant: the handle stops holding its object, which is deleted if that was the last holder. */
  lemma ReleaseKeepsCounts(w: World, i: nat)
    requires i < |w.vars|
    requires Consistent(w.space.heap, w.vars)
    ensures Consistent(ReleaseVar(w, i).space.heap, ReleaseVar(w, i).vars)
  {
    var h := w.vars[i];
    var vars1 := w.vars[i := Detached(h.cached)];
    if h.Attached? {
      forall x ensures Occ(w.vars, x) == Occ(vars1 + [h], x) {
        OccUpdate(w.vars, i, Detached(h.cached), x);
        OccSingle(Detached(h.cached), x);
        OccConcat(vars1, [h], x);
      }
      ConsistentSameOcc(w.space.heap, w.vars, vars1 + [h]);
      DropKeepsCounts(w.space, vars1, h.ref, h.cached);
    } else {
      assert vars1 == w.vars;
    }
  }

  /** Ptr::Init on a null variable with a live (or null) pointer keeps the invariant. */
  lemma InitKeepsCounts(w: World, i: nat, p: Option<Ref>)
    requires i < |w.vars| && w.vars[i].Detached?
    requires p.Some? ==> p.value in w.space.heap
    requires Consistent(w.space.heap, w.vars)
    ensures Consistent(InitVar(w, i, p).space.heap, InitVar(w, i, p).vars)
  {
    var w1 := InitVar(w, i, p);
    forall x ensures Holders(w1.space.heap, w1.vars, x) == RcOf(w1.space.heap, x) {
      SumOccFrame(w.space.heap, w1.space.heap, w.space.heap.Keys, x);
      OccUpdate(w.vars, i, w1.vars[i], x);
      OccSingle(w.vars[i], x);
      OccSingle(w1.vars[i], x);
      assert Holders(w.space.heap, w.vars, x) == RcOf(w.space.heap, x);
    }
  }

  // ---------------------------------------------------------------------------
  // Constructors and assignments
  // ---------------------------------------------------------------------------

  /** Ptr(T*) and the copy constructor keep the invariant. */
  lemma ConstructKeepsCounts(w: World, p: Option<Ref>)
    requires p.Some? ==> p.value in w.space.heap
    requires Consistent(w.space.heap, w.vars)
    ensures Consistent(Construct(w, p).space.heap, Construct(w, p).vars)
  {
    var w0 := World(w.space, w.vars + [NullHandle]);
    forall x ensures Occ(w0.vars, x) == Occ(w.vars, x) {
      OccConcat(w.vars, [NullHandle], x);
      OccSingle(NullHandle, x);
    }
    ConsistentSameOcc(w.space.heap, w.vars, w0.vars);
    InitKeepsCounts(w0, |w.vars|, p);
    assert InitVar(w0, |w.vars|, p) == Construct(w, p);
  }

  /** The copy constructor from variable j keeps the invariant. */
  lemma CopyConstructKeepsCounts(w: World, j: nat)
    requires j < |w.vars|
    requires Consistent(w.space.heap, w.vars)
    ensures Consistent(Construct(w, Target(w.vars[j])).space.heap, Construct(w, Target(w.vars[j])).vars)
  {
    ConsistentPoints(w.space.heap, w.vars);
    ConstructKeepsCounts(w, Target(w.vars[j]));
  }

  /** The casting constructors from a live pointer or a variable keep the invariant. */
  lemma CastConstructKeepsCounts(w: World, table: InterfaceTable, p: Option<Ref>, target: ClassId)
    requires p.Some? ==> p.value in w.space.heap
    requires Consistent(w.space.heap, w.vars)
    ensures Consistent(CastConstruct(w, table, p, target).space.heap, CastConstruct(w, table, p, target).vars)
  {
    ConstructKeepsCounts(w, CastTarget(w.space.heap, table, p, target));
  }

  /** The move constructor transfers the holder: no count changes and the invariant holds. */
  lemma MoveConstructKeepsCounts(w: World, j: nat)
    requires j < |w.vars|
    requires Consistent(w.space.heap, w.vars)
    ensures Consistent(MoveConstruct(w, j).space.heap, MoveConstruct(w, j).vars)
    ensures MoveConstruct(w, j).space == w.space
  {
    var w1 := MoveConstruct(w, j);
    var h := w.vars[j];
    forall x ensures Occ(w1.vars, x) == Occ(w.vars, x) {
      OccConcat(w.vars[j := Detached(h.cached)], [WithTarget(NullHandle, Target(h))], x);
      OccUpdate(w.vars, j, Detached(h.cached), x);
      OccSingle(Detached(h.cached), x);
      OccSingle(h, x);
      OccSingle(WithTarget(NullHandle, Target(h)), x);
    }
    ConsistentSameOcc(w.space.heap, w.vars, w1.vars);
  }

  /** The casting move constructor keeps the invariant in all three of its branches. */
  lemma CastMoveConstructKeepsCounts(w: World, table: InterfaceTable, j: nat, target: ClassId)
    requires j < |w.vars|
    requires Consistent(w.space.heap, w.vars)
    ensures Consistent(CastMoveConstruct(w, table, j, target).space.heap, CastMoveConstruct(w, table, j, target).vars)
  {
    var h := w.vars[j];
    var w1 := CastMoveConstruct(w, table, j, target);
    if h.Detached? {
      forall x ensures Occ(w1.vars, x) == Occ(w.vars, x) {
        OccConcat(w.vars, [NullHandle], x);
        OccSingle(NullHandle, x);
      }
      ConsistentSameOcc(w.space.heap, w.vars, w1.vars);
    } else if CastTarget(w.space.heap, table, Some(h.ref), target).Some? {
      MoveConstructKeepsCounts(w, j);
      assert w1 == MoveConstruct(w, j);
    } else {
      var w2 := ReleaseVar(w, j);
      ReleaseKeepsCounts(w, j);
      forall x ensures Occ(w1.vars, x) == Occ(w2.vars, x) {
        OccConcat(w2.vars, [NullHandle], x);
        OccSingle(NullHandle, x);
      }
      ConsistentSameOcc(w2.space.heap, w2.vars, w1.vars);
    }
  }

  /** Copy assignment keeps the invariant; assigning a handle that already holds the same pointer changes nothing. */
  lemma CopyAssignKeepsCounts(w: World, i: nat, j: nat)
    requires i < |w.vars| && j < |w.vars|
    requires Consistent(w.space.heap, w.vars)
    ensures Consistent(CopyAssign(w, i, j).space.heap, CopyAssign(w, i, j).vars)
  {
    if Target(w.vars[i]) != Target(w.vars[j]) {
      var w1 := ReleaseVar(w, i);
      ReleaseKeepsCounts(w, i);
      ConsistentPoints(w1.space.heap, w1.vars);
      assert w1.vars[j] == w.vars[j];
      InitKeepsCounts(w1, i, Target(w.vars[j]));
    }
  }

  /** Cross-type copy assignment keeps the invariant. */
  lemma CastCopyAssignKeepsCounts(w: World, table: InterfaceTable, i: nat, j: nat, target: ClassId)
    requires i < |w.vars| && j < |w.vars|
    requires Consistent(w.space.heap, w.vars)
    ensures Consistent(CastCopyAssign(w, table, i, j, target).space.heap, CastCopyAssign(w, table, i, j, target).vars)
  {
    if !CrossTypeEqual(w.space.heap, table, w.vars[i], w.vars[j]) {
      var w1 := ReleaseVar(w, i);
      ReleaseKeepsCounts(w, i);
      ConsistentPoints(w1.space.heap, w1.vars);
      var p := CastTarget(w1.space.heap, table, Target(w.vars[j]), target);
      InitKeepsCounts(w1, i, p);
    }
  }

  /** Move assignment keeps the invariant in each of its branches. */
  lemma MoveAssignKeepsCounts(w: World, i: nat, j: nat)
    requires i < |w.vars| && j < |w.vars|
    requires Consistent(w.space.heap, w.vars)
    ensures Consistent(MoveAssign(w, i, j).space.heap, MoveAssign(w, i, j).vars)
  {
    if i != j {
      if Target(w.vars[i]) == Target(w.vars[j]) {
        ReleaseKeepsCounts(w, j);
      } else {
        var w1 := ReleaseVar(w, i);
        ReleaseKeepsCounts(w, i);
        var hi := WithTarget(w1.vars[i], Target(w.vars[j]));
        var hj := Detached(w.vars[j].cached);
        var v2 := w1.vars[i := hi][j := hj];
        assert w1.vars[j] == w.vars[j];
        forall x ensures Occ(v2, x) == Occ(w1.vars, x) {
          OccUpdate(w1.vars, i, hi, x);
          OccUpdate(w1.vars[i := hi], j, hj, x);
          OccSingle(w1.vars[i], x);
          OccSingle(hi, x);
          OccSingle(hj, x);
          OccSingle(w.vars[j], x);
        }
        ConsistentSameOcc(w1.space.heap, w1.vars, v2);
      }
    }
  }

  /**
   * Under the invariant the source's object outlives the release of the
   * destination, so a cross-type copy assignment leaves the destination
   * holding the cast of the source whenever the two were not already equal.
   */
  lemma CastCopyAssignCasts(w: World, table: InterfaceTable, i: nat, j: nat, target: ClassId)
    requires i < |w.vars| && j < |w.vars|
    requires Consistent(w.space.heap, w.vars)
    ensures !CrossTypeEqual(w.space.heap, table, w.vars[i], w.vars[j]) ==>
      Target(CastCopyAssign(w, table, i, j, target).vars[i]) == CastTarget(w.space.heap, table, Target(w.vars[j]), target)
  {
    if !CrossTypeEqual(w.space.heap, table, w.vars[i], w.vars[j]) && w.vars[j].Attached? && i != j {
      var w1 := ReleaseVar(w, i);
      ReleaseKeepsCounts(w, i);
      HeldIsCounted(w1.space.heap, w1.vars, j);
    }
  }

  /**
   * Cross-type move assignment keeps the invariant unless it hands a cast
   * pointer over a live destination: a null destination, a null source and a
   * source that does not cast (the destination is then released) all keep it.
   */
  lemma CastMoveAssignKeepsCountsUnlessLeak(w: World, table: InterfaceTable, i: nat, j: nat, target: ClassId)
    requires i < |w.vars| && j < |w.vars| && i != j
    requires w.vars[i].Detached? || w.vars[j].Detached? || CastTarget(w.space.heap, table, Target(w.vars[j]), target).None?
    requires Consistent(w.space.heap, w.vars)
    ensures Consistent(CastMoveAssign(w, table, i, j, target).space.heap, CastMoveAssign(w, table, i, j, target).vars)
  {
    var h := w.vars[j];
    if h.Detached? || CastTarget(w.space.heap, table, Some(h.ref), target).None? {
      ReleaseKeepsCounts(w, i);
    } else {
      var v2 := w.vars[i := WithTarget(w.vars[i], Some(h.ref))][j := Detached(h.cached)];
      forall x ensures Occ(v2, x) == Occ(w.vars, x) {
        OccUpdate(w.vars, i, WithTarget(w.vars[i], Some(h.ref)), x);
        OccUpdate(w.vars[i := WithTarget(w.vars[i], Some(h.ref))], j, Detached(h.cached), x);
        OccSingle(w.vars[i], x);
        OccSingle(WithTarget(w.vars[i], Some(h.ref)), x);
        OccSingle(Detached(h.cached), x);
        OccSingle(h, x);
      }
      ConsistentSameOcc(w.space.heap, w.vars, v2);
    }
  }

  /**
   * As written, a cross-type move assignment whose source casts overwrites the
   * destination's pointer without releasing it: the object it held keeps a
   * count one higher than its holders, so it can never reach zero.
   */
  lemma CastMoveAssignLeaks(w: World, table: InterfaceTable, i: nat, j: nat, target: ClassId)
    requires i < |w.vars| && j < |w.vars| && i != j
    requires w.vars[i].Attached? && w.vars[j].Attached?
    requires CastTarget(w.space.heap, table, Some(w.vars[j].ref), target).Some?
    requires Consistent(w.space.heap, w.vars)
    ensures var w1 := CastMoveAssign(w, table, i, j, target);
      w1.space == w.space &&
      RcOf(w1.space.heap, w.vars[i].ref) == Holders(w1.space.heap, w1.vars, w.vars[i].ref) + 1
  {
    var h := w.vars[j];
    var old_ := w.vars[i].ref;
    var w1 := CastMoveAssign(w, table, i, j, target);
    var vi := WithTarget(w.vars[i], Some(h.ref));
    var v2 := w.vars[i := vi][j := Detached(h.cached)];
    assert w1.vars == v2;
    OccUpdate(w.vars, i, vi, old_);
    OccUpdate(w.vars[i := vi], j, Detached(h.cached), old_);
    OccSingle(w.vars[i], old_);
    OccSingle(vi, old_);
    OccSingle(Detached(h.cached), old_);
    OccSingle(h, old_);
    assert Holders(w.space.heap, w.vars, old_) == RcOf(w.space.heap, old_);
  }
}
