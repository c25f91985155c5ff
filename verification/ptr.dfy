/**
 * Ptr<T>: the intrusive reference-counted handle, the heap of live objects it
 * points into, the identity accessors, the per-class interface-cast table,
 * handle equality, and the constructors, assignments and Release.
 *
 * The C++ handle overlays two states on one object: a non-null pointer, or
 * (when the pointer is null) its own cached id/flags/storage. The cached members
 * physically stay in the handle while it is attached and become visible again
 * when the pointer is cleared, so both constructors keep them.
 */
module Ptr {
  import opened Outcomes
  import opened ObjId

  /** The address of a live object. */
  type Ref = nat

  datatype Handle =
    | Attached(ref: Ref, cached: Identity)
    | Detached(cached: Identity)

  /** A default-constructed handle: null pointer, default cached identity. */
  const NullHandle: Handle := Detached(DefaultCache)

  /** A live object: its reference count, identity, dynamic class and reference fields in declaration order. */
  datatype Object = Object(refCount: int, identity: Identity, classId: ClassId, fields: seq<Handle>)

  type Heap = map<Ref, Object>

  /** The pointer member of a handle. */
  function Target(h: Handle): Option<Ref> {
    if h.Attached? then Some(h.ref) else None
  }

  /** Replaces the pointer member, keeping the cached identity members. */
  function WithTarget(h: Handle, p: Option<Ref>): (r: Handle)
    ensures Target(r) == p && r.cached == h.cached
  {
    if p.Some? then Attached(p.value, h.cached) else Detached(h.cached)
  }

  /** The handle does not dangle. */
  predicate Points(heap: Heap, h: Handle) {
    h.Attached? ==> h.ref in heap
  }

  // ---------------------------------------------------------------------------
  // Identity accessors
  // ---------------------------------------------------------------------------

  /** The identity a handle reports: the object's when attached, its own cached one otherwise. */
  function GetIdentity(heap: Heap, h: Handle): Identity
    requires Points(heap, h)
  {
    if h.Attached? then heap[h.ref].identity else h.cached
  }

  /** Ptr::GetId: the object's member when attached, the handle's own otherwise. */
  function GetId(heap: Heap, h: Handle): (r: Id)
    requires Points(heap, h)
    ensures h.Attached? ==> r == heap[h.ref].identity.id
    ensures h.Detached? ==> r == h.cached.id
  {
    GetIdentity(heap, h).id
  }

  /** Ptr::GetFlags: the object's member when attached, the handle's own otherwise. */
  function GetFlags(heap: Heap, h: Handle): (r: Flags)
    requires Points(heap, h)
    ensures h.Attached? ==> r == heap[h.ref].identity.flags
    ensures h.Detached? ==> r == h.cached.flags
  {
    GetIdentity(heap, h).flags
  }

  /** Ptr::GetStorage: the object's member when attached, the handle's own otherwise. */
  function GetStorage(heap: Heap, h: Handle): (r: Storage)
    requires Points(heap, h)
    ensures h.Attached? ==> r == heap[h.ref].identity.storage
    ensures h.Detached? ==> r == h.cached.storage
  {
    GetIdentity(heap, h).storage
  }

  /** Writes an identity through a handle: into the object when attached, into the handle when detached. */
  function PutIdentity(heap: Heap, h: Handle, v: Identity): (r: (Heap, Handle))
    requires Points(heap, h)
    ensures Points(r.0, r.1) && GetIdentity(r.0, r.1) == v
    ensures h.Attached? ==> r.1 == h && r.0.Keys == heap.Keys
    ensures h.Attached? ==> forall x :: x in heap && x != h.ref ==> r.0[x] == heap[x]
    ensures h.Attached? ==> r.0[h.ref] == heap[h.ref].(identity := v)
    ensures h.Detached? ==> r.0 == heap && r.1 == Detached(v)
  {
    if h.Attached? then (heap[h.ref := heap[h.ref].(identity := v)], h) else (heap, Detached(v))
  }

  function SetId(heap: Heap, h: Handle, id: Id): (r: (Heap, Handle))
    requires Points(heap, h)
    ensures Points(r.0, r.1) && GetId(r.0, r.1) == id
    ensures GetFlags(r.0, r.1) == GetFlags(heap, h) && GetStorage(r.0, r.1) == GetStorage(heap, h)
    ensures h.Attached? ==> r.1 == h && r.0.Keys == heap.Keys
    ensures h.Detached? ==> r.0 == heap
  {
    PutIdentity(heap, h, GetIdentity(heap, h).(id := id))
  }

  function SetFlags(heap: Heap, h: Handle, flags: Flags): (r: (Heap, Handle))
    requires Points(heap, h)
    ensures Points(r.0, r.1) && GetFlags(r.0, r.1) == flags
    ensures GetId(r.0, r.1) == GetId(heap, h) && GetStorage(r.0, r.1) == GetStorage(heap, h)
    ensures h.Attached? ==> r.1 == h && r.0.Keys == heap.Keys
    ensures h.Detached? ==> r.0 == heap
  {
    PutIdentity(heap, h, GetIdentity(heap, h).(flags := flags))
  }

  function SetStorage(heap: Heap, h: Handle, storage: Storage): (r: (Heap, Handle))
    requires Points(heap, h)
    ensures Points(r.0, r.1) && GetStorage(r.0, r.1) == storage
    ensures GetId(r.0, r.1) == GetId(heap, h) && GetFlags(r.0, r.1) == GetFlags(heap, h)
    ensures h.Attached? ==> r.1 == h && r.0.Keys == heap.Keys
    ensures h.Detached? ==> r.0 == heap
  {
    PutIdentity(heap, h, GetIdentity(heap, h).(storage := storage))
  }

  /**
   * Each setter is read back by its getter, the other two components are
   * unchanged, and the write lands in the object (so every handle attached to
   * it sees it) when attached, and in the handle alone when detached.
   */
  lemma SetThenGet(heap: Heap, h: Handle, id: Id, flags: Flags, storage: Storage)
    requires Points(heap, h)
    ensures var (heap1, h1) := SetId(heap, h, id);
      GetId(heap1, h1) == id && GetFlags(heap1, h1) == GetFlags(heap, h) && GetStorage(heap1, h1) == GetStorage(heap, h)
    ensures var (heap1, h1) := SetFlags(heap, h, flags);
      GetFlags(heap1, h1) == flags && GetId(heap1, h1) == GetId(heap, h) && GetStorage(heap1, h1) == GetStorage(heap, h)
    ensures var (heap1, h1) := SetStorage(heap, h, storage);
      GetStorage(heap1, h1) == storage && GetId(heap1, h1) == GetId(heap, h) && GetFlags(heap1, h1) == GetFlags(heap, h)
    ensures h.Attached? ==> var (heap1, h1) := SetId(heap, h, id);
      h1 == h && heap1[h.ref].identity.id == id
    ensures h.Detached? ==> var (heap1, h1) := SetId(heap, h, id);
      heap1 == heap && h1.cached.id == id
  {
  }

  /** A write through one handle is seen through every other handle attached to the same object. */
  lemma SetIdSharedByAliases(heap: Heap, h: Handle, other: Handle, id: Id)
    requires Points(heap, h) && Points(heap, other)
    requires h.Attached? && other.Attached? && other.ref == h.ref
    ensures Points(SetId(heap, h, id).0, other) && GetId(SetId(heap, h, id).0, other) == id
  {
  }

  // ---------------------------------------------------------------------------
  // Interface casts (AETHER_INTERFACES)
  // ---------------------------------------------------------------------------

  /** Per class, the ids listed in its AETHER_INTERFACES declaration. */
  type InterfaceTable = map<ClassId, seq<ClassId>>

  /** The list DynamicCast searches: the declared ids with Obj's id appended. */
  function CastList(table: InterfaceTable, cls: ClassId): seq<ClassId> {
    (if cls in table then table[cls] else []) + [ObjClassId]
  }

  /** DynamicCastInternal: walks the class list and succeeds at the first matching id. */
  function FindInterface(list: seq<ClassId>, target: ClassId): (r: bool)
    ensures r <==> target in list
  {
    if list == [] then false
    else if list[0] != target then FindInterface(list[1..], target)
    else true
  }

  /** Whether an object of class `cls` can be viewed as `target`. */
  function DynamicCast(table: InterfaceTable, cls: ClassId, target: ClassId): (r: bool)
    ensures r <==> target == ObjClassId || (cls in table && target in table[cls])
  {
    FindInterface(CastList(table, cls), target)
  }

  /** InitCast's argument: the same object when the cast succeeds, null otherwise (and null stays null). */
  function CastTarget(heap: Heap, table: InterfaceTable, p: Option<Ref>, target: ClassId): (r: Option<Ref>)
    ensures p.None? ==> r.None?
    ensures r.Some? ==> r == p
    ensures p.Some? && p.value in heap ==>
      (r.Some? <==> target == ObjClassId || (heap[p.value].classId in table && target in table[heap[p.value].classId]))
  {
    if p.Some? && p.value in heap && DynamicCast(table, heap[p.value].classId, target) then p else None
  }

  // ---------------------------------------------------------------------------
  // Equality
  // ---------------------------------------------------------------------------

  /** Same static type: compares the pointer members only. */
  function SameTypeEqual(h1: Handle, h2: Handle): (r: bool)
    ensures r <==> (h1.Detached? && h2.Detached?) || (h1.Attached? && h2.Attached? && h1.ref == h2.ref)
  {
    Target(h1) == Target(h2)
  }

  /** Different static types: false if either is null, else both cast to Obj and compared. */
  function CrossTypeEqual(heap: Heap, table: InterfaceTable, h1: Handle, h2: Handle): (r: bool)
    ensures r ==> h1.Attached? && h2.Attached?
    ensures Points(heap, h1) && Points(heap, h2) ==> (r <==> h1.Attached? && h2.Attached? && h1.ref == h2.ref)
  {
    if h1.Detached? || h2.Detached? then false
    else CastTarget(heap, table, Target(h1), ObjClassId) == CastTarget(heap, table, Target(h2), ObjClassId)
  }

  /**
   * Different-type handles are equal exactly when both are attached to the same
   * live object; same-type handles exactly when their pointers agree (two nulls
   * included, whatever they cache).
   */
  lemma EqualityMeaning(heap: Heap, table: InterfaceTable, h1: Handle, h2: Handle)
    requires Points(heap, h1) && Points(heap, h2)
    ensures CrossTypeEqual(heap, table, h1, h2) <==> h1.Attached? && h2.Attached? && h1.ref == h2.ref
    ensures SameTypeEqual(h1, h2) <==> (h1.Detached? && h2.Detached?) || (h1.Attached? && h2.Attached? && h1.ref == h2.ref)
  {
  }

  // ---------------------------------------------------------------------------
  // Lifetime: the live objects and the resident table
  // ---------------------------------------------------------------------------

  /** The process state a handle operation touches: live objects and the id -> object resident table. */
  datatype Space = Space(heap: Heap, resident: map<Id, Ref>)

  /** Removes an id from the resident table if present (what ~Obj does). */
  function Unresident(resident: map<Id, Ref>, id: Id): (r: map<Id, Ref>)
    ensures r.Keys == resident.Keys - {id}
    ensures forall k :: k in r ==> r[k] == resident[k]
  {
    resident - {id}
  }

  /** Increments the count of a live object (the `if (ptr_) ptr_->reference_count_++` of Init). */
  function Inc(space: Space, p: Option<Ref>): (r: Space)
    ensures r.resident == space.resident && r.heap.Keys == space.heap.Keys
    ensures forall x :: x in space.heap ==>
      r.heap[x] == space.heap[x].(refCount := space.heap[x].refCount + (if p == Some(x) then 1 else 0))
  {
    if p.Some? && p.value in space.heap then
      Space(space.heap[p.value := space.heap[p.value].(refCount := space.heap[p.value].refCount + 1)], space.resident)
    else space
  }

  /**
   * Drops one reference to `r`: decrement, and when the count reaches zero delete
   * the object. Deleting releases its fields (which may delete more) and then
   * erases its id from the resident table. The fields are taken front to back
   * here; C++ destroys members in reverse declaration order, which reorders the
   * decrements but not the counts they leave.
   */
  function Drop(space: Space, r: Ref): (s: Space)
    ensures s.heap.Keys <= space.heap.Keys && s.resident.Keys <= space.resident.Keys
    ensures forall x :: x in s.heap ==>
      s.heap[x].identity == space.heap[x].identity && s.heap[x].fields == space.heap[x].fields
      && s.heap[x].classId == space.heap[x].classId
    ensures forall k :: k in s.resident ==> s.resident[k] == space.resident[k]
    ensures r in space.heap && space.heap[r].refCount != 1 ==>
      s == Space(space.heap[r := space.heap[r].(refCount := space.heap[r].refCount - 1)], space.resident)
    ensures r in space.heap && space.heap[r].refCount == 1 ==> r !in s.heap
    ensures r !in space.heap ==> s == space
    decreases space.heap.Keys, 0
  {
    if r !in space.heap then space
    else
      var o := space.heap[r];
      if o.refCount - 1 != 0 then Space(space.heap[r := o.(refCount := o.refCount - 1)], space.resident)
      else
        var s1 := DropAll(Space(space.heap - {r}, space.resident), o.fields);
        Space(s1.heap, Unresident(s1.resident, o.identity.id))
  }

  /** Releases a sequence of handles in order. */
  function DropAll(space: Space, hs: seq<Handle>): (s: Space)
    ensures s.heap.Keys <= space.heap.Keys && s.resident.Keys <= space.resident.Keys
    ensures forall x :: x in s.heap ==>
      s.heap[x].identity == space.heap[x].identity && s.heap[x].fields == space.heap[x].fields
      && s.heap[x].classId == space.heap[x].classId
    ensures forall k :: k in s.resident ==> s.resident[k] == space.resident[k]
    decreases space.heap.Keys, |hs| + 1
  {
    if hs == [] then space
    else
      var s1 := if hs[0].Attached? then Drop(space, hs[0].ref) else space;
      DropAll(s1, hs[1..])
  }

  /** Ptr::Release: drops the reference (if attached) and clears the pointer; the cached members stay. */
  function Release(space: Space, h: Handle): (r: (Space, Handle))
    ensures r.1 == Detached(h.cached)
    ensures h.Detached? ==> r.0 == space
    ensures h.Attached? && h.ref in space.heap ==>
      (h.ref in r.0.heap <==> space.heap[h.ref].refCount != 1)
  {
    if h.Attached? then (Drop(space, h.ref), Detached(h.cached)) else (space, h)
  }

  /** Ptr::Init: stores the pointer and counts the new reference. */
  function Init(space: Space, h: Handle, p: Option<Ref>): (r: (Space, Handle))
    ensures Target(r.1) == p && r.1.cached == h.cached
    ensures r.0.heap.Keys == space.heap.Keys && r.0.resident == space.resident
    ensures p.Some? && p.value in space.heap ==> r.0.heap[p.value].refCount == space.heap[p.value].refCount + 1
    ensures forall x :: x in space.heap && Some(x) != p ==> r.0.heap[x] == space.heap[x]
  {
    (Inc(space, p), WithTarget(h, p))
  }

  // ---------------------------------------------------------------------------
  // Constructors and assignments over the program's handle variables
  // ---------------------------------------------------------------------------

  /** The live objects, the resident table and every handle variable of the program. */
  datatype World = World(space: Space, vars: seq<Handle>)

  function SetVar(w: World, i: nat, h: Handle): (r: World)
    requires i < |w.vars|
    ensures r.space == w.space && r.vars == w.vars[i := h]
  {
    World(w.space, w.vars[i := h])
  }

  /** Release applied to variable i. */
  function ReleaseVar(w: World, i: nat): (r: World)
    requires i < |w.vars|
    ensures |r.vars| == |w.vars| && r.vars[i] == Detached(w.vars[i].cached)
    ensures forall k :: 0 <= k < |w.vars| && k != i ==> r.vars[k] == w.vars[k]
  {
    var (s, h) := Release(w.space, w.vars[i]);
    World(s, w.vars[i := h])
  }

  /** Init applied to variable i. */
  function InitVar(w: World, i: nat, p: Option<Ref>): (r: World)
    requires i < |w.vars|
    ensures |r.vars| == |w.vars| && Target(r.vars[i]) == p && r.vars[i].cached == w.vars[i].cached
    ensures forall k :: 0 <= k < |w.vars| && k != i ==> r.vars[k] == w.vars[k]
  {
    var (s, h) := Init(w.space, w.vars[i], p);
    World(s, w.vars[i := h])
  }

  /**
   * Ptr() / Ptr(T*) / Ptr(const Ptr&): a new variable attached to `p` (or null),
   * counting the reference. A copy takes only the pointer member: the source's
   * cached identity is not carried over.
   */
  function Construct(w: World, p: Option<Ref>): (r: World)
    ensures r.vars == w.vars + [WithTarget(NullHandle, p)]
    ensures r.space.heap.Keys == w.space.heap.Keys && r.space.resident == w.space.resident
    ensures p.Some? && p.value in w.space.heap ==>
      r.space.heap[p.value].refCount == w.space.heap[p.value].refCount + 1
  {
    var (s, h) := Init(w.space, NullHandle, p);
    World(s, w.vars + [h])
  }

  /** Ptr(T1*) / Ptr(const Ptr<T1>&): a new variable attached to `p` when it implements `target`, else null. */
  function CastConstruct(w: World, table: InterfaceTable, p: Option<Ref>, target: ClassId): (r: World)
    ensures |r.vars| == |w.vars| + 1 && r.vars[..|w.vars|] == w.vars && r.vars[|w.vars|].cached == DefaultCache
    ensures r.space.heap.Keys == w.space.heap.Keys && r.space.resident == w.space.resident
    ensures Target(r.vars[|w.vars|]).Some? ==> Target(r.vars[|w.vars|]) == p
    ensures p.Some? && p.value in w.space.heap ==>
      (Target(r.vars[|w.vars|]).Some? <==> DynamicCast(table, w.space.heap[p.value].classId, target))
  {
    Construct(w, CastTarget(w.space.heap, table, p, target))
  }

  /** Ptr(Ptr&&): the new variable takes the pointer, the source's pointer is cleared. No count changes. */
  function MoveConstruct(w: World, j: nat): (r: World)
    requires j < |w.vars|
    ensures r.space == w.space
    ensures |r.vars| == |w.vars| + 1 && Target(r.vars[|w.vars|]) == Target(w.vars[j]) && r.vars[|w.vars|].cached == DefaultCache
    ensures r.vars[j] == Detached(w.vars[j].cached)
    ensures forall k :: 0 <= k < |w.vars| && k != j ==> r.vars[k] == w.vars[k]
  {
    World(w.space, w.vars[j := Detached(w.vars[j].cached)] + [WithTarget(NullHandle, Target(w.vars[j]))])
  }

  /**
   * Ptr(Ptr<T1>&&): a null source gives a null handle; a source that casts moves
   * its pointer; a source that does not cast is released and the result is null.
   */
  function CastMoveConstruct(w: World, table: InterfaceTable, j: nat, target: ClassId): (r: World)
    requires j < |w.vars|
    ensures |r.vars| == |w.vars| + 1 && r.vars[j] == Detached(w.vars[j].cached)
    ensures Target(r.vars[|w.vars|]) == CastTarget(w.space.heap, table, Target(w.vars[j]), target)
    ensures r.vars[|w.vars|].cached == DefaultCache
    ensures forall k :: 0 <= k < |w.vars| && k != j ==> r.vars[k] == w.vars[k]
    // Only a source that does not cast is released; otherwise no count changes.
    ensures w.vars[j].Detached? || CastTarget(w.space.heap, table, Target(w.vars[j]), target).Some? ==> r.space == w.space
  {
    var h := w.vars[j];
    if h.Detached? then World(w.space, w.vars + [NullHandle])
    else if CastTarget(w.space.heap, table, Some(h.ref), target).Some? then
      World(w.space, w.vars[j := Detached(h.cached)] + [WithTarget(NullHandle, Some(h.ref))])
    else
      var w1 := ReleaseVar(w, j);
      World(w1.space, w1.vars + [NullHandle])
  }

  /** operator=(const Ptr&): nothing happens when both already hold the same pointer; otherwise release then Init. */
  function CopyAssign(w: World, i: nat, j: nat): (r: World)
    requires i < |w.vars| && j < |w.vars|
    ensures SameTypeEqual(w.vars[i], w.vars[j]) ==> r == w
    ensures |r.vars| == |w.vars| && Target(r.vars[i]) == Target(w.vars[j])
    ensures forall k :: 0 <= k < |w.vars| && k != i ==> r.vars[k] == w.vars[k]
  {
    if Target(w.vars[i]) == Target(w.vars[j]) then w
    else InitVar(ReleaseVar(w, i), i, Target(w.vars[j]))
  }

  /** operator=(const Ptr<T1>&): nothing happens when cross-type equal; otherwise release then InitCast. */
  function CastCopyAssign(w: World, table: InterfaceTable, i: nat, j: nat, target: ClassId): (r: World)
    requires i < |w.vars| && j < |w.vars|
    ensures CrossTypeEqual(w.space.heap, table, w.vars[i], w.vars[j]) ==> r == w
    ensures |r.vars| == |w.vars|
    ensures Points(w.space.heap, w.vars[i]) && Points(w.space.heap, w.vars[j]) && Target(r.vars[i]).Some? ==>
      Target(r.vars[i]) == Target(w.vars[j])
    // Otherwise the destination holds the cast of the source, provided releasing
    // the destination did not delete the source's object.
    ensures (!CrossTypeEqual(w.space.heap, table, w.vars[i], w.vars[j])
             && (w.vars[j].Attached? ==> w.vars[j].ref in r.space.heap)) ==>
      Target(r.vars[i]) == CastTarget(w.space.heap, table, Target(w.vars[j]), target)
    ensures forall k :: 0 <= k < |w.vars| && k != i ==> r.vars[k] == w.vars[k]
  {
    if CrossTypeEqual(w.space.heap, table, w.vars[i], w.vars[j]) then w
    else
      var w1 := ReleaseVar(w, i);
      InitVar(w1, i, CastTarget(w1.space.heap, table, Target(w.vars[j]), target))
  }

  /**
   * operator=(Ptr&&): a move onto itself does nothing; when both point to the
   * same object the source is released; otherwise the destination is released
   * and takes the source's pointer, whose own pointer is cleared.
   */
  function MoveAssign(w: World, i: nat, j: nat): (r: World)
    requires i < |w.vars| && j < |w.vars|
    ensures i == j ==> r == w
    ensures |r.vars| == |w.vars|
    ensures i != j ==> Target(r.vars[i]) == Target(w.vars[j]) && r.vars[j].Detached?
    ensures forall k :: 0 <= k < |w.vars| && k != i && k != j ==> r.vars[k] == w.vars[k]
  {
    if i == j then w
    else if Target(w.vars[i]) == Target(w.vars[j]) then ReleaseVar(w, j)
    else
      var w1 := ReleaseVar(w, i);
      World(w1.space, w1.vars[i := WithTarget(w1.vars[i], Target(w.vars[j]))][j := Detached(w.vars[j].cached)])
  }

  /**
   * operator=(Ptr<T1>&&), as written: a null source releases the destination; a
   * source that does not cast releases the destination and keeps its own
   * pointer; a source that casts hands over its pointer WITHOUT releasing the
   * destination's previous object.
   */
  function CastMoveAssign(w: World, table: InterfaceTable, i: nat, j: nat, target: ClassId): (r: World)
    requires i < |w.vars| && j < |w.vars| && i != j
    ensures |r.vars| == |w.vars|
    ensures Target(r.vars[i]) == CastTarget(w.space.heap, table, Target(w.vars[j]), target)
    ensures forall k :: 0 <= k < |w.vars| && k != i && k != j ==> r.vars[k] == w.vars[k]
    // The leak: a successful hand-over releases nothing.
    ensures Target(r.vars[i]).Some? ==> r.space == w.space && r.vars[j].Detached?
  {
    var h := w.vars[j];
    if h.Detached? then ReleaseVar(w, i)
    else if CastTarget(w.space.heap, table, Some(h.ref), target).None? then ReleaseVar(w, i)
    else World(w.space, w.vars[i := WithTarget(w.vars[i], Some(h.ref))][j := Detached(h.cached)])
  }
}
