/**
 * DeserializeObj: reads one identity triple and produces a handle. A null id
 * gives a null handle, a triple without kLoaded a placeholder, an id already
 * resident the live object, and otherwise the object is built from its
 * record: created through the registry, made resident before its fields are
 * read (so cycles end at the resident lookup), its fields read in order, and
 * tallied in the reading domain.
 */
module Deserializer {
  import opened Outcomes
  import opened ObjId
  import opened Registry
  import opened Ptr
  import opened Codec
  import opened Counting

  /** Why a read stops. The source crashes or hangs in each of these cases. */
  datatype Failure =
    | StreamExhausted
    | RecordMissing(key: Key)
    | ClassMissing(classId: ClassId)
    | ClassChainCycles(classId: ClassId)

  /** What the read consults: the class registry and the load facility's records. */
  datatype Env = Env(registry: Registry, store: Store)

  /** What the read changes: live objects and resident table, the domain's tally, the id counter, the next free address. */
  datatype Reader = Reader(space: Space, tally: Tally, ids: IdSupply, next: Ref)

  /** Resident ids name live objects, the tally names live objects, and `next` is above every live address. */
  ghost predicate Valid(rd: Reader) {
    && (forall id :: id in rd.space.resident ==> rd.space.resident[id] in rd.space.heap)
    && (forall r :: r in rd.space.heap ==> r < rd.next)
    && rd.tally.Keys <= rd.space.heap.Keys
  }

  /** The ids that have a record but no resident object yet: what a read can still build. */
  function Unread(env: Env, rd: Reader): set<Id> {
    (set k | k in env.store :: k.id) - rd.space.resident.Keys
  }

  /** `after` extends `before`: no object or resident entry is lost or rebound. */
  ghost predicate Grows(before: Reader, after: Reader) {
    && before.space.heap.Keys <= after.space.heap.Keys
    && (forall id :: id in before.space.resident ==>
          id in after.space.resident && after.space.resident[id] == before.space.resident[id])
    && before.tally.Keys <= after.tally.Keys
    && before.next <= after.next
    && (forall x :: x in before.space.heap ==> Unchanged(before.space.heap[x], after.space.heap[x]))
  }

  /** Two versions of an object that differ at most in their reference count. */
  predicate Unchanged(o1: Object, o2: Object) {
    o1.identity == o2.identity && o1.classId == o2.classId && o1.fields == o2.fields
  }

  /** The placeholder DeserializeObj returns for an unloaded triple: SetFlags is applied to the storage byte, storage stays 0. */
  function Placeholder(t: Identity): Handle {
    Detached(Identity(t.id, t.storage, 0))
  }

  /** Moving a read handle into a default field keeps only its pointer. */
  function IntoField(h: Handle): (f: Handle)
    ensures Target(f) == Target(h) && f.cached == DefaultCache
  {
    WithTarget(NullHandle, Target(h))
  }

  /** Reads the object a triple names. */
  function ReadRef(env: Env, rd: Reader, t: Identity): (r: Result<(Handle, Reader), Failure>)
    requires Valid(rd)
    ensures r.Ok? ==> Valid(r.value.1) && Grows(rd, r.value.1)
    ensures r.Ok? ==> Points(r.value.1.space.heap, r.value.0)
    ensures r.Err? ==> !r.error.StreamExhausted? && IsValid(t.id) && Has(t.flags, Loaded)
    // A null id reads as a null handle, and a triple without kLoaded as a
    // detached handle carrying the id; neither touches the reader.
    ensures !IsValid(t.id) ==> r == Ok((NullHandle, rd))
    ensures IsValid(t.id) && !Has(t.flags, Loaded) ==>
      r.Ok? && r.value.1 == rd && r.value.0.Detached? && r.value.0.cached.id == t.id
    // Kept as written: the placeholder's flags are the triple's storage byte.
    ensures IsValid(t.id) && !Has(t.flags, Loaded) ==> r.Ok? && r.value.0.cached.flags == t.storage
    // A loaded triple reads as the object resident under its id: the one
    // already there, or a new one carrying the triple's identity.
    ensures r.Ok? && IsValid(t.id) && Has(t.flags, Loaded) ==>
      && r.value.0.Attached?
      && t.id in r.value.1.space.resident && r.value.1.space.resident[t.id] == r.value.0.ref
    ensures r.Ok? && IsValid(t.id) && Has(t.flags, Loaded) && t.id in rd.space.resident ==>
      r.value.0.ref == rd.space.resident[t.id] && r.value.1.space.heap.Keys == rd.space.heap.Keys
    ensures r.Ok? && IsValid(t.id) && Has(t.flags, Loaded) && t.id !in rd.space.resident ==>
      r.value.0.ref !in rd.space.heap && r.value.1.space.heap[r.value.0.ref].identity == t
    ensures IsValid(t.id) && Has(t.flags, Loaded) && t.id !in rd.space.resident && Key(t.id, t.storage) !in env.store ==>
      r == Err(RecordMissing(Key(t.id, t.storage)))
    decreases Unread(env, rd), 1, 0
  {
    if !IsValid(t.id) then Ok((NullHandle, rd))
    else if !Has(t.flags, Loaded) then Ok((Placeholder(t), rd))
    else if t.id in rd.space.resident then
      var r := rd.space.resident[t.id];
      Ok((Attached(r, DefaultCache), rd.(space := Inc(rd.space, Some(r)))))
    else
      var key := Key(t.id, t.storage);
      if key !in env.store then Err(RecordMissing(key))
      else
        var rec := env.store[key];
        match CreateClassById(env.registry, rec.classId)
        case NullClass => Err(ClassMissing(rec.classId))
        case NeverReturns => Err(ClassChainCycles(rec.classId))
        case Created(cls) => ReadNew(env, rd, t, cls)
  }

  /**
   * The object for `t` does not exist yet: create it, make it resident, read
   * its fields from its record, then tally it and return it.
   */
  function ReadNew(env: Env, rd: Reader, t: Identity, cls: ClassId): (r: Result<(Handle, Reader), Failure>)
    requires Valid(rd) && t.id !in rd.space.resident && Key(t.id, t.storage) in env.store
    ensures r.Ok? ==> Valid(r.value.1) && Grows(rd, r.value.1)
    ensures r.Ok? ==> r.value.0 == Attached(rd.next, DefaultCache) && rd.next in r.value.1.space.heap
    ensures r.Ok? ==> t.id in r.value.1.space.resident && r.value.1.space.resident[t.id] == rd.next
    ensures r.Ok? ==> r.value.1.space.heap[rd.next].identity == t && r.value.1.space.heap[rd.next].classId == cls
    ensures r.Err? ==> !r.error.StreamExhausted?
    decreases Unread(env, rd), 0, 0
  {
    var rd1 := Build(rd, t, cls);
    assert t.id in Unread(env, rd) && t.id !in Unread(env, rd1);
    match ReadFields(env, rd1, env.store[Key(t.id, t.storage)].fields)
    case Err(e) => Err(e)
    case Ok((hs, rd2)) =>
      FinishGrows(rd, rd1, rd2, rd.next, hs);
      Ok((Attached(rd.next, DefaultCache), Finish(rd2, rd.next, hs)))
  }

  /** Building an object, reading on, and finishing it extends the state the build started from. */
  lemma FinishGrows(rd: Reader, rd1: Reader, rd2: Reader, o: Ref, hs: seq<Handle>)
    requires Valid(rd) && Valid(rd2) && o == rd.next
    requires Grows(rd, rd1) && o in rd1.space.heap && Grows(rd1, rd2)
    ensures Grows(rd, Finish(rd2, o, hs))
  {
    var rd3 := Finish(rd2, o, hs);
    forall x | x in rd.space.heap ensures Unchanged(rd.space.heap[x], rd3.space.heap[x]) {
      assert x != o;
      assert Unchanged(rd.space.heap[x], rd1.space.heap[x]);
    }
  }

  /** Creates the object for `t` at the next free address with no references and makes it resident. */
  function Build(rd: Reader, t: Identity, cls: ClassId): (r: Reader)
    requires Valid(rd) && t.id !in rd.space.resident
    ensures Valid(r) && Grows(rd, r)
    ensures r.space.resident == rd.space.resident[t.id := rd.next]
    ensures r.space.heap == rd.space.heap[rd.next := Object(0, t, cls, [])]
    ensures r.next == rd.next + 1 && r.tally == rd.tally
  {
    var (_, ids) := GenerateUnique(rd.ids);
    Reader(Space(rd.space.heap[rd.next := Object(0, t, cls, [])], rd.space.resident[t.id := rd.next]), rd.tally, ids, rd.next + 1)
  }

  /** Stores the fields read into the new object, tallies it, and counts the handle returned for it. */
  function Finish(rd: Reader, o: Ref, hs: seq<Handle>): (r: Reader)
    requires Valid(rd) && o in rd.space.heap
    ensures Valid(r) && r.space.heap.Keys == rd.space.heap.Keys
    ensures r.space.resident == rd.space.resident && r.next == rd.next
    ensures r.tally.Keys == rd.tally.Keys + {o}
    ensures forall x :: x in rd.space.heap && x != o ==> r.space.heap[x] == rd.space.heap[x]
    ensures r.space.heap[o] == rd.space.heap[o].(fields := hs, refCount := rd.space.heap[o].refCount + 1)
  {
    var heap := rd.space.heap[o := rd.space.heap[o].(fields := hs)];
    var (_, tally) := FindAndAddObject(rd.tally, o);
    Reader(Inc(Space(heap, rd.space.resident), Some(o)), tally, rd.ids, rd.next)
  }

  /** Reads an object's fields in order, each moved into a default field. */
  function ReadFields(env: Env, rd: Reader, ts: seq<Identity>): (r: Result<(seq<Handle>, Reader), Failure>)
    requires Valid(rd)
    ensures r.Ok? ==> Valid(r.value.1) && Grows(rd, r.value.1)
    ensures r.Ok? ==> |r.value.0| == |ts|
    ensures r.Err? ==> !r.error.StreamExhausted?
    decreases Unread(env, rd), 2, |ts|
  {
    if ts == [] then Ok(([], rd))
    else
      match ReadRef(env, rd, ts[0])
      case Err(e) => Err(e)
      case Ok((h, rd1)) =>
        match ReadFields(env, rd1, ts[1..])
        case Err(e) => Err(e)
        case Ok((hs, rd2)) => Ok(([IntoField(h)] + hs, rd2))
  }

  /**
   * `o = DeserializeObj(s)` once the read has produced `h`: the returned Obj::ptr
   * is a temporary, moved into variable `i` (whose static type has class id
   * `cls`) by the same-type move when `o` is an Obj::ptr and by the cross-type
   * move otherwise, then destroyed. Only the pointer travels: a placeholder's
   * cached triple stays in the temporary.
   */
  function AssignRead(w: World, table: InterfaceTable, i: nat, cls: ClassId, h: Handle): (r: World)
    requires i < |w.vars|
    ensures |r.vars| == |w.vars|
    ensures forall k :: 0 <= k < |w.vars| && k != i ==> r.vars[k] == w.vars[k]
    ensures r.vars[i].cached == w.vars[i].cached
    ensures h.Detached? ==> r.vars[i] == Detached(w.vars[i].cached)
    ensures Points(w.space.heap, h) ==> Target(r.vars[i]) == CastTarget(w.space.heap, table, Target(h), cls)
  {
    var n := |w.vars|;
    var w1 := World(w.space, w.vars + [h]);
    var w2 := if cls == ObjClassId then MoveAssign(w1, i, n) else CastMoveAssign(w1, table, i, n, cls);
    var w3 := ReleaseVar(w2, n);
    World(w3.space, w3.vars[..n])
  }

  /**
   * `s >> o` (the operator AETHER_SERIALIZE_ defines): reads the next triple
   * with DeserializeObj and assigns the result to variable `i`; the rest of the
   * stream is left.
   */
  function ReadFrom(env: Env, rd: Reader, vars: seq<Handle>, i: nat, table: InterfaceTable, cls: ClassId,
                    input: seq<Identity>): (r: Result<(Reader, seq<Handle>, seq<Identity>), Failure>)
    requires Valid(rd) && i < |vars|
    ensures input == [] <==> r == Err(StreamExhausted)
    ensures r.Err? ==> input == [] || (IsValid(input[0].id) && Has(input[0].flags, Loaded))
    ensures r.Ok? ==> r.value.2 == input[1..] && |r.value.1| == |vars|
    ensures r.Ok? ==> forall k :: 0 <= k < |vars| && k != i ==> r.value.1[k] == vars[k]
    ensures r.Ok? ==> r.value.1[i].cached == vars[i].cached
    // A null id or a triple without kLoaded leaves `o` null with its own cache:
    // the placeholder's identity does not reach it.
    ensures input != [] && (!IsValid(input[0].id) || !Has(input[0].flags, Loaded)) ==>
      r.Ok? && r.value.1[i] == Detached(vars[i].cached)
    // A resident id: `o` holds that object exactly when it implements o's type.
    ensures input != [] && IsValid(input[0].id) && Has(input[0].flags, Loaded) && input[0].id in rd.space.resident ==>
      r.Ok? && Target(r.value.1[i]) == CastTarget(rd.space.heap, table, Some(rd.space.resident[input[0].id]), cls)
    // An Obj::ptr always ends attached after reading a loaded triple.
    ensures r.Ok? && input != [] && IsValid(input[0].id) && Has(input[0].flags, Loaded) && cls == ObjClassId ==>
      r.value.1[i].Attached?
  {
    if input == [] then Err(StreamExhausted)
    else
      match ReadRef(env, rd, input[0])
      case Err(e) => Err(e)
      case Ok((h, rd1)) =>
        var w := AssignRead(World(rd1.space, vars), table, i, cls, h);
        Ok((rd1.(space := w.space), w.vars, input[1..]))
  }

  // ---------------------------------------------------------------------------
  // Reference counts
  // ---------------------------------------------------------------------------

  /** A new object nothing points at, with no fields and count 0, keeps the invariant. */
  lemma BuildCounts(heap: Heap, vars: seq<Handle>, r: Ref, o: Object)
    requires Consistent(heap, vars) && r !in heap && o.refCount == 0 && o.fields == []
    ensures Consistent(heap[r := o], vars)
  {
    var heap' := heap[r := o];
    forall x ensures Holders(heap', vars, x) == RcOf(heap', x) {
      assert heap'.Keys - {r} == heap.Keys;
      SumOccRemove(heap', heap'.Keys, r, x);
      SumOccFrame(heap', heap, heap.Keys, x);
      assert Holders(heap, vars, x) == RcOf(heap, x);
      assert Holders(heap, vars, r) == RcOf(heap, r);
    }
  }

  /** Counting one more handle to a live object keeps the invariant. */
  lemma IncCounts(space: Space, vars: seq<Handle>, r: Ref, c: Identity)
    requires Consistent(space.heap, vars) && r in space.heap
    ensures Consistent(Inc(space, Some(r)).heap, vars + [Attached(r, c)])
  {
    var heap' := Inc(space, Some(r)).heap;
    forall x ensures Holders(heap', vars + [Attached(r, c)], x) == RcOf(heap', x) {
      SumOccFrame(heap', space.heap, space.heap.Keys, x);
      OccConcat(vars, [Attached(r, c)], x);
      OccSingle(Attached(r, c), x);
      assert Holders(space.heap, vars, x) == RcOf(space.heap, x);
    }
  }

  /**
   * Moving the handles read for an object's fields into it, and counting the
   * handle returned for it, keeps the invariant.
   */
  lemma FinishCounts(heap: Heap, heap': Heap, vars: seq<Handle>, fs: seq<Handle>, o: Ref)
    requires Consistent(heap, vars + fs) && o in heap && heap[o].fields == []
    requires heap'.Keys == heap.Keys
    requires forall x :: x in heap && x != o ==> heap'[x] == heap[x]
    requires heap'[o] == heap[o].(fields := fs, refCount := heap[o].refCount + 1)
    ensures Consistent(heap', vars + [Attached(o, DefaultCache)])
  {
    var vars' := vars + [Attached(o, DefaultCache)];
    forall x ensures Holders(heap', vars', x) == RcOf(heap', x) {
      SumOccRemove(heap', heap.Keys, o, x);
      SumOccRemove(heap, heap.Keys, o, x);
      SumOccFrame(heap', heap, heap.Keys - {o}, x);
      OccConcat(vars, fs, x);
      OccConcat(vars, [Attached(o, DefaultCache)], x);
      OccSingle(Attached(o, DefaultCache), x);
      assert Holders(heap, vars + fs, x) == RcOf(heap, x);
    }
  }

  /** Moving a handle into a field does not change what it holds. */
  lemma IntoFieldCounts(heap: Heap, vars: seq<Handle>, h: Handle)
    requires Consistent(heap, vars + [h])
    ensures Consistent(heap, vars + [IntoField(h)])
  {
    forall x ensures Occ(vars + [h], x) == Occ(vars + [IntoField(h)], x) {
      OccConcat(vars, [h], x);
      OccConcat(vars, [IntoField(h)], x);
      OccSingle(IntoField(h), x);
      OccSingle(h, x);
    }
    ConsistentSameOcc(heap, vars + [h], vars + [IntoField(h)]);
  }

  /**
   * Reading keeps every reference count exact: the counts after the read
   * are the holders among the caller's handles, the objects' fields and the
   * handle returned.
   */
  lemma {:induction false} ReadRefCounts(env: Env, rd: Reader, t: Identity, vars: seq<Handle>)
    requires Valid(rd) && Consistent(rd.space.heap, vars)
    ensures var r := ReadRef(env, rd, t);
      r.Ok? ==> Consistent(r.value.1.space.heap, vars + [r.value.0])
    decreases Unread(env, rd), 1, 0
  {
    var r := ReadRef(env, rd, t);
    if r.Ok? {
      if !IsValid(t.id) || !Has(t.flags, Loaded) {
        forall x ensures Occ(vars, x) == Occ(vars + [r.value.0], x) {
          OccConcat(vars, [r.value.0], x);
          OccSingle(r.value.0, x);
        }
        ConsistentSameOcc(rd.space.heap, vars, vars + [r.value.0]);
      } else if t.id in rd.space.resident {
        IncCounts(rd.space, vars, rd.space.resident[t.id], DefaultCache);
      } else {
        var rec := env.store[Key(t.id, t.storage)];
        ReadNewCounts(env, rd, t, CreateClassById(env.registry, rec.classId).cls, vars);
      }
    }
  }

  /**
   * Assigning the read handle keeps the invariant, the temporary counting as a
   * holder until it is destroyed, unless a cast pointer is handed over a live
   * destination (the cross-type move's leak).
   */
  lemma AssignReadCounts(w: World, table: InterfaceTable, i: nat, cls: ClassId, h: Handle)
    requires i < |w.vars| && Consistent(w.space.heap, w.vars + [h])
    requires cls == ObjClassId || w.vars[i].Detached? || h.Detached? || CastTarget(w.space.heap, table, Target(h), cls).None?
    ensures Consistent(AssignRead(w, table, i, cls, h).space.heap, AssignRead(w, table, i, cls, h).vars)
  {
    var n := |w.vars|;
    var w1 := World(w.space, w.vars + [h]);
    var w2 := if cls == ObjClassId then MoveAssign(w1, i, n) else CastMoveAssign(w1, table, i, n, cls);
    if cls == ObjClassId {
      MoveAssignKeepsCounts(w1, i, n);
    } else {
      assert w1.vars[i] == w.vars[i] && w1.vars[n] == h;
      CastMoveAssignKeepsCountsUnlessLeak(w1, table, i, n, cls);
    }
    var w3 := ReleaseVar(w2, n);
    ReleaseKeepsCounts(w2, n);
    assert w3.vars == w3.vars[..n] + [w3.vars[n]];
    forall x ensures Occ(w3.vars, x) == Occ(w3.vars[..n], x) {
      OccConcat(w3.vars[..n], [w3.vars[n]], x);
      OccSingle(w3.vars[n], x);
    }
    ConsistentSameOcc(w3.space.heap, w3.vars, w3.vars[..n]);
  }

  /**
   * `s >> o` keeps every count exact, provided `o` is an Obj::ptr or null
   * beforehand, so the cross-type move cannot leak its object.
   */
  /**
   * `s >> o` hands a castable object over a live handle of a class other
   * than Obj: the cross-type move then leaks o's old object.
   */
  predicate HandsOver(env: Env, rd: Reader, vars: seq<Handle>, i: nat, table: InterfaceTable, cls: ClassId,
                      input: seq<Identity>)
    requires Valid(rd) && i < |vars|
  {
    && cls != ObjClassId && vars[i].Attached? && input != []
    && match ReadRef(env, rd, input[0])
       case Err(_) => false
       case Ok((h, rd1)) => h.Attached? && CastTarget(rd1.space.heap, table, Target(h), cls).Some?
  }

  /** Only a valid, loaded triple read into a live non-Obj handle can hand over. */
  lemma HandsOverOnlyLoaded(env: Env, rd: Reader, vars: seq<Handle>, i: nat, table: InterfaceTable, cls: ClassId,
                            input: seq<Identity>)
    requires Valid(rd) && i < |vars|
    ensures HandsOver(env, rd, vars, i, table, cls, input) ==>
      && cls != ObjClassId && vars[i].Attached? && input != []
      && IsValid(input[0].id) && Has(input[0].flags, Loaded)
  {
  }

  lemma ReadFromCounts(env: Env, rd: Reader, vars: seq<Handle>, i: nat, table: InterfaceTable, cls: ClassId,
                       input: seq<Identity>)
    requires Valid(rd) && i < |vars| && Consistent(rd.space.heap, vars)
    requires !HandsOver(env, rd, vars, i, table, cls, input)
    ensures var r := ReadFrom(env, rd, vars, i, table, cls, input);
      r.Ok? ==> Consistent(r.value.0.space.heap, r.value.1)
  {
    if input != [] {
      var rr := ReadRef(env, rd, input[0]);
      if rr.Ok? {
        ReadRefCounts(env, rd, input[0], vars);
        AssignReadCounts(World(rr.value.1.space, vars), table, i, cls, rr.value.0);
      }
    }
  }

  lemma {:induction false} ReadNewCounts(env: Env, rd: Reader, t: Identity, cls: ClassId, vars: seq<Handle>)
    requires Valid(rd) && t.id !in rd.space.resident && Key(t.id, t.storage) in env.store
    requires Consistent(rd.space.heap, vars)
    ensures var r := ReadNew(env, rd, t, cls);
      r.Ok? ==> Consistent(r.value.1.space.heap, vars + [r.value.0])
    decreases Unread(env, rd), 0, 0
  {
    var r := ReadNew(env, rd, t, cls);
    if r.Ok? {
      var rd1 := Build(rd, t, cls);
      assert t.id in Unread(env, rd) && t.id !in Unread(env, rd1);
      var ts := env.store[Key(t.id, t.storage)].fields;
      BuildCounts(rd.space.heap, vars, rd.next, Object(0, t, cls, []));
      var (fs, rd2) := ReadFields(env, rd1, ts).value;
      ReadFieldsCounts(env, rd1, ts, vars);
      FinishCounts(rd2.space.heap, Finish(rd2, rd.next, fs).space.heap, vars, fs, rd.next);
    }
  }

  /** The same for a field list: the fields read are counted as held by the caller until stored. */
  lemma {:induction false} ReadFieldsCounts(env: Env, rd: Reader, ts: seq<Identity>, vars: seq<Handle>)
    requires Valid(rd) && Consistent(rd.space.heap, vars)
    ensures var r := ReadFields(env, rd, ts);
      r.Ok? ==> Consistent(r.value.1.space.heap, vars + r.value.0)
    decreases Unread(env, rd), 2, |ts|
  {
    var r := ReadFields(env, rd, ts);
    if r.Ok? {
      if ts == [] {
        assert vars + [] == vars;
      } else {
        var (h, rd1) := ReadRef(env, rd, ts[0]).value;
        ReadRefCounts(env, rd, ts[0], vars);
        IntoFieldCounts(rd1.space.heap, vars, h);
        ReadFieldsCounts(env, rd1, ts[1..], vars + [IntoField(h)]);
        assert vars + [IntoField(h)] + ReadFields(env, rd1, ts[1..]).value.0 == vars + r.value.0;
      }
    }
  }
}
