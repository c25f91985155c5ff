/**
 * Writing a graph with every serialization flag and reading the root's triple
 * back into an empty process gives one new object per object written, with
 * the same identity and class, whose fields point at the copies of the
 * original fields' targets. What the triple format cannot carry is lost:
 * handle-cached identities become default ones and placeholders become null.
 */
module RoundTrip {
  import opened Outcomes
  import opened ObjId
  import opened Registry
  import opened Ptr
  import opened Codec
  import opened Counting
  import opened Serializer
  import opened Deserializer

  /** A full save: constants, data and references. */
  const AllFlags: DomainFlags := Consts | Data | Refs

  /** A triple DeserializeObj answers without a lookup: a null id or no kLoaded flag. */
  predicate ReadsNull(t: Identity) {
    !IsValid(t.id) || !Has(t.flags, Loaded)
  }

  /** The objects a full save of `root` writes. */
  function Reached(heap: Heap, root: Handle): set<Ref>
    requires Closed(heap) && Points(heap, root)
  {
    WriteRef(heap, AllFlags, EmptyWriter, root).1.tally.Keys
  }

  ghost function IdsOf(heap: Heap, R: set<Ref>): set<Id>
    requires R <= heap.Keys
  {
    set o | o in R :: heap[o].identity.id
  }

  /** The handle reading back gives for the written handle `f`, given the resident table. */
  function Image(heap: Heap, res: map<Id, Ref>, f: Handle): Handle
    requires Points(heap, f)
  {
    if f.Attached? && heap[f.ref].identity.id in res then Attached(res[heap[f.ref].identity.id], DefaultCache)
    else NullHandle
  }

  function Images(heap: Heap, res: map<Id, Ref>, fs: seq<Handle>): (r: seq<Handle>)
    requires AllPoint(heap, fs)
    ensures |r| == |fs| && forall k :: 0 <= k < |fs| ==> r[k] == Image(heap, res, fs[k])
  {
    seq(|fs|, k requires 0 <= k < |fs| => Image(heap, res, fs[k]))
  }

  /** Every object the fields point at has been read. */
  ghost predicate Resolved(heap: Heap, res: map<Id, Ref>, fs: seq<Handle>)
    requires AllPoint(heap, fs)
  {
    forall k :: 0 <= k < |fs| && fs[k].Attached? ==> heap[fs[k].ref].identity.id in res
  }

  /** `b` keeps every entry of `a`. */
  ghost predicate Extends(a: map<Id, Ref>, b: map<Id, Ref>) {
    forall id :: id in a ==> id in b && b[id] == a[id]
  }

  /** A handle that reads back as the same object: attached within R, or detached with a triple that reads as null. */
  ghost predicate Good(heap: Heap, R: set<Ref>, f: Handle) {
    Points(heap, f) && (f.Attached? ==> f.ref in R) && (f.Detached? ==> ReadsNull(Token(heap, f)))
  }

  /**
   * What reading back needs of the objects written: each is loaded with a
   * valid id no other one has, its class is registered with no newer
   * version, and its detached fields read as null.
   */
  ghost predicate Readable(heap: Heap, R: set<Ref>, reg: Registry) {
    && R <= heap.Keys
    && (forall o :: o in R ==> !ReadsNull(heap[o].identity) && CreateClassById(reg, heap[o].classId) == Created(heap[o].classId))
    && (forall o, k :: o in R && 0 <= k < |heap[o].fields| ==> Good(heap, R, heap[o].fields[k]))
    && (forall o1, o2 :: o1 in R && o2 in R && heap[o1].identity.id == heap[o2].identity.id ==> o1 == o2)
  }

  /** The store holds each written object's record under its key. */
  ghost predicate Holds(heap: Heap, R: set<Ref>, store: Store)
    requires Closed(heap) && R <= heap.Keys
  {
    forall o :: o in R ==> KeyOf(heap, o) in store && store[KeyOf(heap, o)] == RecordOf(heap, o)
  }

  /** The object read for `o` carries its identity and class, and (unless still being read) the images of its fields. */
  ghost predicate Copied(heap: Heap, o: Ref, space: Space, P: set<Ref>)
    requires Closed(heap) && o in heap && heap[o].identity.id in space.resident
  {
    var r := space.resident[heap[o].identity.id];
    && r in space.heap
    && space.heap[r].identity == heap[o].identity && space.heap[r].classId == heap[o].classId
    && (r !in P ==> Resolved(heap, space.resident, heap[o].fields) && space.heap[r].fields == Images(heap, space.resident, heap[o].fields))
  }

  /** Each object read is resident under its own id. */
  ghost predicate SelfResident(space: Space) {
    forall r :: r in space.heap ==> space.heap[r].identity.id in space.resident && space.resident[space.heap[r].identity.id] == r
  }

  /** Each written object read so far is copied; P holds the objects whose fields are still being read. */
  ghost predicate AllCopied(heap: Heap, R: set<Ref>, space: Space, P: set<Ref>)
    requires Closed(heap) && R <= heap.Keys
  {
    forall o :: o in R && heap[o].identity.id in space.resident ==> Copied(heap, o, space, P)
  }

  /** The read state mirrors the written objects, and every resident id is a written object's. */
  ghost predicate Mirror(heap: Heap, R: set<Ref>, space: Space, P: set<Ref>)
    requires Closed(heap) && R <= heap.Keys
  {
    SelfResident(space) && space.resident.Keys <= IdsOf(heap, R) && AllCopied(heap, R, space, P)
  }

  // ---------------------------------------------------------------------------
  // Steps
  // ---------------------------------------------------------------------------

  /** Images and resolution survive the resident table growing. */
  lemma ImagesGrow(heap: Heap, a: map<Id, Ref>, b: map<Id, Ref>, fs: seq<Handle>)
    requires AllPoint(heap, fs) && Resolved(heap, a, fs) && Extends(a, b)
    ensures Resolved(heap, b, fs) && Images(heap, b, fs) == Images(heap, a, fs)
  {
  }

  /** Changing only reference counts keeps the mirror. */
  lemma MirrorFrame(heap: Heap, R: set<Ref>, s1: Space, s2: Space, P: set<Ref>)
    requires Closed(heap) && R <= heap.Keys && Mirror(heap, R, s1, P)
    requires s2.resident == s1.resident && s2.heap.Keys == s1.heap.Keys
    requires forall x :: x in s1.heap ==> Unchanged(s1.heap[x], s2.heap[x])
    ensures Mirror(heap, R, s2, P)
  {
    forall o | o in R && heap[o].identity.id in s2.resident ensures Copied(heap, o, s2, P) {
      assert Copied(heap, o, s1, P);
    }
  }

  /** Creating the object for a written object not yet read keeps the mirror, with the new object pending. */
  lemma MirrorBuild(heap: Heap, R: set<Ref>, reg: Registry, rd: Reader, o: Ref, P: set<Ref>)
    requires Closed(heap) && Readable(heap, R, reg) && Valid(rd) && Mirror(heap, R, rd.space, P)
    requires o in R && heap[o].identity.id !in rd.space.resident
    ensures Mirror(heap, R, Build(rd, heap[o].identity, heap[o].classId).space, P + {rd.next})
  {
    var rd1 := Build(rd, heap[o].identity, heap[o].classId);
    var P' := P + {rd.next};
    forall o' | o' in R && heap[o'].identity.id in rd1.space.resident ensures Copied(heap, o', rd1.space, P') {
      if heap[o'].identity.id != heap[o].identity.id {
        assert Copied(heap, o', rd.space, P);
        var r := rd.space.resident[heap[o'].identity.id];
        if r !in P {
          ImagesGrow(heap, rd.space.resident, rd1.space.resident, heap[o'].fields);
        }
      }
    }
  }

  /**
   * The state once the fields of the object `r` read for `o` have been read:
   * `r` pending, everything else mirrored, and `hs` the images of `o`'s fields.
   */
  ghost predicate Finishable(heap: Heap, R: set<Ref>, reg: Registry, rd: Reader, o: Ref, r: Ref, P: set<Ref>, hs: seq<Handle>) {
    && Closed(heap) && Readable(heap, R, reg) && Valid(rd)
    && o in R && heap[o].identity.id in rd.space.resident && rd.space.resident[heap[o].identity.id] == r
    && r !in P && Mirror(heap, R, rd.space, P + {r})
    && Resolved(heap, rd.space.resident, heap[o].fields) && hs == Images(heap, rd.space.resident, heap[o].fields)
  }

  /** After storing the images of a pending object's fields, each written object read is copied. */
  lemma FinishCopied(heap: Heap, R: set<Ref>, reg: Registry, rd: Reader, o: Ref, r: Ref, P: set<Ref>, hs: seq<Handle>)
    requires Finishable(heap, R, reg, rd, o, r, P, hs)
    ensures AllCopied(heap, R, Finish(rd, r, hs).space, P)
  {
    var s3 := Finish(rd, r, hs).space;
    var P' := P + {r};
    assert Copied(heap, o, rd.space, P');
    forall o' | o' in R && heap[o'].identity.id in s3.resident ensures Copied(heap, o', s3, P) {
      assert Copied(heap, o', rd.space, P');
      if rd.space.resident[heap[o'].identity.id] == r {
        assert heap[o'].identity.id == heap[o].identity.id;
      }
    }
  }

  /** Storing the images of a pending object's fields completes its copy. */
  lemma MirrorFinish(heap: Heap, R: set<Ref>, reg: Registry, rd: Reader, o: Ref, r: Ref, P: set<Ref>, hs: seq<Handle>)
    requires Finishable(heap, R, reg, rd, o, r, P, hs)
    ensures Mirror(heap, R, Finish(rd, r, hs).space, P)
  {
    FinishCopied(heap, R, reg, rd, o, r, P, hs);
    FinishResident(rd, r, hs);
  }

  /** Storing fields leaves every object resident under its id. */
  lemma FinishResident(rd: Reader, r: Ref, hs: seq<Handle>)
    requires Valid(rd) && r in rd.space.heap && SelfResident(rd.space)
    ensures SelfResident(Finish(rd, r, hs).space)
  {
    var s3 := Finish(rd, r, hs).space;
    forall x | x in s3.heap
      ensures s3.heap[x].identity.id in s3.resident && s3.resident[s3.heap[x].identity.id] == x
    {
      assert s3.heap[x].identity == rd.space.heap[x].identity;
    }
  }

  /** The images of a field list are the image of its first field followed by those of the rest. */
  lemma ImagesCons(heap: Heap, a: map<Id, Ref>, b: map<Id, Ref>, fs: seq<Handle>, h: Handle, rest: seq<Handle>)
    requires AllPoint(heap, fs) && fs != [] && Extends(a, b)
    requires Resolved(heap, a, [fs[0]]) && IntoField(h) == Image(heap, a, fs[0])
    requires Resolved(heap, b, fs[1..]) && rest == Images(heap, b, fs[1..])
    ensures Resolved(heap, b, fs) && [IntoField(h)] + rest == Images(heap, b, fs)
  {
    assert [fs[0]][0] == fs[0];
    assert Image(heap, a, fs[0]) == Image(heap, b, fs[0]);
    forall k | 0 < k < |fs| ensures fs[k] == fs[1..][k - 1] {}
  }

  // ---------------------------------------------------------------------------
  // Reading back
  // ---------------------------------------------------------------------------

  /** What the reading lemmas assume of the written graph and the store. */
  ghost predicate Setting(heap: Heap, R: set<Ref>, env: Env) {
    Closed(heap) && Readable(heap, R, env.registry) && Holds(heap, R, env.store)
  }

  /** A reader state that mirrors the written graph, with pending objects P. */
  ghost predicate Reading(heap: Heap, R: set<Ref>, rd: Reader, P: set<Ref>) {
    Closed(heap) && R <= heap.Keys && Valid(rd) && Mirror(heap, R, rd.space, P) && P <= rd.space.heap.Keys
  }

  /** A successful read of `h` that keeps the mirror and gives `h`'s image. */
  ghost predicate RefRead(heap: Heap, R: set<Ref>, h: Handle, P: set<Ref>, r: Result<(Handle, Reader), Failure>)
    requires Points(heap, h)
  {
    && r.Ok? && Reading(heap, R, r.value.1, P)
    && IntoField(r.value.0) == Image(heap, r.value.1.space.resident, h)
    && (h.Attached? ==>
          && heap[h.ref].identity.id in r.value.1.space.resident
          && r.value.0 == Attached(r.value.1.space.resident[heap[h.ref].identity.id], DefaultCache))
  }

  /** A successful read of fields `fs` that keeps the mirror and gives their images. */
  ghost predicate FieldsRead(heap: Heap, R: set<Ref>, fs: seq<Handle>, P: set<Ref>, r: Result<(seq<Handle>, Reader), Failure>)
    requires AllPoint(heap, fs)
  {
    && r.Ok? && Reading(heap, R, r.value.1, P)
    && Resolved(heap, r.value.1.space.resident, fs)
    && r.value.0 == Images(heap, r.value.1.space.resident, fs)
  }

  /** Reading the triple of a good handle succeeds, keeps the mirror, and gives the handle's image. */
  lemma {:induction false} ReadRefMirrors(heap: Heap, R: set<Ref>, env: Env, rd: Reader, h: Handle, P: set<Ref>)
    requires Setting(heap, R, env) && Reading(heap, R, rd, P) && Good(heap, R, h)
    ensures RefRead(heap, R, h, P, ReadRef(env, rd, Token(heap, h)))
    decreases Unread(env, rd), 1, 0
  {
    var t := Token(heap, h);
    if h.Attached? {
      var o := h.ref;
      if t.id in rd.space.resident {
        var rd' := rd.(space := Inc(rd.space, Some(rd.space.resident[t.id])));
        MirrorFrame(heap, R, rd.space, rd'.space, P);
      } else {
        assert KeyOf(heap, o) == Key(t.id, t.storage);
        ReadNewMirrors(heap, R, env, rd, o, P);
      }
    }
  }

  /** Reading a written object not yet read builds its copy at the next free address. */
  lemma {:induction false} ReadNewMirrors(heap: Heap, R: set<Ref>, env: Env, rd: Reader, o: Ref, P: set<Ref>)
    requires Setting(heap, R, env) && Reading(heap, R, rd, P)
    requires o in R && heap[o].identity.id !in rd.space.resident
    ensures KeyOf(heap, o) in env.store
    ensures var r := ReadNew(env, rd, heap[o].identity, heap[o].classId);
      && r.Ok? && Reading(heap, R, r.value.1, P)
      && r.value.0 == Attached(rd.next, DefaultCache)
      && heap[o].identity.id in r.value.1.space.resident && r.value.1.space.resident[heap[o].identity.id] == rd.next
    decreases Unread(env, rd), 0, 0
  {
    var t := heap[o].identity;
    var rd1 := Build(rd, t, heap[o].classId);
    assert t.id in Unread(env, rd) && t.id !in Unread(env, rd1);
    MirrorBuild(heap, R, env.registry, rd, o, P);
    var fs := heap[o].fields;
    assert env.store[Key(t.id, t.storage)].fields == Tokens(heap, fs);
    ReadFieldsMirrors(heap, R, env, rd1, fs, P + {rd.next});
    var (hs, rd2) := ReadFields(env, rd1, Tokens(heap, fs)).value;
    assert rd2.space.resident[t.id] == rd.next;
    assert Finishable(heap, R, env.registry, rd2, o, rd.next, P, hs);
    MirrorFinish(heap, R, env.registry, rd2, o, rd.next, P, hs);
  }

  /** Reading the triples of good fields succeeds, keeps the mirror, and gives the fields' images. */
  lemma {:induction false} ReadFieldsMirrors(heap: Heap, R: set<Ref>, env: Env, rd: Reader, fs: seq<Handle>, P: set<Ref>)
    requires Setting(heap, R, env) && Reading(heap, R, rd, P)
    requires AllPoint(heap, fs) && forall k :: 0 <= k < |fs| ==> Good(heap, R, fs[k])
    ensures FieldsRead(heap, R, fs, P, ReadFields(env, rd, Tokens(heap, fs)))
    decreases Unread(env, rd), 2, |fs|
  {
    if fs != [] {
      var ts := Tokens(heap, fs);
      assert ts[0] == Token(heap, fs[0]) && ts[1..] == Tokens(heap, fs[1..]);
      ReadRefMirrors(heap, R, env, rd, fs[0], P);
      var (h, rd1) := ReadRef(env, rd, ts[0]).value;
      ReadFieldsMirrors(heap, R, env, rd1, fs[1..], P);
      var (rest, rd2) := ReadFields(env, rd1, ts[1..]).value;
      assert Resolved(heap, rd1.space.resident, [fs[0]]);
      ImagesCons(heap, rd1.space.resident, rd2.space.resident, fs, h, rest);
    }
  }

  // ---------------------------------------------------------------------------
  // The round trip
  // ---------------------------------------------------------------------------

  /** A process with no live objects, reading into a cleared domain. */
  function EmptyReader(ids: IdSupply): Reader {
    Reader(Space(map[], map[]), map[], ids, 0)
  }

  /** A full save files every object it reaches under a key of its own, so the store holds each one's record. */
  lemma SaveHoldsRecords(heap: Heap, root: Handle, reg: Registry)
    requires Closed(heap) && Points(heap, root) && Readable(heap, Reached(heap, root), reg)
    ensures Holds(heap, Reached(heap, root), WriteRef(heap, AllFlags, EmptyWriter, root).1.store)
  {
    var w := WriteRef(heap, AllFlags, EmptyWriter, root).1;
    var R := Reached(heap, root);
    TraversalFacts(heap, AllFlags, root);
    WriteRefFiles(heap, AllFlags, EmptyWriter, root);
    assert NewLog(EmptyWriter, w) == w.log;
    forall o | o in R ensures KeyOf(heap, o) in w.store && w.store[KeyOf(heap, o)] == RecordOf(heap, o) {
      PutFinds(heap, map[], w.log, o);
    }
  }

  /** Every written object is read once the root has been read. */
  lemma AllRead(heap: Heap, root: Handle, space: Space)
    requires Closed(heap) && Points(heap, root) && root.Attached?
    requires forall o, k :: o in Reached(heap, root) && 0 <= k < |heap[o].fields| ==> Good(heap, Reached(heap, root), heap[o].fields[k])
    requires AllCopied(heap, Reached(heap, root), space, {})
    requires heap[root.ref].identity.id in space.resident
    ensures forall o :: o in Reached(heap, root) ==> heap[o].identity.id in space.resident
  {
    var R := Reached(heap, root);
    TraversalFacts(heap, AllFlags, root);
    var S := set o | o in R && heap[o].identity.id in space.resident;
    forall o | o in S ensures FieldsIn(heap, o, S) {
      assert Copied(heap, o, space, {});
      forall k | 0 <= k < |heap[o].fields| && heap[o].fields[k].Attached? ensures heap[o].fields[k].ref in S {
        assert Good(heap, R, heap[o].fields[k]);
      }
    }
    assert ClosedSet(heap, S);
  }

  /**
   * `space` holds exactly one copy of each object of R, resident under its
   * id, and nothing else; `h` is attached to the copy of `root`.
   */
  ghost predicate CopiedGraph(heap: Heap, R: set<Ref>, root: Handle, h: Handle, space: Space)
    requires Closed(heap) && R <= heap.Keys && root.Attached? && root.ref in R
  {
    && (forall o :: o in R ==> heap[o].identity.id in space.resident && Copied(heap, o, space, {}))
    && h == Attached(space.resident[heap[root.ref].identity.id], DefaultCache)
    && (forall x :: x in space.heap ==>
          exists o :: o in R && heap[o].identity.id in space.resident && space.resident[heap[o].identity.id] == x)
  }

  /** Every object a mirroring read has built is the copy of some written object. */
  lemma OnlyCopies(heap: Heap, R: set<Ref>, space: Space)
    requires Closed(heap) && R <= heap.Keys && Mirror(heap, R, space, {})
    ensures forall x :: x in space.heap ==>
      exists o :: o in R && heap[o].identity.id in space.resident && space.resident[heap[o].identity.id] == x
  {
    forall x | x in space.heap
      ensures exists o :: o in R && heap[o].identity.id in space.resident && space.resident[heap[o].identity.id] == x
    {
      var id := space.heap[x].identity.id;
      assert id in IdsOf(heap, R);
      var o :| o in R && heap[o].identity.id == id;
    }
  }

  /** Reading into an empty process leaves the copies' reference counts exact, the root handle being the only variable. */
  lemma ReadBackCounts(heap: Heap, root: Handle, reg: Registry, ids: IdSupply)
    requires Closed(heap) && Points(heap, root)
    ensures var (t, w) := WriteRef(heap, AllFlags, EmptyWriter, root);
      var r := ReadRef(Env(reg, w.store), EmptyReader(ids), t);
      r.Ok? ==> Consistent(r.value.1.space.heap, [r.value.0])
  {
    var (t, w) := WriteRef(heap, AllFlags, EmptyWriter, root);
    var rd0 := EmptyReader(ids);
    assert Holders(rd0.space.heap, [], 0) == 0;
    ReadRefCounts(Env(reg, w.store), rd0, t, []);
    var r := ReadRef(Env(reg, w.store), rd0, t);
    if r.Ok? {
      assert [] + [r.value.0] == [r.value.0];
    }
  }

  /** A mirror in which the root is resident is a complete copy of the graph the root reaches. */
  lemma GraphFromMirror(heap: Heap, root: Handle, h: Handle, space: Space)
    requires Closed(heap) && Points(heap, root) && root.Attached?
    requires forall o, k :: o in Reached(heap, root) && 0 <= k < |heap[o].fields| ==> Good(heap, Reached(heap, root), heap[o].fields[k])
    requires Mirror(heap, Reached(heap, root), space, {})
    requires heap[root.ref].identity.id in space.resident
    requires h == Attached(space.resident[heap[root.ref].identity.id], DefaultCache)
    ensures root.ref in Reached(heap, root) && CopiedGraph(heap, Reached(heap, root), root, h, space)
  {
    TraversalFacts(heap, AllFlags, root);
    AllRead(heap, root, space);
    OnlyCopies(heap, Reached(heap, root), space);
  }

  /** Reading the saved root into an empty process mirrors the whole saved graph. */
  lemma ReadBackMirrors(heap: Heap, root: Handle, reg: Registry, ids: IdSupply)
    requires Closed(heap) && Points(heap, root) && root.Attached?
    requires Readable(heap, Reached(heap, root), reg)
    ensures var (t, w) := WriteRef(heap, AllFlags, EmptyWriter, root);
      RefRead(heap, Reached(heap, root), root, {}, ReadRef(Env(reg, w.store), EmptyReader(ids), t))
  {
    var R := Reached(heap, root);
    var (t, w) := WriteRef(heap, AllFlags, EmptyWriter, root);
    SaveHoldsRecords(heap, root, reg);
    assert Mirror(heap, R, EmptyReader(ids).space, {});
    ReadRefMirrors(heap, R, Env(reg, w.store), EmptyReader(ids), root, {});
  }

  /**
   * The round trip. Save the graph reachable from `root` with every flag,
   * then read the root's triple back into an empty process: the read
   * succeeds; each written object has exactly one copy, resident under its
   * id, with its identity and class, whose fields are the images of its
   * fields (the copies of their targets, null where the field was
   * detached); the root comes back attached to its copy; nothing else is
   * built; and the copies' reference counts are exact.
   */
  lemma ReadBackCopies(heap: Heap, root: Handle, reg: Registry, ids: IdSupply)
    requires Closed(heap) && Points(heap, root) && root.Attached?
    requires Readable(heap, Reached(heap, root), reg)
    ensures var (t, w) := WriteRef(heap, AllFlags, EmptyWriter, root);
      var r := ReadRef(Env(reg, w.store), EmptyReader(ids), t);
      && r.Ok?
      && CopiedGraph(heap, Reached(heap, root), root, r.value.0, r.value.1.space)
      && Consistent(r.value.1.space.heap, [r.value.0])
  {
    ReadBackMirrors(heap, root, reg, ids);
    ReadBackCounts(heap, root, reg, ids);
    var (t, w) := WriteRef(heap, AllFlags, EmptyWriter, root);
    var (h, rd) := ReadRef(Env(reg, w.store), EmptyReader(ids), t).value;
    GraphFromMirror(heap, root, h, rd.space);
  }
}
