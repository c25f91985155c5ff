/**
 * SerializeObj at the reference level. Writing a handle puts one identity
 * triple on the current stream; the first visit of a live object (unless it
 * is constant and constants are not asked for) also writes its fields, each
 * as one triple, and then files its record with the store facility.
 */
module Serializer {
  import opened ObjId
  import opened Ptr
  import opened Counting
  import opened Codec

  /** The traversal domain: its tally, the records filed so far, and the objects filed in filing order. */
  datatype Writer = Writer(tally: Tally, store: Store, log: seq<Ref>)

  const EmptyWriter: Writer := Writer(map[], map[], [])

  /** Every field of every live object points at a live object. */
  ghost predicate Closed(heap: Heap) {
    forall o, k :: o in heap && 0 <= k < |heap[o].fields| ==> Points(heap, heap[o].fields[k])
  }

  predicate AllPoint(heap: Heap, hs: seq<Handle>) {
    forall k :: 0 <= k < |hs| ==> Points(heap, hs[k])
  }

  /** Every live target of `o`'s fields lies in `s`. */
  ghost predicate FieldsIn(heap: Heap, o: Ref, s: set<Ref>)
    requires o in heap
  {
    forall k :: 0 <= k < |heap[o].fields| && heap[o].fields[k].Attached? ==> heap[o].fields[k].ref in s
  }

  /** The objects filed by a traversal that started from log `before`. */
  function NewLog(before: Writer, after: Writer): seq<Ref>
    requires |before.log| <= |after.log|
  {
    after.log[|before.log|..]
  }

  /** Whether the traversal expands an object it meets for the first time: not constant, or constants asked for. */
  predicate Expands(flags: DomainFlags, o: Object) {
    flags & Consts != 0 || !Has(o.identity.flags, Const)
  }

  /** The triple written for one reference: the sentinel for a hard null, the handle's identity otherwise. */
  function Token(heap: Heap, h: Handle): (t: Identity)
    requires Points(heap, h)
    ensures h.Detached? && !Has(h.cached.flags, Loadable) ==> t == Sentinel
    ensures h.Attached? ==> t == heap[h.ref].identity
    ensures h.Detached? && Has(h.cached.flags, Loadable) ==> t == h.cached
  {
    if h.Detached? && !Has(h.cached.flags, Loadable) then Sentinel else GetIdentity(heap, h)
  }

  function Tokens(heap: Heap, hs: seq<Handle>): (ts: seq<Identity>)
    requires AllPoint(heap, hs)
    ensures |ts| == |hs| && forall k :: 0 <= k < |hs| ==> ts[k] == Token(heap, hs[k])
  {
    seq(|hs|, k requires 0 <= k < |hs| => Token(heap, hs[k]))
  }

  /** The record filed for a live object: its class id and the triples of its fields. */
  function RecordOf(heap: Heap, o: Ref): Record
    requires o in heap && AllPoint(heap, heap[o].fields)
  {
    Record(heap[o].classId, Tokens(heap, heap[o].fields))
  }

  function KeyOf(heap: Heap, o: Ref): Key
    requires o in heap
  {
    Key(heap[o].identity.id, heap[o].identity.storage)
  }

  /** The objects of a sequence. */
  function Elems(os: seq<Ref>): set<Ref> {
    set x | x in os
  }

  /** No object occurs twice. */
  predicate NoDup(os: seq<Ref>) {
    forall i, j :: 0 <= i < j < |os| ==> os[i] != os[j]
  }

  /** Files the records of `os` in order; a later record under an equal key replaces an earlier one. */
  function Put(heap: Heap, store: Store, os: seq<Ref>): (r: Store)
    requires Closed(heap) && Elems(os) <= heap.Keys
    ensures r.Keys == store.Keys + set o | o in Elems(os) :: KeyOf(heap, o)
    decreases |os|
  {
    if os == [] then store
    else
      assert Elems(os) == {os[0]} + Elems(os[1..]);
      Put(heap, store[KeyOf(heap, os[0]) := RecordOf(heap, os[0])], os[1..])
  }

  /**
   * SerializeObj(s, o): a hard null (detached and not loadable) writes the
   * sentinel triple and nothing else; any other handle writes its identity
   * triple. A detached handle stops there. A live object is tallied; on its
   * first visit (and unless skipped as constant) its fields are written and
   * its record filed under its (id, storage).
   */
  function WriteRef(heap: Heap, flags: DomainFlags, w: Writer, h: Handle): (r: (Identity, Writer))
    requires Closed(heap) && Points(heap, h) && w.tally.Keys <= heap.Keys
    ensures r.1.tally.Keys <= heap.Keys && w.tally.Keys <= r.1.tally.Keys
    ensures r.0 == Token(heap, h)
    ensures h.Detached? ==> r.1 == w
    ensures h.Attached? ==> h.ref in r.1.tally
    ensures |w.log| <= |r.1.log| && r.1.log[..|w.log|] == w.log
    ensures Elems(NewLog(w, r.1)) <= r.1.tally.Keys
    ensures !(h.Attached? && h.ref !in w.tally && Expands(flags, heap[h.ref])) ==> r.1.log == w.log && r.1.store == w.store
    decreases heap.Keys - w.tally.Keys, 0, 0
  {
    if h.Detached? && !Has(h.cached.flags, Loadable) then (Sentinel, w)
    else
      var t := GetIdentity(heap, h);
      if h.Detached? then (t, w)
      else
        var (seen, tally) := FindAndAddObject(w.tally, h.ref);
        var w1 := w.(tally := tally);
        if seen || !Expands(flags, heap[h.ref]) then (t, w1)
        else
          var o := heap[h.ref];
          assert h.ref in heap.Keys - w.tally.Keys && h.ref !in heap.Keys - w1.tally.Keys;
          var (ts, w2) := WriteFields(heap, flags, w1, o.fields);
          var w3 := w2.(store := w2.store[Key(t.id, t.storage) := Record(o.classId, ts)], log := w2.log + [h.ref]);
          ExpandStep(w, w1, w2, w3, h.ref);
          (t, w3)
  }

  /** Expanding `o` after its fields were written: the tally and the log only grow, and `o` ends the log. */
  lemma ExpandStep(w: Writer, w1: Writer, w2: Writer, w3: Writer, o: Ref)
    requires w1.log == w.log && o in w1.tally && w.tally.Keys <= w1.tally.Keys
    requires |w1.log| <= |w2.log| && w2.log[..|w1.log|] == w1.log
    requires Elems(NewLog(w1, w2)) <= w2.tally.Keys && w1.tally.Keys <= w2.tally.Keys
    requires w3.tally == w2.tally && w3.log == w2.log + [o]
    ensures w.tally.Keys <= w3.tally.Keys && o in w3.tally
    ensures |w.log| <= |w3.log| && w3.log[..|w.log|] == w.log
    ensures Elems(NewLog(w, w3)) <= w3.tally.Keys
  {
    assert NewLog(w, w3) == NewLog(w1, w2) + [o];
    ElemsConcat(NewLog(w1, w2), [o]);
  }

  /** The reference fields of one object, in order: one triple each. */
  function WriteFields(heap: Heap, flags: DomainFlags, w: Writer, fs: seq<Handle>): (r: (seq<Identity>, Writer))
    requires Closed(heap) && AllPoint(heap, fs) && w.tally.Keys <= heap.Keys
    ensures r.1.tally.Keys <= heap.Keys && w.tally.Keys <= r.1.tally.Keys
    ensures r.0 == Tokens(heap, fs)
    ensures forall k :: 0 <= k < |fs| && fs[k].Attached? ==> fs[k].ref in r.1.tally
    ensures |w.log| <= |r.1.log| && r.1.log[..|w.log|] == w.log
    ensures Elems(NewLog(w, r.1)) <= r.1.tally.Keys
    decreases heap.Keys - w.tally.Keys, 1, |fs|
  {
    if fs == [] then ([], w)
    else
      var (t, w1) := WriteRef(heap, flags, w, fs[0]);
      var (ts, w2) := WriteFields(heap, flags, w1, fs[1..]);
      TokensCons(heap, fs);
      FieldsStep(fs, w, w1, w2);
      ([t] + ts, w2)
  }

  lemma TokensCons(heap: Heap, fs: seq<Handle>)
    requires AllPoint(heap, fs) && fs != []
    ensures Tokens(heap, fs) == [Token(heap, fs[0])] + Tokens(heap, fs[1..])
  {
  }

  /** Writing the first field and then the rest composes: tallies and logs only grow. */
  lemma FieldsStep(fs: seq<Handle>, w: Writer, w1: Writer, w2: Writer)
    requires fs != []
    requires w.tally.Keys <= w1.tally.Keys && (fs[0].Attached? ==> fs[0].ref in w1.tally)
    requires |w.log| <= |w1.log| && w1.log[..|w.log|] == w.log && Elems(NewLog(w, w1)) <= w1.tally.Keys
    requires w1.tally.Keys <= w2.tally.Keys
    requires forall k :: 0 <= k < |fs[1..]| && fs[1..][k].Attached? ==> fs[1..][k].ref in w2.tally
    requires |w1.log| <= |w2.log| && w2.log[..|w1.log|] == w1.log && Elems(NewLog(w1, w2)) <= w2.tally.Keys
    ensures w.tally.Keys <= w2.tally.Keys
    ensures forall k :: 0 <= k < |fs| && fs[k].Attached? ==> fs[k].ref in w2.tally
    ensures |w.log| <= |w2.log| && w2.log[..|w.log|] == w.log
    ensures Elems(NewLog(w, w2)) <= w2.tally.Keys
  {
    forall k | 0 < k < |fs| ensures fs[k] == fs[1..][k - 1] {}
    assert NewLog(w, w2) == NewLog(w, w1) + NewLog(w1, w2);
    ElemsConcat(NewLog(w, w1), NewLog(w1, w2));
  }

  // ---------------------------------------------------------------------------
  // What a traversal logs, files, counts and reaches
  // ---------------------------------------------------------------------------

  lemma ElemsConcat(a: seq<Ref>, b: seq<Ref>)
    ensures Elems(a + b) == Elems(a) + Elems(b)
  {
  }

  lemma NoDupConcat(a: seq<Ref>, b: seq<Ref>)
    requires NoDup(a) && NoDup(b) && Elems(a) !! Elems(b)
    ensures NoDup(a + b)
  {
    forall i, j | 0 <= i < j < |a + b| ensures (a + b)[i] != (a + b)[j] {
      if j < |a| {
      } else if i < |a| {
        assert (a + b)[i] in Elems(a) && (a + b)[j] == b[j - |a|] && b[j - |a|] in Elems(b);
      } else {
        assert (a + b)[i] == b[i - |a|] && (a + b)[j] == b[j - |a|];
      }
    }
  }

  lemma NewLogSplit(w: Writer, w1: Writer, w2: Writer)
    requires |w.log| <= |w1.log| <= |w2.log|
    requires w1.log[..|w.log|] == w.log && w2.log[..|w1.log|] == w1.log
    ensures NewLog(w, w2) == NewLog(w, w1) + NewLog(w1, w2)
    ensures Elems(NewLog(w, w2)) == Elems(NewLog(w, w1)) + Elems(NewLog(w1, w2))
  {
    assert w2.log[..|w.log|] == w.log;
    assert NewLog(w, w2) == NewLog(w, w1) + NewLog(w1, w2);
    ElemsConcat(NewLog(w, w1), NewLog(w1, w2));
  }

  /** How a first visit that expands unfolds: fields first, then the record is filed and the object logged. */
  lemma WriteRefExpands(heap: Heap, flags: DomainFlags, w: Writer, h: Handle)
    requires Closed(heap) && Points(heap, h) && w.tally.Keys <= heap.Keys
    requires h.Attached? && h.ref !in w.tally && Expands(flags, heap[h.ref])
    ensures var w1 := w.(tally := w.tally[h.ref := 1]);
      var w2 := WriteFields(heap, flags, w1, heap[h.ref].fields).1;
      var w' := WriteRef(heap, flags, w, h).1;
      && w'.tally == w2.tally && w'.log == w2.log + [h.ref]
      && w'.store == w2.store[KeyOf(heap, h.ref) := RecordOf(heap, h.ref)]
  {
    assert FindAndAddObject(w.tally, h.ref).1 == w.tally[h.ref := 1];
  }

  /** The objects a traversal logs are new to it, and none is logged twice. */
  ghost predicate FreshLog(w: Writer, w': Writer)
    requires |w.log| <= |w'.log|
  {
    Elems(NewLog(w, w')) !! w.tally.Keys && NoDup(NewLog(w, w'))
  }

  /** Every object newly met is logged, unless it was skipped as a constant. */
  ghost predicate CoveringLog(heap: Heap, flags: DomainFlags, w: Writer, w': Writer)
    requires |w.log| <= |w'.log|
  {
    forall x :: x in w'.tally && x !in w.tally ==>
      x in Elems(NewLog(w, w')) || (x in heap && !Expands(flags, heap[x]))
  }

  lemma FreshStep(w: Writer, w1: Writer, w2: Writer, w': Writer, o: Ref)
    requires o !in w.tally && w1.tally.Keys == w.tally.Keys + {o}
    requires w1.log == w.log && |w1.log| <= |w2.log| && w2.log[..|w1.log|] == w1.log
    requires FreshLog(w1, w2)
    requires w'.log == w2.log + [o]
    ensures FreshLog(w, w')
  {
    assert NewLog(w, w') == NewLog(w1, w2) + [o];
    ElemsConcat(NewLog(w1, w2), [o]);
    assert Elems([o]) == {o};
    NoDupConcat(NewLog(w1, w2), [o]);
  }

  lemma {:induction false} WriteRefFresh(heap: Heap, flags: DomainFlags, w: Writer, h: Handle)
    requires Closed(heap) && Points(heap, h) && w.tally.Keys <= heap.Keys
    ensures FreshLog(w, WriteRef(heap, flags, w, h).1)
    decreases heap.Keys - w.tally.Keys, 0, 0
  {
    var w' := WriteRef(heap, flags, w, h).1;
    if h.Attached? && h.ref !in w.tally && Expands(flags, heap[h.ref]) {
      WriteRefExpands(heap, flags, w, h);
      var w1 := w.(tally := w.tally[h.ref := 1]);
      var w2 := WriteFields(heap, flags, w1, heap[h.ref].fields).1;
      WriteFieldsFresh(heap, flags, w1, heap[h.ref].fields);
      FreshStep(w, w1, w2, w', h.ref);
    } else {
      assert NewLog(w, w') == [];
    }
  }

  lemma {:induction false} WriteFieldsFresh(heap: Heap, flags: DomainFlags, w: Writer, fs: seq<Handle>)
    requires Closed(heap) && AllPoint(heap, fs) && w.tally.Keys <= heap.Keys
    ensures FreshLog(w, WriteFields(heap, flags, w, fs).1)
    decreases heap.Keys - w.tally.Keys, 1, |fs|
  {
    var w' := WriteFields(heap, flags, w, fs).1;
    if fs == [] {
      assert NewLog(w, w') == [];
    } else {
      WriteRefFresh(heap, flags, w, fs[0]);
      var w1 := WriteRef(heap, flags, w, fs[0]).1;
      WriteFieldsFresh(heap, flags, w1, fs[1..]);
      assert w' == WriteFields(heap, flags, w1, fs[1..]).1;
      NewLogSplit(w, w1, w');
      NoDupConcat(NewLog(w, w1), NewLog(w1, w'));
    }
  }

  lemma CoversStep(heap: Heap, flags: DomainFlags, w: Writer, w1: Writer, w2: Writer, w': Writer, o: Ref)
    requires w1.tally.Keys == w.tally.Keys + {o}
    requires w1.log == w.log && |w1.log| <= |w2.log| && w2.log[..|w1.log|] == w1.log
    requires CoveringLog(heap, flags, w1, w2)
    requires w'.tally == w2.tally && w'.log == w2.log + [o]
    ensures CoveringLog(heap, flags, w, w')
  {
    assert NewLog(w, w') == NewLog(w1, w2) + [o];
    ElemsConcat(NewLog(w1, w2), [o]);
    assert Elems([o]) == {o};
  }

  lemma {:induction false} WriteRefCovers(heap: Heap, flags: DomainFlags, w: Writer, h: Handle)
    requires Closed(heap) && Points(heap, h) && w.tally.Keys <= heap.Keys
    ensures CoveringLog(heap, flags, w, WriteRef(heap, flags, w, h).1)
    decreases heap.Keys - w.tally.Keys, 0, 0
  {
    var w' := WriteRef(heap, flags, w, h).1;
    if h.Attached? && h.ref !in w.tally && Expands(flags, heap[h.ref]) {
      WriteRefExpands(heap, flags, w, h);
      var w1 := w.(tally := w.tally[h.ref := 1]);
      var w2 := WriteFields(heap, flags, w1, heap[h.ref].fields).1;
      WriteFieldsCovers(heap, flags, w1, heap[h.ref].fields);
      CoversStep(heap, flags, w, w1, w2, w', h.ref);
    } else {
      assert NewLog(w, w') == [];
    }
  }

  lemma {:induction false} WriteFieldsCovers(heap: Heap, flags: DomainFlags, w: Writer, fs: seq<Handle>)
    requires Closed(heap) && AllPoint(heap, fs) && w.tally.Keys <= heap.Keys
    ensures CoveringLog(heap, flags, w, WriteFields(heap, flags, w, fs).1)
    decreases heap.Keys - w.tally.Keys, 1, |fs|
  {
    var w' := WriteFields(heap, flags, w, fs).1;
    if fs == [] {
      assert NewLog(w, w') == [];
    } else {
      WriteRefCovers(heap, flags, w, fs[0]);
      var w1 := WriteRef(heap, flags, w, fs[0]).1;
      WriteFieldsCovers(heap, flags, w1, fs[1..]);
      assert w' == WriteFields(heap, flags, w1, fs[1..]).1;
      NewLogSplit(w, w1, w');
    }
  }

  /** Every logged object was expanded: not a skipped constant, and each of its field targets met. */
  ghost predicate ExpandedLog(heap: Heap, flags: DomainFlags, w: Writer, w': Writer)
    requires |w.log| <= |w'.log|
  {
    forall o :: o in Elems(NewLog(w, w')) ==>
      o in heap && Expands(flags, heap[o]) && FieldsIn(heap, o, w'.tally.Keys)
  }

  /** The expansion step keeps ExpandedLog: the object logged last had all its field targets met. */
  lemma ExpandedStep(heap: Heap, flags: DomainFlags, w: Writer, w1: Writer, w2: Writer, w': Writer, o: Ref)
    requires o in heap && Expands(flags, heap[o]) && FieldsIn(heap, o, w2.tally.Keys)
    requires w1.log == w.log && |w1.log| <= |w2.log| && w2.log[..|w1.log|] == w1.log
    requires ExpandedLog(heap, flags, w1, w2)
    requires w'.tally == w2.tally && w'.log == w2.log + [o]
    ensures ExpandedLog(heap, flags, w, w')
  {
    assert NewLog(w, w') == NewLog(w1, w2) + [o];
    ElemsConcat(NewLog(w1, w2), [o]);
    assert Elems([o]) == {o};
  }

  lemma {:induction false} WriteRefExpanded(heap: Heap, flags: DomainFlags, w: Writer, h: Handle)
    requires Closed(heap) && Points(heap, h) && w.tally.Keys <= heap.Keys
    ensures ExpandedLog(heap, flags, w, WriteRef(heap, flags, w, h).1)
    decreases heap.Keys - w.tally.Keys, 0, 0
  {
    var w' := WriteRef(heap, flags, w, h).1;
    if h.Attached? && h.ref !in w.tally && Expands(flags, heap[h.ref]) {
      WriteRefExpands(heap, flags, w, h);
      var w1 := w.(tally := w.tally[h.ref := 1]);
      var w2 := WriteFields(heap, flags, w1, heap[h.ref].fields).1;
      WriteFieldsExpanded(heap, flags, w1, heap[h.ref].fields);
      ExpandedStep(heap, flags, w, w1, w2, w', h.ref);
    } else {
      assert NewLog(w, w') == [];
    }
  }

  lemma {:induction false} WriteFieldsExpanded(heap: Heap, flags: DomainFlags, w: Writer, fs: seq<Handle>)
    requires Closed(heap) && AllPoint(heap, fs) && w.tally.Keys <= heap.Keys
    ensures ExpandedLog(heap, flags, w, WriteFields(heap, flags, w, fs).1)
    decreases heap.Keys - w.tally.Keys, 1, |fs|
  {
    var w' := WriteFields(heap, flags, w, fs).1;
    if fs == [] {
      assert NewLog(w, w') == [];
    } else {
      WriteRefExpanded(heap, flags, w, fs[0]);
      var w1 := WriteRef(heap, flags, w, fs[0]).1;
      WriteFieldsExpanded(heap, flags, w1, fs[1..]);
      assert w' == WriteFields(heap, flags, w1, fs[1..]).1;
      NewLogSplit(w, w1, w');
    }
  }

  lemma {:induction false} PutConcat(heap: Heap, store: Store, a: seq<Ref>, b: seq<Ref>)
    requires Closed(heap) && Elems(a) <= heap.Keys && Elems(b) <= heap.Keys
    ensures Elems(a + b) <= heap.Keys
    ensures Put(heap, store, a + b) == Put(heap, Put(heap, store, a), b)
    decreases |a|
  {
    ElemsConcat(a, b);
    if a == [] {
      assert a + b == b;
    } else {
      assert (a + b)[0] == a[0];
      assert (a + b)[1..] == a[1..] + b;
      assert Elems(a) == {a[0]} + Elems(a[1..]);
      PutConcat(heap, store[KeyOf(heap, a[0]) := RecordOf(heap, a[0])], a[1..], b);
    }
  }

  /** Filing records under keys other than `key` leaves the record under `key` as it was. */
  lemma {:induction false} PutKeeps(heap: Heap, store: Store, os: seq<Ref>, key: Key)
    requires Closed(heap) && Elems(os) <= heap.Keys && key in store
    requires forall o :: o in Elems(os) ==> KeyOf(heap, o) != key
    ensures key in Put(heap, store, os) && Put(heap, store, os)[key] == store[key]
    decreases |os|
  {
    if os != [] {
      assert Elems(os) == {os[0]} + Elems(os[1..]);
      PutKeeps(heap, store[KeyOf(heap, os[0]) := RecordOf(heap, os[0])], os[1..], key);
    }
  }

  /** An object whose key no other filed object shares is found under its key with its own record. */
  lemma {:induction false} PutFinds(heap: Heap, store: Store, os: seq<Ref>, o: Ref)
    requires Closed(heap) && Elems(os) <= heap.Keys && o in Elems(os)
    requires forall o' :: o' in Elems(os) && KeyOf(heap, o') == KeyOf(heap, o) ==> o' == o
    ensures KeyOf(heap, o) in Put(heap, store, os) && Put(heap, store, os)[KeyOf(heap, o)] == RecordOf(heap, o)
    decreases |os|
  {
    assert Elems(os) == {os[0]} + Elems(os[1..]);
    var store' := store[KeyOf(heap, os[0]) := RecordOf(heap, os[0])];
    if o in Elems(os[1..]) {
      PutFinds(heap, store', os[1..], o);
    } else {
      PutKeeps(heap, store', os[1..], KeyOf(heap, o));
    }
  }

  /** The store after a traversal: the earlier store with the record of each logged object filed in log order. */
  ghost predicate Filed(heap: Heap, w: Writer, w': Writer)
    requires Closed(heap) && |w.log| <= |w'.log| && Elems(NewLog(w, w')) <= heap.Keys
  {
    w'.store == Put(heap, w.store, NewLog(w, w'))
  }

  lemma FiledStep(heap: Heap, w: Writer, w1: Writer, w2: Writer, w': Writer, o: Ref)
    requires Closed(heap) && o in heap
    requires w1.log == w.log && w1.store == w.store && |w1.log| <= |w2.log| && w2.log[..|w1.log|] == w1.log
    requires Elems(NewLog(w1, w2)) <= heap.Keys && Filed(heap, w1, w2)
    requires w'.log == w2.log + [o] && w'.store == w2.store[KeyOf(heap, o) := RecordOf(heap, o)]
    ensures Elems(NewLog(w, w')) <= heap.Keys && Filed(heap, w, w')
  {
    assert NewLog(w, w') == NewLog(w1, w2) + [o];
    assert Elems([o]) == {o};
    PutConcat(heap, w.store, NewLog(w1, w2), [o]);
    assert [o][1..] == [];
  }

  /** The records filed by a traversal are exactly those of the objects it logs, filed in log order. */
  lemma {:induction false} WriteRefFiles(heap: Heap, flags: DomainFlags, w: Writer, h: Handle)
    requires Closed(heap) && Points(heap, h) && w.tally.Keys <= heap.Keys
    ensures Filed(heap, w, WriteRef(heap, flags, w, h).1)
    decreases heap.Keys - w.tally.Keys, 0, 0
  {
    var w' := WriteRef(heap, flags, w, h).1;
    if h.Attached? && h.ref !in w.tally && Expands(flags, heap[h.ref]) {
      WriteRefExpands(heap, flags, w, h);
      var w1 := w.(tally := w.tally[h.ref := 1]);
      var w2 := WriteFields(heap, flags, w1, heap[h.ref].fields).1;
      WriteFieldsFiles(heap, flags, w1, heap[h.ref].fields);
      FiledStep(heap, w, w1, w2, w', h.ref);
    } else {
      assert NewLog(w, w') == [];
    }
  }

  lemma {:induction false} WriteFieldsFiles(heap: Heap, flags: DomainFlags, w: Writer, fs: seq<Handle>)
    requires Closed(heap) && AllPoint(heap, fs) && w.tally.Keys <= heap.Keys
    ensures Filed(heap, w, WriteFields(heap, flags, w, fs).1)
    decreases heap.Keys - w.tally.Keys, 1, |fs|
  {
    var w' := WriteFields(heap, flags, w, fs).1;
    if fs == [] {
      assert NewLog(w, w') == [];
    } else {
      WriteRefFiles(heap, flags, w, fs[0]);
      var w1 := WriteRef(heap, flags, w, fs[0]).1;
      WriteFieldsFiles(heap, flags, w1, fs[1..]);
      assert w' == WriteFields(heap, flags, w1, fs[1..]).1;
      NewLogSplit(w, w1, w');
      PutConcat(heap, w.store, NewLog(w, w1), NewLog(w1, w'));
    }
  }

  /**
   * The tally after writing `hs` adds one hit per handle of `hs` holding an
   * object, and one hit per field, of an object the traversal logged, holding it.
   */
  ghost predicate Counted(heap: Heap, w: Writer, w': Writer, hs: seq<Handle>)
    requires |w.log| <= |w'.log|
  {
    forall x :: Cnt(w'.tally, x) == Cnt(w.tally, x) + Occ(hs, x) + SumOcc(heap, Elems(NewLog(w, w')), x)
  }

  /** The hits an expanded object adds: one for the handle reaching it, and its fields' hits. */
  lemma HitStep(heap: Heap, h: Handle, e: set<Ref>, e2: set<Ref>, x: Ref)
    requires h.Attached? && h.ref in heap && h.ref in e && e2 == e - {h.ref}
    ensures Occ([h], x) + SumOcc(heap, e, x) == (if x == h.ref then 1 else 0) + Occ(heap[h.ref].fields, x) + SumOcc(heap, e2, x)
  {
    OccSingle(h, x);
    SumOccRemove(heap, e, h.ref, x);
  }

  /** Expanding `o` logs it after everything its fields' traversal logged, none of which is `o`. */
  lemma LogStep(w: Writer, w1: Writer, w2: Writer, w': Writer, o: Ref)
    requires o in w1.tally && w1.log == w.log && |w1.log| <= |w2.log| && w2.log[..|w1.log|] == w1.log
    requires Elems(NewLog(w1, w2)) !! w1.tally.Keys
    requires w'.log == w2.log + [o]
    ensures o in Elems(NewLog(w, w')) && Elems(NewLog(w, w')) - {o} == Elems(NewLog(w1, w2))
  {
    assert NewLog(w, w') == NewLog(w1, w2) + [o];
    ElemsConcat(NewLog(w1, w2), [o]);
    assert Elems([o]) == {o};
  }

  lemma CountedStep(heap: Heap, w: Writer, w1: Writer, w2: Writer, w': Writer, h: Handle)
    requires h.Attached? && h.ref in heap && h.ref !in w.tally && w1.tally == w.tally[h.ref := 1]
    requires w1.log == w.log && |w1.log| <= |w2.log| && w2.log[..|w1.log|] == w1.log
    requires Elems(NewLog(w1, w2)) !! w1.tally.Keys
    requires Counted(heap, w1, w2, heap[h.ref].fields)
    requires w'.tally == w2.tally && w'.log == w2.log + [h.ref]
    ensures Counted(heap, w, w', [h])
  {
    LogStep(w, w1, w2, w', h.ref);
    var e := Elems(NewLog(w, w'));
    var e2 := Elems(NewLog(w1, w2));
    forall x ensures Cnt(w'.tally, x) == Cnt(w.tally, x) + Occ([h], x) + SumOcc(heap, e, x) {
      HitStep(heap, h, e, e2, x);
      assert Cnt(w1.tally, x) == Cnt(w.tally, x) + (if x == h.ref then 1 else 0);
    }
  }

  lemma {:induction false} WriteRefCounts(heap: Heap, flags: DomainFlags, w: Writer, h: Handle)
    requires Closed(heap) && Points(heap, h) && w.tally.Keys <= heap.Keys
    ensures Counted(heap, w, WriteRef(heap, flags, w, h).1, [h])
    decreases heap.Keys - w.tally.Keys, 0, 0
  {
    var w' := WriteRef(heap, flags, w, h).1;
    if h.Attached? && h.ref !in w.tally && Expands(flags, heap[h.ref]) {
      WriteRefExpands(heap, flags, w, h);
      var w1 := w.(tally := w.tally[h.ref := 1]);
      var w2 := WriteFields(heap, flags, w1, heap[h.ref].fields).1;
      WriteFieldsCounts(heap, flags, w1, heap[h.ref].fields);
      WriteFieldsFresh(heap, flags, w1, heap[h.ref].fields);
      CountedStep(heap, w, w1, w2, w', h);
    } else {
      assert NewLog(w, w') == [] && Elems([]) == {};
      forall x ensures Cnt(w'.tally, x) == Cnt(w.tally, x) + Occ([h], x) {
        OccSingle(h, x);
      }
    }
  }

  lemma CountedSplit(heap: Heap, w: Writer, w1: Writer, w': Writer, fs: seq<Handle>)
    requires fs != []
    requires |w.log| <= |w1.log| <= |w'.log|
    requires w1.log[..|w.log|] == w.log && w'.log[..|w1.log|] == w1.log
    requires Elems(NewLog(w1, w')) !! w1.tally.Keys && Elems(NewLog(w, w1)) <= w1.tally.Keys
    requires Counted(heap, w, w1, [fs[0]]) && Counted(heap, w1, w', fs[1..])
    ensures Counted(heap, w, w', fs)
  {
    NewLogSplit(w, w1, w');
    assert fs == [fs[0]] + fs[1..];
    forall x ensures Cnt(w'.tally, x) == Cnt(w.tally, x) + Occ(fs, x) + SumOcc(heap, Elems(NewLog(w, w')), x) {
      OccConcat([fs[0]], fs[1..], x);
      SumOccUnion(heap, Elems(NewLog(w, w1)), Elems(NewLog(w1, w')), x);
    }
  }

  lemma {:induction false} WriteFieldsCounts(heap: Heap, flags: DomainFlags, w: Writer, fs: seq<Handle>)
    requires Closed(heap) && AllPoint(heap, fs) && w.tally.Keys <= heap.Keys
    ensures Counted(heap, w, WriteFields(heap, flags, w, fs).1, fs)
    decreases heap.Keys - w.tally.Keys, 1, |fs|
  {
    var w' := WriteFields(heap, flags, w, fs).1;
    if fs == [] {
      assert NewLog(w, w') == [] && Elems([]) == {};
    } else {
      WriteRefCounts(heap, flags, w, fs[0]);
      var w1 := WriteRef(heap, flags, w, fs[0]).1;
      WriteFieldsCounts(heap, flags, w1, fs[1..]);
      WriteFieldsFresh(heap, flags, w1, fs[1..]);
      assert w' == WriteFields(heap, flags, w1, fs[1..]).1;
      CountedSplit(heap, w, w1, w', fs);
    }
  }

  /** A set of live objects closed under fields. */
  ghost predicate ClosedSet(heap: Heap, s: set<Ref>) {
    s <= heap.Keys && forall o :: o in s ==> FieldsIn(heap, o, s)
  }

  /** A traversal only meets objects of any field-closed set that holds where it starts. */
  lemma {:induction false} WriteRefWithin(heap: Heap, flags: DomainFlags, w: Writer, h: Handle, s: set<Ref>)
    requires Closed(heap) && Points(heap, h) && w.tally.Keys <= heap.Keys
    requires ClosedSet(heap, s) && (h.Attached? ==> h.ref in s)
    ensures WriteRef(heap, flags, w, h).1.tally.Keys <= w.tally.Keys + s
    decreases heap.Keys - w.tally.Keys, 0, 0
  {
    if h.Attached? && h.ref !in w.tally && Expands(flags, heap[h.ref]) {
      WriteRefExpands(heap, flags, w, h);
      WriteFieldsWithin(heap, flags, w.(tally := w.tally[h.ref := 1]), heap[h.ref].fields, s);
    }
  }

  lemma {:induction false} WriteFieldsWithin(heap: Heap, flags: DomainFlags, w: Writer, fs: seq<Handle>, s: set<Ref>)
    requires Closed(heap) && AllPoint(heap, fs) && w.tally.Keys <= heap.Keys
    requires ClosedSet(heap, s) && forall k :: 0 <= k < |fs| && fs[k].Attached? ==> fs[k].ref in s
    ensures WriteFields(heap, flags, w, fs).1.tally.Keys <= w.tally.Keys + s
    decreases heap.Keys - w.tally.Keys, 1, |fs|
  {
    if fs != [] {
      WriteRefWithin(heap, flags, w, fs[0], s);
      var w1 := WriteRef(heap, flags, w, fs[0]).1;
      WriteFieldsWithin(heap, flags, w1, fs[1..], s);
    }
  }

  // ---------------------------------------------------------------------------
  // A whole traversal that includes constants
  // ---------------------------------------------------------------------------

  /**
   * Writing `h` into a fresh domain that includes constants meets exactly the
   * least field-closed set holding h's object, logs (and files) each object it
   * meets once, and tallies each object once per handle holding it: `h` itself
   * and the fields of the objects met.
   */
  lemma TraversalFacts(heap: Heap, flags: DomainFlags, h: Handle)
    requires Closed(heap) && Points(heap, h) && flags & Consts != 0
    ensures var w' := WriteRef(heap, flags, EmptyWriter, h).1;
      && Elems(w'.log) == w'.tally.Keys && NoDup(w'.log)
      && ClosedSet(heap, w'.tally.Keys)
      && (h.Attached? ==> h.ref in w'.tally)
      && (forall s :: ClosedSet(heap, s) && (h.Attached? ==> h.ref in s) ==> w'.tally.Keys <= s)
      && (forall x :: Cnt(w'.tally, x) == Occ([h], x) + SumOcc(heap, w'.tally.Keys, x))
  {
    TraversalShape(heap, flags, h);
    TraversalLeast(heap, flags, h);
    TraversalCounts(heap, flags, h);
  }

  lemma TraversalShape(heap: Heap, flags: DomainFlags, h: Handle)
    requires Closed(heap) && Points(heap, h) && flags & Consts != 0
    ensures var w' := WriteRef(heap, flags, EmptyWriter, h).1;
      && Elems(w'.log) == w'.tally.Keys && NoDup(w'.log)
      && ClosedSet(heap, w'.tally.Keys)
      && (h.Attached? ==> h.ref in w'.tally)
  {
    var w' := WriteRef(heap, flags, EmptyWriter, h).1;
    assert NewLog(EmptyWriter, w') == w'.log;
    WriteRefFresh(heap, flags, EmptyWriter, h);
    WriteRefCovers(heap, flags, EmptyWriter, h);
    WriteRefExpanded(heap, flags, EmptyWriter, h);
  }

  lemma TraversalLeast(heap: Heap, flags: DomainFlags, h: Handle)
    requires Closed(heap) && Points(heap, h)
    ensures var w' := WriteRef(heap, flags, EmptyWriter, h).1;
      forall s :: ClosedSet(heap, s) && (h.Attached? ==> h.ref in s) ==> w'.tally.Keys <= s
  {
    var w' := WriteRef(heap, flags, EmptyWriter, h).1;
    forall s | ClosedSet(heap, s) && (h.Attached? ==> h.ref in s) ensures w'.tally.Keys <= s {
      WriteRefWithin(heap, flags, EmptyWriter, h, s);
    }
  }

  lemma TraversalCounts(heap: Heap, flags: DomainFlags, h: Handle)
    requires Closed(heap) && Points(heap, h) && flags & Consts != 0
    ensures var w' := WriteRef(heap, flags, EmptyWriter, h).1;
      forall x :: Cnt(w'.tally, x) == Occ([h], x) + SumOcc(heap, w'.tally.Keys, x)
  {
    var w' := WriteRef(heap, flags, EmptyWriter, h).1;
    assert NewLog(EmptyWriter, w') == w'.log;
    TraversalShape(heap, flags, h);
    WriteRefCounts(heap, flags, EmptyWriter, h);
  }

  /** The same for writing a sequence of handles (an object's fields) into a fresh domain. */
  lemma FieldsTraversalFacts(heap: Heap, flags: DomainFlags, fs: seq<Handle>)
    requires Closed(heap) && AllPoint(heap, fs) && flags & Consts != 0
    ensures var w' := WriteFields(heap, flags, EmptyWriter, fs).1;
      && Elems(w'.log) == w'.tally.Keys && NoDup(w'.log)
      && ClosedSet(heap, w'.tally.Keys)
      && (forall k :: 0 <= k < |fs| && fs[k].Attached? ==> fs[k].ref in w'.tally)
      && (forall s :: ClosedSet(heap, s) && (forall k :: 0 <= k < |fs| && fs[k].Attached? ==> fs[k].ref in s) ==> w'.tally.Keys <= s)
      && (forall x :: Cnt(w'.tally, x) == Occ(fs, x) + SumOcc(heap, w'.tally.Keys, x))
  {
    FieldsTraversalShape(heap, flags, fs);
    FieldsTraversalLeast(heap, flags, fs);
    FieldsTraversalCounts(heap, flags, fs);
  }

  lemma FieldsTraversalShape(heap: Heap, flags: DomainFlags, fs: seq<Handle>)
    requires Closed(heap) && AllPoint(heap, fs) && flags & Consts != 0
    ensures var w' := WriteFields(heap, flags, EmptyWriter, fs).1;
      && Elems(w'.log) == w'.tally.Keys && NoDup(w'.log)
      && ClosedSet(heap, w'.tally.Keys)
      && (forall k :: 0 <= k < |fs| && fs[k].Attached? ==> fs[k].ref in w'.tally)
  {
    var w' := WriteFields(heap, flags, EmptyWriter, fs).1;
    assert NewLog(EmptyWriter, w') == w'.log;
    WriteFieldsFresh(heap, flags, EmptyWriter, fs);
    WriteFieldsCovers(heap, flags, EmptyWriter, fs);
    WriteFieldsExpanded(heap, flags, EmptyWriter, fs);
  }

  lemma FieldsTraversalLeast(heap: Heap, flags: DomainFlags, fs: seq<Handle>)
    requires Closed(heap) && AllPoint(heap, fs)
    ensures var w' := WriteFields(heap, flags, EmptyWriter, fs).1;
      forall s :: ClosedSet(heap, s) && (forall k :: 0 <= k < |fs| && fs[k].Attached? ==> fs[k].ref in s) ==> w'.tally.Keys <= s
  {
    var w' := WriteFields(heap, flags, EmptyWriter, fs).1;
    forall s | ClosedSet(heap, s) && (forall k :: 0 <= k < |fs| && fs[k].Attached? ==> fs[k].ref in s)
      ensures w'.tally.Keys <= s
    {
      WriteFieldsWithin(heap, flags, EmptyWriter, fs, s);
    }
  }

  lemma FieldsTraversalCounts(heap: Heap, flags: DomainFlags, fs: seq<Handle>)
    requires Closed(heap) && AllPoint(heap, fs) && flags & Consts != 0
    ensures var w' := WriteFields(heap, flags, EmptyWriter, fs).1;
      forall x :: Cnt(w'.tally, x) == Occ(fs, x) + SumOcc(heap, w'.tally.Keys, x)
  {
    var w' := WriteFields(heap, flags, EmptyWriter, fs).1;
    assert NewLog(EmptyWriter, w') == w'.log;
    FieldsTraversalShape(heap, flags, fs);
    WriteFieldsCounts(heap, flags, EmptyWriter, fs);
  }
}
