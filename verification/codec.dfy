/**
 * The parts of the graph codec shared by writing and reading: the traversal
 * domain's per-object hit tally, the serialization flags, and the object
 * records a store facility keeps, keyed by (id, storage).
 */
module Codec {
  import opened ObjId
  import opened Ptr

  /** A hit count: an entry exists only once the object has been met. */
  type Hits = n: nat | n >= 1 witness 1

  /** Domain::objects_: how many times the traversal met each object. */
  type Tally = map<Ref, Hits>

  /** Domain::flags_, tested bitwise. */
  type DomainFlags = bv32

  const Consts: DomainFlags := 1
  const Data: DomainFlags := 2
  const Refs: DomainFlags := 4

  /** The key a store facility files a record under: the id's decimal text and the storage byte. */
  datatype Key = Key(id: Id, storage: Storage)

  /** One object's record: its class id, then one identity triple per reference field. */
  datatype Record = Record(classId: ClassId, fields: seq<Identity>)

  type Store = map<Key, Record>

  /** The hit count of `o`, 0 when never met. */
  function Cnt(t: Tally, o: Ref): nat {
    if o in t then t[o] else 0
  }

  /** Domain::FindAndAddObject: counts one more hit and reports whether `o` had been met before. */
  function FindAndAddObject(t: Tally, o: Ref): (r: (bool, Tally))
    ensures r.0 <==> o in t
    ensures r.1.Keys == t.Keys + {o}
    ensures Cnt(r.1, o) == Cnt(t, o) + 1
    ensures forall x :: x != o ==> Cnt(r.1, x) == Cnt(t, x)
  {
    var n := Cnt(t, o) + 1;
    (n > 1, t[o := n])
  }

  /** A run of FindAndAddObject calls, one per element of `os`, with their answers in order. */
  function FindAndAddAll(t: Tally, os: seq<Ref>): (r: (seq<bool>, Tally))
    ensures |r.0| == |os|
    decreases |os|
  {
    if os == [] then ([], t)
    else
      var (bs, t1) := FindAndAddAll(t, os[..|os| - 1]);
      var (b, t2) := FindAndAddObject(t1, os[|os| - 1]);
      (bs + [b], t2)
  }

  /** Over any run of calls the tally of each object is its earlier tally plus the number of calls made for it. */
  lemma {:induction false} FindAndAddAllTally(t: Tally, os: seq<Ref>)
    ensures forall x :: Cnt(FindAndAddAll(t, os).1, x) == Cnt(t, x) + multiset(os)[x]
    decreases |os|
  {
    if os != [] {
      var init := os[..|os| - 1];
      var last := os[|os| - 1];
      FindAndAddAllTally(t, init);
      assert os == init + [last];
      assert multiset(os) == multiset(init) + multiset{last};
    }
  }

  /** A call answers "seen before" exactly when the object was tallied already or an earlier call of the run named it. */
  lemma {:induction false} FindAndAddAllAnswers(t: Tally, os: seq<Ref>)
    ensures forall i :: 0 <= i < |os| ==>
      (FindAndAddAll(t, os).0[i] <==> os[i] in t || os[i] in os[..i])
    decreases |os|
  {
    if os != [] {
      var init := os[..|os| - 1];
      var last := os[|os| - 1];
      FindAndAddAllAnswers(t, init);
      FindAndAddAllTally(t, init);
      var bs := FindAndAddAll(t, init).0;
      var t1 := FindAndAddAll(t, init).1;
      var answers := FindAndAddAll(t, os).0;
      assert answers == bs + [FindAndAddObject(t1, last).0];
      forall i | 0 <= i < |os|
        ensures answers[i] <==> os[i] in t || os[i] in os[..i]
      {
        if i < |os| - 1 {
          assert os[..i] == init[..i];
          assert answers[i] == bs[i];
        } else {
          assert os[..i] == init;
          assert last in init <==> multiset(init)[last] > 0;
        }
      }
    }
  }

  /** A tally built from nothing by FindAndAddObject: first calls answer false, later ones true. */
  lemma FirstVisitOnly(os: seq<Ref>)
    ensures forall i :: 0 <= i < |os| ==> (!FindAndAddAll(map[], os).0[i] <==> os[i] !in os[..i])
    ensures forall x :: Cnt(FindAndAddAll(map[], os).1, x) == multiset(os)[x]
  {
    FindAndAddAllTally(map[], os);
    FindAndAddAllAnswers(map[], os);
  }
}
