/**
 * Object identity: the (id, flags, storage) triple that every object and every
 * detached handle carries, and that the graph codec writes once per reference.
 */
module ObjId {

  /** An object id. Id 0 is the invalid (null) id. The 32-bit width is not modelled. */
  type Id = nat

  /** A class id: in the system a CRC-32 of the class name, here an opaque number. */
  type ClassId = nat

  /** The object flag byte (uint8_t). */
  type Flags = bv8

  /** The storage-bucket byte (uint8_t). */
  type Storage = bv8

  const Loadable: Flags := 1
  const Loaded: Flags := 2
  const Const: Flags := 4

  /** The class id of Obj itself: the CRC-32 of the three bytes "Obj". */
  const ObjClassId: ClassId := 0x7e2b928c

  const InvalidId: Id := 0

  predicate IsValid(id: Id) {
    id != InvalidId
  }

  predicate Has(flags: Flags, bit: Flags) {
    flags & bit != 0
  }

  /** The identity triple. It is also the token the codec writes to a stream. */
  datatype Identity = Identity(id: Id, flags: Flags, storage: Storage)

  /**
   * What a default-constructed handle caches: ObjFlags() is kLoaded, while the id
   * and storage members are left uninitialised, modelled here as 0.
   */
  const DefaultCache: Identity := Identity(InvalidId, Loaded, 0)

  /** The triple the writer emits for a hard null: id 0, ObjFlags{} (= kLoaded), storage 0. */
  const Sentinel: Identity := Identity(InvalidId, Loaded, 0)

  /** The process-wide counter behind GenerateUnique: the last id handed out. */
  datatype IdSupply = IdSupply(last: nat)

  /** Pre-increments the counter and returns the new value as an id. */
  function GenerateUnique(s: IdSupply): (r: (Id, IdSupply))
    ensures IsValid(r.0)
    ensures r.0 > s.last && r.1.last == r.0
  {
    (s.last + 1, IdSupply(s.last + 1))
  }

  /** The ids handed out by n successive calls. */
  function GenerateMany(s: IdSupply, n: nat): (r: (seq<Id>, IdSupply))
    ensures |r.0| == n
    ensures r.1.last == s.last + n
    ensures forall i :: 0 <= i < n ==> s.last < r.0[i] <= r.1.last
    decreases n
  {
    if n == 0 then ([], s)
    else
      var (id, s1) := GenerateUnique(s);
      var (rest, s2) := GenerateMany(s1, n - 1);
      ([id] + rest, s2)
  }

  /** Ids from successive GenerateUnique calls are valid and strictly increasing, so never repeat. */
  lemma {:induction false} GeneratedIdsIncrease(s: IdSupply, n: nat)
    ensures forall i, j :: 0 <= i < j < n ==> 0 < GenerateMany(s, n).0[i] < GenerateMany(s, n).0[j]
    decreases n
  {
    if n > 0 {
      var s1 := IdSupply(s.last + 1);
      GeneratedIdsIncrease(s1, n - 1);
      var ids := GenerateMany(s, n).0;
      var rest := GenerateMany(s1, n - 1).0;
      assert ids == [s.last + 1] + rest;
      forall i, j | 0 <= i < j < n
        ensures 0 < ids[i] < ids[j]
      {
        if i == 0 {
          assert ids[j] == rest[j - 1];
        } else {
          assert ids[i] == rest[i - 1] && ids[j] == rest[j - 1];
          assert 0 <= i - 1 < j - 1 < n - 1;
          assert 0 < rest[i - 1] < rest[j - 1];
        }
      }
    }
  }
}
