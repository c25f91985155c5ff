/**
 * The interface-cast and handle-comparison cases of the object tests, on a
 * concrete cast table: class A implements PureInterface1, class B implements
 * PureInterface1 and PureInterface2. Each case builds the program's handle
 * variables with the model's constructors, in the test's order, and checks
 * what the test requires of them.
 */
module CastCases {
  import opened Outcomes
  import opened ObjId
  import opened Ptr

  // Class ids are CRC-32 hashes of the class names in the source; any
  // distinct values other than Obj's serve here.
  const AId: ClassId := 1
  const BId: ClassId := 2
  const Pure1Id: ClassId := 3
  const Pure2Id: ClassId := 4

  /** The AETHER_INTERFACES lists of A and B. */
  function Table(): InterfaceTable {
    map[AId := [AId, Pure1Id], BId := [BId, Pure1Id, Pure2Id]]
  }

  /** A fresh object of class `cls` with no reference fields and no holder yet. */
  function Fresh(n: nat, cls: ClassId): Object {
    Object(0, Identity(n, Loaded, 0), cls, [])
  }

  /** The handle Ptr<target>(p) builds: CastConstruct appends exactly this variable. */
  function CastHandle(heap: Heap, p: Option<Ref>, target: ClassId): Handle {
    WithTarget(NullHandle, CastTarget(heap, Table(), p, target))
  }

  lemma CastHandleIsConstructed(w: World, p: Option<Ref>, target: ClassId)
    ensures CastConstruct(w, Table(), p, target).vars == w.vars + [CastHandle(w.space.heap, p, target)]
  {
  }

  // ---------------------------------------------------------------------------
  // Casts of an A
  // ---------------------------------------------------------------------------

  /** Object 1 is an A. */
  function AHeap(): Heap {
    map[1 := Fresh(1, AId)]
  }

  /**
   * An A cast to PureInterface1, then to Obj, then back to A stays the same
   * object; cast to PureInterface2, which it does not declare, it gives a
   * null handle.
   */
  lemma CastsOfA()
    ensures var a := Attached(1, DefaultCache);
      && CastHandle(AHeap(), Some(1), Pure1Id) == a
      && CastHandle(AHeap(), Target(CastHandle(AHeap(), Some(1), Pure1Id)), ObjClassId) == a
      && CastHandle(AHeap(), Some(1), AId) == a
      && CastHandle(AHeap(), Some(1), Pure2Id) == NullHandle
  {
  }

  // ---------------------------------------------------------------------------
  // Comparisons
  // ---------------------------------------------------------------------------

  /** Objects 2 and 3 are B's. */
  function BHeap(): Heap {
    map[2 := Fresh(2, BId), 3 := Fresh(3, BId)]
  }

  /**
   * b1 = B::ptr(new B); p1, p2 = b1 cast to PureInterface1, PureInterface2;
   * p3 = p1 cast to PureInterface2; b2 = B::ptr(new B); p4 = b2 cast to
   * PureInterface1; p5, p6 = null PureInterface1, PureInterface2 handles.
   */
  function CompareVars(): seq<Handle> {
    var b1 := Attached(2, DefaultCache);
    var p1 := CastHandle(BHeap(), Target(b1), Pure1Id);
    var p2 := CastHandle(BHeap(), Target(b1), Pure2Id);
    var p3 := CastHandle(BHeap(), Target(p1), Pure2Id);
    var b2 := Attached(3, DefaultCache);
    var p4 := CastHandle(BHeap(), Target(b2), Pure1Id);
    [b1, p1, p2, p3, b2, p4, NullHandle, NullHandle]
  }

  /** Handles of different static types on the same B compare equal; on different B's, unequal. */
  lemma CompareSameObject()
    ensures var v := CompareVars(); var h := BHeap();
      && CrossTypeEqual(h, Table(), v[0], v[1])
      && CrossTypeEqual(h, Table(), v[1], v[2])
      && CrossTypeEqual(h, Table(), v[1], v[3])
      && !SameTypeEqual(v[0], v[4])
      && !CrossTypeEqual(h, Table(), v[1], v[4])
      && !SameTypeEqual(v[5], v[1])
      && !CrossTypeEqual(h, Table(), v[5], v[0])
  {
  }

  /**
   * A null handle is unequal to a live one of either kind, and two null
   * handles of different static types compare unequal too: the cross-type
   * operator answers false as soon as either side is null.
   */
  lemma CompareNulls()
    ensures var v := CompareVars(); var h := BHeap();
      && !CrossTypeEqual(h, Table(), v[6], v[0])
      && !SameTypeEqual(v[6], v[1])
      && !CrossTypeEqual(h, Table(), v[6], v[7])
      && SameTypeEqual(v[6], v[7])
  {
  }
}
