/**
 * The class registry: the set of registered class ids (each standing for its own
 * factory) and the base-to-derived version links used by CreateClassById.
 */
module Registry {
  import opened ObjId

  /** `classes` is the factory map's key set; `baseToDerived` maps a class to its newer version. */
  datatype Registry = Registry(classes: set<ClassId>, baseToDerived: map<ClassId, ClassId>)

  /** The state after the lazy initialisation of the first registration. */
  const Empty: Registry := Registry({}, map[])

  datatype Registration = Registered(registry: Registry) | DuplicateClassId

  /** Every version link leads to a registered class. */
  ghost predicate EdgeTargetsRegistered(reg: Registry) {
    forall b :: b in reg.baseToDerived ==> reg.baseToDerived[b] in reg.classes
  }

  /**
   * Registers `cls` with versioned ancestor `base`. A class id that is already
   * present is refused (duplicate registration or a hash collision). Otherwise
   * the class is added and, unless `base` is Obj's id, the link base -> cls is
   * set, replacing any earlier link from `base`.
   */
  function RegisterClass(reg: Registry, cls: ClassId, base: ClassId): (r: Registration)
    ensures r.DuplicateClassId? <==> cls in reg.classes
    ensures r.Registered? ==> r.registry.classes == reg.classes + {cls}
    ensures r.Registered? ==>
      forall b :: b in r.registry.baseToDerived <==> b in reg.baseToDerived || (b == base && base != ObjClassId)
    ensures r.Registered? ==>
      forall b :: b in r.registry.baseToDerived ==>
        r.registry.baseToDerived[b] == if b == base && base != ObjClassId then cls else reg.baseToDerived[b]
  {
    if cls in reg.classes then DuplicateClassId
    else if base != ObjClassId then Registered(Registry(reg.classes + {cls}, reg.baseToDerived[base := cls]))
    else Registered(Registry(reg.classes + {cls}, reg.baseToDerived))
  }

  /** Removes the class and every version link whose target is that class. */
  function UnregisterClass(reg: Registry, cls: ClassId): (r: Registry)
    ensures r.classes == reg.classes - {cls}
    ensures forall b :: b in r.baseToDerived <==> b in reg.baseToDerived && reg.baseToDerived[b] != cls
    ensures forall b :: b in r.baseToDerived ==> r.baseToDerived[b] == reg.baseToDerived[b]
  {
    Registry(reg.classes - {cls}, map b | b in reg.baseToDerived && reg.baseToDerived[b] != cls :: reg.baseToDerived[b])
  }

  /** Registration keeps every version link pointing at a registered class. */
  lemma RegisterKeepsEdgeTargets(reg: Registry, cls: ClassId, base: ClassId)
    requires EdgeTargetsRegistered(reg)
    ensures RegisterClass(reg, cls, base).Registered? ==> EdgeTargetsRegistered(RegisterClass(reg, cls, base).registry)
  {
  }

  /** Unregistration keeps every version link pointing at a registered class. */
  lemma UnregisterKeepsEdgeTargets(reg: Registry, cls: ClassId)
    requires EdgeTargetsRegistered(reg)
    ensures EdgeTargetsRegistered(UnregisterClass(reg, cls))
  {
  }

  /**
   * Unregistering a class just registered undoes the registration, provided no
   * link pointed at it before and its base had no newer version to be replaced.
   */
  lemma UnregisterUndoesRegister(reg: Registry, cls: ClassId, base: ClassId)
    requires cls !in reg.classes
    requires EdgeTargetsRegistered(reg)
    requires base == ObjClassId || base !in reg.baseToDerived
    ensures RegisterClass(reg, cls, base).Registered?
    ensures UnregisterClass(RegisterClass(reg, cls, base).registry, cls) == reg
  {
    var r := RegisterClass(reg, cls, base).registry;
    var u := UnregisterClass(r, cls);
    assert u.baseToDerived.Keys == reg.baseToDerived.Keys;
    assert u.baseToDerived == reg.baseToDerived;
  }

  // ---------------------------------------------------------------------------
  // Version resolution
  // ---------------------------------------------------------------------------

  /** One hop of the chain: the derived class, or the class itself when there is no link. */
  function Next(b2d: map<ClassId, ClassId>, c: ClassId): ClassId {
    if c in b2d then b2d[c] else c
  }

  /** The loop in CreateClassById stops at a class with no link or with a link to itself. */
  predicate Terminal(b2d: map<ClassId, ClassId>, c: ClassId) {
    Next(b2d, c) == c
  }

  /** The class reached after n hops from c. */
  function Hop(b2d: map<ClassId, ClassId>, c: ClassId, n: nat): ClassId
    decreases n
  {
    if n == 0 then c else Hop(b2d, Next(b2d, c), n - 1)
  }

  datatype Resolution = EndsAt(cls: ClassId) | Cycles

  /**
   * The chain walk of CreateClassById. `seen` holds the non-terminal classes
   * already left; meeting one again means the walk would go round forever.
   */
  function Walk(b2d: map<ClassId, ClassId>, c: ClassId, seen: set<ClassId>): (r: Resolution)
    decreases b2d.Keys - seen
    ensures r.EndsAt? ==> Terminal(b2d, r.cls)
  {
    if Terminal(b2d, c) then EndsAt(c)
    else if c in seen then Cycles
    else Walk(b2d, b2d[c], seen + {c})
  }

  function Resolve(reg: Registry, c: ClassId): Resolution {
    Walk(reg.baseToDerived, c, {})
  }

  lemma {:induction false} HopAdd(b2d: map<ClassId, ClassId>, c: ClassId, m: nat, n: nat)
    ensures Hop(b2d, Hop(b2d, c, m), n) == Hop(b2d, c, m + n)
    decreases m
  {
    if m > 0 {
      HopAdd(b2d, Next(b2d, c), m - 1, n);
    }
  }

  lemma {:induction false} HopTerminal(b2d: map<ClassId, ClassId>, c: ClassId, n: nat)
    requires Terminal(b2d, c)
    ensures Hop(b2d, c, n) == c
    decreases n
  {
    if n > 0 {
      HopTerminal(b2d, c, n - 1);
    }
  }

  /** Invariant of the walk: `c` is `m` hops from the start and `seen` is the non-terminal prefix. */
  ghost predicate WalkState(b2d: map<ClassId, ClassId>, start: ClassId, c: ClassId, seen: set<ClassId>, m: nat) {
    && c == Hop(b2d, start, m)
    && (forall x :: x in seen <==> exists k :: 0 <= k < m && Hop(b2d, start, k) == x)
    && (forall k :: 0 <= k < m ==> !Terminal(b2d, Hop(b2d, start, k)))
  }

  /** When the walk ends at a class, that class is terminal and is reached by some number of hops. */
  lemma {:induction false} WalkEndsOnChain(b2d: map<ClassId, ClassId>, start: ClassId, c: ClassId, seen: set<ClassId>, m: nat)
    returns (n: nat)
    requires WalkState(b2d, start, c, seen, m)
    requires Walk(b2d, c, seen).EndsAt?
    ensures Hop(b2d, start, n) == Walk(b2d, c, seen).cls
    ensures forall k :: 0 <= k < n ==> !Terminal(b2d, Hop(b2d, start, k))
    decreases b2d.Keys - seen
  {
    if Terminal(b2d, c) {
      n := m;
    } else {
      HopAdd(b2d, start, m, 1);
      assert Hop(b2d, c, 1) == Next(b2d, c);
      n := WalkEndsOnChain(b2d, start, b2d[c], seen + {c}, m + 1);
    }
  }

  /** When the walk detects a cycle, no number of hops ever reaches a terminal class. */
  lemma {:induction false} WalkCyclesForever(b2d: map<ClassId, ClassId>, start: ClassId, c: ClassId, seen: set<ClassId>, m: nat, n: nat)
    requires WalkState(b2d, start, c, seen, m)
    requires Walk(b2d, c, seen).Cycles?
    ensures !Terminal(b2d, Hop(b2d, start, n))
    decreases b2d.Keys - seen, n
  {
    if c in seen && !Terminal(b2d, c) {
      // c was met after k < m hops: the chain repeats with period m - k.
      var k :| 0 <= k < m && Hop(b2d, start, k) == c;
      if n >= m {
        HopAdd(b2d, start, k, n - m);
        HopAdd(b2d, start, m, n - m);
        WalkCyclesForever(b2d, start, c, seen, m, n - (m - k));
      }
    } else {
      HopAdd(b2d, start, m, 1);
      assert Hop(b2d, c, 1) == Next(b2d, c);
      WalkCyclesForever(b2d, start, b2d[c], seen + {c}, m + 1, n);
    }
  }

  /**
   * Resolution ends at class e exactly when e is the first terminal class on the
   * chain, and reports a cycle exactly when the chain never reaches a terminal class.
   */
  lemma ResolveMeansChainEnd(reg: Registry, c: ClassId)
    ensures Resolve(reg, c).EndsAt? ==>
      exists n: nat :: Hop(reg.baseToDerived, c, n) == Resolve(reg, c).cls && Terminal(reg.baseToDerived, Resolve(reg, c).cls)
    ensures Resolve(reg, c).Cycles? <==> forall n: nat :: !Terminal(reg.baseToDerived, Hop(reg.baseToDerived, c, n))
  {
    var b2d := reg.baseToDerived;
    assert WalkState(b2d, c, c, {}, 0);
    if Resolve(reg, c).EndsAt? {
      var n := WalkEndsOnChain(b2d, c, c, {}, 0);
    } else {
      forall n: nat ensures !Terminal(b2d, Hop(b2d, c, n)) {
        WalkCyclesForever(b2d, c, c, {}, 0, n);
      }
    }
  }

  /** The outcome of Obj::CreateClassById. */
  datatype Creation = Created(cls: ClassId) | NullClass | NeverReturns

  /**
   * Follows the version chain from `c` and instantiates the class it ends at:
   * null when that class is not registered; when the chain cycles through
   * distinct classes the source loop never returns.
   */
  function CreateClassById(reg: Registry, c: ClassId): (r: Creation)
    ensures r.Created? ==> r.cls in reg.classes && Resolve(reg, c) == EndsAt(r.cls)
    ensures r.NullClass? <==> Resolve(reg, c).EndsAt? && Resolve(reg, c).cls !in reg.classes
    ensures r.NeverReturns? <==> Resolve(reg, c).Cycles?
  {
    match Resolve(reg, c)
    case Cycles => NeverReturns
    case EndsAt(e) => if e in reg.classes then Created(e) else NullClass
  }

  /** Every terminal class on a chain is the same one: a terminal class hops to itself. */
  lemma TerminalUnique(b2d: map<ClassId, ClassId>, c: ClassId, m: nat, n: nat)
    requires m <= n && Terminal(b2d, Hop(b2d, c, m)) && Terminal(b2d, Hop(b2d, c, n))
    ensures Hop(b2d, c, m) == Hop(b2d, c, n)
  {
    HopAdd(b2d, c, m, n - m);
    HopTerminal(b2d, Hop(b2d, c, m), n - m);
  }

  /**
   * CreateClassById in terms of the chain alone: it creates class e exactly when
   * e is registered and is the terminal class the chain from c reaches, and it
   * gives null exactly when the chain reaches an unregistered terminal class.
   */
  lemma CreatesChainEnd(reg: Registry, c: ClassId, e: ClassId)
    ensures CreateClassById(reg, c) == Created(e) <==>
      e in reg.classes && exists n: nat :: Hop(reg.baseToDerived, c, n) == e && Terminal(reg.baseToDerived, e)
    ensures CreateClassById(reg, c).NullClass? <==>
      exists n: nat :: Terminal(reg.baseToDerived, Hop(reg.baseToDerived, c, n)) && Hop(reg.baseToDerived, c, n) !in reg.classes
  {
    var b2d := reg.baseToDerived;
    ResolveMeansChainEnd(reg, c);
    if Resolve(reg, c).EndsAt? {
      var m: nat :| Hop(b2d, c, m) == Resolve(reg, c).cls && Terminal(b2d, Resolve(reg, c).cls);
      forall n: nat | Terminal(b2d, Hop(b2d, c, n)) ensures Hop(b2d, c, n) == Resolve(reg, c).cls {
        if m <= n { TerminalUnique(b2d, c, m, n); } else { TerminalUnique(b2d, c, n, m); }
      }
    }
  }

  /**
   * While every link leads to a registered class, a registered class, or any class
   * with a link, resolves to a registered class whenever the walk ends.
   */
  lemma {:induction false} RegisteredResolves(reg: Registry, c: ClassId)
    requires EdgeTargetsRegistered(reg)
    requires c in reg.classes || c in reg.baseToDerived
    ensures CreateClassById(reg, c).NullClass? == false
  {
    var b2d := reg.baseToDerived;
    if Resolve(reg, c).EndsAt? {
      assert WalkState(b2d, c, c, {}, 0);
      var n := WalkEndsOnChain(b2d, c, c, {}, 0);
      if n > 0 {
        HopAdd(b2d, c, n - 1, 1);
        var p := Hop(b2d, c, n - 1);
        assert !Terminal(b2d, p);
        assert Hop(b2d, p, 1) == Next(b2d, p);
      } else if c in b2d {
        assert Terminal(b2d, c);
      }
    }
  }
}
