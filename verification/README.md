# Obj: reference-counted object graphs, their codec and their release

A Dafny model of the object layer in `aether/obj/obj.h`. The model covers four linked parts.

- **Class registry.** It has the set of registered class ids and the base-to-derived version links. Registration and unregistration are modelled, and so is the chain walk of `CreateClassById`.
- **The `Ptr<T>` handle.** It is an intrusive reference-counted pointer. When its pointer is null it carries its own id/flags/storage. The model covers:
  - the identity accessors;
  - the per-class interface-cast table and the two equality operators;
  - every constructor and assignment operator;
  - `Init` and `Release`, including the cascade of deletes and the resident (id -> object) table kept by `Obj`.
- **The graph codec at the reference level.**
  - `Domain::FindAndAddObject` tallies each object met.
  - `SerializeObj` writes one (id, flags, storage) triple per reference. On an object's first visit it also files the object's record (class id and field triples) under (id, storage).
  - `DeserializeObj` reads a triple back. It may give a null handle, a placeholder, an object already resident, or a new object. A new object is made resident before its fields are read, so cycles and sharing come back as they were saved.
- **The cycle-aware subgraph release.** This is the algorithm kept commented out in `Ptr::Release`. It is modelled as a function of a heap snapshot. The seven scenarios of the versioning test are proved against it.

Layout, one module per file:

| file | module | contents |
|---|---|---|
| `outcomes.dfy` | `Outcomes` | `Option`, `Result` |
| `objid.dfy` | `ObjId` | the identity triple, flag bits, `GenerateUnique` |
| `registry.dfy` | `Registry` | the class registry and `CreateClassById` |
| `ptr.dfy` | `Ptr` | handles, heap, accessors, casts, equality, constructors, assignments, `Init`, `Release` |
| `counting.dfy` | `Counting` | the reference-count invariant and its preservation by every handle operation |
| `codec.dfy` | `Codec` | the domain tally, serialization flags, records and store |
| `serializer.dfy` | `Serializer` | `SerializeObj` |
| `deserializer.dfy` | `Deserializer` | `DeserializeObj` |
| `roundtrip.dfy` | `RoundTrip` | writing a graph and reading it back |
| `release.dfy` | `SubgraphRelease` | the cycle-aware release and its soundness |
| `scenarios.dfy` | `Scenarios` | the seven release scenarios of `05_versioning.cpp` |
| `castcases.dfy` | `CastCases` | the cast and comparison cases of `obj_test.cpp` |

The reference-count invariant (`Counting.Consistent`) says that each live object's count equals the number of handles attached to it. Those handles are the program's handle variables plus the fields of every live object. Nothing holds a dead object.

Behaviour kept as the code is written:

- **Placeholder flags.** `DeserializeObj` calls `SetFlags` twice on a placeholder, the second time with the storage byte (obj.h:450). So a placeholder's flags are the storage byte, and its storage member is never set (`Deserializer.Placeholder`, `Deserializer.ReadRef`).
- **Null class.** A null result of `CreateClassById` is dereferenced (obj.h:463-464). The model returns the error outcome `ClassMissing`.
- **Cycling version links.** A chain of version links that cycles through distinct classes makes `CreateClassById` loop forever. The model gives the outcome `NeverReturns`. Registration can build such a cycle.
- **Cross-type move-assignment leak.** When the cast succeeds, this operator never releases the destination's old object (obj.h:153-166). `Counting.CastMoveAssignLeaks` proves the count of that object stays one above its holders.
- **Null cross-type equality.** Two null handles of different static types compare unequal (obj.h:207). `obj_test.cpp:281` expects them equal. The model follows the code (`CastCases.CompareNulls`).
- **Identity not copied.** Copy and move construction take only the pointer member. A placeholder's cached identity is not carried over, and the new handle caches the default identity.
- **Freed objects decremented.** The block's delete pass decrements members of the destroyed set that it has already deleted whenever a later member holds an earlier one (obj.h:433-434). Every delete order does so when the set holds a cycle of two or more distinct objects, each holding the next (`SubgraphRelease.CycleTouchesFreed`); an object that holds only itself does not.
- **Hard-null sentinel.** The triple written for a hard null has flags `ObjFlags{}`, which is kLoaded, not 0.

## Model

| member | source | states |
|---|---|---|
| ObjId.GenerateUnique | aether/obj/obj.h:44-47 | the id handed out is valid and above every id handed out before; the counter moves to it |
| ObjId.GenerateMany | aether/obj/obj.h:44-47 | n calls hand out n ids, all above the starting counter and at most the final one, which has advanced by n |
| ObjId.IsValid | aether/obj/obj.h:49 | an id is valid exactly when it is not 0, the id a hard null writes; it is a plain definition, and ObjId.GeneratedIdsIncrease proves every generated id valid |
| ObjId.GeneratedIdsIncrease | aether/obj/obj.h:44-47 | ids from successive calls are valid and strictly increasing, so an id is never handed out twice |
| Registry.RegisterClass | aether/obj/obj.h:328-341 | refused exactly when the class id is already registered; otherwise the class is added and the link base -> class is set exactly when base is not Obj's id, replacing any earlier link from base, with every other link unchanged |
| Registry.UnregisterClass | aether/obj/obj.h:343-349 | the class is removed together with exactly the links whose target it is; the remaining links keep their targets |
| Registry.RegisterKeepsEdgeTargets | aether/obj/obj.h:328-341 | registration preserves "every version link leads to a registered class" |
| Registry.UnregisterKeepsEdgeTargets | aether/obj/obj.h:343-349 | unregistration preserves "every version link leads to a registered class" |
| Registry.UnregisterUndoesRegister | aether/obj/obj.h:328-349 | unregistering a class just registered restores the registry, when its base had no link before |
| Registry.Walk | aether/obj/obj.h:352-357 | a walk that ends stops at a class with no link or with a link to itself |
| Registry.WalkEndsOnChain | aether/obj/obj.h:352-357 | when the walk ends, it ends at the first class on the chain of links that has no link or a self-link |
| Registry.WalkCyclesForever | aether/obj/obj.h:352-357 | when the walk reports a cycle, no number of hops along the links reaches a class where the source loop could stop |
| Registry.ResolveMeansChainEnd | aether/obj/obj.h:351-361 | resolution ends at a class some number of hops along the chain where the loop stops, and reports a cycle exactly when the loop never stops |
| Registry.CreateClassById | aether/obj/obj.h:351-361 | the class created is registered and is the class the walk from the requested id ends at; the result is null exactly when that walk ends at an unregistered class; the call never returns exactly when the walk cycles |
| Registry.CreatesChainEnd | aether/obj/obj.h:351-361 | stated on the chain alone: class e is created exactly when e is registered and is a terminal class some number of hops from the requested id; null exactly when the chain reaches an unregistered terminal class |
| Registry.RegisteredResolves | aether/obj/obj.h:351-361 | while every link leads to a registered class, a registered class or one with a link never resolves to null |
| Ptr.PutIdentity | aether/obj/obj.h:173-187 | a write through a handle lands in the object when attached (the other objects are unchanged) and in the handle alone when detached, and is read back |
| Ptr.SetId | aether/obj/obj.h:174-177 | the getter then returns the id set, flags and storage unchanged; the object is written when attached, the handle alone when detached |
| Ptr.SetFlags | aether/obj/obj.h:179-182 | the getter then returns the flags set, id and storage unchanged; the object is written when attached, the handle alone when detached |
| Ptr.SetStorage | aether/obj/obj.h:184-187 | the getter then returns the storage set, id and flags unchanged; the object is written when attached, the handle alone when detached |
| Ptr.SetIdSharedByAliases | aether/obj/obj.h:173-177 | an id set through one handle is read back through every other handle attached to the same object |
| Ptr.FindInterface | aether/obj/obj.h:240-245 | the class-list walk succeeds exactly when the target id is in the list |
| Ptr.DynamicCast | aether/obj/obj.h:239-246 | an object casts to a target exactly when the target is Obj's id or is in its class's declared interface list |
| Ptr.CastTarget | aether/obj/obj.h:196 | casting null gives null; a successful cast gives the same object; a live object casts exactly when DynamicCast allows it |
| Ptr.GetId | aether/obj/obj.h:173 | the id of the object when attached, the handle's own cached id when null |
| Ptr.GetFlags | aether/obj/obj.h:178 | the flags of the object when attached, the handle's own cached flags when null |
| Ptr.GetStorage | aether/obj/obj.h:183 | the storage of the object when attached, the handle's own cached storage when null |
| Ptr.SameTypeEqual | aether/obj/obj.h:202 | equal exactly when both are null (whatever they cache) or both are attached to the same object |
| Ptr.CrossTypeEqual | aether/obj/obj.h:205-211 | never equal when either is null; otherwise, for non-dangling handles, equal exactly when both are attached to the same object |
| Ptr.EqualityMeaning | aether/obj/obj.h:202-211 | handles of different static types are equal exactly when both are attached to the same object; handles of the same type exactly when their pointers agree, two nulls included |
| Ptr.Unresident | aether/obj/obj.h:293-296 | `~Obj` removes exactly the object's id from the resident table, keeping every other entry |
| Ptr.Inc | aether/obj/obj.h:512-515 | exactly the named live object's count goes up by one |
| Ptr.Init | aether/obj/obj.h:512-515 | the handle takes the pointer and keeps its cached identity; exactly the target's count goes up by one |
| Ptr.Drop | aether/obj/obj.h:398-402 | a count above one is decremented and nothing else changes; the object whose last reference goes is deleted; deletion releases its fields, and the cascade only deletes objects and removes resident entries, leaving survivors' identity, class and fields intact |
| Ptr.DropAll | aether/obj/obj.h:398-402 | releasing a run of handles only deletes objects and removes resident entries; survivors keep identity, class and fields |
| Ptr.Release | aether/obj/obj.h:398-402 | the handle is left null with its cached identity; a null handle changes nothing; the object survives exactly when its count was not one |
| Ptr.ReleaseVar | aether/obj/obj.h:398-402 | the released variable becomes null and every other variable is unchanged |
| Ptr.InitVar | aether/obj/obj.h:512-515 | the variable takes the pointer and every other variable is unchanged |
| Ptr.Construct | aether/obj/obj.h:81-87 | a new variable attached to the given object (or null) with the default cached identity; that object's count goes up by one |
| Ptr.CastConstruct | aether/obj/obj.h:89-92 | a new variable attached to the source object exactly when that object casts to the target, null otherwise; the other variables are unchanged |
| Ptr.MoveConstruct | aether/obj/obj.h:94-97 | the new variable takes the source's pointer but not its cached identity; the source is left null; no count changes |
| Ptr.CastMoveConstruct | aether/obj/obj.h:99-113 | the new variable holds the cast of the source's pointer and a default cache; the source is left null with its own cache; the other variables are unchanged; nothing else changes unless the source holds an object that does not cast, which is released |
| Ptr.CopyAssign | aether/obj/obj.h:116-125 | assigning a handle that holds the same pointer (self-assignment included) changes nothing; otherwise the destination ends with the source's pointer; the other variables are unchanged |
| Ptr.CastCopyAssign | aether/obj/obj.h:127-135 | assigning a cross-type-equal handle changes nothing; otherwise, when the source's object outlives the release of the destination, the destination ends with the cast of the source: attached to it exactly when it implements the target; the other variables are unchanged |
| Ptr.MoveAssign | aether/obj/obj.h:137-151 | a move onto itself changes nothing; otherwise the destination ends with the source's pointer and the source is left null |
| Ptr.CastMoveAssign | aether/obj/obj.h:153-166 | the destination ends with the cast of the source's pointer; a successful hand-over leaves the source null and releases nothing |
| Counting.ConsistentPoints | aether/obj/obj.h:371 | under the reference-count invariant no variable and no field points at a deleted object |
| Counting.HeldIsCounted | aether/obj/obj.h:371 | under the invariant an object held by a variable is live with a count of at least one |
| Counting.DropKeepsCounts | aether/obj/obj.h:398-402 | dropping one holder's reference keeps every count exact, cascading deletes included |
| Counting.DropAllKeepsCounts | aether/obj/obj.h:398-402 | dropping a run of references keeps every count exact |
| Counting.ReleaseKeepsCounts | aether/obj/obj.h:398-402 | Release keeps the reference-count invariant |
| Counting.InitKeepsCounts | aether/obj/obj.h:512-515 | Init of a null handle with a live or null pointer keeps the invariant |
| Counting.ConstructKeepsCounts | aether/obj/obj.h:81-84 | the default and pointer constructors keep the invariant |
| Counting.CopyConstructKeepsCounts | aether/obj/obj.h:87 | the copy constructor keeps the invariant |
| Counting.CastConstructKeepsCounts | aether/obj/obj.h:89-92 | the casting constructors keep the invariant |
| Counting.MoveConstructKeepsCounts | aether/obj/obj.h:94-97 | the move constructor keeps the invariant and changes no count |
| Counting.CastMoveConstructKeepsCounts | aether/obj/obj.h:99-113 | the casting move constructor keeps the invariant, including the release of a source that does not cast |
| Counting.CopyAssignKeepsCounts | aether/obj/obj.h:116-125 | copy assignment keeps the invariant |
| Counting.CastCopyAssignKeepsCounts | aether/obj/obj.h:127-135 | cross-type copy assignment keeps the invariant |
| Counting.CastCopyAssignCasts | aether/obj/obj.h:127-135 | under the invariant the source's object always outlives the release, so a cross-type copy assignment between unequal handles leaves the destination holding the cast of the source |
| Counting.MoveAssignKeepsCounts | aether/obj/obj.h:137-151 | move assignment keeps the invariant in each of its branches |
| Counting.CastMoveAssignKeepsCountsUnlessLeak | aether/obj/obj.h:153-166 | cross-type move assignment keeps the invariant when the destination is null, the source is null, or the source does not cast |
| Counting.CastMoveAssignLeaks | aether/obj/obj.h:153-166 | a successful cross-type move assignment over a live destination leaves that object's count one above its holders, so it is never freed |
| Codec.FindAndAddObject | aether/obj/obj.h:266-270 | the answer is "seen before" exactly when the object was already tallied; the call adds one hit to that object only |
| Codec.FindAndAddAllTally | aether/obj/obj.h:266-270 | after any run of calls each object's tally is its earlier tally plus the number of calls made for it |
| Codec.FindAndAddAllAnswers | aether/obj/obj.h:266-270 | a call in a run answers "seen before" exactly when the object was tallied already or named by an earlier call |
| Codec.FirstVisitOnly | aether/obj/obj.h:266-270 | from an empty domain only the first call for an object answers false, and the tally equals the number of calls |
| Serializer.Token | aether/obj/obj.h:381-385 | a hard null (detached, not loadable) writes the sentinel (id 0, kLoaded, storage 0); an attached handle writes its object's identity; a detached loadable handle writes its own cached triple |
| Serializer.WriteRef | aether/obj/obj.h:380-396 | one triple per reference; a detached handle leaves the domain untouched; an attached handle's object is tallied; nothing is filed unless the object is new to the domain and not a constant skipped for want of kConsts; every object filed was met |
| Serializer.WriteFields | aether/obj/obj.h:393 | writes one triple per field, meets each field's object, and only files objects it met |
| Serializer.WriteRefExpands | aether/obj/obj.h:386-395 | a first visit that expands writes the fields first, then files the object's record under its (id, storage) |
| Serializer.WriteRefFresh | aether/obj/obj.h:386 | each object is filed at most once per traversal, and only if it was new to the domain |
| Serializer.WriteFieldsFresh | aether/obj/obj.h:386 | each object is filed at most once per traversal, and only if it was new to the domain |
| Serializer.WriteRefCovers | aether/obj/obj.h:386-389 | every object newly met is filed unless it is a constant skipped for want of kConsts |
| Serializer.WriteFieldsCovers | aether/obj/obj.h:386-389 | every object newly met is filed unless it is a constant skipped for want of kConsts |
| Serializer.WriteRefExpanded | aether/obj/obj.h:389-393 | every object filed is not a skipped constant and all its field targets were met |
| Serializer.WriteFieldsExpanded | aether/obj/obj.h:389-393 | every object filed is not a skipped constant and all its field targets were met |
| Serializer.WriteRefFiles | aether/obj/obj.h:395 | the store afterwards is the earlier store with the records of the filed objects put in filing order |
| Serializer.WriteFieldsFiles | aether/obj/obj.h:395 | the store afterwards is the earlier store with the records of the filed objects put in filing order |
| Serializer.PutFinds | aether/obj/obj.h:395 | an object whose key no other filed object shares is found under that key with its own record |
| Serializer.PutKeeps | aether/obj/obj.h:395 | a key no filed object uses keeps its earlier record |
| Serializer.WriteRefCounts | aether/obj/obj.h:386 | each object's tally grows by one hit per handle holding it: the handle written plus the fields of every object filed |
| Serializer.WriteFieldsCounts | aether/obj/obj.h:386 | each object's tally grows by one hit per handle holding it: the fields written plus the fields of every object filed |
| Serializer.WriteRefWithin | aether/obj/obj.h:380-396 | a traversal meets only objects of any field-closed set that contains its start |
| Serializer.WriteFieldsWithin | aether/obj/obj.h:380-396 | a traversal meets only objects of any field-closed set that contains the fields' targets |
| Serializer.TraversalFacts | aether/obj/obj.h:380-396 | with kConsts, writing a handle into an empty domain meets exactly the least field-closed set holding its object, files each object met exactly once, and tallies each object once per handle holding it |
| Serializer.FieldsTraversalFacts | aether/obj/obj.h:380-396 | the same for writing an object's fields into an empty domain |
| Deserializer.IntoField | aether/obj/obj.h:137-151 | moving a read handle into a default field keeps only its pointer |
| Deserializer.ReadRef | aether/obj/obj.h:439-473 | a null id gives a null handle and a triple without kLoaded a detached handle with that id whose flags are the triple's storage byte, neither touching the process; a loaded triple gives the object resident under its id, either the one already there or a new object with the triple's identity; failures happen only on loaded triples, a missing record being one |
| Deserializer.ReadNew | aether/obj/obj.h:458-472 | the new object sits at a fresh address, is resident under its id, has the triple's identity and the created class, and is returned attached |
| Deserializer.Build | aether/obj/obj.h:463-468 | the object is created with count 0 at a fresh address and made resident before any field is read |
| Deserializer.Finish | aether/obj/obj.h:469-472 | the fields read are stored in the object, it is tallied, and the handle returned for it adds one to its count; nothing else changes |
| Deserializer.ReadFields | aether/obj/obj.h:469 | one handle per field triple; the process only grows |
| Deserializer.ReadFrom | aether/obj/obj.h:225-228 | `s >> o` fails with an exhausted stream exactly when the stream is empty and otherwise only on a valid, loaded triple; on success exactly one triple is consumed and the read handle is move-assigned into variable i, the others unchanged and i keeping its cache; a null or unloaded triple leaves i null; a resident id leaves i with the cast of the resident object to i's class; into an Obj handle a valid loaded triple always leaves i attached |
| Deserializer.AssignRead | aether/obj/obj.h:137-168 | the temporary returned by the read (obj.h:226) is move-assigned into variable i (same-type operator for Obj, cross-type otherwise) and then destroyed: i keeps its cache, the other variables are unchanged, a null temporary leaves i null, and otherwise i ends with the cast of the temporary's target |
| Deserializer.AssignReadCounts | aether/obj/obj.h:137-168 | the assignment of obj.h:226 and the temporary's destruction keep the reference-count invariant, unless a cross-type move hands a castable object over a live destination |
| Deserializer.HandsOverOnlyLoaded | aether/obj/obj.h:153-166 | the leaking hand-over needs a live destination of another class and a valid, loaded triple: a null or unloaded read takes the `Release()` branch of the cross-type move |
| Deserializer.ReadFromCounts | aether/obj/obj.h:225-228 | `s >> o` keeps the reference-count invariant over the caller's variables in every case but one: a castable object read into a live handle of a class other than Obj (`Deserializer.HandsOver`); so a null, unloaded or non-castable read keeps it whatever o held |
| Deserializer.ReadRefCounts | aether/obj/obj.h:439-473 | reading keeps every count exact: the counts afterwards are the holders among the caller's handles, the objects' fields and the handle returned |
| Deserializer.ReadNewCounts | aether/obj/obj.h:458-472 | building an object and reading its fields keeps every count exact |
| Deserializer.ReadFieldsCounts | aether/obj/obj.h:469 | reading fields keeps every count exact, the fields read counting as held until stored |
| RoundTrip.SaveHoldsRecords | aether/obj/obj.h:380-396 | a full save files, for every object it reaches, that object's record under its (id, storage) |
| RoundTrip.ReadRefMirrors | aether/obj/obj.h:439-473 | reading a saved reference into a mirror of the saved graph succeeds, keeps it a mirror, and returns the copy of the referenced object |
| RoundTrip.ReadNewMirrors | aether/obj/obj.h:458-472 | reading a saved object that has no copy yet builds exactly one copy whose fields are the copies of its fields' targets |
| RoundTrip.ReadFieldsMirrors | aether/obj/obj.h:469 | reading saved fields returns the copies of their targets, null for detached fields |
| RoundTrip.ReadBackCounts | aether/obj/obj.h:439-473 | reading a full save back into an empty process leaves the copies' counts exact, the root handle being the only variable |
| RoundTrip.ReadBackMirrors | aether/obj/obj.h:439-473 | reading a full save back into an empty process mirrors the whole saved graph |
| RoundTrip.ReadBackCopies | aether/obj/obj.h:439-473 | save then load: the read succeeds; each saved object has exactly one copy, resident under its id, with its identity and class, whose fields point at the copies of its fields' targets; the root comes back attached to its copy; nothing else is built; the counts are exact |
| SubgraphRelease.RootTally | aether/obj/obj.h:407-413 | the objects the release traversal meets are live, include the dropped handle's object, and form a field-closed set |
| SubgraphRelease.ReachedFrom | aether/obj/obj.h:422-425 | writing a kept object's fields meets a field-closed set holding every field target |
| SubgraphRelease.DestroySet | aether/obj/obj.h:415-430 | every destroyed object is live, met by the traversal with count equal to its hits, and not kept |
| SubgraphRelease.Candidates | aether/obj/obj.h:415-419 | exactly the objects met whose count equals their hits |
| SubgraphRelease.Kept | aether/obj/obj.h:415-419 | the other objects met: live and disjoint from the candidates |
| SubgraphRelease.Destroyed | aether/obj/obj.h:421-430 | the selection loop ends with exactly the candidates that no kept object's fields reach |
| SubgraphRelease.ReleasedHeap | aether/obj/obj.h:432-434 | the destroyed objects are gone and the survivors differ only in their counts |
| SubgraphRelease.FreedTouched | aether/obj/obj.h:432-434 | the delete pass in a given order touches only objects of the set or deleted before it |
| SubgraphRelease.FreedTouchedMeans | aether/obj/obj.h:432-434 | an object is decremented after its deletion exactly when it was deleted before the pass, or earlier in it, and a field of an object deleted later points at it |
| SubgraphRelease.CycleTouchesFreed | aether/obj/obj.h:432-434 | when the order deletes every member of a cycle of two or more distinct objects, each holding the next, the pass decrements a freed object: the member deleted first is decremented by its predecessor on the cycle |
| SubgraphRelease.Surplus | aether/obj/obj.h:415-419 | an object met has count equal to its hits plus its holders outside the subgraph: the other variables and the fields of objects not met |
| SubgraphRelease.ReachFacts | aether/obj/obj.h:422-425 | what a kept object's fields reach is field-closed, holds its direct targets, and lies inside every such set |
| SubgraphRelease.DestroyedHeldOnlyInside | aether/obj/obj.h:404-436 | every reference into a destroyed object comes from a destroyed object or from the dropped handle |
| SubgraphRelease.ReleasedConsistent | aether/obj/obj.h:432-434 | removing a set nothing outside it holds, and dropping its references, keeps the invariant |
| SubgraphRelease.ReleaseSound | aether/obj/obj.h:404-436 | nothing outside the destroyed set, apart from the dropped handle, holds a destroyed object; afterwards the invariant holds for the remaining variables; every survivor that lost a reference keeps a positive count, so no destructor frees anything beyond the set |
| Scenarios.RootTallyIs | aether/obj/obj.h:407-413 | the release traversal's tally is the hit count read off any field-closed derivation of the objects met |
| Scenarios.ReachedFromIs | aether/obj/obj.h:422-425 | what a kept object reaches is the set of any field-closed derivation from its fields |
| Scenarios.DestroySetIs | aether/obj/obj.h:404-436 | the destroyed set is the candidates found by the split minus what the kept objects reach |
| Scenarios.ReleasedHeapIs | aether/obj/obj.h:432-434 | the heap after the release is the one whose survivors have their counts lowered by the references the destroyed objects and the dropped handle held |
| Scenarios.Scenario1DropA | test/obj_develop/obj_develop/05_versioning.cpp:292-294 | dropping a destroys {1} and leaves b, c, d with the counts that follow |
| Scenarios.Scenario1DropD | test/obj_develop/obj_develop/05_versioning.cpp:295-297 | then dropping d1 destroys {2, 3, 4} and nothing is left |
| Scenarios.Scenario2DropD | test/obj_develop/obj_develop/05_versioning.cpp:321-323 | dropping d1 first destroys the cycle {3, 4} and leaves a holding b |
| Scenarios.PairDropA | test/obj_develop/obj_develop/05_versioning.cpp:324-326 | with a holding b and nothing else, dropping a destroys {1, 2}; the same state ends scenarios 6 and 7 |
| Scenarios.Scenario3DropA | test/obj_develop/obj_develop/05_versioning.cpp:341-343 | dropping a1 destroys the two-object cycle {1, 2} |
| Scenarios.Scenario3DeleteTouchesFreed | test/obj_develop/obj_develop/05_versioning.cpp:341-343 | the block's delete pass over that set decrements an object it has already deleted, in whichever order it visits them |
| Scenarios.Scenario4DropA | test/obj_develop/obj_develop/05_versioning.cpp:363-365 | dropping a1 destroys nothing, since c1 still holds the cycle |
| Scenarios.Scenario4DropC | test/obj_develop/obj_develop/05_versioning.cpp:366-368 | then dropping c1 destroys {1, 2, 3} |
| Scenarios.Scenario5DropA | test/obj_develop/obj_develop/05_versioning.cpp:389-391 | dropping a destroys {1} |
| Scenarios.Scenario5DropB | test/obj_develop/obj_develop/05_versioning.cpp:392-394 | then dropping b3 destroys {2, 3} |
| Scenarios.Scenario6ReleaseC | test/obj_develop/obj_develop/05_versioning.cpp:413-415 | releasing c destroys {3} and leaves a holding b |
| Scenarios.Scenario7ReleaseC | test/obj_develop/obj_develop/05_versioning.cpp:441-443 | releasing c destroys {3, 4} and leaves a holding b |
| CastCases.CastsOfA | aether/obj/obj_test.cpp:50-84 | an A cast to PureInterface1, then to Obj, and an A cast to A all give the same object; an A cast to PureInterface2 gives null |
| CastCases.CompareSameObject | aether/obj/obj_test.cpp:259-276 | handles of any static types on the same B compare equal; handles on different B's compare unequal |
| CastCases.CompareNulls | aether/obj/obj_test.cpp:278-281 | a null handle is unequal to a live one; two null handles of different static types compare unequal, against the test's expectation |

## Left out

- Stream framing (the mstream binary format): a stream is a sequence of identity triples, and a record is a class id followed by field triples.
- CRC-32 hashing of class names: class ids are opaque numbers. Obj's id is the CRC-32 of "Obj". Hash collisions show up only through the duplicate check.
- The store and load facilities: the store is a map from (id, storage) to records. Filing under an existing key replaces the earlier record.
- Data members other than references: `Serializator` is treated as writing every reference field once, in declaration order. The kData and kRefs domain flags, which only reach the classes' own `Serializator`, are not consulted.
- `Ptr::Serialize`, `Unload`, `Load` and `Clone` (obj.h:476-563): their bodies are commented out. The live part of `Clone` only returns a null handle.
- `Obj::RemoveObject` (obj.h:304-308): no live code calls it.
- Field upgrade and downgrade across class versions, and the `Versioning` test: they use a header interface that obj.h does not have.
- The lazily initialised static maps and `first_release_`: the registry and the resident table are explicit state values. `first_release_` only guards the commented-out block.
- `static_cast` pointer adjustment and virtual inheritance: a handle refers to an object by address, whatever its static type.
- Fields hold handles of one static type. A cross-type field assignment is not modelled.
- Non-termination: the diverging loop of `CreateClassById` is the outcome `NeverReturns`, and a crash on a missing record or class is an error outcome.
- The AetherDoc example application: Windows user-interface code over the object layer.
- ObjId.GenerateUnique: does not model the overflow of the counter, a signed `int` whose increment past 2^31 - 1 is undefined behaviour, because ids are unbounded naturals.
- SubgraphRelease.ReleasedHeap: the commented-out block is evaluated on the state before the plain release clears the handle; the block as it sits (after `ptr_ = nullptr`) would write a null handle and meet nothing. ReleasedHeap removes the destroyed set at once. The block zeroes the counts and deletes the objects one by one in the domain's map order, and a member whose field points at a member deleted earlier decrements freed memory (a use-after-free). `SubgraphRelease.FreedTouched` models that pass, and `Scenarios.Scenario3DeleteTouchesFreed` shows every order hits it on scenario 3. The heap after such a pass is not modelled.
- Uninitialised members: a default-, copy- or move-constructed handle's id and storage, and a placeholder's storage, are left uninitialised by the source (`ObjId() = default`, obj.h:42, 76-78); the model gives them 0 (`ObjId.DefaultCache`).
- Deserializer.ReadRef: the placeholder is returned with its cached triple, as under return-value elision of `return o;` (obj.h:451); were the move constructor used instead, only the null pointer would be copied and the caller would get a default cache.
- The versioning test builds its objects through `Domain::CreateObj`, an interface later than obj.h. The scenarios are therefore stated on the heap the test builds, with obj.h's release algorithm.
- RoundTrip.ReadBackCopies: assumes every saved object's id is valid and loaded, ids are distinct across the saved objects, each saved class is registered and ends its own version chain, and every detached field writes a triple that reads as null. Without these the read may fail, merge objects or keep placeholders.
- Deserializer.ReadFromCounts: the invariant is not proved when `s >> o` reads a castable object into a live handle of a class other than Obj (`Deserializer.HandsOver`), and only then, because the cross-type move then leaks o's old object, as in `Counting.CastMoveAssignLeaks`.
- Counting.CastMoveAssignKeepsCountsUnlessLeak: the invariant is not proved when a source that casts is handed over a live destination, because the operator leaks the destination's object then (`Counting.CastMoveAssignLeaks`).
- Reading a class with a newer registered version creates the newer class through the registry. The field conversion such a version would apply is not modelled.
