# Verified model of the Aluka runtime core

Aluka is a JavaScript runtime written in Go. This project models its object system and the
algorithms around it in Dafny and proves properties of every run, every input and every
interleaving. Nothing here executes the original program: where the text below speaks of the
code, it means what the cited lines do.

`dafny verify dfyconfig.toml` checks everything.

## What is modelled

**The object system.** `Ordinary` says what the operations of a plain object mean on a value
(an ordered layout of names, live slots with attributes, extensibility), `Heaps` adds the
prototype links between such values, and `Histories` runs whole histories on them. `Shapes`,
`Objects`, `InlineCache`, `ProtoChains`, `JitProperty`, `Literals` and `CachedEngine` are the
imperative engine: the shared shape tree with its depth limit of 128, slots and the per-object
overlays for deleted names and attributes, the three inline caches, the walks along prototype
links, the JIT's guarded stores and the literal builders. Each method is proved equal to the
operation on the value, and `CachedEngine.Engine.RunAll` carries that over whole histories of
creations, relinkings, reads, writes, calls, deletions, redefinitions, seals, freezes, direct
assignments by builtins and stores by compiled code: an interpreter that goes through the caches cannot
be told from one that has none. `Arrays.ArrayValue.RunAll` does the same for arrays.

What the operations are worth is settled elsewhere. `Ecma`, `Inheritance`, `KeyOrder` and
`ArrayEcma` restate algorithms of ECMA-262 (sections 6.2.6.5, 7.3.15, 7.3.16, 10.1.2.1, 10.1.6.3,
10.1.8.1, 10.1.9.2, 10.1.10.1, 10.1.11.1, 10.4.2.1 and 10.4.2.4) over properties as the standard has
them, independently of the engine, and prove if-and-only-if when the engine agrees. `EcmaSteps` and
`ArraySteps` put that together: one step of a history leaves of the whole heap, and returns, what the
standard asks for, if and only if it is none of a few named cases. `Descriptors`, `Histories` and
`ArrayHistories` treat the invariants of section 6.1.7.3 over all histories. On plain objects and on
elements of arrays they hold except for two things, and `Histories.StaysExactly` and
`ArrayInvariants.AccessorStaysExactly` say exactly when these can occur: a non-configurable accessor
that still carries a writable flag from its time as a data property is overwritten by a direct
assignment, and compiled code overwrites read-only numbers. `ArrayInvariants` adds when a
non-extensible array can gain an index. `ArrayModel` and `Arrays` treat arrays with their lazily created
presence bitmap and bulk paths.

**The collector** (`GcMarker`, `WeakRegistry`), **the IPC protocol** (`Frames`, `Multiplexing`),
**the one-pass expression evaluator** (`Evaluator`), **dirty-flag reactivity** (`Reactivity`),
**object graphs to JSON** (`JsonGraph`), **rope strings** (`Ropes`), **the constant codec**
(`ConstCodec`), **PBKDF2** (`Pbkdf2`), **unbiased random integers** (`RandomRange`), **Base64**
(`Base64`) and **the demo's configuration store** (`ConfigHistories`, `ConfigStore`) each have a reference
definition of their own and a proof that the loops meet it.

## What turned out not to hold

Each of these is a property one would expect. The lemma named first says exactly when it holds; where
a second one is named, it is a run or an input in which it does not.

- The engine's SameValue is the language's except on equal ropes or big integers kept at two
  addresses (`Values.EngineSameValueExact`). A permitted redefinition of a read-only value by such
  an equal one is refused, and a descriptor that names only `writable` leaves a configurable accessor
  an accessor; nothing else departs from the standard (`Ecma.DefineIsEcmaExactly`). The latter is also
  the only descriptor that does not read back (`Descriptors.DefineReadsBack`).
- Assignment gives an object a property that shadows a read-only one of a prototype, where the
  standard refuses (`Inheritance.SetIsEcmaExactly`, `Inheritance.FrozenPrototypeIsShadowed`). Together
  with the two cases above, direct assignments past an accessor and compiled stores to read-only
  numbers, that is all a plain object does otherwise than the standard (`EcmaSteps.StepIsEcmaExactly`).
- A frozen plain object never changes in any history if and only if none of its accessors has its
  hidden writable flag on and, where there is compiled code, it has no number
  (`Histories.FrozenNeverChangesExactly`). Freezing leaves the flag alone, and builtins such as
  `Object.assign` call `Set`, which overwrites the accessor (`Histories.FrozenAccessorIsAssigned`); `Set`
  by itself passes over setters, too (`Inheritance.DirectSetIsEcmaExactly`).
- Own keys are not reordered: array indices stay where they were laid out, and a deleted name gets its
  old place back (`KeyOrder.AddedKeyInOrderExactly`, `KeyOrder.IndexComesLast`).
- Attribute entries of index keys outlive a cut of the length; an element added later revives them, a
  hole of a non-extensible array is filled all the same, inherited accessors are skipped or preferred
  depending on the kind of key, and an accessor that is an element of an array prototype is never seen
  (`ArrayEcma.AssignElementIsEcmaExactly`, `ArrayEcma.ElementSetterIsPassedOver`).
- A bulk write differs from single writes exactly at holes with a read-only entry and when its numbers
  start at -0, which adding the count turns into 0 (`ArrayModel.BulkWriteExact`,
  `ArrayInvariants.CutLeavesReadOnlyHole`); it and push differ from the standard where an entry is left
  over (`ArraySteps.StepIsEcmaExactly`).
- A non-extensible array can gain an index (`ArrayInvariants.GainsNothingExactly`,
  `ArrayInvariants.SealLeavesFillableHole`), a frozen accessor element can be overwritten
  (`ArrayInvariants.AccessorStaysExactly`, `ArrayInvariants.FrozenAccessorIsOverwritten`), and a frozen
  array is immutable exactly when each of its holes and accessors carries a read-only entry
  (`ArrayHistories.FrozenArrayExact`).
- Redefining the length refuses before it looks at the range, and a cut that meets a non-configurable
  element removes nothing, where the standard removes what it can
  (`ArrayEcma.DefineLengthIsEcmaExactly`, `ArrayEcma.AssignLengthIsEcmaExactly`).
- The JIT's stores ignore `writable` (`JitProperty.StoreIsSetExactly`). Shape id 1 belongs both to the
  root and to the first derived shape; only the bound on the slot tells them apart
  (`JitProperty.SameShape`, `JitProperty.RootIdIsGivenTwice`).
- The marking loop pushes the elements of an array again even when the array is marked, so it never
  ends if an array reachable from the roots contains itself through arrays and accessors
  (`GcMarker.HaltsExactly`, `GcMarker.SelfHoldingArrayNeverEnds`).
- A frame whose payload has 2^32 bytes or more is not read back (`Frames.FrameRoundTrip`).
- Keys of more than 2^32 - 1 blocks, which RFC 2898 refuses, are produced, and their blocks come round
  again (`Pbkdf2.Pbkdf2Key`, `Pbkdf2.BlocksComeRound`).
- In the configuration store a long poll can wait on while a newer version is stored under its key,
  exactly when another name that can be published has the same key
  (`ConfigHistories.MissableExactly`, `ConfigStore.CollidingPublishIsMissed`).

## Model

| member | source | states |
|---|---|---|
| Values.EngineSameValueExact | internal/engine/value_descriptor.go:127-160 | the engine's test is SameValue of ECMA-262 if and only if the two are not equal strings or big integers stored apart |
| Values.FloatSameIsEqual | internal/engine/value_descriptor.go:127-160 | on numbers the case split over NaN, zeros and signs is identity of the number |
| Values.PlusIsCountingExactly | internal/engine/value_array.go:426-431 | adding a count at once gives what incrementing that often gives, except that a negative zero turns positive |
| Ecma.DefineIsEcmaExactly | internal/engine/value_descriptor.go:211-324 | defining a property does what section 10.1.6.3 says, result and stored property and nothing else touched, if and only if neither of two named cases applies |
| Ecma.RefusalIsEcma | internal/engine/value_descriptor.go:211-324 | a definition is refused exactly when the standard refuses it or an equal value stored apart is redefined |
| Ecma.MergeIsEcma | internal/engine/value_descriptor.go:281-324 | an accepted definition stores the property the standard asks for, except for a writable-only descriptor on an accessor |
| Ecma.AssignIsEcma | internal/engine/value_object.go:406-419 | without prototypes in play, assignment to a key that holds no accessor is section 10.1.9.2; on an accessor it overwrites unless the hidden writable flag forbids it |
| Ecma.AssignmentStoresEcma | internal/engine/value_object.go:406-419 | the last step of section 10.1.9.2 on the receiver, redefinition with the value alone or creation with all attributes, stores what the unchecked slot write stores |
| Ecma.DeleteIsEcma | internal/engine/value_object.go:443-454 | deletion is section 10.1.10.1 |
| Inheritance.SetIsEcmaExactly | internal/engine/interpreter/vm_property.go:238-273 | assignment through any chain of plain prototypes is OrdinarySet, down to the setter called, if and only if it does not give an extensible receiver a property that the nearest holder has read-only |
| Inheritance.DirectSetIsEcmaExactly | internal/engine/interpreter/builtins_object.go:345-371 | the engine-level assignment that builtins call is OrdinarySet if and only if nothing read-only is shadowed and no accessor comes first, except one without setter that is left alone |
| Inheritance.FrozenPrototypeIsShadowed | internal/engine/value_object.go:406-419 | an empty object below a frozen one gains the property, which the standard refuses |
| Inheritance.GetIsEcma | internal/engine/value_object.go:384-404 | reading through the chain is OrdinaryGet, down to the getter called, in every case |
| EcmaSteps.StepIsEcmaExactly | internal/engine/interpreter/vm_property.go:93-273 | whatever the operation, one step leaves every object and link, and returns, what the algorithms of the standard ask for, if and only if it does not shadow a read-only property, assign past an accessor, store to a read-only number or err in a redefinition |
| EcmaSteps.RunGoesThrough | internal/engine/interpreter/vm_property.go:93-273 | every history is a sequence of such steps, with these results |
| EcmaSteps.AssignedReadsBack | internal/engine/interpreter/vm_property.go:93-273 | a value assigned is what the next read gives, if the plain objects decide, the property met first is no accessor and the own one is writable or can be created; otherwise nothing changes |
| EcmaSteps.IntegrityIsEcma | internal/engine/value_descriptor.go:506-537 | sealing and freezing leave the properties SetIntegrityLevel asks for, no more and no less, and the test is TestIntegrityLevel |
| EcmaSteps.OutsideExactly | internal/engine/interpreter/vm_property.go:238-273 | the plain objects leave the decision open exactly if none has the key and one is linked to a foreign object |
| Descriptors.DefinedIffCompatible | internal/engine/value_descriptor.go:177-324 | a well-formed definition succeeds if and only if the read-only compatibility test passes |
| Descriptors.DefineReadsBack | internal/engine/value_descriptor.go:211-324 | success reads back every field named (with one exact exception), keeps or defaults the others, touches no other key; failure changes nothing |
| Descriptors.OwnDescriptorIsNoOp | internal/engine/value_descriptor.go:452-470 | redefining a property by its own descriptor is accepted and changes nothing at all |
| Descriptors.AddedKeyIsLastExactly | internal/engine/value_object.go:366-382 | adding a key puts it last in the engine's list if and only if no live key was laid out after the place it once had |
| Descriptors.ReturningNameIsLastExactly | internal/engine/value_descriptor.go:75-112 | key order after a name comes back, in terms of the layout |
| KeyOrder.AddedKeyInOrderExactly | internal/engine/value_descriptor.go:75-112 | keys in the order of section 10.1.11.1, array indices first, stay so when a key is added if and only if the live keys laid out before it are those the standard lists before it |
| KeyOrder.DeletedKeyKeepsOrder | internal/engine/value_object.go:443-454 | deleting a key never disturbs the order of the others |
| KeyOrder.IndexComesLast | internal/engine/value_descriptor.go:75-112 | an index added after another key stays behind it, against the standard |
| KeyOrder.OrdinaryOwnKeysMeaning | internal/engine/value_descriptor.go:75-112 | the reference order lists every key once, and of two keys one comes first if and only if both are indices and it is the smaller, only it is an index, or neither is and it was created earlier |
| Histories.SameStored | internal/engine/value_descriptor.go:127-160 | the engine's test is only ever passed by the very value stored, so an accepted redefinition of a read-only value writes the same |
| Histories.DefineLater | internal/engine/value_descriptor.go:211-324 | a definition moves a property one way: a non-configurable one keeps kind, enumerability and presence, and stays as it is if it is read-only or an accessor |
| Histories.SetOwnLater | internal/engine/value_object.go:406-419 | so does assignment, accessors with their hidden writable flag included: only one that still has it on is overwritten |
| Histories.StepViewLater | internal/engine/value_descriptor.go:211-523 | so does every operation, direct assignment by builtins included; stores by compiled code may also replace a number by a number |
| Histories.RunLater | internal/engine/value_descriptor.go:211-523 | over every history of a heap of plain objects each object only moves forward: a non-extensible one gains no key, and a non-configurable property stays, never becomes an accessor, is never changed as one, and if its writable flag is off stays as it is, numbers under compiled stores aside |
| Histories.LinkStays | internal/engine/value_object.go:145-160 | a non-extensible object keeps its prototype over every history |
| Histories.RestrictOne | internal/engine/value_descriptor.go:506-523 | the redefinition seal or freeze applies to one key is never refused, takes configurability, and writability exactly from frozen data, and changes nothing else |
| Histories.RestrictAll | internal/engine/value_descriptor.go:506-523 | going through the keys does that to each listed one and to no other |
| Histories.IntegrityReached | internal/engine/value_descriptor.go:506-537 | sealing or freezing reaches the level that is then tested; values, enumerability, layout and key order stay, and writability goes exactly from frozen data |
| Histories.StaysExactly | internal/engine/value_object.go:406-419 | a non-configurable property that is read-only or an accessor survives every history if and only if it is neither an accessor with its hidden writable flag on nor, with compiled code, a number |
| Histories.FrozenNeverChangesExactly | internal/engine/value_descriptor.go:506-537 | a frozen plain object is the same after every history if and only if none of its properties is of those two kinds |
| Histories.FrozenAccessorIsAssigned | internal/engine/interpreter/builtins_object.go:345-371 | creating a property, turning it into an accessor and freezing the object gives a frozen accessor that direct assignment overwrites |
| Histories.SealedKeepsShape | internal/engine/value_descriptor.go:506-537 | a sealed object keeps its keys, their order and enumerability over every history, its data properties stay data, and accessors that remain are the ones there were |
| Histories.SealedKeepsKindsExactly | internal/engine/value_descriptor.go:506-537 | accessors too keep their kind in every history if and only if none has its hidden writable flag on |
| Shapes.ShapeTree.constructor | internal/engine/shape.go:41-45 | a new tree is consistent and holds just the root |
| Shapes.ShapeTree.Transition | internal/engine/shape.go:60-100 | the shape reached lays out one more name; within the depth limit it is the one shape with that layout and is found again, past it a fresh one nothing leads to |
| Shapes.ShapeTree.DeriveDetached | internal/engine/shape.go:60-78 | past the limit the tree invariants (distinct ids, unique layouts within the limit) are kept |
| Shapes.ShapeTree.DeriveCached | internal/engine/shape.go:79-100 | a shape joins the tree under its parent without a second shape for any layout |
| Shapes.ShapeTree.NoShapeYet | internal/engine/shape.go:60-100 | a name without transition means no shape of the tree has the longer layout |
| Shapes.ShapeTree.Joined | internal/engine/shape.go:60-100 | the next id is new among all non-root shapes |
| Objects.ObjectValue.constructor | internal/engine/value_object.go:39-43 | a new object stands for the empty view and sits at the root shape |
| Objects.ObjectValue.GetSlot | internal/engine/value_object.go:323-332 | own lookup through shape, slot and deleted overlay is lookup in the view |
| Objects.ObjectValue.SetAttr | internal/engine/value_object.go:300-312 | recording attributes, with no entry for the default ones, changes the attributes of that key only |
| Objects.ObjectValue.SetSlot | internal/engine/value_object.go:366-382 | writing a slot, by overwriting, undeleting or a transition, is an unchecked store in the view |
| Objects.ObjectValue.Set | internal/engine/value_object.go:406-419 | assignment in place is the assignment of the view, refusals included |
| Objects.ObjectValue.Delete | internal/engine/value_object.go:443-454 | deletion in place is the deletion of the view, with its result |
| Objects.ObjectValue.AllOwnKeys | internal/engine/value_descriptor.go:75-112 | the live names in layout order, each once |
| Objects.ObjectValue.OwnPropertyDescriptor | internal/engine/value_descriptor.go:452-470 | the effective descriptor of the property |
| Objects.ObjectValue.IsCompatibleDescriptor | internal/engine/value_descriptor.go:177-206 | the compatibility test on the heap is the one on the view, which decides exactly when defining succeeds |
| Objects.ObjectValue.DefineOwnProperty | internal/engine/value_descriptor.go:211-324 | definition in place leaves the view and gives the outcome of the pure definition |
| Objects.ObjectValue.ValidateDefinition | internal/engine/value_descriptor.go:229-279 | everything is checked before anything is written, and the outcome is already decided |
| Objects.ObjectValue.CheckFields | internal/engine/value_descriptor.go:229-238 | the field checks are well-formedness of the descriptor |
| Objects.ObjectValue.MayRedefine | internal/engine/value_descriptor.go:247-279 | the sequence of early returns is the redefinition rule of a non-configurable property |
| Objects.ObjectValue.Merge | internal/engine/value_descriptor.go:281-319 | the field-by-field updates give the merged attributes and value |
| Objects.ObjectValue.PreventExtensions | internal/engine/value_descriptor.go:492-503 | only extensibility changes |
| Objects.ObjectValue.SetIntegrityLevel | internal/engine/value_descriptor.go:506-523 | the loop over the keys is never interrupted and leaves the sealed or frozen view |
| Objects.ObjectValue.TestIntegrityLevel | internal/engine/value_descriptor.go:526-537 | the loop answers the test on the view |
| InlineCache.ComputeHash | internal/engine/shape.go:313-319 | the loop computes the 32-bit base-31 hash and stays inside the table |
| InlineCache.HashIsPolynomial | internal/engine/shape.go:313-319 | the position is the shape id followed by the bytes as a number in base 31, cut to 32 bits and to the table |
| InlineCache.Utf8ReadsBack | internal/engine/shape.go:313-319 | the bytes of a character read back as its code point under RFC 3629 |
| InlineCache.ICache.GetCached | internal/engine/shape.go:164-182 | a hit happens exactly for a recorded shape and key that is live and returns what the full lookup returns; no object changes |
| InlineCache.ICache.CachePut | internal/engine/shape.go:186-195 | recording keeps every entry true of its shape |
| InlineCache.ICache.SetCached | internal/engine/shape.go:201-243 | a hit happens exactly for a recorded, live, writable data property and leaves what assignment leaves; a miss changes no object |
| InlineCache.ICache.SetPut | internal/engine/shape.go:247-259 | recording keeps every entry true; a live own key is recorded |
| InlineCache.ICache.CallCached | internal/engine/shape.go:263-290 | a call hit returns the current own value and never an accessor, exactly when the site recorded it |
| InlineCache.ICache.CallPut | internal/engine/shape.go:293-310 | recording a method keeps the call entries true and never records an accessor |
| CachedEngine.Engine.ReadProperty | internal/engine/interpreter/vm_property.go:93-107 | cache, then accessors on the chain, then the chain: always the value, or the getter, of the nearest holder |
| CachedEngine.Engine.AssignProperty | internal/engine/interpreter/vm_property.go:238-273 | cached or not, a write leaves the object, or names the setter, as assignment through the chain does |
| CachedEngine.Engine.InvokeProperty | internal/engine/interpreter/vm_call.go:126-135 | the method found is the one a read finds now, hit or miss; a getter that must run first is named |
| CachedEngine.Engine.ProbeAndStore | internal/engine/jit/property_pic.go:155-171 | a probe and the store behind it replace a number by the new one and do nothing else |
| CachedEngine.Engine.Relink | internal/engine/value_object.go:145-160 | relinking leaves the heap as the pure operation does |
| CachedEngine.Engine.Execute | internal/engine/interpreter/vm_property.go:238-273 | one operation on the heap is one step of the cache-free history; all other objects stay as they are |
| CachedEngine.Engine.RunAll | internal/engine/shape.go:164-310 | over every history of creations, relinkings, reads, writes, calls, deletions, redefinitions, seals, freezes, direct assignments and compiled stores the cached engine gives the results, and leaves the objects and links, of the run without caches |
| CachedEngine.RunFromScratch | internal/engine/shape.go:164-310 | so it does from a new engine on |
| Literals.AssignedMeaning | internal/engine/value_object.go:48-70 | a literal's object has each key once, at its first occurrence, with the value of its last one and default attributes |
| Literals.ResolveLiteralShape | internal/engine/value_object.go:75-88 | the shape resolved has the key order of assigning one by one, and each pair the slot of its key |
| Literals.NewObjectFromPairs | internal/engine/value_object.go:48-70 | building from pairs gives the object of successive assignments |
| Literals.NewObjectFromShape | internal/engine/value_object.go:105-120 | a site that cached the layout of other pairs with the same keys builds the same object without lookups |
| Literals.NewObjectBySetting | internal/engine/value_object.go:406-419 | assigning one pair after the other to an empty object gives the reference |
| Literals.SameKeysSameNames | internal/engine/value_object.go:75-88 | the layout of a literal depends on its keys only |
| Literals.SameKeysSameShape | internal/engine/shape.go:60-100 | up to 128 names, objects with the same key order have the very same shape, however they were built |
| ProtoChains.NewObjectWithProto | internal/engine/value_object.go:91-95 | a new object with a prototype joins the heap, all chains staying acyclic |
| ProtoChains.TrySetProto | internal/engine/value_object.go:145-160 | the link changes exactly as section 10.1.2.1 says: it is the same already, or the object is extensible and not on the new chain; chains stay acyclic |
| ProtoChains.OnChain | internal/engine/value_object.go:145-160 | the walk ends and answers whether the object is on the chain |
| ProtoChains.Get | internal/engine/value_object.go:384-404 | the walk ends with the value of the nearest holder |
| ProtoChains.FindAccessor | internal/engine/value_function.go:155-180 | the walk ends with the accessor found first, or with nothing when data shadows it |
| ProtoChains.GuardedMethodLookup | internal/engine/jit_property.go:94-115 | succeeds exactly when the plain part of the chain holds the key and returns what the read returns |
| Heaps.MissingIffNobodyHolds | internal/engine/jit_property.go:94-115 | a lookup misses on the plain chain if and only if no object of it holds the key |
| Heaps.NoCycle | internal/engine/value_object.go:145-160 | no object is its own proper ancestor |
| JitProperty.OwnDataProperty | internal/engine/jit_property.go:7-24 | the own value unless it is an accessor |
| JitProperty.NumericOwnProperty | internal/engine/jit_property.go:30-45 | succeeds exactly on own numbers and gives the number with a pair that identifies shape and slot |
| JitProperty.GuardedSetNumericOwnProperty | internal/engine/jit_property.go:49-64 | stores exactly when the object still holds a number for the key at that shape and slot; otherwise nothing changes |
| JitProperty.GuardedSetNumericOwnPropertySlot | internal/engine/jit_property.go:73-85 | the store that repeats no lookup has the very same contract, given a pair that came from a probe for the key |
| JitProperty.SameShape | internal/engine/shape.go:23-45 | among non-empty layouts of the tree an id belongs to one shape |
| JitProperty.RootIdIsGivenTwice | internal/engine/shape.go:23-45 | the first transition of a new tree gives out the id of the root again |
| JitProperty.StoreIsSetExactly | internal/engine/jit_property.go:49-85 | the guarded stores agree with assignment if and only if the property is writable or already holds the number |
| ArrayModel.BulkWriteExact | internal/engine/value_array.go:434-469 | once the guard passes, the bulk write equals one assignment per index of a variable being incremented if and only if no hole in the range has a read-only entry and the numbers do not start at -0 |
| ArrayModel.BulkWrites | internal/engine/value_array.go:444-469 | the bulk write leaves its numbers in the range, holes up to it and all else as it was |
| ArrayModel.SingleWrites | internal/engine/value_array.go:387-407 | single writes that meet no read-only hole leave each its number, and all else as it was |
| ArrayModel.ReadOnlyStays | internal/engine/value_array.go:387-407 | single writes never touch a read-only index, hole or not |
| ArrayModel.AppendAllIsSetting | internal/engine/value_array.go:412-432 | where appending is allowed, appending numbers equals assigning them just past the end if and only if they do not start at -0 |
| ArrayModel.AppendAllItems | internal/engine/value_array.go:358-381 | appending values one by one is one concatenation |
| ArrayHistories.IntegrityReached | internal/engine/value_descriptor.go:506-537 | sealing or freezing an array is never refused and reaches the level; elements stay but for configurability and, on frozen data, writability, holes keep their entries, and only freezing makes the length read-only |
| ArrayHistories.RedefineLater | internal/engine/value_descriptor.go:327-407 | redefining an index never frees a fixed element: presence and enumerability stay, data stays data, accessors and read-only elements stay as they are |
| ArrayHistories.StepLater | internal/engine/value_array.go:145-469 | nor does any other array operation |
| ArrayHistories.RunLater | internal/engine/value_array.go:145-469 | over every history a non-configurable element stays, keeps its enumerability, never becomes an accessor and is never changed as one, and stays as it is if its writable flag is off |
| ArrayHistories.FrozenStep | internal/engine/value_array.go:145-250 | no operation changes a frozen array whose holes and accessors are read-only |
| ArrayHistories.FrozenArrayExact | internal/engine/value_array.go:176-182 | a frozen array is the same after every history if and only if each of its holes and accessors carries a read-only entry |
| ArrayInvariants.GainsNothingExactly | internal/engine/value_array.go:176-196 | a non-extensible array gains no index in any history if and only if every missing index it can reach carries a read-only entry |
| ArrayInvariants.ClosedRun | internal/engine/value_array.go:145-198 | with such entries the missing indices stay missing and their entries as they are |
| ArrayInvariants.SealLeavesFillableHole | internal/engine/value_array.go:176-196 | deleting, then sealing, leaves a hole that assignment fills |
| ArrayInvariants.AccessorStaysExactly | internal/engine/value_array.go:176-196 | a non-configurable accessor element survives every history if and only if its hidden writable flag is off |
| ArrayInvariants.FrozenAccessorIsOverwritten | internal/engine/value_descriptor.go:361-373 | turning an element into an accessor keeps the flag, freezing too, and assignment overwrites the frozen element |
| ArrayInvariants.CutLeavesReadOnlyHole | internal/engine/value_array.go:155-173 | a read-only element, cut off and covered again, is a read-only hole that passes the bulk guard and at which bulk and single writes differ |
| ArrayEcma.SetAtIsEcmaExactly | internal/engine/value_array.go:145-198 | on an index no prototype has, assignment is the standard's if and only if it neither revives a left-over entry nor fills a hole of a non-extensible array |
| ArrayEcma.AssignElementIsEcmaExactly | internal/engine/interpreter/vm_property.go:63-85 | for any prototypes that have the index, as an element of an array or in an object's slots, and for numeric and string keys alike, assigning an element is OrdinarySet if and only if the condition of its branch holds |
| ArrayEcma.ElementSetterIsPassedOver | internal/engine/value_function.go:155-180 | a setter that an array prototype has at the index is not called; the array below gains the element |
| ArrayEcma.DefineAtIsEcmaExactly | internal/engine/value_descriptor.go:327-407 | redefining an index is section 10.4.2.1 except exactly where redefining an ordinary property errs |
| ArrayEcma.CutDownMeaning | internal/engine/value_array.go:146-175 | where the standard's deletion from the end stops |
| ArrayEcma.CutIsEcmaExactly | internal/engine/value_array.go:146-175 | shortening agrees with section 10.4.2.4 if and only if nothing fixed is in the way or the last element is fixed; it succeeds exactly when nothing is in the way |
| ArrayEcma.DefineLengthIsEcmaExactly | internal/engine/value_descriptor.go:409-448 | redefining the length is section 10.4.2.4, outcome and array, if and only if it is not refused before the range check and no cut stops midway |
| ArrayEcma.AssignLengthIsEcmaExactly | internal/engine/value_array.go:146-175 | assigning the length leaves what the standard leaves if and only if no cut stops midway, and fails exactly when the standard does, always with a TypeError |
| ArraySteps.StepIsEcmaExactly | internal/engine/value_array.go:145-469 | whatever the operation, one step leaves the length, elements, writability and extensibility that the standard asks for, if and only if none of the named cases applies |
| ArraySteps.RunGoesThrough | internal/engine/value_array.go:145-469 | every history is a sequence of such steps |
| ArraySteps.DeleteIsEcma | internal/engine/value_array.go:232-250 | deleting an index is section 10.1.10.1, with its result, and drops the entry of that index and no other |
| ArraySteps.RestrictIsEcma | internal/engine/value_descriptor.go:506-523 | sealing or freezing an array leaves what SetIntegrityLevel asks for |
| ArraySteps.GuardIsEcma | internal/engine/value_array.go:312-327 | the guard of bulk writes passes exactly if the standard would let every single assignment take effect |
| ArraySteps.BulkIsEcmaExactly | internal/engine/value_array.go:444-469 | a bulk write is the sequence of OrdinarySets if and only if no entry is left over in the range and the numbers do not start at -0 |
| ArraySteps.PushIsEcmaExactly | internal/engine/interpreter/builtins_array.go:88-112 | so is push, if and only if no entry is left over at the new indices |
| Arrays.ArrayValue.constructor | internal/engine/value_array.go:43-56 | a new array has all elements present and no bitmap |
| Arrays.ArrayValue.IsPresent | internal/engine/value_array.go:76-78 | tells elements from holes whether or not there is a bitmap |
| Arrays.ArrayValue.MaterializePresent | internal/engine/value_array.go:82-89 | creating the bitmap changes nothing observable |
| Arrays.ArrayValue.SetIndex | internal/engine/value_array.go:387-407 | assignment in place, growing with holes, is the assignment of the view |
| Arrays.ArrayValue.DeleteIndex | internal/engine/value_array.go:232-250 | deletion in place is the deletion of the view, with its result |
| Arrays.ArrayValue.SetLengthTo | internal/engine/value_array.go:146-175 | assigning the length cuts or grows as the view does, with its errors |
| Arrays.ArrayValue.CutTo | internal/engine/value_array.go:146-175 | the scan for fixed elements finds one exactly if there is one, and then nothing is removed |
| Arrays.ArrayValue.DefineIndex | internal/engine/value_descriptor.go:327-407 | redefinition in place leaves the view and gives the outcome of the pure redefinition |
| Arrays.ArrayValue.DefineLengthAs | internal/engine/value_descriptor.go:409-448 | redefining the length in place, checks before writes, is the pure one |
| Arrays.ArrayValue.SetIntegrityLevel | internal/engine/value_descriptor.go:506-523 | the loop over present indices and then the length is never interrupted |
| Arrays.ArrayValue.Append | internal/engine/value_array.go:350-355 | one more present element |
| Arrays.ArrayValue.AppendValues | internal/engine/value_array.go:358-381 | the bulk append equals repeated appends and keeps the bitmap as long as the elements |
| Arrays.ArrayValue.AppendNumberRange | internal/engine/value_array.go:412-432 | the loop equals repeated appends of consecutive numbers |
| Arrays.ArrayValue.CanAppend | internal/engine/value_array.go:283-288 | the guard on the view |
| Arrays.ArrayValue.CanWriteRange | internal/engine/value_array.go:312-327 | the scan decides the guard on the view |
| Arrays.ArrayValue.WriteNumberRange | internal/engine/value_array.go:444-469 | the two loops, extend and fill, leave the bulk-written view |
| Arrays.ArrayValue.PushAll | internal/engine/interpreter/builtins_array.go:88-112 | push is refused exactly by the guard, and its single assignments and its bulk append leave the same array |
| Arrays.ArrayValue.Execute | internal/engine/value_array.go:145-469 | one operation in place is one step on the view |
| Arrays.ArrayValue.RunAll | internal/engine/value_array.go:145-469 | over every history the elements, bitmap and entries stand for the view that the history of operations on views gives |
| GcMarker.MarkFromRoots | internal/engine/gc.go:212-274 | with no reachable trap the loop ends, by unmarked objects and then unfolded weight, and marks exactly the objects and arrays reachable by elements, halves, prototypes and live slots |
| GcMarker.HaltsExactly | internal/engine/gc.go:212-274 | the loop ends if and only if no reachable arrays and accessors hold each other for ever |
| GcMarker.PushesWhatIsHeld | internal/engine/gc.go:226-271 | the loop pushes for a reference exactly the elements or halves it encloses, its prototype and the slots of its names that are not deleted, missing values aside |
| GcMarker.TrappedNeverHalts | internal/engine/gc.go:226-256 | a reachable trap keeps the worklist from becoming empty |
| GcMarker.SelfHoldingArrayTraps | internal/engine/gc.go:229-235 | an array that is its own element is a trap |
| GcMarker.SelfHoldingArrayNeverEnds | internal/engine/gc.go:212-274 | on the heap of one array that holds itself the loop never ends |
| GcMarker.RankOrTrap | internal/engine/gc.go:212-274 | any set of references either holds a trap or can be ranked along nesting |
| GcMarker.StepDecreases | internal/engine/gc.go:212-274 | each iteration marks an object or lightens the unfolded worklist |
| GcMarker.HaltedMarksReachable | internal/engine/gc.go:212-274 | whenever the worklist is empty, exactly the reachable objects are marked |
| GcMarker.StepsKeepInvariants | internal/engine/gc.go:212-274 | after any number of iterations all that was pushed is reachable and nothing due was forgotten |
| GcMarker.MarkLast | internal/engine/gc.go:218-271 | the loop body is the step the theorems are about |
| WeakRegistry.Registry.Register | internal/engine/gc.go:65-77 | the table is below its threshold again after each registration, swept exactly when it was reached |
| WeakRegistry.Registry.RemoveDead | internal/engine/gc.go:140-148 | the sweep removes exactly the dead entries and counts the rest |
| WeakRegistry.Registry.ResetSweepAt | internal/engine/gc.go:129-135 | the new threshold is at least twice what is left |
| WeakRegistry.Registry.Collect | internal/engine/gc.go:169-208 | an explicit collection keeps the amortisation intact |
| WeakRegistry.Registry.RunAll | internal/engine/gc.go:65-77 | over any run automatic sweeps scan at most twice as many entries as there were registrations |
| Frames.HeaderRoundTrip | internal/ipc/protocol.go:57-85 | a header is read back, whatever follows it, if and only if it carries the magic number and its fields fit their widths |
| Frames.DecodeCut | internal/ipc/protocol.go:57-85 | otherwise each field comes back cut to its width, or the wrong magic number is reported |
| Frames.HeaderLayout | internal/ipc/protocol.go:57-66 | where each header field is in the 16 bytes, most significant byte first |
| Frames.FillHeader | internal/ipc/protocol.go:57-66 | the buffer filled field by field is the encoding |
| Frames.WriteFrame | internal/ipc/protocol.go:112-125 | the single buffer written is stamped header and payload |
| Frames.WireLayout | internal/ipc/protocol.go:112-125 | the bytes of a frame: magic number, version 1, flags, type and number as given, length, payload |
| Frames.FrameRoundTrip | internal/ipc/protocol.go:88-125 | a frame followed by anything is read back leaving exactly what followed, if and only if its payload is shorter than 2^32 bytes |
| Frames.ReadWire | internal/ipc/protocol.go:88-125 | beyond that the reader takes the length modulo 2^32 and leaves the rest of the payload in the stream |
| Frames.StreamRead | internal/ipc/protocol.go:88-125 | frames written back to back are met in order |
| Frames.StreamRoundTrip | internal/ipc/protocol.go:88-125 | reading a stream to its end gives back all the frames written to it |
| Multiplexing.StepKeepsInv | internal/ipc/client.go:68-207 | every step of client, server or timer keeps the protocol invariant |
| Multiplexing.RunKeepsInv | internal/ipc/client.go:68-207 | so every interleaving does, up to 2^32 calls |
| Multiplexing.TokensMove | internal/ipc/server.go:126-195 | a request or its reply moves between wire, handler, reader and channel; it appears only when written and vanishes only when taken or no longer awaited |
| Multiplexing.EachTokenInOnePlace | internal/ipc/client.go:68-137 | each request is in at most one place, in exactly one while its call waits, and no reply channel holds two frames |
| Multiplexing.ReaderNeverBlocks | internal/ipc/client.go:165-207 | handing a reply over never finds the channel full |
| Multiplexing.ReplyIsForOwnRequest | internal/ipc/client.go:68-137 | a call that returns a reply returns one the server sent for this call's own request bytes |
| Multiplexing.ReplyIsHandlersResult | internal/ipc/server.go:158-195 | a call that returns a reply returns the bytes that a handler of this call's own request gave, marked as an error exactly if it failed |
| Multiplexing.CallsAreStarted | internal/ipc/client.go:68-137 | the calls are those started, in order, each with the bytes it was started with |
| Multiplexing.CallIsWhereTold | internal/ipc/client.go:68-137 | in every run a call waits from the writing of its request on, ends with a reply exactly if it takes one, and by timeout exactly if its timer fires |
| Multiplexing.BytesSent | internal/ipc/client.go:68-137 | what each step writes to either stream, byte for byte |
| Multiplexing.AnsweredAtMostOnce | internal/ipc/server.go:158-195 | no request is answered twice |
| Multiplexing.HandledMove | internal/ipc/server.go:126-195 | a request is unhandled or logged, never both |
| Evaluator.PrintedTreeEvaluates | internal/engine/stub.go:349-372 | the printed form of any tree, with only the parentheses needed, evaluates to the tree's value and exactly its tokens are consumed |
| Evaluator.EvaluatesExactly | internal/engine/stub.go:349-372 | a token list evaluates to a value leaving a rest if and only if it is some tree of that value, printed by the precedence table, and that rest |
| Evaluator.AcceptsGrammarExactly | internal/engine/stub.go:340-372 | the evaluator accepts exactly the derivations of a grammar with the levels or, and, equality, relational, additive, multiplicative and unary, each binary one associating to the left, and gives each its value |
| Evaluator.DerivationPrints | internal/engine/stub.go:340-346 | a derivation of that grammar is printed without further parentheses |
| Evaluator.GroupedDerives | internal/engine/stub.go:340-346 | any tree, with the parentheses printing puts in, is a derivation of the same tokens and value |
| Evaluator.BinaryReads | internal/engine/stub.go:349-372 | left-associative reading at every precedence level |
| Evaluator.BinaryAccepts | internal/engine/stub.go:349-372 | whatever is accepted is a printed tree, bare at the precedence called with |
| Evaluator.ClimbAccepts | internal/engine/stub.go:349-372 | the climbing loop extends the tree on its left operator by operator |
| Evaluator.PeekReadsOp | internal/engine/stub.go:379-415 | an operator printed as one-character tokens is read back whole before any operand |
| Evaluator.PeekIsPrefix | internal/engine/stub.go:379-415 | an operator recognised is the characters at the head of the tokens |
| Evaluator.UnaryAccepts | internal/engine/stub.go:570-591 | the unary level accepts only unaries, literals and parentheses |
| Evaluator.Parser.PeekBinaryOp | internal/engine/stub.go:379-415 | the method with its bounds checks recognises the longest operator |
| Evaluator.Parser.Binary | internal/engine/stub.go:349-372 | the loop over the position computes the value and the rest the theorems are about, and ends |
| Evaluator.Parser.Unary | internal/engine/stub.go:570-591 | likewise for prefix operators |
| Evaluator.Parser.Primary | internal/engine/stub.go:680-790 | likewise for literals and parentheses, syntax errors included |
| Reactivity.Reactive.RunAll | demo/vue3-ssr-demo/src/reactivity.js:98-141 | in every history of writes and reads, whatever test writes apply, each read gives what recomputing from scratch gives |
| Reactivity.AfterHoldsLastWrite | demo/vue3-ssr-demo/src/reactivity.js:98-114 | after any history a ref holds the value of the last write to it that differed from what was there, or what it held at first |
| Reactivity.ReadAfterWrite | demo/vue3-ssr-demo/src/reactivity.js:98-114 | a read right after a write gives the value written, unless that passed for the one there |
| Reactivity.ReadGivesValueExactly | demo/vue3-ssr-demo/src/reactivity.js:116-141 | reading a computed value adds what a run of its getter over the refs as they are returns, and nothing else |
| Reactivity.ValueIsEvalExactly | demo/vue3-ssr-demo/src/reactivity.js:116-141 | the from-scratch value is the one value that some run of the getter, reading true values, returns |
| Reactivity.Reactive.ReadComputed | demo/vue3-ssr-demo/src/reactivity.js:116-141 | a read is up to date, registers the reader and refreshes only what it depends on |
| Reactivity.Reactive.WriteRef | demo/vue3-ssr-demo/src/reactivity.js:98-114 | a write takes effect exactly when the value does not pass for the present one, on that ref alone; after it every value still clean is still right |
| Reactivity.Reactive.Trigger | demo/vue3-ssr-demo/src/reactivity.js:28-41 | propagation ends and reaches everything registered, directly or through what it dirties |
| Reactivity.Reactive.Schedule | demo/vue3-ssr-demo/src/reactivity.js:131-139 | a computed value passes the news on once |
| Reactivity.Reactive.RunEffect | demo/vue3-ssr-demo/src/reactivity.js:43-61 | running a getter restores the active effect and registers it with all it reads |
| Reactivity.Reactive.RunGetter | demo/vue3-ssr-demo/src/reactivity.js:43-61 | reading source by source gives the from-scratch value |
| Reactivity.Reactive.Track | demo/vue3-ssr-demo/src/reactivity.js:13-26 | registering never spoils a clean value |
| Reactivity.Unaffected | demo/vue3-ssr-demo/src/reactivity.js:98-141 | a getter that avoids a ref, through clean values too, does not notice its change |
| JsonGraph.RefusedExactlyIfCyclic | internal/builtin/nodebase/json.go:19-64 | conversion fails if and only if some reachable object reaches itself; sharing is accepted |
| JsonGraph.ConvertsToReading | internal/builtin/nodebase/json.go:19-64 | a successful conversion is the reading of the value as a tree |
| JsonGraph.DenotesUnique | internal/builtin/nodebase/json.go:19-64 | a value has at most one reading |
| JsonGraph.RefusedComesBack | internal/builtin/nodebase/json.go:19-64 | a refusal has met an object on its own path |
| JsonGraph.ComesBackRefused | internal/builtin/nodebase/json.go:19-64 | a chain that comes back is refused |
| JsonGraph.ValueToJson | internal/builtin/nodebase/json.go:19-64 | the recursion over the shared path set ends on every heap, computes the conversion and restores the set |
| JsonGraph.JsonToEngine | internal/builtin/nodebase/json.go:67-92 | fresh objects are built that read as the tree, whatever order keys come in |
| JsonGraph.Clone | internal/builtin/nodebase/json.go:19-92 | there and back: refused exactly if cyclic, otherwise a copy made of fresh objects only that mirrors the value to every depth |
| JsonGraph.SameReadingMirrors | internal/builtin/nodebase/json.go:19-92 | values with the same reading have the same texts, numbers and truth values in the same places and under the same keys |
| Ropes.ConcatStrings | internal/engine/value_string.go:31-55 | the text is the left text followed by the right, the stored length its UTF-16 length; caches stay right |
| Ropes.StringLen | internal/engine/value_string.go:59-67 | the stored length is the UTF-16 length of the text |
| Ropes.Utf16LenConcat | internal/engine/value_string.go:31-55 | UTF-16 lengths add up |
| Ropes.Utf16LenCountsUnits | internal/engine/value_string.go:59-67 | the length counts the UTF-16 code units of the text |
| Ropes.Collect | internal/engine/value_string.go:105-131 | the stack loop ends and writes out the text of the tree, taking cached parts as they come |
| Ropes.FlattenRope | internal/engine/value_string.go:105-131 | the text is returned and cached, and every cached text is the right one |
| Ropes.ToText | internal/engine/value_string.go:69-131 | any string gives its text, flat or rope |
| ConstCodec.ConstRoundTrip | internal/engine/const_codec.go:30-112 | any constant followed by anything is read back leaving exactly what followed |
| ConstCodec.PoolRoundTrip | internal/engine/const_codec.go:30-112 | so are whole pools written back to back |
| ConstCodec.DecodesExactly | internal/engine/const_codec.go:73-112 | decoding succeeds on exactly the byte strings that begin with a form of the constant, tag, length and payload byte for byte, and leaves what follows |
| ConstCodec.EncodesForm | internal/engine/const_codec.go:30-70 | what is written is such a form |
| ConstCodec.UvarintRoundTrip | internal/engine/const_codec.go:115-143 | lengths up to 64 bits survive the base-128 form with its ten-byte limit |
| ConstCodec.DecimalRoundTrip | internal/engine/const_codec.go:49-57 | big integers survive their decimal text |
| ConstCodec.LeRoundTrip | internal/engine/const_codec.go:33-41 | 64-bit words survive little-endian bytes |
| ConstCodec.ByteStream.WriteConst | internal/engine/const_codec.go:30-70 | the writes append the encoding |
| ConstCodec.ByteStream.ReadConst | internal/engine/const_codec.go:73-112 | the reads consume and return what decoding gives, or report an error |
| ConstCodec.ByteStream.ReadVarint | internal/engine/const_codec.go:130-143 | the byte loop reads what the recursive definition reads, overflow included |
| Pbkdf2.Pbkdf2Key | internal/builtin/nodecrypto/crypto_kdf.go:62-104 | the derived key of section 5.2 of RFC 2898 if and only if the standard does not refuse its length, or the first error that applies |
| Pbkdf2.DerivedKeyUnique | internal/builtin/nodecrypto/crypto_kdf.go:62-104 | the definition determines one key |
| Pbkdf2.KeyByte | internal/builtin/nodecrypto/crypto_kdf.go:84-102 | each byte of the key is the exclusive or of one byte of every value of the chain that starts from the salt and its block number, most significant octet first |
| Pbkdf2.BlocksComeRound | internal/builtin/nodecrypto/crypto_kdf.go:86-101 | past block 2^32 - 1 the blocks repeat, because their numbers are cut |
| Pbkdf2.FillBlock | internal/builtin/nodecrypto/crypto_kdf.go:86-101 | the in-place loops compute one block T_i and leave the blocks before it |
| Pbkdf2.FillBlocks | internal/builtin/nodecrypto/crypto_kdf.go:84-102 | the outer loop fills the buffer with T_1 to T_l |
| Pbkdf2.XorInto | internal/builtin/nodecrypto/crypto_kdf.go:96-99 | the inner loop is the exclusive or of the two buffers |
| RandomRange.Uniform | internal/builtin/nodecrypto/crypto_random.go:14-27 | each residue is hit by the same number of accepted samples, and more than half of all samples are accepted |
| RandomRange.SamplesAreValues | internal/builtin/nodecrypto/crypto_random.go:17-22 | every 48-bit value has exactly one six-byte sample |
| RandomRange.ValueIsBigEndian | internal/builtin/nodecrypto/crypto_random.go:17-22 | a sample counts as its bytes, most significant first |
| RandomRange.RandomInt | internal/builtin/nodecrypto/crypto_random.go:14-27 | the first accepted sample decides a result in range; out-of-range arguments are refused |
| Base64.DecodesExactly | internal/builtin/nodecrypto/crypto_random.go:75-99 | a text decodes under RFC 4648 to some bytes if and only if it is their encoding |
| Base64.Base64Encode | internal/builtin/nodecrypto/crypto_random.go:75-99 | what the loop writes decodes to the input and has four characters for every three bytes begun |
| Base64.EncodeGroup | internal/builtin/nodecrypto/crypto_random.go:78-96 | 24 bits cut into sixes, with padding, are the symbols of the group |
| Base64.GroupIsNumber | internal/builtin/nodecrypto/crypto_random.go:78-96 | the symbols of a group in base 64 are the number its bytes are in base 256, padding where bytes are missing |
| ConfigHistories.KeyIsOwnExactly | demo/express-registry-demo/src/store.ts:26-28 | a name has its key for itself if and only if no part contains a NUL |
| ConfigHistories.MissableExactly | demo/express-registry-demo/src/store.ts:175-268 | in some run a poll for the name waits on while a newer version is stored under its key, if and only if another name that can be published has that key |
| ConfigHistories.ConsistentRun | demo/express-registry-demo/src/store.ts:175-277 | over every run what is stored has a trimmed, complete name, and no waiting poll is older than an item of its own name |
| ConfigHistories.PublishedItem | demo/express-registry-demo/src/store.ts:175-199 | what publishing stores: content and digest, the next version, the type asked for or else the one there was, and the trimmed author |
| ConfigHistories.TrimsExactly | demo/express-registry-demo/src/store.ts:175-180 | trimming gives the one text that white space alone was cut off and that has none at its ends |
| ConfigHistories.NulFreeIsNeverMissed | demo/express-registry-demo/src/store.ts:26-28 | a name without NUL is safe in every run |
| ConfigHistories.LoneNulIsNeverMissed | demo/express-registry-demo/src/store.ts:26-28 | a NUL alone does not make a name unsafe |
| ConfigStore.HistoryConsecutive | demo/express-registry-demo/src/store.ts:201-212 | the history is the consecutive previous versions with what was published then, at most twenty |
| ConfigStore.RecordsPublish | demo/express-registry-demo/src/store.ts:186-214 | publishing extends the log of its key by the next version |
| ConfigStore.Store.Publish | demo/express-registry-demo/src/store.ts:175-217 | names are trimmed and required, content must be text; success logs the next version and answers exactly the polls that wait for it |
| ConfigStore.Store.DeleteConfig | demo/express-registry-demo/src/store.ts:219-227 | record and history go, and exactly the polls for that name are answered with nothing |
| ConfigStore.Store.Watch | demo/express-registry-demo/src/store.ts:234-250 | answered at once exactly by a newer version, otherwise last in the queue |
| ConfigStore.Store.Expire | demo/express-registry-demo/src/store.ts:243-247 | only that poll leaves, with nothing |
| ConfigStore.Store.RunAll | demo/express-registry-demo/src/store.ts:175-277 | over any run the store is the value the pure run gives |
| ConfigStore.Store.NotifyWatchers | demo/express-registry-demo/src/store.ts:252-266 | exactly the polls that want the item get it, once, and the others keep their order |
| ConfigStore.Store.NotifyDeleted | demo/express-registry-demo/src/store.ts:268-277 | exactly the polls for the name get nothing, once |
| ConfigStore.Store.WaitersAreCurrent | demo/express-registry-demo/src/store.ts:234-266 | after any run no waiting poll is older than what is stored under its key, unless a publishable alias is stored there |
| ConfigStore.CollidingPublishIsMissed | demo/express-registry-demo/src/store.ts:175-266 | watching one name and publishing another with the same key leaves the poll waiting on an older version |

## Left out

- Objects.ObjectValue.SetSlot: the lazily allocated side record for deleted names and attributes and the two inline slots are flattened into fields; neither can be observed.
- Objects.ObjectValue.AllOwnKeys: symbol keys, the enumerable-only `Keys` and for-in order are not modelled.
- Objects.ObjectValue.DefineOwnProperty: wrappers and functions that delegate to a backing object are one type test before the code modelled; descriptors whose named value is a Go nil are not modelled.
- Literals.NewObjectFromPairs: an odd entry at the end of the flat pairs list is ignored by the code and cannot be written here.
- InlineCache.ICache.GetCached: receivers that are not plain objects always miss by a type test, and are not modelled; the same holds for the other caches.
- InlineCache.ICache.CallCached: the code compares number values by the address of their box, so it may miss where the model hits; a hit returns the same value either way.
- CachedEngine.Engine.ReadProperty: a key that only an object behind a foreign prototype could have ends the step there; getters and setters run in the interpreter, between operations of the history. The same holds for writes and calls.
- Shapes.ShapeTree.Transition: wrap-around of the 64-bit id counter and the lock around the tree are not modelled.
- ProtoChains.Get: a prototype that is not a plain object ends the modelled chain; the code goes on through it.
- ProtoChains.TrySetProto: likewise, a cycle that runs through such a prototype is not seen.
- JitProperty.GuardedSetNumericOwnProperty: float payloads are numbers without rounding; number boxes and their slab are not modelled.
- CachedEngine.Engine.ProbeAndStore: compiled code stores only where its inline cache knows the shape, and assigns in the interpreter otherwise; the model stores at every probe that succeeds.
- Arrays.ArrayValue.SetIndex: named keys of arrays, parsing of index keys, conversion of length values to numbers (a value arrives as a length or as none) and the spare capacity of slices are not modelled.
- Arrays.ArrayValue.WriteNumberRange: adding the counter to the start value is exact here; the code rounds.
- ArrayHistories.RunLater: says nothing of new indices; ArrayInvariants says exactly when there can be some.
- ArrayEcma.AssignElementIsEcmaExactly: the prototypes are given by the properties they have for the index, nearest first; wrappers and proxies among them are not modelled.
- GcMarker.MarkFromRoots: the heap is a value and each reference a number; functions, buffers and dates count as the object that stores their properties. Returning memory to the system is not modelled.
- WeakRegistry.Registry.Register: which weak entries are dead is any set the runtime chooses; the lock and the metrics switch are not modelled.
- Multiplexing.StepKeepsInv: client and server are steps over one state instead of classes, since every goroutine may run between any two of them; closing, transport errors, JSON text and 2^32 or more calls are not modelled.
- Evaluator.Parser.Primary: the lexer, object and array literals, identifiers, member access and calls are not modelled (a postfix ends the evaluation with its own outcome); operators are arbitrary functions.
- Reactivity.Reactive.Trigger: eager effects and reactive proxies are not modelled; schedulers run in any order.
- JsonGraph.ValueToJson: the heap is a value; accessors that run user code, and numbers that are not finite, are not modelled.
- Ropes.ConcatStrings: operands that are not strings are coerced before; two threads racing to store the same flat text are not modelled. Text is code points, lone surrogates are not modelled.
- ConstCodec.ConstRoundTrip: numbers are their 64 bits; the error texts are not modelled.
- Pbkdf2.Pbkdf2Key: HMAC is any function of fixed output length.
- RandomRange.RandomInt: the random source is the sequence of samples it delivers.
- ConfigStore.Store.Publish: MD5 is any function, the clock a parameter; the service registry half of the store is not modelled.
- The accessor writers `SetAccessor` and `UpdateAccessor` write slots without attribute checks and are not operations of the modelled histories.
- Command line, bundler, package manager, GUI, module loader, compiler, regular expressions and code generators are not modelled.
