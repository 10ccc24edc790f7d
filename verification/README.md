# Member resolution of Reflectify / Reflectorator, in Dafny

Reflectify adds extension methods to `Type`: `GetProperties`, `GetFields` and `GetMembers`. Each takes a
`MemberKind`, a set of flags: `Public`, `Internal`, `ExplicitlyImplemented` and `DefaultInterfaceProperties`.
The work is done by an internal `Reflector` object, built once per type and selection and kept in a memo cache.

The constructor walks the base-type chain. It starts at the type itself and stops at a missing base type or at
`System.Object`. On every level it runs three passes over the properties:

1. **Normal pass.** It accepts properties without a `.` in their name whose getter matches a selected visibility
   flag. It runs when `Public`, `Internal` or `ExplicitlyImplemented` is selected.
2. **Explicit pass.** It accepts explicit interface implementations. Such a property is claimed under the text
   after the last `.` of its name. It runs when `ExplicitlyImplemented` is selected.
3. **Interface pass.** It accepts properties of the implemented interfaces. It runs when
   `DefaultInterfaceProperties` is selected or the level is itself an interface. On a class it skips abstract
   getters.

A set of claimed names makes the first claimant win. A derived level therefore hides a base level, and a normal
property hides an explicit implementation with the same bare name. Indexers are dropped after the walk.

Fields use a second walk with their own claimed-name set. `Members` is the properties followed by the fields.
`Reflectorator/Reflectorator.cs` holds a near-copy of the same class, with `MemberSelection` in place of
`MemberKind`. Both files are described by the one model below.

The project has three layers.

- **Specification functions.** `Resolution` defines the resolver as left folds: `NormalFold`, `ExplicitFold`,
  `InterfacePropertyFold`/`InterfaceFold`, `PropertyWalk`, `FieldWalk` and `Resolve`.
  - The fold state `Collected` carries the claimed names and the accepted properties. Beside each property it
    keeps the key that property claimed.
  - The source dereferences an interface property's getter without a null check. A missing getter there is
    modelled as the fault `NullGetter`, returned through `Result`.
- **The imperative class.** `Reflectors.Reflector` has the source's fields, updated in place by loops. Each
  method is proved to leave the object in the state the matching fold describes.
  `TypeExtensions.ReflectorCache` is the memo cache.
- **Properties.** `Claims`, `Passes`, `Walk` and `Fields` prove what the resolver guarantees about the folds.
  `Faults` gives a condition under which resolution succeeds and names the cause of every fault.
  `MemberKinds` relates the flag set to its numeric encoding. `Fixtures` replays a few of the repository's test
  scenarios.

## Model

| member | source | states |
|---|---|---|
| Metadata.Levels | src/Reflectify/Reflectify.cs:114-127 | The levels visited: empty exactly when the start is absent or is `System.Object`. Otherwise they begin at the start type and each is the base type of the one before. None of them is `System.Object`, and the walk ends at a missing base or at `System.Object`. |
| Metadata.ClassLevelsAreClasses | src/Reflectify/Reflectify.cs:114-126 | Starting from a well-formed class, no visited level is an interface. |
| MemberKinds.FlagBit | src/Reflectify/Reflectify.cs:88-91 | Each flag's bit position gives exactly its enumeration value (1, 2, 4, 8). |
| MemberKinds.ToValue | src/Reflectify/Reflectify.cs:85-92 | The numeric value of any flag combination is below 16. |
| MemberKinds.FromValue | Reflectorator/Reflectorator.cs:15-22 | Encoding the combination a value below 16 decodes to gives that value back, so every value from 0 to 15 stands for exactly one combination. |
| MemberKinds.HasFlagIsMembership | src/Reflectify/Reflectify.cs:134-135 | Testing a flag's bit on the numeric value (`HasFlag`) holds iff the flag is in the combination. |
| MemberKinds.ValueRoundTrip | src/Reflectify/Reflectify.cs:85-92 | Decoding the value of a combination gives the combination back. |
| Resolution.IsIndexer | src/Reflectify/Reflectify.cs:63-66 | A property is an indexer iff it has index parameters. Used by `WithoutIndexers`, whose effect `Claims.WithoutIndexersKeepsNonIndexers` states. |
| Resolution.IsExplicitlyImplemented | src/Reflectify/Reflectify.cs:72-79 | A property is explicitly implemented iff its name contains a `.` (the same test in Reflectorator/Reflectorator.cs:118-121). `Passes.ExplicitFoldAdmits` and `Passes.NormalFoldAdmits` state how it splits the two passes. |
| Resolution.LastSegment | src/Reflectify/Reflectify.cs:164 | The claim key of an explicit implementation has no `.` and is no longer than the name. It is preceded by a `.` whenever shorter than the name. It equals the whole name iff the name has no `.`. |
| Resolution.HasPropertyVisibility | src/Reflectify/Reflectify.cs:149-154 | A getter matches the selection iff `Public` is selected and the getter is public, or `Internal` is selected and the getter is assembly or family-or-assembly; an absent getter never matches (also Reflectorator/Reflectorator.cs:77-82). Stated in use by `Passes.NormalFoldAdmits` and `Passes.NormalFoldClaimsEligible`. |
| Resolution.HasFieldVisibility | src/Reflectify/Reflectify.cs:219-223 | The same test on a field's own accessibility (also Reflectorator/Reflectorator.cs:142-146). Stated in use by `Fields.FieldFoldKeepsInv`. |
| Resolution.NormalFold | src/Reflectify/Reflectify.cs:137-145 | The normal loop as a left fold: each property is added and its name claimed iff unclaimed, not explicit and visible. Its properties are `Passes.NormalFoldAdmits`, `Passes.NormalFoldClaimsEligible` and `Claims.NormalFoldKeepsClaims`. |
| Resolution.NormalPass | src/Reflectify/Reflectify.cs:132-147 | The normal loop runs only when `Public`, `Internal` or `ExplicitlyImplemented` is selected; see `Passes.NormalPassNeedsVisibilityFlag`. |
| Resolution.ExplicitFold | src/Reflectify/Reflectify.cs:160-172 | The explicit loop: each property with a `.` is added under its trailing segment iff that key is unclaimed. See `Passes.ExplicitFoldAdmits`, `Passes.ExplicitFoldClaimsAll` and `Claims.ExplicitFoldKeepsClaims`. |
| Resolution.ExplicitPass | src/Reflectify/Reflectify.cs:156-174 | The explicit loop runs only when `ExplicitlyImplemented` is selected; see `Passes.NormalWinsOverExplicit`. |
| Resolution.InterfacePropertyFold | src/Reflectify/Reflectify.cs:185-193 | One interface's properties: an unclaimed name reads the getter (a fault when absent) and is added unless the getter is abstract on a class level. See `Passes.InterfacePropertyFoldAdmits` and `Faults.InterfacePropertyFoldFault`. |
| Resolution.InterfaceFold | src/Reflectify/Reflectify.cs:183-194 | The loop over the level's interfaces, stopping at the first fault. See `Passes.InterfaceFoldAdmits` and `Faults.InterfaceFoldOk`. |
| Resolution.InterfacePass | src/Reflectify/Reflectify.cs:176-196 | The interface loops run only with `DefaultInterfaceProperties` or on an interface level; see `Passes.InterfacePassAdmits`. |
| Resolution.LevelPass | src/Reflectify/Reflectify.cs:119-123 | One level: normal, explicit, then interface pass; see `Claims.LevelPassKeepsClaims`. |
| Resolution.PropertyWalk | src/Reflectify/Reflectify.cs:114-127 | The loop over the levels, derived first; see `Walk.PropertyWalkSplits`, `Walk.ShadowedByDerivedLevels` and `Claims.PropertyWalkKeepsClaims`. |
| Resolution.DropIndexers | src/Reflectify/Reflectify.cs:129 | Removes indexers after the walk, keeping each kept property beside its key and the claimed names unchanged; see `Claims.ResolvedPropertiesHaveUniqueKeys`. |
| Resolution.FieldFold | src/Reflectify/Reflectify.cs:205-212 | The field loop on one level: a field is added and its name claimed iff unclaimed and visible; see `Fields.FieldFoldKeepsInv`. |
| Resolution.FieldWalk | src/Reflectify/Reflectify.cs:198-217 | The field loop over the levels, derived first; see `Fields.FieldWalkKeepsInv` and `Fields.FieldWalkShadows`. |
| Resolution.CollectProperties | src/Reflectify/Reflectify.cs:112-127 | The property walk from the type itself with nothing claimed; see `Claims.CollectedClaimKeysAreUnique` and `Walk.EveryVisibleNameIsClaimed`. |
| Resolution.Resolve | src/Reflectify/Reflectify.cs:104-110 | Properties without indexers, fields, and members as properties then fields, or the walk's fault; see `Claims.ResolvedPropertiesHaveUniqueKeys`, `Fields.ResolvedFieldsAreUniqueAndVisible`, `Faults.ResolveOk` and `Faults.ResolveFault`. |
| Resolution.WithoutIndexers | src/Reflectify/Reflectify.cs:129 | The indexer filter never lengthens the list; what it keeps is stated by `Claims.WithoutIndexersKeepsNonIndexers` and `Claims.DropIndexersSource`, and that it keeps their order by `Claims.WithoutIndexersAppend`. |
| Resolution.KeysWithoutIndexers | src/Reflectify/Reflectify.cs:129 | The claim keys kept alongside the filtered properties are exactly as many as the properties kept. |
| Resolution.AsMembers | src/Reflectify/Reflectify.cs:109 | `Members` has one entry per property, then one per field, each wrapping the corresponding element in order. |
| Claims.ClaimKeepsInv | src/Reflectify/Reflectify.cs:142-143 | Adding a property under an unclaimed key that matches it keeps the claim invariant. The invariant: claimed set = keys, keys distinct, each key matches its property. The addition only appends. |
| Claims.NormalFoldKeepsClaims | src/Reflectify/Reflectify.cs:137-145 | The normal pass keeps the claim invariant and only appends. |
| Claims.ExplicitFoldKeepsClaims | src/Reflectify/Reflectify.cs:160-172 | The explicit pass keeps the claim invariant and only appends. |
| Claims.InterfacePropertyFoldKeepsClaims | src/Reflectify/Reflectify.cs:185-193 | One interface's properties, when no fault occurs, keep the claim invariant and only append. |
| Claims.InterfaceFoldKeepsClaims | src/Reflectify/Reflectify.cs:183-194 | All interfaces of a level, when no fault occurs, keep the claim invariant and only append. |
| Claims.LevelPassKeepsClaims | src/Reflectify/Reflectify.cs:119-123 | One level (normal, explicit, then interface pass) keeps the claim invariant and only appends. |
| Claims.PropertyWalkKeepsClaims | src/Reflectify/Reflectify.cs:114-127 | The whole walk over the chain keeps the claim invariant and only appends. |
| Claims.CollectedClaimKeysAreUnique | src/Reflectify/Reflectify.cs:112-127 | After the walk the claimed-name set equals the set of claim keys. Every collected property holds a distinct key that is its name or its trailing segment. |
| Claims.DropIndexersKeepsDistinct | src/Reflectify/Reflectify.cs:129 | Dropping indexers keeps the remaining claim keys distinct. |
| Claims.DropIndexersKeepsMatches | src/Reflectify/Reflectify.cs:129 | After dropping indexers, each remaining property still sits beside its own claim key and is not an indexer. |
| Claims.WithoutIndexersKeepsNonIndexers | src/Reflectify/Reflectify.cs:129 | A property is kept by the indexer filter iff it was collected and is not an indexer. |
| Claims.WithoutIndexersAppend | src/Reflectify/Reflectify.cs:129 | The filter is order-preserving, as `Where` is: filtering two lists one after the other gives the filtered first list followed by the filtered second. |
| Claims.DropIndexersSource | src/Reflectify/Reflectify.cs:129 | The `i`-th kept key and property are the key and property at one original index, and that property is not an indexer: the filter keeps pairs together. |
| Claims.ResolvedPropertiesHaveUniqueKeys | src/Reflectify/Reflectify.cs:112-130 | Unique claim keys: the returned properties contain no indexer, each holds a distinct claim key matching it, and all those keys are claimed. |
| Passes.NormalFoldAdmits | src/Reflectify/Reflectify.cs:132-147 | The normal pass only appends. Every appended entry comes from the level and has an unclaimed name without `.`. Its getter matches a selected `Public`/`Internal` flag, and it is claimed under its own name. |
| Passes.NormalFoldClaimsEligible | src/Reflectify/Reflectify.cs:137-145 | Conversely, the name of every level property without `.` whose getter matches a selected flag is claimed after the normal pass. |
| Passes.NormalPassNeedsVisibilityFlag | Reflectorator/Reflectorator.cs:64-82 | Without `Public` and `Internal` the normal pass adds nothing, even when `ExplicitlyImplemented` opens it. |
| Passes.LastSegmentIsSuffix | src/Reflectify/Reflectify.cs:164 | The claim key is exactly the tail of the name: the name ends with it. |
| Passes.LastSegmentOfQualifiedName | Reflectorator/Reflectorator.cs:88-90 | The claim key of `Q.M`, where `M` has no `.`, is exactly `M`, whatever the qualifier `Q`. |
| Passes.ExplicitFoldAdmits | src/Reflectify/Reflectify.cs:156-174 | The explicit pass only appends. Every appended entry comes from the level and has a `.` in its name. It is claimed under its trailing segment, which was unclaimed. |
| Passes.ExplicitFoldClaimsAll | src/Reflectify/Reflectify.cs:160-172 | Conversely, the trailing segment of every explicit implementation on the level is claimed after the explicit pass. |
| Passes.NormalWinsOverExplicit | src/Reflectify/Reflectify.cs:119-121 | On one level, no entry the explicit pass adds has the name of a normal property the normal pass may accept: the normal property wins. |
| Passes.InterfacePropertyFoldAdmits | src/Reflectify/Reflectify.cs:185-193 | Without a fault, one interface's properties are only appended. Each entry is an unclaimed property with a getter, non-abstract unless the level is an interface. Every property of the interface is then claimed or was skipped as abstract on a class. |
| Passes.InterfaceFoldAdmits | src/Reflectify/Reflectify.cs:181-194 | The same over all interfaces of the level: each entry comes from one of them, and each of their properties is claimed or skipped as abstract on a class. |
| Passes.InterfacePassAdmits | src/Reflectify/Reflectify.cs:176-196 | The interface pass adds nothing unless `DefaultInterfaceProperties` is selected or the level is an interface. On a class it adds only unclaimed properties with a non-abstract getter. On an interface it claims every property of every interface it implements. |
| Walk.PropertyWalkSplits | src/Reflectify/Reflectify.cs:114-127 | Walking the chain is walking its first `n` levels and then continuing from that state. A fault in the first part is the result. |
| Walk.ShadowedByDerivedLevels | src/Reflectify/Reflectify.cs:114-127 | Order and shadowing: what the derived levels collect is a prefix of the result. Every entry a base level adds holds a key the derived levels had not claimed; for a name without `.` that key is the name. |
| Walk.ResolvedPropertiesKeepLevelOrder | src/Reflectify/Reflectify.cs:114-129 | Order and shadowing reach the returned `Properties`: they are the non-indexers the derived levels collect, in order, followed by the non-indexers the base levels add, in order. |
| Walk.PropertyWalkClaimsVisibleNames | src/Reflectify/Reflectify.cs:114-127 | Every property without `.` on any walked level whose getter matches a selected flag has its name claimed at the end. |
| Walk.EveryVisibleNameIsClaimed | src/Reflectify/Reflectify.cs:112-130 | Every such property of the type's chain is represented among the collected entries (before indexers are dropped) by one holding its name as claim key: it is returned itself or hidden by a more derived entry. |
| Walk.WalkWithoutFlagsOverClasses | Reflectorator/Reflectorator.cs:43-62 | With no flag set, walking classes leaves the state unchanged. |
| Fields.FieldWalkNeedsVisibilityFlag | Reflectorator/Reflectorator.cs:123-146 | Without `Public` and `Internal` the field walk collects nothing. |
| Fields.FieldFoldNeedsVisibilityFlag | Reflectorator/Reflectorator.cs:130-135 | Without `Public` and `Internal` one level's fields add nothing. |
| Walk.EmptySelectionResolvesNothing | Reflectorator/Reflectorator.cs:34-40 | With no flag set, a well-formed class resolves to no properties, no fields and no members. |
| Faults.InterfacePropertyFoldOk | src/Reflectify/Reflectify.cs:185-193 | When every property of the interface has a getter, one interface's loop does not fault. |
| Faults.InterfaceFoldOk | src/Reflectify/Reflectify.cs:183-194 | When every property of every interface has a getter, the interface loops do not fault. |
| Faults.PropertyWalkOk | src/Reflectify/Reflectify.cs:114-127 | When every interface property of every level has a getter, the walk does not fault, for any selection. |
| Faults.ResolveOk | src/Reflectify/Reflectify.cs:104-110 | When every interface property of every level of the chain has a getter, resolution succeeds, so the resolver and the cache entry can be built. |
| Faults.InterfacePropertyFoldFault | src/Reflectify/Reflectify.cs:187-188 | A fault in one interface's loop names one of its properties that has no getter and whose name was unclaimed when the loop began. |
| Faults.InterfaceFoldFault | src/Reflectify/Reflectify.cs:183-194 | A fault of the interface loops names a getter-less property of one of the interfaces. |
| Faults.PropertyWalkFault | src/Reflectify/Reflectify.cs:114-127 | A fault of the walk names a getter-less property of an interface of a level whose interface pass runs. |
| Faults.ResolveFault | src/Reflectify/Reflectify.cs:104-110 | A fault of resolution names a getter-less property of an interface of a level of the chain where `DefaultInterfaceProperties` is selected or the level is an interface. |
| Fields.FieldFoldKeepsInv | src/Reflectify/Reflectify.cs:205-212 | One level's fields keep the field invariant: the claimed set is the returned names, names are distinct, and each field matches a selected flag. Entries are only appended, each comes from the level, and every visible field's name ends up claimed. |
| Fields.FieldWalkKeepsInv | src/Reflectify/Reflectify.cs:198-217 | The field walk keeps the invariant. Each added field is declared on a walked level, and every visible field of the walked levels has its name claimed. |
| Fields.FieldWalkSplits | src/Reflectify/Reflectify.cs:200-216 | The field walk over a chain is the walk over its first `n` levels followed by the rest. |
| Fields.FieldWalkFromScratch | src/Reflectify/Reflectify.cs:198-217 | Over any sequence of levels, the fields collected from scratch have distinct names. Each matches a selected flag and is declared on one of the levels, and every such field of the levels has its name among them. |
| Fields.ResolvedFieldsAreUniqueAndVisible | src/Reflectify/Reflectify.cs:198-223 | When resolution succeeds, the returned fields have distinct names, each matches a selected flag and is declared on the chain, and every visible field of the chain has its name among them. |
| Fields.FieldWalkShadows | src/Reflectify/Reflectify.cs:198-217 | Over any levels, what the first `n` collect is a prefix of what all collect, and no field a later level adds has a name the first `n` claimed. |
| Fields.FieldsShadowedByDerivedLevels | src/Reflectify/Reflectify.cs:198-217 | What the derived levels collect is a prefix of the returned fields. No field a base level adds has a name a derived level claimed. |
| Reflectors.Reflector.constructor | src/Reflectify/Reflectify.cs:104-110 | When resolution does not fault, the new object holds exactly the resolved properties, fields and members. |
| Reflectors.Reflector.LoadProperties | src/Reflectify/Reflectify.cs:112-130 | After the loop over the chain and the indexer filter, the object's claimed names, keys and properties are the walk's result with indexers dropped. Fields are untouched. |
| Reflectors.Reflector.AddNormalProperties | src/Reflectify/Reflectify.cs:132-147 | The new property state is the normal pass applied to the old state. |
| Reflectors.Reflector.AddExplicitlyImplementedProperties | src/Reflectify/Reflectify.cs:156-174 | The new property state is the explicit pass applied to the old state. |
| Reflectors.Reflector.AddInterfaceProperties | src/Reflectify/Reflectify.cs:176-196 | When the interface pass does not fault, the new property state is its result. |
| Reflectors.Reflector.LoadFields | src/Reflectify/Reflectify.cs:198-217 | The new field state is the field walk over the chain from the old one. Properties are untouched. |
| Reflectors.Reflector.Properties | src/Reflectify/Reflectify.cs:227 | The resolved properties; once constructed they are `Resolve(t, kind).value.properties` (`Reflectors.Reflector.constructor`). |
| Reflectors.Reflector.Fields | src/Reflectify/Reflectify.cs:229 | The resolved fields; once constructed they are `Resolve(t, kind).value.fields`. |
| Reflectors.Reflector.Members | src/Reflectify/Reflectify.cs:225 | The combined members, set once by the constructor to properties followed by fields. |
| TypeExtensions.ReflectorCache.constructor | src/Reflectify/Reflectify.cs:18 | The cache starts empty and valid. |
| TypeExtensions.ReflectorCache.GetFor | src/Reflectify/Reflectify.cs:51-55 | Memo cache: an existing entry for the key is returned and nothing changes. Otherwise a fresh resolver for the key is stored and returned. No entry is ever removed or replaced, no other key is added, and every entry describes its key. |
| TypeExtensions.ReflectorCache.GetProperties | src/Reflectify/Reflectify.cs:25-28 | Returns the resolved properties of the type for the selection. The cache gains at most the queried key: its keys become the old keys plus that one, and old entries are unchanged. |
| TypeExtensions.ReflectorCache.GetFields | src/Reflectify/Reflectify.cs:35-38 | Returns the resolved fields of the type for the selection. The cache gains at most the queried key: its keys become the old keys plus that one, and old entries are unchanged. |
| TypeExtensions.ReflectorCache.GetMembers | src/Reflectify/Reflectify.cs:45-48 | Returns the resolved properties followed by the resolved fields. The cache gains at most the queried key, and old entries are unchanged. |
| TypeExtensions.RepeatedQueriesShareOneResolver | src/Reflectify/Reflectify.cs:51-55 | Two queries with the same key return the same resolver object, holding the resolved properties. |
| Fixtures.BaseClassProperties | tests/Reflectify.Specs/TypeMemberExtensionsSpecs.cs:293-300 | For the test's `BaseClass` and `Public`, the walk claims exactly `NewProperty` under its own name and collects that one property. |
| Fixtures.BaseClassFields | tests/Reflectify.Specs/TypeMemberExtensionsSpecs.cs:293-300 | For the same query the field walk collects nothing: the only field is the private backing field. |
| Fixtures.BaseClassKeepsItsProperty | tests/Reflectify.Specs/TypeMemberExtensionsSpecs.cs:293-300 | Resolving the test's `BaseClass` with `Public` yields its own `NewProperty` (of type string), the property the test's lookup expects; no fields and that one member. |
| Fixtures.IndexersIgnored | tests/Reflectify.Specs/TypeMemberExtensionsSpecs.cs:157-168 | For the test's class with indexers, `Public` yields only `Foo`. The walk claimed `Foo` and `Item` and collected exactly `Foo` and the public indexer; the internal indexer is not selected by `Public`. |
| Fixtures.NothingSelected | tests/Reflectify.Specs/TypeMemberExtensionsSpecs.cs:170-178 | With no flag set the class with indexers yields no properties, fields or members. |
| Fixtures.WriteOnlyInterfacePropertyFaults | tests/Reflectify.Specs/TypeMemberExtensionsSpecs.cs:144-155 | For the class implementing a setter-only interface, the code as written faults on the interface property's missing getter. |

## Left out

- Reflection itself is an input. The declared instance properties and fields of each type, in the order
  reflection reports them, the implemented interfaces and their properties, the base type and each getter's
  accessibility and abstractness are given as the immutable `TypeInfo`. How the runtime computes them is not
  modelled.
- The two property queries of the source are not told apart; one `properties` field stands for both.
  - The per-level query (src/Reflectify/Reflectify.cs:116-117) asks for the declared instance properties,
    public and non-public. For a type visited as a level, `properties` means that list.
  - The interface pass calls `GetProperties()` on each implemented interface with no binding flags
    (src/Reflectify/Reflectify.cs:185, Reflectorator/Reflectorator.cs:108). That returns public properties
    only, and public static ones as well. For an interface reached through `interfaces`, `properties` means
    that list.
  - So for an interface used as a level, non-public properties are included. For an interface reached through
    `interfaces`, only public ones are, and static ones are too. The model does not relate the two lists of one
    interface; whoever builds a `TypeInfo` supplies the list its role calls for.
- Static members are not modelled apart from that: the per-level queries select instance members only, which
  is what `TypeInfo.properties` and `TypeInfo.fields` hold for a level.
- Thread safety is not modelled. The cache is a static `ConcurrentDictionary` in the source, and `GetOrAdd` may
  run the factory twice under contention. The model keeps one `ReflectorCache` object that a caller threads
  through, with sequential access.
- Reflectorator/Reflectorator.cs has no cache (its `TypeExtensions` class is empty). It also calls an `IsIndexer`
  defined elsewhere, which is not part of this model; the Reflectify definition is used for both files.
- Reflectors.Reflector.constructor, TypeExtensions.ReflectorCache.GetFor and the public queries
  TypeExtensions.ReflectorCache.GetProperties, TypeExtensions.ReflectorCache.GetFields and
  TypeExtensions.ReflectorCache.GetMembers, which call it: they require that resolution does not fault. In the source a missing getter on an unclaimed interface property raises a null-reference exception
  out of the constructor, and no entry is cached. Here the fault is the `Err(NullGetter(..))` value of `Resolve`,
  and the object-level methods are only stated for the non-faulting case. `Faults.ResolveOk` gives a condition
  under which that requirement holds: every interface property of the chain has a getter. `Faults.ResolveFault`
  names the cause of every fault.
- The `NETCOREAPP3_0_OR_GREATER` branch of `IsExplicitlyImplemented` uses an ordinal, case-insensitive
  comparison for `.`. That behaves like the plain `Contains('.')` modelled here, since `.` has no case.
- Other extension methods the repository's tests call are not modelled, and their source is not part of this
  model: `FindProperty`, `FindField`, `FindIndexer`, `FindMethod`, `FindParameterlessMethod`, `HasMethod`, the
  conversion-operator lookups (`FindImplicitConversionOperator`, `FindExplicitConversionOperator`), the type
  metadata helpers and the `MemberInfo` helpers. Neither is the
  `ArgumentException` for an empty name.
- A `null` type argument is not modelled: `TypeInfo` is always present, and the walk starts at `Some(t)`.
- Fixtures: only four test scenarios are replayed as concrete lemmas. The scenarios over the test's `SuperClass`
  (six properties, two interfaces and a base class) are not; the general lemmas cover what those tests check:
  - `ShadowedByDerivedLevels` and `EveryVisibleNameIsClaimed` for shadowing;
  - `NormalWinsOverExplicit` and `LastSegmentOfQualifiedName` for explicit implementations;
  - `InterfacePassAdmits` for default interface properties;
  - `ResolvedFieldsAreUniqueAndVisible` for fields.
- Fixtures.WriteOnlyInterfacePropertyFaults: the repository's test for this class expects `WriteOnlyProperty` to
  be returned. The code as written skips the class's own property, whose getter is private. It then dereferences
  the interface property's absent getter. The model follows the code.
