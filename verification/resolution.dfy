/**
  The member-resolution algorithm as functions: the walk over a type's base
  chain that collects its properties and fields under a selection of flags.
  Each pass is a left-to-right fold over what reflection reports, so the
  order of the result is discovery order.
 */
module Resolution {
  import opened Wrappers
  import opened Metadata
  import opened MemberKinds

  /** An indexer is a property with index parameters. */
  predicate IsIndexer(p: PropertyInfo) {
    p.indexParameterCount != 0
  }

  /** A property is explicitly implemented when its name is qualified by its interface. */
  predicate IsExplicitlyImplemented(p: PropertyInfo) {
    '.' in p.name
  }

  /**
    The text after the last '.' of `name`, or all of `name` when it has no
    '.': the longest suffix without a '.'.
   */
  function LastSegment(name: string): (segment: string)
    ensures '.' !in segment
    ensures |segment| <= |name|
    ensures |segment| < |name| ==> name[|name| - |segment| - 1] == '.'
    ensures '.' !in name <==> segment == name
  {
    if name == [] then []
    else if name[|name| - 1] == '.' then []
    else LastSegment(name[..|name| - 1]) + [name[|name| - 1]]
  }

  /** A property's getter matches a selected `Public` or `Internal` flag. */
  predicate HasPropertyVisibility(kind: MemberKind, p: PropertyInfo) {
    || (Flag.Public in kind && p.getter.Some? && p.getter.value.visibility == Visibility.Public)
    || (Internal in kind && p.getter.Some? && p.getter.value.visibility in {Assembly, FamilyOrAssembly})
  }

  /** A field's accessibility matches a selected `Public` or `Internal` flag. */
  predicate HasFieldVisibility(kind: MemberKind, f: FieldInfo) {
    || (Flag.Public in kind && f.visibility == Visibility.Public)
    || (Internal in kind && f.visibility in {Assembly, FamilyOrAssembly})
  }

  /**
    The resolver's working state for properties: the claimed names, and the
    accepted properties with, beside each, the key it claimed (its name, or
    for an explicit implementation the trailing segment of its name).
   */
  datatype Collected = Collected(claimed: set<string>, keys: seq<string>, properties: seq<PropertyInfo>)
  {
    function Claim(key: string, p: PropertyInfo): Collected {
      Collected(claimed + {key}, keys + [key], properties + [p])
    }
  }

  const Unclaimed: Collected := Collected({}, [], [])

  /** Why the walk can stop early: the getter of an interface property is dereferenced while absent. */
  datatype Fault = NullGetter(property: PropertyInfo)

  // ----- Normal properties -----

  predicate AcceptsNormal(kind: MemberKind, claimed: set<string>, p: PropertyInfo) {
    p.name !in claimed && !IsExplicitlyImplemented(p) && HasPropertyVisibility(kind, p)
  }

  function NormalFold(kind: MemberKind, ps: seq<PropertyInfo>, st: Collected): Collected
    decreases |ps|
  {
    if ps == [] then st
    else NormalFold(kind, ps[1..], if AcceptsNormal(kind, st.claimed, ps[0]) then st.Claim(ps[0].name, ps[0]) else st)
  }

  /** Any of these three flags opens the normal pass. */
  predicate OpensNormalPass(kind: MemberKind) {
    Flag.Public in kind || Internal in kind || ExplicitlyImplemented in kind
  }

  function NormalPass(kind: MemberKind, ps: seq<PropertyInfo>, st: Collected): Collected {
    if OpensNormalPass(kind) then NormalFold(kind, ps, st) else st
  }

  // ----- Explicitly implemented properties -----

  function ExplicitFold(ps: seq<PropertyInfo>, st: Collected): Collected
    decreases |ps|
  {
    if ps == [] then st
    else
      var key := LastSegment(ps[0].name);
      ExplicitFold(ps[1..], if IsExplicitlyImplemented(ps[0]) && key !in st.claimed then st.Claim(key, ps[0]) else st)
  }

  function ExplicitPass(kind: MemberKind, ps: seq<PropertyInfo>, st: Collected): Collected {
    if ExplicitlyImplemented in kind then ExplicitFold(ps, st) else st
  }

  // ----- Interface properties -----

  /**
    One interface's properties. The getter is consulted only for a name not
    yet claimed, and a missing getter there is a fault.
   */
  function InterfacePropertyFold(level: TypeInfo, ps: seq<PropertyInfo>, st: Collected): Result<Collected, Fault>
    decreases |ps|
  {
    if ps == [] then Ok(st)
    else if ps[0].name in st.claimed then InterfacePropertyFold(level, ps[1..], st)
    else match ps[0].getter
      case None => Err(NullGetter(ps[0]))
      case Some(g) =>
        InterfacePropertyFold(level, ps[1..], if !g.isAbstract || level.isInterface then st.Claim(ps[0].name, ps[0]) else st)
  }

  function InterfaceFold(level: TypeInfo, ifaces: seq<TypeInfo>, st: Collected): Result<Collected, Fault>
    decreases |ifaces|
  {
    if ifaces == [] then Ok(st)
    else match InterfacePropertyFold(level, ifaces[0].properties, st)
      case Err(e) => Err(e)
      case Ok(next) => InterfaceFold(level, ifaces[1..], next)
  }

  /** The interface pass runs when asked for, or when the level is itself an interface. */
  predicate OpensInterfacePass(level: TypeInfo, kind: MemberKind) {
    DefaultInterfaceProperties in kind || level.isInterface
  }

  function InterfacePass(level: TypeInfo, kind: MemberKind, st: Collected): Result<Collected, Fault> {
    if OpensInterfacePass(level, kind) then InterfaceFold(level, level.interfaces, st) else Ok(st)
  }

  // ----- The walk -----

  /** One level: normal, then explicit, then interface properties. */
  function LevelPass(level: TypeInfo, kind: MemberKind, st: Collected): Result<Collected, Fault> {
    InterfacePass(level, kind, ExplicitPass(kind, level.properties, NormalPass(kind, level.properties, st)))
  }

  function PropertyWalk(levels: seq<TypeInfo>, kind: MemberKind, st: Collected): Result<Collected, Fault>
    decreases |levels|
  {
    if levels == [] then Ok(st)
    else match LevelPass(levels[0], kind, st)
      case Err(e) => Err(e)
      case Ok(next) => PropertyWalk(levels[1..], kind, next)
  }

  /** The accepted properties that are not indexers, in their order. */
  function WithoutIndexers(ps: seq<PropertyInfo>): (kept: seq<PropertyInfo>)
    ensures |kept| <= |ps|
  {
    if ps == [] then []
    else (if IsIndexer(ps[0]) then [] else [ps[0]]) + WithoutIndexers(ps[1..])
  }

  /** The claim keys of the properties that `WithoutIndexers` keeps. */
  function KeysWithoutIndexers(keys: seq<string>, ps: seq<PropertyInfo>): (kept: seq<string>)
    requires |keys| == |ps|
    ensures |kept| == |WithoutIndexers(ps)|
  {
    if ps == [] then []
    else (if IsIndexer(ps[0]) then [] else [keys[0]]) + KeysWithoutIndexers(keys[1..], ps[1..])
  }

  /** Indexers are dropped after the walk; the names they claimed stay claimed. */
  function DropIndexers(st: Collected): Collected
    requires |st.keys| == |st.properties|
  {
    Collected(st.claimed, KeysWithoutIndexers(st.keys, st.properties), WithoutIndexers(st.properties))
  }

  // ----- Fields -----

  datatype FieldsCollected = FieldsCollected(claimed: set<string>, fields: seq<FieldInfo>)

  const NoFields: FieldsCollected := FieldsCollected({}, [])

  function FieldFold(kind: MemberKind, fs: seq<FieldInfo>, st: FieldsCollected): FieldsCollected
    decreases |fs|
  {
    if fs == [] then st
    else
      var f := fs[0];
      FieldFold(kind, fs[1..],
        if f.name !in st.claimed && HasFieldVisibility(kind, f)
        then FieldsCollected(st.claimed + {f.name}, st.fields + [f])
        else st)
  }

  function FieldWalk(levels: seq<TypeInfo>, kind: MemberKind, st: FieldsCollected): FieldsCollected
    decreases |levels|
  {
    if levels == [] then st else FieldWalk(levels[1..], kind, FieldFold(kind, levels[0].fields, st))
  }

  // ----- The whole resolution -----

  /** Properties followed by fields, as one member list. */
  function AsMembers(ps: seq<PropertyInfo>, fs: seq<FieldInfo>): (members: seq<MemberInfo>)
    ensures |members| == |ps| + |fs|
    ensures forall i :: 0 <= i < |ps| ==> members[i] == PropertyMember(ps[i])
    ensures forall j :: 0 <= j < |fs| ==> members[|ps| + j] == FieldMember(fs[j])
  {
    seq(|ps|, i requires 0 <= i < |ps| => PropertyMember(ps[i])) + seq(|fs|, j requires 0 <= j < |fs| => FieldMember(fs[j]))
  }

  datatype Resolved = Resolved(properties: seq<PropertyInfo>, fields: seq<FieldInfo>, members: seq<MemberInfo>)

  /** The properties collected for `t` and `kind`, with their claim keys, before the fields. */
  function CollectProperties(t: TypeInfo, kind: MemberKind): Result<Collected, Fault> {
    PropertyWalk(Levels(Some(t)), kind, Unclaimed)
  }

  /** What the resolver produces for `t` and `kind`, or the fault that stops it. */
  function Resolve(t: TypeInfo, kind: MemberKind): Result<Resolved, Fault> {
    match CollectProperties(t, kind)
    case Err(e) => Err(e)
    case Ok(st) =>
      var ps := WithoutIndexers(st.properties);
      var fs := FieldWalk(Levels(Some(t)), kind, NoFields).fields;
      Ok(Resolved(ps, fs, AsMembers(ps, fs)))
  }
}
