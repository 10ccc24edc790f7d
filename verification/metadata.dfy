/**
  An immutable picture of the type metadata that the host runtime's reflection
  facility supplies to the resolver: for every type, its declared instance
  properties and fields, its base type, the interfaces it implements and
  whether it is itself an interface.
 */
module Metadata {
  import opened Wrappers

  /** The accessibility of a method or a field, one value per member. */
  datatype Visibility = Private | FamilyAndAssembly | Assembly | Family | FamilyOrAssembly | Public

  /** The getter of a property: its accessibility and whether it has no body. */
  datatype Accessor = Accessor(visibility: Visibility, isAbstract: bool)

  /**
    A property as reflection describes it. `getter` is `None` for a property
    without a get accessor; `indexParameterCount` is non-zero for an indexer;
    `propertyType` is an opaque tag for its declared type.
   */
  datatype PropertyInfo = PropertyInfo(
    name: string,
    propertyType: string,
    getter: Option<Accessor>,
    indexParameterCount: nat)

  /** A field as reflection describes it. */
  datatype FieldInfo = FieldInfo(name: string, fieldType: string, visibility: Visibility)

  /** An entry of the combined member list: a property or a field. */
  datatype MemberInfo = PropertyMember(property: PropertyInfo) | FieldMember(field: FieldInfo)

  /**
    A type. `properties` and `fields` are the instance members declared on the
    type itself, of any accessibility, in the order reflection reports them;
    `interfaces` are all interfaces the type implements, and for an interface
    its `properties` are what a plain `GetProperties()` query on it returns.
   */
  datatype TypeInfo = TypeInfo(
    fullName: string,
    isInterface: bool,
    properties: seq<PropertyInfo>,
    fields: seq<FieldInfo>,
    interfaces: seq<TypeInfo>,
    baseType: Option<TypeInfo>)

  /** The name of the universal root type, where the walk over base types stops. */
  const ObjectTypeName: string := "System.Object"

  predicate IsObject(t: TypeInfo) {
    t.fullName == ObjectTypeName
  }

  /**
    The shape the runtime guarantees: an interface has no base type, and the
    base type of a type is a class, itself well formed.
   */
  predicate WellFormed(t: TypeInfo) {
    && (t.isInterface ==> t.baseType.None?)
    && (t.baseType.Some? ==> !t.baseType.value.isInterface && WellFormed(t.baseType.value))
  }

  /**
    The levels the resolver visits when it starts at `t`: the type itself,
    then each base type in turn, stopping at a missing base type or at the
    root type, which contributes nothing.
   */
  function Levels(t: Option<TypeInfo>): (levels: seq<TypeInfo>)
    ensures t.None? || IsObject(t.value) <==> levels == []
    ensures levels != [] ==> levels[0] == t.value
    ensures forall i :: 0 <= i < |levels| ==> !IsObject(levels[i])
    ensures forall i :: 0 < i < |levels| ==> levels[i - 1].baseType == Some(levels[i])
    ensures levels != [] ==> var last := levels[|levels| - 1];
                             last.baseType.None? || IsObject(last.baseType.value)
  {
    if t.None? || IsObject(t.value) then [] else [t.value] + Levels(t.value.baseType)
  }

  /** Every level visited from a well-formed class is a class. */
  lemma {:induction false} ClassLevelsAreClasses(t: TypeInfo)
    requires WellFormed(t) && !t.isInterface
    ensures forall level :: level in Levels(Some(t)) ==> !level.isInterface
  {
    if !IsObject(t) && t.baseType.Some? {
      ClassLevelsAreClasses(t.baseType.value);
    }
  }
}
