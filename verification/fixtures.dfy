/**
  Some of the types that the repository's member-resolution tests reflect
  over, written as metadata, and what the model resolves for the queries
  those tests make on them. Lists are in declaration order, the order
  reflection reports them in.
 */
module Fixtures {
  import opened Wrappers
  import opened Metadata
  import opened MemberKinds
  import opened Resolution

  function ObjectType(): TypeInfo {
    TypeInfo(ObjectTypeName, false, [], [], [], None)
  }

  function AutoProperty(name: string, propertyType: string, getter: Visibility): PropertyInfo {
    PropertyInfo(name, propertyType, Some(Accessor(getter, false)), 0)
  }

  /** The compiler-generated private field behind an auto-property. */
  function BackingField(property: string, fieldType: string): FieldInfo {
    FieldInfo("<" + property + ">k__BackingField", fieldType, Private)
  }

  function BaseNewProperty(): PropertyInfo {
    AutoProperty("NewProperty", "string", Visibility.Public)
  }

  function BaseClass(): TypeInfo {
    TypeInfo("BaseClass", false, [BaseNewProperty()], [BackingField("NewProperty", "string")], [], Some(ObjectType()))
  }

  function Foo(): PropertyInfo {
    AutoProperty("Foo", "object", Visibility.Public)
  }

  /** Both indexers carry the runtime's name `Item`: one public with one parameter, one internal with two. */
  function PublicIndexer(): PropertyInfo {
    PropertyInfo("Item", "string", Some(Accessor(Visibility.Public, false)), 1)
  }

  function InternalIndexer(): PropertyInfo {
    PropertyInfo("Item", "string", Some(Accessor(Assembly, false)), 2)
  }

  function ClassWithIndexer(): TypeInfo {
    TypeInfo("ClassWithIndexer", false,
      [Foo(), PublicIndexer(), InternalIndexer()],
      [BackingField("Foo", "object")], [], Some(ObjectType()))
  }

  /** The interface declares only a setter. */
  function WriteOnlyProperty(): PropertyInfo {
    PropertyInfo("WriteOnlyProperty", "string", None, 0)
  }

  function IWithSetterOnlyProperty(): TypeInfo {
    TypeInfo("IWithSetterOnlyProperty", true, [WriteOnlyProperty()], [], [], None)
  }

  /** The implementation adds a private getter. */
  function ClassImplementingSetterOnlyInterface(): TypeInfo {
    TypeInfo("ClassImplementingSetterOnlyInterface", false,
      [AutoProperty("WriteOnlyProperty", "string", Private)], [BackingField("WriteOnlyProperty", "string")],
      [IWithSetterOnlyProperty()], Some(ObjectType()))
  }

  /** With `Public`, the normal pass claims `NewProperty` and nothing else is added. */
  lemma BaseClassProperties(t: TypeInfo, kind: MemberKind)
    requires t == BaseClass() && kind == {Flag.Public}
    ensures CollectProperties(t, kind) == Ok(Unclaimed.Claim("NewProperty", BaseNewProperty()))
  {
    assert Levels(Some(t)) == [t] by {
      assert IsObject(ObjectType());
    }
    var p := BaseNewProperty();
    assert AcceptsNormal(kind, {}, p);
    var st := Unclaimed.Claim(p.name, p);
    assert t.properties == [p];
    assert NormalPass(kind, t.properties, Unclaimed) == NormalFold(kind, [], st) == st;
    assert ExplicitPass(kind, t.properties, st) == st;
    assert InterfacePass(t, kind, st) == Ok(st);
    assert LevelPass(t, kind, Unclaimed) == Ok(st);
    assert PropertyWalk([t], kind, Unclaimed) == PropertyWalk([], kind, st);
  }

  /** The only field, the property's backing field, is private. */
  lemma BaseClassFields(t: TypeInfo, kind: MemberKind)
    requires t == BaseClass() && kind == {Flag.Public}
    ensures FieldWalk(Levels(Some(t)), kind, NoFields) == NoFields
  {
    assert Levels(Some(t)) == [t] by {
      assert IsObject(ObjectType());
    }
    var backing := t.fields[0];
    assert t.fields == [backing] && !HasFieldVisibility(kind, backing);
    assert FieldFold(kind, t.fields, NoFields) == FieldFold(kind, [], NoFields) == NoFields;
    assert FieldWalk([t], kind, NoFields) == FieldWalk([], kind, NoFields);
  }

  /** Starting at the base class, its own public `NewProperty` is found; its backing field is private. */
  lemma BaseClassKeepsItsProperty(t: TypeInfo, kind: MemberKind)
    requires t == BaseClass() && kind == {Flag.Public}
    ensures Resolve(t, kind) == Ok(Resolved([BaseNewProperty()], [], [PropertyMember(BaseNewProperty())]))
  {
    var p := BaseNewProperty();
    BaseClassProperties(t, kind);
    BaseClassFields(t, kind);
    assert WithoutIndexers([p]) == [p];
    assert AsMembers([p], []) == [PropertyMember(p)];
  }

  /** The public indexer is collected and then dropped after the walk; the internal one is not selected by `Public`. */
  lemma IndexersIgnored()
    ensures CollectProperties(ClassWithIndexer(), {Flag.Public}).Ok?
    ensures CollectProperties(ClassWithIndexer(), {Flag.Public}).value.claimed == {"Foo", "Item"}
    ensures CollectProperties(ClassWithIndexer(), {Flag.Public}).value.properties == [Foo(), PublicIndexer()]
    ensures Resolve(ClassWithIndexer(), {Flag.Public}).Ok?
    ensures Resolve(ClassWithIndexer(), {Flag.Public}).value.properties == [Foo()]
  {
  }

  /** With no flags nothing is selected. */
  lemma NothingSelected()
    ensures Resolve(ClassWithIndexer(), NoFlags) == Ok(Resolved([], [], []))
  {
  }

  /**
    The class's own property has a private getter, so the normal pass skips
    it, and the interface pass then reaches the interface's property, which
    has no getter: the resolver faults.
   */
  lemma WriteOnlyInterfacePropertyFaults(t: TypeInfo, kind: MemberKind)
    requires t == ClassImplementingSetterOnlyInterface()
    requires kind == {Flag.Public, DefaultInterfaceProperties, ExplicitlyImplemented}
    ensures Resolve(t, kind) == Err(NullGetter(WriteOnlyProperty()))
  {
  }
}
