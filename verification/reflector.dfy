/**
  The resolver as the source writes it: an object that, when constructed
  for a type and a selection, walks the base chain and fills two
  claimed-name sets and two result lists in place. Each method is proved to
  leave the object in the state the matching function of `Resolution`
  describes.
 */
module Reflectors {
  import opened Wrappers
  import opened Metadata
  import opened MemberKinds
  import opened Resolution

  class Reflector {
    var collectedPropertyNames: set<string>
    var collectedFields: set<string>
    var fields: seq<FieldInfo>
    var properties: seq<PropertyInfo>
    var members: seq<MemberInfo>
    /** The key each entry of `properties` was claimed under. */
    ghost var claimKeys: seq<string>

    ghost function PropertyState(): Collected
      reads this
    {
      Collected(collectedPropertyNames, claimKeys, properties)
    }

    ghost function FieldState(): FieldsCollected
      reads this
    {
      FieldsCollected(collectedFields, fields)
    }

    function Properties(): seq<PropertyInfo>
      reads this
    {
      properties
    }

    function Fields(): seq<FieldInfo>
      reads this
    {
      fields
    }

    function Members(): seq<MemberInfo>
      reads this
    {
      members
    }

    /** The object holds what the resolver produces for `t` and `kind`. */
    ghost predicate Describes(t: TypeInfo, kind: MemberKind)
      reads this
    {
      && Resolve(t, kind).Ok?
      && properties == Resolve(t, kind).value.properties
      && fields == Resolve(t, kind).value.fields
      && members == Resolve(t, kind).value.members
    }

    /** Resolves `typeToReflect`; the source throws where `Resolve` reports a fault. */
    constructor (typeToReflect: TypeInfo, kind: MemberKind)
      requires Resolve(typeToReflect, kind).Ok?
      ensures Describes(typeToReflect, kind)
    {
      collectedPropertyNames, collectedFields := {}, {};
      fields, properties, members := [], [], [];
      claimKeys := [];
      new;
      LoadProperties(typeToReflect, kind);
      LoadFields(typeToReflect, kind);
      members := AsMembers(properties, fields);
    }

    method LoadProperties(typeToReflect: TypeInfo, kind: MemberKind)
      requires |claimKeys| == |properties|
      requires PropertyWalk(Levels(Some(typeToReflect)), kind, PropertyState()).Ok?
      modifies this
      ensures var st := old(PropertyWalk(Levels(Some(typeToReflect)), kind, PropertyState())).value;
              |st.keys| == |st.properties| && PropertyState() == DropIndexers(st)
      ensures collectedFields == old(collectedFields) && fields == old(fields) && members == old(members)
    {
      ghost var target := PropertyWalk(Levels(Some(typeToReflect)), kind, PropertyState());
      var current: Option<TypeInfo> := Some(typeToReflect);
      while current.Some? && !IsObject(current.value)
        invariant |claimKeys| == |properties|
        invariant PropertyWalk(Levels(current), kind, PropertyState()) == target
        invariant collectedFields == old(collectedFields) && fields == old(fields) && members == old(members)
        decreases |Levels(current)|
      {
        var level := current.value;
        AddNormalProperties(kind, level.properties);
        AddExplicitlyImplementedProperties(kind, level.properties);
        AddInterfaceProperties(level, kind);
        current := level.baseType;
      }
      claimKeys := KeysWithoutIndexers(claimKeys, properties);
      properties := WithoutIndexers(properties);
    }

    method AddNormalProperties(kind: MemberKind, allProperties: seq<PropertyInfo>)
      requires |claimKeys| == |properties|
      modifies this
      ensures PropertyState() == NormalPass(kind, allProperties, old(PropertyState()))
      ensures |claimKeys| == |properties|
      ensures collectedFields == old(collectedFields) && fields == old(fields) && members == old(members)
    {
      if Flag.Public in kind || Internal in kind || ExplicitlyImplemented in kind {
        for i := 0 to |allProperties|
          invariant |claimKeys| == |properties|
          invariant NormalFold(kind, allProperties[i..], PropertyState()) == NormalFold(kind, allProperties, old(PropertyState()))
          invariant collectedFields == old(collectedFields) && fields == old(fields) && members == old(members)
        {
          var property := allProperties[i];
          assert allProperties[i..][1..] == allProperties[i + 1..];
          if property.name !in collectedPropertyNames && !IsExplicitlyImplemented(property) && HasPropertyVisibility(kind, property) {
            properties := properties + [property];
            collectedPropertyNames := collectedPropertyNames + {property.name};
            claimKeys := claimKeys + [property.name];
          }
        }
      }
    }

    method AddExplicitlyImplementedProperties(kind: MemberKind, allProperties: seq<PropertyInfo>)
      requires |claimKeys| == |properties|
      modifies this
      ensures PropertyState() == ExplicitPass(kind, allProperties, old(PropertyState()))
      ensures |claimKeys| == |properties|
      ensures collectedFields == old(collectedFields) && fields == old(fields) && members == old(members)
    {
      if ExplicitlyImplemented in kind {
        for i := 0 to |allProperties|
          invariant |claimKeys| == |properties|
          invariant ExplicitFold(allProperties[i..], PropertyState()) == ExplicitFold(allProperties, old(PropertyState()))
          invariant collectedFields == old(collectedFields) && fields == old(fields) && members == old(members)
        {
          var p := allProperties[i];
          ghost var before := PropertyState();
          assert ExplicitFold(allProperties[i..], before) ==
                 ExplicitFold(allProperties[i + 1..],
                   if IsExplicitlyImplemented(p) && LastSegment(p.name) !in before.claimed
                   then before.Claim(LastSegment(p.name), p) else before)
          by {
            assert allProperties[i..][0] == p && allProperties[i..][1..] == allProperties[i + 1..];
          }
          if IsExplicitlyImplemented(p) {
            var name := LastSegment(p.name);
            if name !in collectedPropertyNames {
              properties := properties + [p];
              collectedPropertyNames := collectedPropertyNames + {name};
              claimKeys := claimKeys + [name];
            }
          }
        }
      }
    }

    method AddInterfaceProperties(typeToReflect: TypeInfo, kind: MemberKind)
      requires |claimKeys| == |properties|
      requires InterfacePass(typeToReflect, kind, PropertyState()).Ok?
      modifies this
      ensures PropertyState() == old(InterfacePass(typeToReflect, kind, PropertyState())).value
      ensures |claimKeys| == |properties|
      ensures collectedFields == old(collectedFields) && fields == old(fields) && members == old(members)
    {
      if DefaultInterfaceProperties in kind || typeToReflect.isInterface {
        ghost var target := InterfaceFold(typeToReflect, typeToReflect.interfaces, PropertyState());
        var interfaces := typeToReflect.interfaces;
        for i := 0 to |interfaces|
          invariant |claimKeys| == |properties|
          invariant InterfaceFold(typeToReflect, interfaces[i..], PropertyState()) == target
          invariant collectedFields == old(collectedFields) && fields == old(fields) && members == old(members)
        {
          var iface := interfaces[i];
          assert interfaces[i..][1..] == interfaces[i + 1..];
          ghost var rest := interfaces[i + 1..];
          var ifaceProperties := iface.properties;
          for j := 0 to |ifaceProperties|
            invariant |claimKeys| == |properties|
            invariant InterfacePropertyFold(typeToReflect, ifaceProperties[j..], PropertyState()).Ok?
            invariant InterfaceFold(typeToReflect, rest, InterfacePropertyFold(typeToReflect, ifaceProperties[j..], PropertyState()).value) == target
            invariant collectedFields == old(collectedFields) && fields == old(fields) && members == old(members)
          {
            var prop := ifaceProperties[j];
            assert ifaceProperties[j..][1..] == ifaceProperties[j + 1..];
            if prop.name !in collectedPropertyNames && (!prop.getter.value.isAbstract || typeToReflect.isInterface) {
              properties := properties + [prop];
              collectedPropertyNames := collectedPropertyNames + {prop.name};
              claimKeys := claimKeys + [prop.name];
            }
          }
          assert ifaceProperties[|ifaceProperties|..] == [];
        }
      }
    }

    method LoadFields(typeToReflect: TypeInfo, kind: MemberKind)
      modifies this
      ensures FieldState() == FieldWalk(Levels(Some(typeToReflect)), kind, old(FieldState()))
      ensures PropertyState() == old(PropertyState()) && members == old(members)
    {
      ghost var target := FieldWalk(Levels(Some(typeToReflect)), kind, FieldState());
      var current: Option<TypeInfo> := Some(typeToReflect);
      while current.Some? && !IsObject(current.value)
        invariant FieldWalk(Levels(current), kind, FieldState()) == target
        invariant PropertyState() == old(PropertyState()) && members == old(members)
        decreases |Levels(current)|
      {
        var level := current.value;
        var files := level.fields;
        for i := 0 to |files|
          invariant FieldWalk(Levels(level.baseType), kind, FieldFold(kind, files[i..], FieldState())) == target
          invariant PropertyState() == old(PropertyState()) && members == old(members)
        {
          var field := files[i];
          assert files[i..][1..] == files[i + 1..];
          if field.name !in collectedFields && HasFieldVisibility(kind, field) {
            fields := fields + [field];
            collectedFields := collectedFields + {field.name};
          }
        }
        assert files[|files|..] == [];
        current := level.baseType;
      }
    }
  }
}
