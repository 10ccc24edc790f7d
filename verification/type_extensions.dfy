/**
  The query surface over a memo cache of resolvers keyed by type and
  selection. Entries are added on first use and never removed or replaced.
 */
module TypeExtensions {
  import opened Wrappers
  import opened Metadata
  import opened MemberKinds
  import opened Resolution
  import opened Reflectors

  class ReflectorCache {
    var entries: map<(TypeInfo, MemberKind), Reflector>

    /** Every stored resolver holds the resolution of its own key. */
    ghost predicate Valid()
      reads this, entries.Values
    {
      forall key :: key in entries ==> entries[key].Describes(key.0, key.1)
    }

    constructor ()
      ensures Valid() && entries == map[]
    {
      entries := map[];
    }

    /**
      The stored resolver for the key when there is one; otherwise a new
      resolver, stored under the key before it is returned.
     */
    method GetFor(typeToReflect: TypeInfo, kind: MemberKind) returns (reflector: Reflector)
      requires Valid()
      requires (typeToReflect, kind) in entries || Resolve(typeToReflect, kind).Ok?
      modifies this
      ensures Valid()
      ensures reflector.Describes(typeToReflect, kind)
      ensures (typeToReflect, kind) in entries && entries[(typeToReflect, kind)] == reflector
      ensures forall key :: key in old(entries) ==> key in entries && entries[key] == old(entries)[key]
      ensures entries.Keys == old(entries).Keys + {(typeToReflect, kind)}
      ensures (typeToReflect, kind) in old(entries) ==> entries == old(entries)
      ensures (typeToReflect, kind) !in old(entries) ==>
                fresh(reflector) && entries == old(entries)[(typeToReflect, kind) := reflector]
    {
      var key := (typeToReflect, kind);
      if key in entries {
        reflector := entries[key];
      } else {
        reflector := new Reflector(typeToReflect, kind);
        entries := entries[key := reflector];
        forall other | other in entries ensures entries[other].Describes(other.0, other.1) {
          if other != key {
            assert entries[other] == old(entries)[other];
          }
        }
      }
    }

    method GetProperties(typeToReflect: TypeInfo, kind: MemberKind) returns (properties: seq<PropertyInfo>)
      requires Valid()
      requires (typeToReflect, kind) in entries || Resolve(typeToReflect, kind).Ok?
      modifies this
      ensures Valid() && (typeToReflect, kind) in entries
      ensures forall key :: key in old(entries) ==> key in entries && entries[key] == old(entries)[key]
      ensures entries.Keys == old(entries).Keys + {(typeToReflect, kind)}
      ensures Resolve(typeToReflect, kind).Ok? && properties == Resolve(typeToReflect, kind).value.properties
    {
      var reflector := GetFor(typeToReflect, kind);
      properties := reflector.Properties();
    }

    method GetFields(typeToReflect: TypeInfo, kind: MemberKind) returns (fields: seq<FieldInfo>)
      requires Valid()
      requires (typeToReflect, kind) in entries || Resolve(typeToReflect, kind).Ok?
      modifies this
      ensures Valid() && (typeToReflect, kind) in entries
      ensures forall key :: key in old(entries) ==> key in entries && entries[key] == old(entries)[key]
      ensures entries.Keys == old(entries).Keys + {(typeToReflect, kind)}
      ensures Resolve(typeToReflect, kind).Ok? && fields == Resolve(typeToReflect, kind).value.fields
    {
      var reflector := GetFor(typeToReflect, kind);
      fields := reflector.Fields();
    }

    method GetMembers(typeToReflect: TypeInfo, kind: MemberKind) returns (members: seq<MemberInfo>)
      requires Valid()
      requires (typeToReflect, kind) in entries || Resolve(typeToReflect, kind).Ok?
      modifies this
      ensures Valid() && (typeToReflect, kind) in entries
      ensures forall key :: key in old(entries) ==> key in entries && entries[key] == old(entries)[key]
      ensures entries.Keys == old(entries).Keys + {(typeToReflect, kind)}
      ensures Resolve(typeToReflect, kind).Ok?
      ensures var r := Resolve(typeToReflect, kind).value; members == AsMembers(r.properties, r.fields)
    {
      var reflector := GetFor(typeToReflect, kind);
      members := reflector.Members();
    }
  }

  /**
    Asking twice for the same type and selection returns the very same
    resolver object, and so the same properties in the same order.
   */
  method RepeatedQueriesShareOneResolver(cache: ReflectorCache, t: TypeInfo, kind: MemberKind)
    returns (first: Reflector, second: Reflector)
    requires cache.Valid() && Resolve(t, kind).Ok?
    modifies cache
    ensures cache.Valid()
    ensures first == second && first.Properties() == Resolve(t, kind).value.properties
  {
    first := cache.GetFor(t, kind);
    second := cache.GetFor(t, kind);
  }
}
