/**
  When the resolver faults. The interface pass reads the getter of an
  unclaimed interface property without checking that there is one, so the
  walk stops exactly when such a property has no getter. Two lemmas bound
  this from either side: with a getter on every interface property of every
  level resolution succeeds, and a fault names a getter-less property of an
  interface of a level whose interface pass runs. A getter-less property
  whose name a normal or explicit property already claimed does not fault,
  so neither condition is both necessary and sufficient.
 */
module Faults {
  import opened Wrappers
  import opened Metadata
  import opened MemberKinds
  import opened Resolution

  /** Every property of every interface of every level has a getter. */
  ghost predicate InterfaceGettersPresent(levels: seq<TypeInfo>) {
    forall k, j, p :: 0 <= k < |levels| && 0 <= j < |levels[k].interfaces| && p in levels[k].interfaces[j].properties ==>
      p.getter.Some?
  }

  /** `p` is a property of an interface of a level whose interface pass runs for `kind`. */
  ghost predicate ReachedByInterfacePass(p: PropertyInfo, levels: seq<TypeInfo>, kind: MemberKind) {
    exists k, j :: 0 <= k < |levels| && OpensInterfacePass(levels[k], kind) && 0 <= j < |levels[k].interfaces|
                   && p in levels[k].interfaces[j].properties
  }

  // ----- Getters present: no fault -----

  lemma {:induction false} InterfacePropertyFoldOk(level: TypeInfo, ps: seq<PropertyInfo>, st: Collected)
    requires forall p :: p in ps ==> p.getter.Some?
    ensures InterfacePropertyFold(level, ps, st).Ok?
    decreases |ps|
  {
    if ps != [] {
      assert ps[0] in ps;
      var next := if ps[0].name in st.claimed || !(!ps[0].getter.value.isAbstract || level.isInterface) then st
                  else st.Claim(ps[0].name, ps[0]);
      InterfacePropertyFoldOk(level, ps[1..], next);
    }
  }

  lemma {:induction false} InterfaceFoldOk(level: TypeInfo, ifaces: seq<TypeInfo>, st: Collected)
    requires forall j, p :: 0 <= j < |ifaces| && p in ifaces[j].properties ==> p.getter.Some?
    ensures InterfaceFold(level, ifaces, st).Ok?
    decreases |ifaces|
  {
    if ifaces != [] {
      InterfacePropertyFoldOk(level, ifaces[0].properties, st);
      var next := InterfacePropertyFold(level, ifaces[0].properties, st).value;
      forall j, p | 0 <= j < |ifaces[1..]| && p in ifaces[1..][j].properties ensures p.getter.Some? {
        assert p in ifaces[j + 1].properties;
      }
      InterfaceFoldOk(level, ifaces[1..], next);
    }
  }

  lemma {:induction false} PropertyWalkOk(levels: seq<TypeInfo>, kind: MemberKind, st: Collected)
    requires InterfaceGettersPresent(levels)
    ensures PropertyWalk(levels, kind, st).Ok?
    decreases |levels|
  {
    if levels != [] {
      var level := levels[0];
      var st' := ExplicitPass(kind, level.properties, NormalPass(kind, level.properties, st));
      if OpensInterfacePass(level, kind) {
        InterfaceFoldOk(level, level.interfaces, st');
      }
      var next := LevelPass(level, kind, st).value;
      forall k, j, p | 0 <= k < |levels[1..]| && 0 <= j < |levels[1..][k].interfaces| && p in levels[1..][k].interfaces[j].properties
        ensures p.getter.Some?
      {
        assert levels[1..][k] == levels[k + 1];
      }
      PropertyWalkOk(levels[1..], kind, next);
    }
  }

  /**
    When every property of every interface of every level of the chain has a
    getter, resolution does not fault, whatever the selection: the resolver
    and the cache can then always be built.
   */
  lemma {:induction false} ResolveOk(t: TypeInfo, kind: MemberKind)
    requires InterfaceGettersPresent(Levels(Some(t)))
    ensures Resolve(t, kind).Ok?
  {
    PropertyWalkOk(Levels(Some(t)), kind, Unclaimed);
  }

  // ----- A fault names its cause -----

  lemma {:induction false} InterfacePropertyFoldFault(level: TypeInfo, ps: seq<PropertyInfo>, st: Collected)
    ensures InterfacePropertyFold(level, ps, st).Err? ==>
              var p := InterfacePropertyFold(level, ps, st).error.property;
              p in ps && p.getter.None? && p.name !in st.claimed
    decreases |ps|
  {
    if ps != [] && ps[0].name in st.claimed {
      InterfacePropertyFoldFault(level, ps[1..], st);
    } else if ps != [] && ps[0].getter.Some? {
      var g := ps[0].getter.value;
      var next := if !g.isAbstract || level.isInterface then st.Claim(ps[0].name, ps[0]) else st;
      InterfacePropertyFoldFault(level, ps[1..], next);
    }
  }

  lemma {:induction false} InterfaceFoldFault(level: TypeInfo, ifaces: seq<TypeInfo>, st: Collected)
    ensures InterfaceFold(level, ifaces, st).Err? ==>
              var p := InterfaceFold(level, ifaces, st).error.property;
              p.getter.None? && exists j :: 0 <= j < |ifaces| && p in ifaces[j].properties
    decreases |ifaces|
  {
    if ifaces != [] {
      InterfacePropertyFoldFault(level, ifaces[0].properties, st);
      var first := InterfacePropertyFold(level, ifaces[0].properties, st);
      if first.Ok? {
        InterfaceFoldFault(level, ifaces[1..], first.value);
        if InterfaceFold(level, ifaces, st).Err? {
          var p := InterfaceFold(level, ifaces, st).error.property;
          var j :| 0 <= j < |ifaces[1..]| && p in ifaces[1..][j].properties;
          assert p in ifaces[j + 1].properties;
        }
      } else {
        assert InterfaceFold(level, ifaces, st).error.property in ifaces[0].properties;
      }
    }
  }

  lemma {:induction false} PropertyWalkFault(levels: seq<TypeInfo>, kind: MemberKind, st: Collected)
    ensures PropertyWalk(levels, kind, st).Err? ==>
              var p := PropertyWalk(levels, kind, st).error.property;
              p.getter.None? && ReachedByInterfacePass(p, levels, kind)
    decreases |levels|
  {
    if levels != [] {
      var level := levels[0];
      var st' := ExplicitPass(kind, level.properties, NormalPass(kind, level.properties, st));
      InterfaceFoldFault(level, level.interfaces, st');
      var here := LevelPass(level, kind, st);
      if here.Ok? {
        PropertyWalkFault(levels[1..], kind, here.value);
        if PropertyWalk(levels, kind, st).Err? {
          var p := PropertyWalk(levels, kind, st).error.property;
          var k, j :| 0 <= k < |levels[1..]| && OpensInterfacePass(levels[1..][k], kind) && 0 <= j < |levels[1..][k].interfaces|
                      && p in levels[1..][k].interfaces[j].properties;
          assert levels[1..][k] == levels[k + 1];
        }
      } else {
        var p := here.error.property;
        var j :| 0 <= j < |level.interfaces| && p in level.interfaces[j].properties;
        assert OpensInterfacePass(level, kind);
        assert 0 <= 0 < |levels| && levels[0] == level;
      }
    }
  }

  /**
    A fault of the resolver names a property without a getter that belongs
    to an interface of a level of the chain whose interface pass runs: one
    with `DefaultInterfaceProperties` selected, or an interface level.
   */
  lemma {:induction false} ResolveFault(t: TypeInfo, kind: MemberKind)
    ensures Resolve(t, kind).Err? ==>
              var p := Resolve(t, kind).error.property;
              p.getter.None? && ReachedByInterfacePass(p, Levels(Some(t)), kind)
  {
    PropertyWalkFault(Levels(Some(t)), kind, Unclaimed);
  }
}
