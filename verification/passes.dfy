/**
  What each of the three per-level passes may add, and what it must add.
 */
module Passes {
  import opened Wrappers
  import opened Metadata
  import opened MemberKinds
  import opened Resolution
  import opened Claims

  // ----- Normal properties -----

  /**
    The normal pass only appends, and everything it appends is a property of
    the level without a '.' in its name, whose name was unclaimed and whose
    getter matches a selected `Public` or `Internal` flag; it claims that name.
   */
  lemma {:induction false} NormalFoldAdmits(kind: MemberKind, ps: seq<PropertyInfo>, st: Collected)
    requires |st.keys| == |st.properties|
    ensures var r := NormalFold(kind, ps, st);
            && st.keys <= r.keys && st.properties <= r.properties && |r.keys| == |r.properties|
            && forall i :: |st.properties| <= i < |r.properties| ==>
                 r.properties[i] in ps && r.keys[i] == r.properties[i].name && AcceptsNormal(kind, st.claimed, r.properties[i])
    decreases |ps|
  {
    if ps != [] {
      var next := if AcceptsNormal(kind, st.claimed, ps[0]) then st.Claim(ps[0].name, ps[0]) else st;
      NormalFoldAdmits(kind, ps[1..], next);
    }
  }

  /** Conversely, every property of the level that the normal pass may accept ends up with its name claimed. */
  lemma {:induction false} NormalFoldClaimsEligible(kind: MemberKind, ps: seq<PropertyInfo>, st: Collected)
    ensures st.claimed <= NormalFold(kind, ps, st).claimed
    ensures forall p :: p in ps && !IsExplicitlyImplemented(p) && HasPropertyVisibility(kind, p) ==>
              p.name in NormalFold(kind, ps, st).claimed
    decreases |ps|
  {
    if ps != [] {
      var next := if AcceptsNormal(kind, st.claimed, ps[0]) then st.Claim(ps[0].name, ps[0]) else st;
      NormalFoldClaimsEligible(kind, ps[1..], next);
    }
  }

  /**
    Without `Public` or `Internal` the normal pass accepts nothing, even when
    `ExplicitlyImplemented` opens it.
   */
  lemma {:induction false} NormalPassNeedsVisibilityFlag(kind: MemberKind, ps: seq<PropertyInfo>, st: Collected)
    requires Flag.Public !in kind && Internal !in kind
    ensures NormalPass(kind, ps, st) == st
    decreases |ps|
  {
    if OpensNormalPass(kind) && ps != [] {
      assert !AcceptsNormal(kind, st.claimed, ps[0]);
      NormalPassNeedsVisibilityFlag(kind, ps[1..], st);
    }
  }

  // ----- Explicitly implemented properties -----

  /** The claim key is a suffix of the name. */
  lemma {:induction false} LastSegmentIsSuffix(name: string)
    ensures LastSegment(name) == name[|name| - |LastSegment(name)|..]
    decreases |name|
  {
    if name != [] && name[|name| - 1] != '.' {
      var init := name[..|name| - 1];
      LastSegmentIsSuffix(init);
      var prefix, segment := LastSegment(init), LastSegment(name);
      var start := |init| - |prefix|;
      assert segment == prefix + [name[|name| - 1]];
      assert name[start..] == init[start..] + [name[|name| - 1]];
    }
  }

  /** The claim key of a qualified name `Q.M`, with no '.' in `M`, is `M`. */
  lemma {:induction false} LastSegmentOfQualifiedName(qualifier: string, member: string)
    requires '.' !in member
    ensures LastSegment(qualifier + "." + member) == member
    decreases |member|
  {
    var name := qualifier + "." + member;
    if member != [] {
      var init := member[..|member| - 1];
      var last := member[|member| - 1];
      assert name[..|name| - 1] == qualifier + "." + init;
      assert last in member;
      assert '.' !in init by {
        forall c | c in init ensures c in member {}
      }
      LastSegmentOfQualifiedName(qualifier, init);
      assert init + [last] == member;
    } else {
      assert name[|name| - 1] == '.';
    }
  }

  /**
    The explicit pass only appends properties whose name has a '.', each
    claimed under the text after its last '.', which was unclaimed.
   */
  lemma {:induction false} ExplicitFoldAdmits(ps: seq<PropertyInfo>, st: Collected)
    requires |st.keys| == |st.properties|
    ensures var r := ExplicitFold(ps, st);
            && st.keys <= r.keys && st.properties <= r.properties && |r.keys| == |r.properties|
            && forall i :: |st.properties| <= i < |r.properties| ==>
                 && r.properties[i] in ps && IsExplicitlyImplemented(r.properties[i])
                 && r.keys[i] == LastSegment(r.properties[i].name) && r.keys[i] !in st.claimed
    decreases |ps|
  {
    if ps != [] {
      var key := LastSegment(ps[0].name);
      var next := if IsExplicitlyImplemented(ps[0]) && key !in st.claimed then st.Claim(key, ps[0]) else st;
      ExplicitFoldAdmits(ps[1..], next);
    }
  }

  /** Conversely, the trailing segment of every explicit implementation ends up claimed. */
  lemma {:induction false} ExplicitFoldClaimsAll(ps: seq<PropertyInfo>, st: Collected)
    ensures st.claimed <= ExplicitFold(ps, st).claimed
    ensures forall p :: p in ps && IsExplicitlyImplemented(p) ==> LastSegment(p.name) in ExplicitFold(ps, st).claimed
    decreases |ps|
  {
    if ps != [] {
      var key := LastSegment(ps[0].name);
      var next := if IsExplicitlyImplemented(ps[0]) && key !in st.claimed then st.Claim(key, ps[0]) else st;
      ExplicitFoldClaimsAll(ps[1..], next);
    }
  }

  /**
    On one level, a normal property that the normal pass may accept beats an
    explicit implementation with the same bare name: the explicit pass adds
    no entry under that name.
   */
  lemma NormalWinsOverExplicit(kind: MemberKind, ps: seq<PropertyInfo>, st: Collected)
    requires |st.keys| == |st.properties|
    ensures var n := NormalPass(kind, ps, st); var e := ExplicitPass(kind, ps, n);
            forall p, i :: p in ps && !IsExplicitlyImplemented(p) && HasPropertyVisibility(kind, p) && |n.keys| <= i < |e.keys| ==>
              e.keys[i] != p.name
  {
    var n := NormalPass(kind, ps, st);
    NormalFoldClaimsEligible(kind, ps, st);
    NormalFoldAdmits(kind, ps, st);
    if ExplicitlyImplemented in kind {
      ExplicitFoldAdmits(ps, n);
    }
  }

  // ----- Interface properties -----

  /** A property of one of the interfaces. */
  ghost predicate FromInterfaces(p: PropertyInfo, ifaces: seq<TypeInfo>) {
    exists j :: 0 <= j < |ifaces| && p in ifaces[j].properties
  }

  /** What the interface pass may append: an unclaimed interface property with a getter, non-abstract unless the level is an interface. */
  ghost predicate AcceptsFromInterface(level: TypeInfo, claimed: set<string>, p: PropertyInfo) {
    p.name !in claimed && p.getter.Some? && (!p.getter.value.isAbstract || level.isInterface)
  }

  lemma {:induction false} InterfacePropertyFoldAdmits(level: TypeInfo, ps: seq<PropertyInfo>, st: Collected)
    requires |st.keys| == |st.properties|
    ensures InterfacePropertyFold(level, ps, st).Ok? ==>
              var r := InterfacePropertyFold(level, ps, st).value;
              && st.keys <= r.keys && st.properties <= r.properties && |r.keys| == |r.properties| && st.claimed <= r.claimed
              && (forall i :: |st.properties| <= i < |r.properties| ==>
                   r.properties[i] in ps && r.keys[i] == r.properties[i].name && AcceptsFromInterface(level, st.claimed, r.properties[i]))
              && (forall p :: p in ps ==> p.name in r.claimed || (p.getter.Some? && p.getter.value.isAbstract && !level.isInterface))
    decreases |ps|
  {
    if ps != [] && ps[0].name !in st.claimed && ps[0].getter.Some? {
      var g := ps[0].getter.value;
      var next := if !g.isAbstract || level.isInterface then st.Claim(ps[0].name, ps[0]) else st;
      InterfacePropertyFoldAdmits(level, ps[1..], next);
    } else if ps != [] && ps[0].name in st.claimed {
      InterfacePropertyFoldAdmits(level, ps[1..], st);
    }
  }

  lemma {:induction false} InterfaceFoldAdmits(level: TypeInfo, ifaces: seq<TypeInfo>, st: Collected)
    requires |st.keys| == |st.properties|
    ensures InterfaceFold(level, ifaces, st).Ok? ==>
              var r := InterfaceFold(level, ifaces, st).value;
              && st.keys <= r.keys && st.properties <= r.properties && |r.keys| == |r.properties| && st.claimed <= r.claimed
              && (forall i :: |st.properties| <= i < |r.properties| ==>
                   FromInterfaces(r.properties[i], ifaces) && r.keys[i] == r.properties[i].name
                   && AcceptsFromInterface(level, st.claimed, r.properties[i]))
              && (forall j, p :: 0 <= j < |ifaces| && p in ifaces[j].properties ==>
                   p.name in r.claimed || (p.getter.Some? && p.getter.value.isAbstract && !level.isInterface))
    decreases |ifaces|
  {
    if ifaces != [] {
      InterfacePropertyFoldAdmits(level, ifaces[0].properties, st);
      var first := InterfacePropertyFold(level, ifaces[0].properties, st);
      if first.Ok? {
        var mid := first.value;
        InterfaceFoldAdmits(level, ifaces[1..], mid);
        if InterfaceFold(level, ifaces, st).Ok? {
          var r := InterfaceFold(level, ifaces, st).value;
          forall i | |st.properties| <= i < |r.properties|
            ensures FromInterfaces(r.properties[i], ifaces) && AcceptsFromInterface(level, st.claimed, r.properties[i])
          {
            if i < |mid.properties| {
              assert r.properties[i] == mid.properties[i];
              assert r.properties[i] in ifaces[0].properties;
            } else {
              var j :| 0 <= j < |ifaces[1..]| && r.properties[i] in ifaces[1..][j].properties;
              assert r.properties[i] in ifaces[j + 1].properties;
            }
          }
          forall j, p | 0 <= j < |ifaces| && p in ifaces[j].properties
            ensures p.name in r.claimed || (p.getter.Some? && p.getter.value.isAbstract && !level.isInterface)
          {
            if j > 0 {
              assert p in ifaces[1..][j - 1].properties;
            }
          }
        }
      }
    }
  }

  /**
    The interface pass adds nothing unless `DefaultInterfaceProperties` is
    selected or the level is an interface. On a class it adds only
    properties with a non-abstract getter; on an interface it claims the name
    of every property of every interface it implements.
   */
  lemma InterfacePassAdmits(level: TypeInfo, kind: MemberKind, st: Collected)
    requires |st.keys| == |st.properties|
    ensures !OpensInterfacePass(level, kind) ==> InterfacePass(level, kind, st) == Ok(st)
    ensures InterfacePass(level, kind, st).Ok? ==>
              var r := InterfacePass(level, kind, st).value;
              && st.keys <= r.keys && st.properties <= r.properties && |r.keys| == |r.properties|
              && (forall i :: |st.properties| <= i < |r.properties| ==>
                   && FromInterfaces(r.properties[i], level.interfaces) && r.keys[i] == r.properties[i].name
                   && r.properties[i].name !in st.claimed && r.properties[i].getter.Some?
                   && (level.isInterface || (DefaultInterfaceProperties in kind && !r.properties[i].getter.value.isAbstract)))
              && (level.isInterface ==>
                   forall j, p :: 0 <= j < |level.interfaces| && p in level.interfaces[j].properties ==> p.name in r.claimed)
  {
    if OpensInterfacePass(level, kind) {
      InterfaceFoldAdmits(level, level.interfaces, st);
    }
  }
}
