/**
  The central guarantee of the resolver: every accepted property is held
  under a claim key of its own, the claimed-name set is exactly the set of
  those keys, and each pass only appends.
 */
module Claims {
  import opened Wrappers
  import opened Metadata
  import opened MemberKinds
  import opened Resolution

  /** A key a property may be claimed under: its name, or the trailing segment of an explicit name. */
  predicate KeyMatches(key: string, p: PropertyInfo) {
    key == p.name || (IsExplicitlyImplemented(p) && key == LastSegment(p.name))
  }

  predicate DistinctKeys(keys: seq<string>) {
    forall i, j :: 0 <= i < j < |keys| ==> keys[i] != keys[j]
  }

  /** The invariant of the property walk. */
  ghost predicate ClaimInv(st: Collected) {
    && |st.keys| == |st.properties|
    && (forall k :: k in st.claimed <==> k in st.keys)
    && DistinctKeys(st.keys)
    && (forall i :: 0 <= i < |st.keys| ==> KeyMatches(st.keys[i], st.properties[i]))
  }

  /** `after` keeps everything of `before` and only appends. */
  ghost predicate Extends(before: Collected, after: Collected) {
    before.keys <= after.keys && before.properties <= after.properties && before.claimed <= after.claimed
  }

  lemma ClaimKeepsInv(st: Collected, key: string, p: PropertyInfo)
    requires ClaimInv(st) && key !in st.claimed && KeyMatches(key, p)
    ensures ClaimInv(st.Claim(key, p)) && Extends(st, st.Claim(key, p))
  {
    var r := st.Claim(key, p);
    forall i, j | 0 <= i < j < |r.keys| ensures r.keys[i] != r.keys[j] {
      if j == |st.keys| {
        assert st.keys[i] in st.keys;
      }
    }
  }

  lemma {:induction false} NormalFoldKeepsClaims(kind: MemberKind, ps: seq<PropertyInfo>, st: Collected)
    requires ClaimInv(st)
    ensures ClaimInv(NormalFold(kind, ps, st)) && Extends(st, NormalFold(kind, ps, st))
    decreases |ps|
  {
    if ps != [] {
      var next := if AcceptsNormal(kind, st.claimed, ps[0]) then st.Claim(ps[0].name, ps[0]) else st;
      if AcceptsNormal(kind, st.claimed, ps[0]) {
        ClaimKeepsInv(st, ps[0].name, ps[0]);
      }
      NormalFoldKeepsClaims(kind, ps[1..], next);
    }
  }

  lemma {:induction false} ExplicitFoldKeepsClaims(ps: seq<PropertyInfo>, st: Collected)
    requires ClaimInv(st)
    ensures ClaimInv(ExplicitFold(ps, st)) && Extends(st, ExplicitFold(ps, st))
    decreases |ps|
  {
    if ps != [] {
      var key := LastSegment(ps[0].name);
      var accept := IsExplicitlyImplemented(ps[0]) && key !in st.claimed;
      var next := if accept then st.Claim(key, ps[0]) else st;
      if accept {
        ClaimKeepsInv(st, key, ps[0]);
      }
      ExplicitFoldKeepsClaims(ps[1..], next);
    }
  }

  lemma {:induction false} InterfacePropertyFoldKeepsClaims(level: TypeInfo, ps: seq<PropertyInfo>, st: Collected)
    requires ClaimInv(st)
    ensures InterfacePropertyFold(level, ps, st).Ok? ==>
              var r := InterfacePropertyFold(level, ps, st).value; ClaimInv(r) && Extends(st, r)
    decreases |ps|
  {
    if ps != [] && ps[0].name !in st.claimed && ps[0].getter.Some? {
      var g := ps[0].getter.value;
      if !g.isAbstract || level.isInterface {
        ClaimKeepsInv(st, ps[0].name, ps[0]);
        InterfacePropertyFoldKeepsClaims(level, ps[1..], st.Claim(ps[0].name, ps[0]));
      } else {
        InterfacePropertyFoldKeepsClaims(level, ps[1..], st);
      }
    } else if ps != [] && ps[0].name in st.claimed {
      InterfacePropertyFoldKeepsClaims(level, ps[1..], st);
    }
  }

  lemma {:induction false} InterfaceFoldKeepsClaims(level: TypeInfo, ifaces: seq<TypeInfo>, st: Collected)
    requires ClaimInv(st)
    ensures InterfaceFold(level, ifaces, st).Ok? ==>
              var r := InterfaceFold(level, ifaces, st).value; ClaimInv(r) && Extends(st, r)
    decreases |ifaces|
  {
    if ifaces != [] {
      InterfacePropertyFoldKeepsClaims(level, ifaces[0].properties, st);
      var first := InterfacePropertyFold(level, ifaces[0].properties, st);
      if first.Ok? {
        InterfaceFoldKeepsClaims(level, ifaces[1..], first.value);
      }
    }
  }

  /** Each level keeps the invariant: normal, explicit and interface additions all claim fresh keys. */
  lemma LevelPassKeepsClaims(level: TypeInfo, kind: MemberKind, st: Collected)
    requires ClaimInv(st)
    ensures LevelPass(level, kind, st).Ok? ==>
              var r := LevelPass(level, kind, st).value; ClaimInv(r) && Extends(st, r)
  {
    var afterNormal := NormalPass(kind, level.properties, st);
    if OpensNormalPass(kind) {
      NormalFoldKeepsClaims(kind, level.properties, st);
    }
    var afterExplicit := ExplicitPass(kind, level.properties, afterNormal);
    if ExplicitlyImplemented in kind {
      ExplicitFoldKeepsClaims(level.properties, afterNormal);
    }
    if OpensInterfacePass(level, kind) {
      InterfaceFoldKeepsClaims(level, level.interfaces, afterExplicit);
    }
  }

  lemma {:induction false} PropertyWalkKeepsClaims(levels: seq<TypeInfo>, kind: MemberKind, st: Collected)
    requires ClaimInv(st)
    ensures PropertyWalk(levels, kind, st).Ok? ==>
              var r := PropertyWalk(levels, kind, st).value; ClaimInv(r) && Extends(st, r)
    decreases |levels|
  {
    if levels != [] {
      LevelPassKeepsClaims(levels[0], kind, st);
      var first := LevelPass(levels[0], kind, st);
      if first.Ok? {
        PropertyWalkKeepsClaims(levels[1..], kind, first.value);
      }
    }
  }

  /**
    After the whole walk the claimed-name set is exactly the set of claim
    keys of the collected properties, and no key is held twice.
   */
  lemma CollectedClaimKeysAreUnique(t: TypeInfo, kind: MemberKind)
    requires CollectProperties(t, kind).Ok?
    ensures ClaimInv(CollectProperties(t, kind).value)
  {
    PropertyWalkKeepsClaims(Levels(Some(t)), kind, Unclaimed);
  }

  lemma {:induction false} DropIndexersKeepsDistinct(keys: seq<string>, ps: seq<PropertyInfo>)
    requires |keys| == |ps| && DistinctKeys(keys)
    ensures DistinctKeys(KeysWithoutIndexers(keys, ps))
  {
    if ps != [] {
      DropIndexersKeepsDistinct(keys[1..], ps[1..]);
      var rest := KeysWithoutIndexers(keys[1..], ps[1..]);
      if keys[0] in rest {
        var i :| 0 <= i < |rest| && rest[i] == keys[0];
        var j := DropIndexersSource(keys[1..], ps[1..], i);
        assert false;
      }
    }
  }

  /** The indexer filter keeps exactly the properties that are not indexers. */
  lemma {:induction false} WithoutIndexersKeepsNonIndexers(ps: seq<PropertyInfo>)
    ensures forall q :: q in WithoutIndexers(ps) <==> q in ps && !IsIndexer(q)
    decreases |ps|
  {
    if ps != [] {
      WithoutIndexersKeepsNonIndexers(ps[1..]);
      assert ps == [ps[0]] + ps[1..];
    }
  }

  /** The indexer filter keeps order: filtering a concatenation is concatenating the filtered parts. */
  lemma {:induction false} WithoutIndexersAppend(a: seq<PropertyInfo>, b: seq<PropertyInfo>)
    ensures WithoutIndexers(a + b) == WithoutIndexers(a) + WithoutIndexers(b)
    decreases |a|
  {
    if a == [] {
      assert a + b == b;
    } else {
      WithoutIndexersAppend(a[1..], b);
      assert (a + b)[0] == a[0] && (a + b)[1..] == a[1..] + b;
    }
  }

  /** The `i`-th kept key and property are the key and property at one index `j` of the originals, not an indexer. */
  lemma {:induction false} DropIndexersSource(keys: seq<string>, ps: seq<PropertyInfo>, i: nat) returns (j: nat)
    requires |keys| == |ps|
    requires i < |KeysWithoutIndexers(keys, ps)|
    ensures j < |ps| && !IsIndexer(ps[j])
    ensures KeysWithoutIndexers(keys, ps)[i] == keys[j] && WithoutIndexers(ps)[i] == ps[j]
    decreases |ps|
  {
    var ks, qs := KeysWithoutIndexers(keys[1..], ps[1..]), WithoutIndexers(ps[1..]);
    if IsIndexer(ps[0]) {
      assert KeysWithoutIndexers(keys, ps) == ks && WithoutIndexers(ps) == qs;
      j := DropIndexersSource(keys[1..], ps[1..], i);
      j := j + 1;
    } else if i == 0 {
      j := 0;
    } else {
      assert KeysWithoutIndexers(keys, ps)[i] == ks[i - 1] && WithoutIndexers(ps)[i] == qs[i - 1];
      j := DropIndexersSource(keys[1..], ps[1..], i - 1);
      j := j + 1;
    }
  }

  lemma DropIndexersKeepsMatches(keys: seq<string>, ps: seq<PropertyInfo>)
    requires |keys| == |ps|
    requires forall i :: 0 <= i < |keys| ==> KeyMatches(keys[i], ps[i])
    ensures forall i :: 0 <= i < |KeysWithoutIndexers(keys, ps)| ==>
              KeyMatches(KeysWithoutIndexers(keys, ps)[i], WithoutIndexers(ps)[i]) && !IsIndexer(WithoutIndexers(ps)[i])
  {
    forall i | 0 <= i < |KeysWithoutIndexers(keys, ps)|
      ensures KeyMatches(KeysWithoutIndexers(keys, ps)[i], WithoutIndexers(ps)[i]) && !IsIndexer(WithoutIndexers(ps)[i])
    {
      var j := DropIndexersSource(keys, ps, i);
    }
  }

  /**
    The properties the resolver returns contain no indexer, and each holds a
    claim key of its own: its name, or for an explicit implementation the
    trailing segment of its name. The names of dropped indexers stay claimed.
   */
  lemma ResolvedPropertiesHaveUniqueKeys(t: TypeInfo, kind: MemberKind)
    requires Resolve(t, kind).Ok?
    ensures CollectProperties(t, kind).Ok? && ClaimInv(CollectProperties(t, kind).value)
    ensures var d := DropIndexers(CollectProperties(t, kind).value);
            d.properties == Resolve(t, kind).value.properties && |d.keys| == |d.properties|
    ensures var d := DropIndexers(CollectProperties(t, kind).value);
            DistinctKeys(d.keys) && forall k :: k in d.keys ==> k in d.claimed
    ensures var d := DropIndexers(CollectProperties(t, kind).value);
            forall i :: 0 <= i < |d.keys| ==> KeyMatches(d.keys[i], d.properties[i]) && !IsIndexer(d.properties[i])
  {
    CollectedClaimKeysAreUnique(t, kind);
    var st := CollectProperties(t, kind).value;
    DropIndexersKeepsDistinct(st.keys, st.properties);
    DropIndexersKeepsMatches(st.keys, st.properties);
    var d := DropIndexers(st);
    assert d.properties == Resolve(t, kind).value.properties;
    forall k | k in d.keys ensures k in d.claimed {
      var i :| 0 <= i < |d.keys| && d.keys[i] == k;
      var j := DropIndexersSource(st.keys, st.properties, i);
      assert k in st.keys;
    }
  }
}
