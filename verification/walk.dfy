/**
  Facts about the walk over the base chain: levels are visited derived
  first, so a name a derived level claims is never returned from a base
  level; every name a level could contribute is claimed; and a selection
  with no flag yields nothing for a class.
 */
module Walk {
  import opened Wrappers
  import opened Metadata
  import opened MemberKinds
  import opened Resolution
  import opened Claims
  import opened Passes
  import opened Fields

  /** Walking a chain is walking its first `n` levels, then the rest from where that left off. */
  lemma {:induction false} PropertyWalkSplits(levels: seq<TypeInfo>, kind: MemberKind, st: Collected, n: nat)
    requires n <= |levels|
    ensures PropertyWalk(levels, kind, st) ==
              match PropertyWalk(levels[..n], kind, st)
              case Err(e) => Err(e)
              case Ok(mid) => PropertyWalk(levels[n..], kind, mid)
    decreases n
  {
    if n > 0 {
      assert levels[..n][0] == levels[0] && levels[..n][1..] == levels[1..][..n - 1];
      match LevelPass(levels[0], kind, st)
      case Err(_) =>
      case Ok(next) =>
        PropertyWalkSplits(levels[1..], kind, next, n - 1);
        assert levels[1..][n - 1..] == levels[n..];
    } else {
      assert levels[n..] == levels;
    }
  }

  /**
    Shadowing: whatever the first `n` levels of the chain (the more derived
    ones) collect is a prefix of the result, and every entry a later (base)
    level adds holds a key those levels had not claimed; for a property
    without a '.' that key is its name.
   */
  lemma ShadowedByDerivedLevels(t: TypeInfo, kind: MemberKind, n: nat)
    requires CollectProperties(t, kind).Ok? && n <= |Levels(Some(t))|
    ensures PropertyWalk(Levels(Some(t))[..n], kind, Unclaimed).Ok?
    ensures var derived := PropertyWalk(Levels(Some(t))[..n], kind, Unclaimed).value;
            var all := CollectProperties(t, kind).value;
            && derived.properties <= all.properties && |all.keys| == |all.properties|
            && forall i :: |derived.properties| <= i < |all.properties| ==>
                 && all.keys[i] !in derived.claimed
                 && (!IsExplicitlyImplemented(all.properties[i]) ==> all.properties[i].name !in derived.claimed)
  {
    var levels := Levels(Some(t));
    PropertyWalkSplits(levels, kind, Unclaimed, n);
    PropertyWalkKeepsClaims(levels[..n], kind, Unclaimed);
    var derived := PropertyWalk(levels[..n], kind, Unclaimed).value;
    PropertyWalkKeepsClaims(levels[n..], kind, derived);
  }

  /**
    Shadowing survives the indexer filter: the returned properties are the
    non-indexers the first `n` levels collect, in their order, followed by the
    non-indexers the later levels add, in theirs.
   */
  lemma ResolvedPropertiesKeepLevelOrder(t: TypeInfo, kind: MemberKind, n: nat)
    requires Resolve(t, kind).Ok? && n <= |Levels(Some(t))|
    ensures PropertyWalk(Levels(Some(t))[..n], kind, Unclaimed).Ok?
    ensures var derived := PropertyWalk(Levels(Some(t))[..n], kind, Unclaimed).value.properties;
            var all := CollectProperties(t, kind).value.properties;
            && derived <= all
            && Resolve(t, kind).value.properties == WithoutIndexers(derived) + WithoutIndexers(all[|derived|..])
            && WithoutIndexers(derived) <= Resolve(t, kind).value.properties
  {
    ShadowedByDerivedLevels(t, kind, n);
    var derived := PropertyWalk(Levels(Some(t))[..n], kind, Unclaimed).value.properties;
    var all := CollectProperties(t, kind).value.properties;
    assert all == derived + all[|derived|..];
    WithoutIndexersAppend(derived, all[|derived|..]);
  }

  /** Every level's property that the normal pass may accept has its name claimed by the end of the walk. */
  lemma {:induction false} PropertyWalkClaimsVisibleNames(levels: seq<TypeInfo>, kind: MemberKind, st: Collected)
    requires ClaimInv(st)
    ensures PropertyWalk(levels, kind, st).Ok? ==>
              forall k, p :: 0 <= k < |levels| && p in levels[k].properties
                             && !IsExplicitlyImplemented(p) && HasPropertyVisibility(kind, p) ==>
                p.name in PropertyWalk(levels, kind, st).value.claimed
    decreases |levels|
  {
    if levels != [] && PropertyWalk(levels, kind, st).Ok? {
      var level := levels[0];
      var afterNormal := NormalPass(kind, level.properties, st);
      NormalFoldClaimsEligible(kind, level.properties, st);
      LevelPassKeepsClaims(level, kind, st);
      NormalFoldKeepsClaims(kind, level.properties, st);
      ExplicitFoldKeepsClaims(level.properties, afterNormal);
      var afterExplicit := ExplicitPass(kind, level.properties, afterNormal);
      InterfaceFoldKeepsClaims(level, level.interfaces, afterExplicit);
      var next := LevelPass(level, kind, st).value;
      PropertyWalkClaimsVisibleNames(levels[1..], kind, next);
      PropertyWalkKeepsClaims(levels[1..], kind, next);
      var r := PropertyWalk(levels, kind, st).value;
      forall k, p | 0 <= k < |levels| && p in levels[k].properties && !IsExplicitlyImplemented(p) && HasPropertyVisibility(kind, p)
        ensures p.name in r.claimed
      {
        if k > 0 {
          assert p in levels[1..][k - 1].properties;
        }
      }
    }
  }

  /**
    Every visible property without a '.' on any level of the chain is
    represented in the result by an entry that claimed its name: it is
    either returned itself or hidden by a more derived level's entry.
   */
  lemma EveryVisibleNameIsClaimed(t: TypeInfo, kind: MemberKind)
    requires CollectProperties(t, kind).Ok?
    ensures var all := CollectProperties(t, kind).value;
            forall level, p :: level in Levels(Some(t)) && p in level.properties
                               && !IsExplicitlyImplemented(p) && HasPropertyVisibility(kind, p) ==>
              p.name in all.keys
  {
    var levels := Levels(Some(t));
    PropertyWalkClaimsVisibleNames(levels, kind, Unclaimed);
    PropertyWalkKeepsClaims(levels, kind, Unclaimed);
    var all := CollectProperties(t, kind).value;
    forall level, p | level in levels && p in level.properties && !IsExplicitlyImplemented(p) && HasPropertyVisibility(kind, p)
      ensures p.name in all.keys
    {
      var k :| 0 <= k < |levels| && levels[k] == level;
    }
  }

  // ----- No flag set -----

  lemma {:induction false} WalkWithoutFlagsOverClasses(levels: seq<TypeInfo>, st: Collected)
    requires forall level :: level in levels ==> !level.isInterface
    ensures PropertyWalk(levels, NoFlags, st) == Ok(st)
    decreases |levels|
  {
    if levels != [] {
      assert levels[0] in levels;
      assert LevelPass(levels[0], NoFlags, st) == Ok(st);
      WalkWithoutFlagsOverClasses(levels[1..], st);
    }
  }

  /** With no flag set, a well-formed class resolves to no properties, no fields and no members. */
  lemma EmptySelectionResolvesNothing(t: TypeInfo)
    requires WellFormed(t) && !t.isInterface
    ensures Resolve(t, NoFlags) == Ok(Resolved([], [], []))
  {
    ClassLevelsAreClasses(t);
    WalkWithoutFlagsOverClasses(Levels(Some(t)), Unclaimed);
    FieldWalkNeedsVisibilityFlag(Levels(Some(t)), NoFlags, NoFields);
  }
}
