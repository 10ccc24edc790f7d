/**
  Facts about the field walk: returned fields have distinct names, each
  matches a selected visibility flag and comes from a level of the chain;
  a derived level's field hides a base field of the same name; and every
  visible field is represented.
 */
module Fields {
  import opened Wrappers
  import opened Metadata
  import opened MemberKinds
  import opened Resolution

  ghost predicate FieldInv(kind: MemberKind, st: FieldsCollected) {
    && (forall k :: k in st.claimed <==> exists i :: 0 <= i < |st.fields| && st.fields[i].name == k)
    && (forall i, j :: 0 <= i < j < |st.fields| ==> st.fields[i].name != st.fields[j].name)
    && (forall i :: 0 <= i < |st.fields| ==> HasFieldVisibility(kind, st.fields[i]))
  }

  /** A field declared on one of the levels. */
  ghost predicate DeclaredOn(f: FieldInfo, levels: seq<TypeInfo>) {
    exists k :: 0 <= k < |levels| && f in levels[k].fields
  }

  lemma {:induction false} FieldFoldKeepsInv(kind: MemberKind, fs: seq<FieldInfo>, st: FieldsCollected)
    requires FieldInv(kind, st)
    ensures var r := FieldFold(kind, fs, st);
            && FieldInv(kind, r) && st.fields <= r.fields && st.claimed <= r.claimed
            && (forall i :: |st.fields| <= i < |r.fields| ==> r.fields[i] in fs)
            && (forall f :: f in fs && HasFieldVisibility(kind, f) ==> f.name in r.claimed)
    decreases |fs|
  {
    if fs != [] {
      var f := fs[0];
      var accept := f.name !in st.claimed && HasFieldVisibility(kind, f);
      var next := if accept then FieldsCollected(st.claimed + {f.name}, st.fields + [f]) else st;
      if accept {
        forall i, j | 0 <= i < j < |next.fields| ensures next.fields[i].name != next.fields[j].name {
          if j == |st.fields| {
            assert st.fields[i].name in st.claimed;
          }
        }
        assert next.fields[|st.fields|].name == f.name;
        forall k ensures k in next.claimed <==> exists i :: 0 <= i < |next.fields| && next.fields[i].name == k {
          if k in st.claimed {
            var i :| 0 <= i < |st.fields| && st.fields[i].name == k;
            assert next.fields[i].name == k;
          }
          if exists i :: 0 <= i < |next.fields| && next.fields[i].name == k {
            var i :| 0 <= i < |next.fields| && next.fields[i].name == k;
            if i < |st.fields| {
              assert st.fields[i].name == k;
            }
          }
        }
      }
      FieldFoldKeepsInv(kind, fs[1..], next);
    }
  }

  lemma {:induction false} FieldWalkKeepsInv(levels: seq<TypeInfo>, kind: MemberKind, st: FieldsCollected)
    requires FieldInv(kind, st)
    ensures var r := FieldWalk(levels, kind, st);
            && FieldInv(kind, r) && st.fields <= r.fields && st.claimed <= r.claimed
            && (forall i :: |st.fields| <= i < |r.fields| ==> DeclaredOn(r.fields[i], levels))
            && (forall k, f :: 0 <= k < |levels| && f in levels[k].fields && HasFieldVisibility(kind, f) ==> f.name in r.claimed)
    decreases |levels|
  {
    if levels != [] {
      FieldFoldKeepsInv(kind, levels[0].fields, st);
      var next := FieldFold(kind, levels[0].fields, st);
      FieldWalkKeepsInv(levels[1..], kind, next);
      var r := FieldWalk(levels, kind, st);
      forall i | |st.fields| <= i < |r.fields| ensures DeclaredOn(r.fields[i], levels) {
        if i < |next.fields| {
          assert r.fields[i] == next.fields[i];
          assert r.fields[i] in levels[0].fields;
        } else {
          var k :| 0 <= k < |levels[1..]| && r.fields[i] in levels[1..][k].fields;
          assert r.fields[i] in levels[k + 1].fields;
        }
      }
      forall k, f | 0 <= k < |levels| && f in levels[k].fields && HasFieldVisibility(kind, f) ensures f.name in r.claimed {
        if k > 0 {
          assert f in levels[1..][k - 1].fields;
        }
      }
    }
  }

  lemma {:induction false} FieldWalkSplits(levels: seq<TypeInfo>, kind: MemberKind, st: FieldsCollected, n: nat)
    requires n <= |levels|
    ensures FieldWalk(levels, kind, st) == FieldWalk(levels[n..], kind, FieldWalk(levels[..n], kind, st))
    decreases n
  {
    if n > 0 {
      assert levels[..n][0] == levels[0] && levels[..n][1..] == levels[1..][..n - 1];
      FieldWalkSplits(levels[1..], kind, FieldFold(kind, levels[0].fields, st), n - 1);
      assert levels[1..][n - 1..] == levels[n..];
    } else {
      assert levels[n..] == levels;
    }
  }

  /**
    `fs` has pairwise distinct names, each entry matches a selected `Public`
    or `Internal` flag and is declared on one of the levels, and every such
    field of the levels has its name among them.
   */
  ghost predicate UniqueVisibleFields(levels: seq<TypeInfo>, kind: MemberKind, fs: seq<FieldInfo>) {
    && (forall i, j :: 0 <= i < j < |fs| ==> fs[i].name != fs[j].name)
    && (forall i :: 0 <= i < |fs| ==> HasFieldVisibility(kind, fs[i]) && DeclaredOn(fs[i], levels))
    && (forall k, f :: 0 <= k < |levels| && f in levels[k].fields && HasFieldVisibility(kind, f) ==>
          exists i :: 0 <= i < |fs| && fs[i].name == f.name)
  }

  /** The field walk from scratch over any levels collects such fields. */
  lemma {:induction false} FieldWalkFromScratch(levels: seq<TypeInfo>, kind: MemberKind)
    ensures UniqueVisibleFields(levels, kind, FieldWalk(levels, kind, NoFields).fields)
  {
    FieldWalkKeepsInv(levels, kind, NoFields);
  }

  /** So do the fields the resolver returns for `t`, over its base chain. */
  lemma {:induction false} ResolvedFieldsAreUniqueAndVisible(t: TypeInfo, kind: MemberKind)
    ensures Resolve(t, kind).Ok? ==> UniqueVisibleFields(Levels(Some(t)), kind, Resolve(t, kind).value.fields)
  {
    FieldWalkFromScratch(Levels(Some(t)), kind);
  }

  /**
    Over any levels, what the first `n` of them collect is a prefix of what
    all of them collect, and no field a later level adds has a name the
    first `n` claimed.
   */
  lemma {:induction false} FieldWalkShadows(levels: seq<TypeInfo>, kind: MemberKind, n: nat)
    requires n <= |levels|
    ensures var derived := FieldWalk(levels[..n], kind, NoFields);
            var all := FieldWalk(levels, kind, NoFields);
            && derived.fields <= all.fields
            && forall i :: |derived.fields| <= i < |all.fields| ==> all.fields[i].name !in derived.claimed
  {
    FieldWalkSplits(levels, kind, NoFields, n);
    FieldWalkKeepsInv(levels[..n], kind, NoFields);
    var derived := FieldWalk(levels[..n], kind, NoFields);
    FieldWalkKeepsInv(levels[n..], kind, derived);
  }

  /**
    Fields are collected derived first: what the first `n` levels of the
    chain collect is a prefix of the result, and no field a later (base)
    level adds has a name those levels claimed.
   */
  lemma {:induction false} FieldsShadowedByDerivedLevels(t: TypeInfo, kind: MemberKind, n: nat)
    requires n <= |Levels(Some(t))|
    ensures var levels := Levels(Some(t));
            var derived := FieldWalk(levels[..n], kind, NoFields);
            var all := FieldWalk(levels, kind, NoFields);
            && derived.fields <= all.fields
            && forall i :: |derived.fields| <= i < |all.fields| ==> all.fields[i].name !in derived.claimed
  {
    FieldWalkShadows(Levels(Some(t)), kind, n);
  }

  // ----- No visibility flag -----

  /** Without `Public` and `Internal`, the field walk collects nothing. */
  lemma {:induction false} FieldWalkNeedsVisibilityFlag(levels: seq<TypeInfo>, kind: MemberKind, st: FieldsCollected)
    requires Flag.Public !in kind && Internal !in kind
    ensures FieldWalk(levels, kind, st) == st
    decreases |levels|
  {
    if levels != [] {
      FieldFoldNeedsVisibilityFlag(kind, levels[0].fields, st);
      FieldWalkNeedsVisibilityFlag(levels[1..], kind, st);
    }
  }

  /** Without `Public` and `Internal`, one level's fields add nothing. */
  lemma {:induction false} FieldFoldNeedsVisibilityFlag(kind: MemberKind, fs: seq<FieldInfo>, st: FieldsCollected)
    requires Flag.Public !in kind && Internal !in kind
    ensures FieldFold(kind, fs, st) == st
    decreases |fs|
  {
    if fs != [] {
      FieldFoldNeedsVisibilityFlag(kind, fs[1..], st);
    }
  }
}
