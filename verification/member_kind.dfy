/**
  The selection flags a caller combines to say which members it wants
  (`MemberKind` in Reflectify, `MemberSelection` in Reflectorator).
 */
module MemberKinds {

  datatype Flag = Public | Internal | ExplicitlyImplemented | DefaultInterfaceProperties

  /** A combination of flags; the empty set is the value with no flag set. */
  type MemberKind = set<Flag>

  /** The selection with no flag set. */
  const NoFlags: MemberKind := {}

  /** The numeric value each flag has in the enumeration. */
  function FlagValue(f: Flag): nat {
    match f
    case Public => 1
    case Internal => 2
    case ExplicitlyImplemented => 4
    case DefaultInterfaceProperties => 8
  }

  /** Whether bit `b` (0 to 3) of `value` is set. */
  predicate BitSet(value: nat, b: nat) {
    (value / Pow2(b)) % 2 == 1
  }

  function Pow2(b: nat): (p: nat)
    ensures p >= 1
  {
    if b == 0 then 1 else 2 * Pow2(b - 1)
  }

  function FlagBit(f: Flag): (b: nat)
    ensures Pow2(b) == FlagValue(f)
  {
    match f
    case Public => 0
    case Internal => 1
    case ExplicitlyImplemented => 2
    case DefaultInterfaceProperties => 3
  }

  /** The enumeration value of a combination: the bitwise union of its flags. */
  function ToValue(kind: MemberKind): (value: nat)
    ensures value < 16
  {
    (if Public in kind then 1 else 0) + (if Internal in kind then 2 else 0)
    + (if ExplicitlyImplemented in kind then 4 else 0) + (if DefaultInterfaceProperties in kind then 8 else 0)
  }

  /**
    The combination an enumeration value in range stands for: the flags whose
    bit is set. Every value from 0 to 15 is the value of the combination it
    decodes to.
   */
  function FromValue(value: nat): (kind: MemberKind)
    requires value < 16
    ensures ToValue(kind) == value
  {
    assert Pow2(1) == 2 && Pow2(2) == 4 && Pow2(3) == 8;
    set f: Flag | BitSet(value, FlagBit(f))
  }

  /** Testing a flag on the numeric value (what `HasFlag` does) is membership in the combination. */
  lemma HasFlagIsMembership(kind: MemberKind, f: Flag)
    ensures BitSet(ToValue(kind), FlagBit(f)) <==> f in kind
  {
    var v := ToValue(kind);
    assert Pow2(1) == 2 && Pow2(2) == 4 && Pow2(3) == 8;
  }

  /** The four flags are independent bits: a combination survives the trip through its numeric value. */
  lemma ValueRoundTrip(kind: MemberKind)
    ensures FromValue(ToValue(kind)) == kind
  {
    forall f ensures f in FromValue(ToValue(kind)) <==> f in kind {
      HasFlagIsMembership(kind, f);
    }
  }
}
