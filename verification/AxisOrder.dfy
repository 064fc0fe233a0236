/** The weakening order each axis has (situc/capability.py). */
module AxisOrder {
  import opened Prelude
  import opened Capability

  /** An axis has these values and no others, and each is strictly stronger than all after it. */
  ghost predicate Weakens(axis: Axis, names: seq<string>) {
    && (forall b :: b in Domain(axis) <==> b in names)
    && (forall i :: 0 <= i < |names| ==> Valid(axis, Value(names[i], [])))
    && forall i, j :: 0 <= i < j < |names| ==>
         IsAtLeast(axis, Value(names[i], []), Value(names[j], [])) && !IsAtLeast(axis, Value(names[j], []), Value(names[i], []))
  }

  lemma {:induction false} IndexIs(s: seq<string>, k: nat)
    requires k < |s| && forall i, j :: 0 <= i < j < |s| ==> s[i] != s[j]
    ensures IndexOf(s, s[k]) == k
  {
    if k > 0 { IndexIs(s[1..], k - 1); }
  }

  /** A domain without repetitions weakens along its names. */
  lemma {:induction false} DomainWeakens(axis: Axis, names: seq<string>)
    requires Domain(axis) == names && forall i, j :: 0 <= i < j < |names| ==> names[i] != names[j]
    ensures Weakens(axis, names)
  {
    hide IndexOf;
    forall i | 0 <= i < |names| ensures Rank(axis, Value(names[i], [])) == i { IndexIs(names, i); }
  }

  /** A known size is better than a bounded one and that than none; a place is better the less has to be read
      to find it; access at random is better than in sequence; a write in place is better than one that moves
      or rewrites what follows, and any better than none. */
  lemma {:induction false} LayoutOrder()
    ensures Weakens(Size, ["Fixed", "Bounded", "Unbounded"])
    ensures Weakens(Offset, ["AbsoluteStatic", "FrameStatic", "MessageStatic", "Dynamic", "DataPlaced", "Scanned"])
    ensures Weakens(Access, ["Random", "Sequential"])
    ensures Weakens(Mutate, ["InPlaceFixed", "InPlaceSlack", "Shifting", "RewriteRequired", "Immutable"])
  {
    hide Weakens;
    DomainWeakens(Size, ["Fixed", "Bounded", "Unbounded"]);
    DomainWeakens(Offset, ["AbsoluteStatic", "FrameStatic", "MessageStatic", "Dynamic", "DataPlaced", "Scanned"]);
    DomainWeakens(Access, ["Random", "Sequential"]);
    DomainWeakens(Mutate, ["InPlaceFixed", "InPlaceSlack", "Shifting", "RewriteRequired", "Immutable"]);
  }

  /** So of addresses, alignment, representation, atomicity and canonical form. */
  lemma {:induction false} MemoryOrder()
    ensures Weakens(Address, ["Stable", "FrameStable", "Unstable"])
    ensures Weakens(Align, ["Aligned", "Unaligned"])
    ensures Weakens(Repr, ["MemoryIdentical", "ValueConverted", "TextConverted", "ConditionallyConverted"])
    ensures Weakens(Atomic, ["AtomicWord", "NonAtomic"])
    ensures Weakens(Canonical, ["Canonical", "CanonicalGiven", "NonCanonical"])
  {
    hide Weakens;
    DomainWeakens(Address, ["Stable", "FrameStable", "Unstable"]);
    DomainWeakens(Align, ["Aligned", "Unaligned"]);
    DomainWeakens(Repr, ["MemoryIdentical", "ValueConverted", "TextConverted", "ConditionallyConverted"]);
    DomainWeakens(Atomic, ["AtomicWord", "NonAtomic"]);
    DomainWeakens(Canonical, ["Canonical", "CanonicalGiven", "NonCanonical"]);
  }

  /** And of when a value is known, what covers it, who may see it and what touching it does. */
  lemma {:induction false} UseOrder()
    ensures Weakens(Stage, ["CompileTime", "ParseTime", "TransformTime", "VerifyGated"])
    ensures Weakens(Auth, ["Uncovered", "Covered"])
    ensures Weakens(Secrecy, ["Public", "Secret"])
    ensures Weakens(Effect, ["Pure", "EffectOnRead", "EffectOnWrite", "EffectBoth"])
  {
    hide Weakens;
    DomainWeakens(Stage, ["CompileTime", "ParseTime", "TransformTime", "VerifyGated"]);
    DomainWeakens(Auth, ["Uncovered", "Covered"]);
    DomainWeakens(Secrecy, ["Public", "Secret"]);
    DomainWeakens(Effect, ["Pure", "EffectOnRead", "EffectOnWrite", "EffectBoth"]);
  }
}
