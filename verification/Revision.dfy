/** The regression gate (situc/revision.py): every capability difference between two revisions. */
module Revision {
  import opened Prelude
  import opened Capability

  datatype Kind = Weakened | Strengthened | MovedOnly | Added | Removed

  datatype Change =
    | Gone(path: string)
    | New(path: string)
    | Differs(path: string, axis: Axis, was: Value, now: Value, kind: Kind)
  {
    predicate IsRegression() {
      Gone? || (Differs? && kind == Weakened)
    }
  }

  /** The resolved entries of a schema, by path. */
  type Entries = map<string, Vector>

  predicate AllOk(entries: Entries) {
    forall p <- entries :: entries[p].Ok()
  }

  const BITS_PER_BYTE: nat := 8

  /** `_worst`, in bits. */
  function Worst(v: Value): nat
    requires v.params != []
  {
    match v.params[|v.params| - 1]
    case Plain(n) => n * BITS_PER_BYTE
    case Bits(n) => n
    case Word(_) => 0
  }

  /** `_parameter_change` */
  function ParameterChange(axis: Axis, was: Value, now: Value): Kind
    requires Valid(axis, was) && Valid(axis, now)
  {
    if axis == Align && was.params != [] && now.params != [] then
      if IsAtLeast(axis, now, was) && !IsAtLeast(axis, was, now) then Strengthened
      else if IsAtLeast(axis, was, now) && !IsAtLeast(axis, now, was) then Weakened
      else MovedOnly
    else if axis == Size && was.params != [] && now.params != [] then
      if Worst(now) > Worst(was) then Weakened
      else if Worst(now) < Worst(was) then Strengthened
      else MovedOnly
    else MovedOnly
  }

  /** Worst cases are compared in bits, whatever they are written in: so many bytes are eight times as many bits. */
  lemma WorstIs(base: string, ps: seq<Param>, n: nat)
    ensures Worst(Value(base, ps + [Plain(n)])) == Worst(Value(base, ps + [Bits(8 * n)])) == 8 * n
    ensures forall text :: Worst(Value(base, ps + [Word(text)])) == 0
  {
  }

  function KindOf(axis: Axis, was: Value, now: Value): Kind
    requires Valid(axis, was) && Valid(axis, now)
  {
    if Rank(axis, now) > Rank(axis, was) then Weakened
    else if Rank(axis, now) < Rank(axis, was) then Strengthened
    else ParameterChange(axis, was, now)
  }

  function On(entries: Entries, path: string, axis: Axis): (v: Value)
    requires path in entries && AllOk(entries)
    ensures Valid(axis, v)
  {
    GetValid(entries[path], axis);
    entries[path].Get(axis)
  }

  /** The changes the report is made of. */
  predicate Reports(before: Entries, after: Entries, c: Change)
    requires AllOk(before) && AllOk(after)
  {
    match c
    case Gone(path) => path in before && path !in after
    case New(path) => path in after && path !in before
    case Differs(path, axis, was, now, kind) =>
      path in before && path in after && was == On(before, path, axis) && now == On(after, path, axis) && was != now
      && kind == KindOf(axis, was, now)
  }

  /** Is the change of a kind the first loops have made, or at a path this one has reached? */
  predicate Made(before: Entries, after: Entries, c: Change, reached: seq<string>, now: nat)
    requires AllOk(before) && AllOk(after)
  {
    var turn := if c.Gone? then 0 else if c.New? then 1 else 2;
    Reports(before, after, c) && (turn < now || (turn == now && c.path in reached))
  }

  /** The loop over the paths that are gone. */
  method Removals(before: Entries, after: Entries, paths: seq<string>) returns (changes: seq<Change>)
    requires AllOk(before) && AllOk(after)
    ensures forall c :: c in changes <==> Made(before, after, c, paths, 0)
  {
    hide On, KindOf, AllOk;
    changes := [];
    for i := 0 to |paths|
      invariant forall c :: c in changes <==> Made(before, after, c, paths[..i], 0)
    {
      assert paths[..i + 1] == paths[..i] + [paths[i]];
      if paths[i] in before && paths[i] !in after { changes := changes + [Gone(paths[i])]; }
    }
    assert paths[..|paths|] == paths;
  }

  /** The loop over the paths that are new. */
  method Additions(before: Entries, after: Entries, paths: seq<string>, so: seq<Change>) returns (changes: seq<Change>)
    requires AllOk(before) && AllOk(after)
    requires forall c :: c in so <==> Made(before, after, c, [], 1)
    ensures forall c :: c in changes <==> Made(before, after, c, paths, 1)
  {
    hide On, KindOf, AllOk;
    changes := so;
    for i := 0 to |paths|
      invariant forall c :: c in changes <==> Made(before, after, c, paths[..i], 1)
    {
      assert paths[..i + 1] == paths[..i] + [paths[i]];
      if paths[i] in after && paths[i] !in before { changes := changes + [New(paths[i])]; }
    }
    assert paths[..|paths|] == paths;
  }

  /** `compare`, over the paths in the order they are sorted into. */
  method Compare(before: Entries, after: Entries, paths: seq<string>) returns (changes: seq<Change>)
    requires AllOk(before) && AllOk(after)
    requires forall p :: p in paths <==> p in before || p in after
    ensures forall c :: c in changes <==> Reports(before, after, c)
  {
    hide On, KindOf, AllOk;
    var gone := Removals(before, after, paths);
    changes := Additions(before, after, paths, gone);
    for i := 0 to |paths|
      invariant forall c :: c in changes <==> Made(before, after, c, paths[..i], 2)
    {
      assert paths[..i + 1] == paths[..i] + [paths[i]];
      if paths[i] in before && paths[i] in after {
        var more := Differences(before, after, paths[i]);
        changes := changes + more;
      }
    }
    assert paths[..|paths|] == paths;
  }

  /** The loop over the axes of one path. */
  method Differences(before: Entries, after: Entries, path: string) returns (changes: seq<Change>)
    requires AllOk(before) && AllOk(after) && path in before && path in after
    ensures forall c :: c in changes <==> c.Differs? && c.path == path && Reports(before, after, c)
  {
    hide Valid, KindOf, AllOk, Domain, IndexOf, Find;
    changes := [];
    for i := 0 to |AXES|
      invariant forall c :: c in changes <==>
                  c.Differs? && c.path == path && Reports(before, after, c) && c.axis in AXES[..i]
    {
      var axis := AXES[i];
      var was, now := On(before, path, axis), On(after, path, axis);
      assert AXES[..i + 1] == AXES[..i] + [axis];
      if was != now { changes := changes + [Differs(path, axis, was, now, KindOf(axis, was, now))]; }
    }
    assert AXES[..|AXES|] == AXES;
    forall axis: Axis ensures axis in AXES { Listed(axis); }
  }

  // ----- the gate

  /** The worst case a size admits did not grow within one base. */
  predicate NoLarger(axis: Axis, was: Value, now: Value)
    requires Valid(axis, was) && Valid(axis, now)
  {
    axis == Size && Rank(axis, was) == Rank(axis, now) && was.params != [] && now.params != [] ==> Worst(now) <= Worst(was)
  }

  lemma {:induction false} NotWeakenedIff(axis: Axis, was: Value, now: Value)
    requires Valid(axis, was) && Valid(axis, now)
    ensures (was == now || KindOf(axis, was, now) != Weakened) <==> IsAtLeast(axis, now, was) && NoLarger(axis, was, now)
  {
    hide Domain, IndexOf;
  }

  /** Every caller of the old revision finds its path in the new one, at least as capable on every
      axis and no larger. */
  ghost predicate Serves(before: Entries, after: Entries)
    requires AllOk(before) && AllOk(after)
  {
    forall path, axis :: path in before ==> ServesOn(before, after, path, axis)
  }

  predicate ServesOn(before: Entries, after: Entries, path: string, axis: Axis)
    requires AllOk(before) && AllOk(after) && path in before
  {
    path in after && IsAtLeast(axis, On(after, path, axis), On(before, path, axis))
    && NoLarger(axis, On(before, path, axis), On(after, path, axis))
  }

  /** The report holds no regression exactly when the new revision serves every caller of the old. */
  lemma {:induction false} GateIff(before: Entries, after: Entries)
    requires AllOk(before) && AllOk(after)
    ensures (forall c :: Reports(before, after, c) ==> !c.IsRegression()) <==> Serves(before, after)
  {
    hide Valid, KindOf, IsAtLeast, NoLarger, On, AllOk;
    if forall c :: Reports(before, after, c) ==> !c.IsRegression() {
      forall path, axis | path in before ensures ServesOn(before, after, path, axis) {
        assert Reports(before, after, Gone(path)) <==> path !in after;
        var was, now := On(before, path, axis), On(after, path, axis);
        NotWeakenedIff(axis, was, now);
        if was != now { assert Reports(before, after, Differs(path, axis, was, now, KindOf(axis, was, now))); }
      }
    }
    if Serves(before, after) {
      forall c | Reports(before, after, c) ensures !c.IsRegression() {
        assert c.path in before ==> ServesOn(before, after, c.path, Size);
        if c.Differs? {
          assert ServesOn(before, after, c.path, c.axis);
          NotWeakenedIff(c.axis, c.was, c.now);
        }
      }
    }
  }

  // ----- the other way round

  /** The same difference, read from the new revision to the old. */
  function Reversed(c: Change): Change {
    match c
    case Gone(p) => New(p)
    case New(p) => Gone(p)
    case Differs(p, axis, was, now, kind) =>
      Differs(p, axis, now, was, match kind case Weakened => Strengthened case Strengthened => Weakened case other => other)
  }

  lemma {:induction false} KindReversed(axis: Axis, was: Value, now: Value)
    requires Valid(axis, was) && Valid(axis, now)
    ensures KindOf(axis, now, was) == (match KindOf(axis, was, now)
                                       case Weakened => Strengthened
                                       case Strengthened => Weakened
                                       case other => other)
  {
    hide Domain, IndexOf;
  }

  /** Swapping the revisions reverses every change and adds none. */
  lemma {:induction false} SwapReverses(before: Entries, after: Entries, c: Change)
    requires AllOk(before) && AllOk(after)
    ensures Reversed(Reversed(c)) == c && (Reports(after, before, Reversed(c)) <==> Reports(before, after, c))
  {
    hide Valid, KindOf;
    if c.Differs? && c.path in before && c.path in after {
      KindReversed(c.axis, On(before, c.path, c.axis), On(after, c.path, c.axis));
    }
  }
}
