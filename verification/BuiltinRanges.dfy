/** What the builtins' ranges give up (situc/expr.py, `_call_interval`). */
module BuiltinRanges {
  import opened Prelude
  import opened Bits
  import opened Intervals
  import opened Solver
  import opened Exactness

  predicate AllFormed(held: seq<Interval>) {
    forall i :: 0 <= i < |held| ==> Formed(held[i])
  }

  /** A call is refused exactly where it counts the bits of what may be negative or has no end, and has a
      range exactly where its arguments have lower ends and, for `align_up`, the alignment is one positive
      number and what is aligned is not negative. */
  lemma KnownCallIff(fn: string, held: seq<Interval>)
    requires fn in VALUE_BUILTINS && |held| == VALUE_BUILTINS[fn] && AllFormed(held)
    ensures BuiltinInterval(fn, held).Err? <==>
            fn == "popcount" && held[0].loKnown && (held[0].lo < 0 || held[0].hi.None?)
    ensures BuiltinInterval(fn, held).Ok? ==>
              (BuiltinInterval(fn, held).value.loKnown <==>
               && (forall i :: 0 <= i < |held| ==> held[i].loKnown)
               && (fn == "align_up" ==> held[1].IsPoint() && held[1].lo > 0 && held[0].lo >= 0))
  {
    hide RoundUp, BitLength;
  }

  /** `min` and `max` have no upper end exactly where one of their arguments has none: for `max` that is all
      there is to say, and for `min` the bound its other argument has is given up. */
  lemma OpenIff(fn: string, a: Interval, b: Interval, v: int)
    requires fn in {"min", "max"} && a.loKnown && b.loKnown
    ensures BuiltinInterval(fn, [a, b]).Ok?
    ensures BuiltinInterval(fn, [a, b]).value.hi.None? <==> a.hi.None? || b.hi.None?
    ensures fn == "min" && BuiltinReaches(fn, [a, b], v) ==>
              (a.hi.Some? ==> v <= a.hi.value) && (b.hi.Some? ==> v <= b.hi.value)
  {
    if BuiltinReaches(fn, [a, b], v) {
      var vs: seq<int> :| |vs| == 2 && (forall i :: 0 <= i < |vs| ==> [a, b][i].Contains(vs[i])) && Builtin(fn, vs) == Ok(v);
      assert [a, b][0].Contains(vs[0]) && [a, b][1].Contains(vs[1]);
    }
  }

  /** A count is one a value in range has. */
  lemma CountReached(a: Interval, n: int)
    ensures BuiltinReaches("popcount", [a], n) <==> exists v :: a.Contains(v) && BitCount(v) == n
  {
    hide BitCount;
    if BuiltinReaches("popcount", [a], n) {
      var vs: seq<int> :| |vs| == 1 && (forall i :: 0 <= i < |vs| ==> [a][i].Contains(vs[i])) && Builtin("popcount", vs) == Ok(n);
      assert [a][0].Contains(vs[0]);
    }
    if v :| a.Contains(v) && BitCount(v) == n { ReachedWith("popcount", [a], [v]); }
  }

  ghost predicate IsPower(v: int) {
    exists k: nat :: v == Pow2(k)
  }

  lemma PowerHalved(v: nat)
    requires v > 1
    ensures IsPower(v) <==> v % 2 == 0 && IsPower(v / 2)
  {
    if IsPower(v) {
      var k: nat :| v == Pow2(k);
      assert v == 2 * Pow2(k - 1) && v / 2 == Pow2(k - 1);
    }
    if v % 2 == 0 && IsPower(v / 2) {
      var k: nat :| v / 2 == Pow2(k);
      assert v == Pow2(k + 1);
    }
  }

  lemma {:induction false} OneBitIff(v: nat)
    ensures BitCount(v) == 1 <==> IsPower(v)
  {
    if v == 1 {
      assert v == Pow2(0);
    } else if v > 1 {
      PowerHalved(v);
      hide IsPower;
      OneBitIff(v / 2);
      BitCountBound(v / 2);
    }
  }

  /** Only all ones have as many as they have bits. */
  lemma {:induction false} FullIff(v: nat)
    ensures BitCount(v) == BitLength(v) <==> v == Pow2(BitLength(v)) - 1
  {
    if v > 0 {
      FullIff(v / 2);
      BitCountBound(v / 2);
    }
  }

  /** The most a value in range can count is the bits of the largest, which only the largest can. */
  lemma {:induction false} MostIff(v: nat, hi: nat)
    requires v <= hi
    ensures BitCount(v) == BitLength(hi) <==> v == hi == Pow2(BitLength(hi)) - 1
  {
    hide Pow2, BitCount, BitLength;
    BitCountBound(v);
    BitLengthMonotone(v, hi);
    FullIff(v);
    BitLengthIs(hi);
  }

  /** The range of a count starts at 0 exactly where 0 may be counted and at 1 otherwise. Its lower end is
      some value's count exactly where 0 or a power of two is in range, and its upper end, the bits the largest
      takes, exactly where the largest is all ones. */
  lemma {:induction false} CountIff(a: Interval)
    requires a.loKnown && 0 <= a.lo && a.hi.Some? && a.Inhabited()
    ensures BuiltinInterval("popcount", [a]).Ok?
    ensures var r := BuiltinInterval("popcount", [a]).value;
            && r.loKnown && r.hi.Some? && r.hi.value >= 0 && r.lo == (if a.Contains(0) then 0 else 1)
            && a.hi.value < Pow2(r.hi.value) && (r.hi.value > 0 ==> Pow2(r.hi.value - 1) <= a.hi.value)
            && (BuiltinReaches("popcount", [a], r.lo) <==> a.Contains(0) || exists p :: IsPower(p) && a.Contains(p))
            && (BuiltinReaches("popcount", [a], r.hi.value) <==> IsPower(a.hi.value + 1))
  {
    hide Pow2, IsPower, BitCount, BitLength, BuiltinReaches;
    var hi, r := a.hi.value, BuiltinInterval("popcount", [a]).value;
    BitLengthIs(hi);
    NoLength();
    CountReached(a, r.lo);
    CountReached(a, r.hi.value);
    LeastIff(a);
    MostReached(a);
  }

  lemma NoLength()
    ensures BitLength(0) == 0
  {
  }

  lemma {:induction false} LeastIff(a: Interval)
    requires a.loKnown && 0 <= a.lo && a.hi.Some? && a.Inhabited()
    ensures a.lo == 0 ==> exists v :: a.Contains(v) && BitCount(v) == 0
    ensures (exists v :: a.Contains(v) && BitCount(v) == 1) <==> exists p :: IsPower(p) && a.Contains(p)
  {
    hide IsPower, BitCount;
    NoBits();
    if a.lo == 0 { assert a.Contains(0); }
    if v :| a.Contains(v) && BitCount(v) == 1 { OneBitIff(v); }
    if p :| IsPower(p) && a.Contains(p) { OneBitIff(p); }
  }

  lemma {:induction false} MostReached(a: Interval)
    requires a.loKnown && 0 <= a.lo && a.hi.Some? && a.Inhabited()
    ensures (exists v :: a.Contains(v) && BitCount(v) == BitLength(a.hi.value)) <==> IsPower(a.hi.value + 1)
  {
    hide Pow2, BitCount, BitLength;
    var hi := a.hi.value;
    if v :| a.Contains(v) && BitCount(v) == BitLength(hi) { MostIff(v, hi); }
    if k: nat :| hi + 1 == Pow2(k) {
      AllOnes(k);
      assert a.Contains(hi);
    }
  }
}
