/** How tight the ranges are: which ends are attained, what is not known, and what is refused (situc/expr.py). */
module Exactness {
  import opened Prelude
  import opened Ast
  import opened Bits
  import opened Intervals
  import opened Solver

  // ----- what the operators are

  function Holds(op: BinaryOp, a: int, b: int): bool {
    Apply(op, a, b) == Some(1)
  }

  /** Comparisons answer 0 or 1; of less, same and greater exactly one holds, less is being short of by something, and
      the others are their opposites. And and or are of what is not zero. */
  lemma TestsAre(a: int, b: int)
    ensures forall op :: op in {Eq, Ne, Lt, Gt, Le, Ge, LogicalAnd, LogicalOr} ==>
              Apply(op, a, b) == Some(0) || Apply(op, a, b) == Some(1)
    ensures Holds(Lt, a, b) <==> b - a > 0
    ensures Holds(Eq, a, b) <==> b - a == 0
    ensures Holds(Gt, a, b) <==> Holds(Lt, b, a)
    ensures (Holds(Ne, a, b) <==> !Holds(Eq, a, b)) && (Holds(Ge, a, b) <==> !Holds(Lt, a, b)) && (Holds(Le, a, b) <==> !Holds(Gt, a, b))
    ensures Holds(LogicalAnd, a, b) <==> Holds(Ne, a, 0) && Holds(Ne, b, 0)
    ensures Holds(LogicalOr, a, b) <==> Holds(Ne, a, 0) || Holds(Ne, b, 0)
    ensures ApplyUnary(LogicalNot, a) == Apply(Eq, a, 0).value
  {
  }

  /** Adding and subtracting undo one another, and a product is one more of the same for one more. */
  lemma SumsAre(a: int, b: int)
    ensures Apply(Sub, Apply(Add, a, b).value, b) == Some(a) && Apply(Add, a, ApplyUnary(Negate, a)) == Some(0)
    ensures Apply(Sub, a, b) == Apply(Add, a, ApplyUnary(Negate, b)) && ApplyUnary(Complement, a) == ApplyUnary(Negate, a) - 1
    ensures Apply(Mul, a, 0) == Some(0) && Apply(Mul, a, b + 1) == Apply(Add, Apply(Mul, a, b).value, a)
  {
    MulDistributes(b, 1, a);
  }

  /** A quotient and a remainder make up the dividend, the remainder is short of the divisor and has the dividend's
      sign. */
  lemma QuotientIs(a: int, b: int)
    ensures (Apply(Div, a, b).None? <==> b == 0) && (Apply(Mod, a, b).None? <==> b == 0)
    ensures b != 0 ==>
            var q, r := Apply(Div, a, b).value, Apply(Mod, a, b).value;
            q * b + r == a && Abs(r) < Abs(b) && (r != 0 ==> (r < 0 <==> a < 0))
  {
    hide TruncDiv, TruncMod;
    if b != 0 { TruncDivIs(a, b); }
  }

  /** Shifting is by powers of two, and to the right downwards. */
  lemma ShiftsAre(a: int, n: int)
    ensures (Apply(Shl, a, n).None? <==> n < 0) && (Apply(Shr, a, n).None? <==> n < 0)
    ensures Apply(Shl, a, 0) == Some(a)
    ensures n >= 0 ==> Apply(Shl, a, n + 1).value == 2 * Apply(Shl, a, n).value
    ensures n >= 0 ==> var p := Apply(Shl, 1, n).value; p > 0 && Apply(Shr, a, n).value * p <= a < Apply(Shr, a, n).value * p + p
  {
    if n >= 0 {
      Doubled(n);
      hide Pow2;
      var p, q := Pow2(n), a / Pow2(n);
      assert a == q * p + a % p;
      MulAssociates(2, p, a);
    }
  }

  // ----- the ranges of operators

  ghost predicate Reaches(op: BinaryOp, a: Interval, b: Interval, v: int) {
    exists x, y :: a.Contains(x) && b.Contains(y) && Apply(op, x, y) == Some(v)
  }

  lemma Reached(op: BinaryOp, a: Interval, b: Interval, x: int, y: int)
    requires a.Contains(x) && b.Contains(y) && Apply(op, x, y).Some?
    ensures Reaches(op, a, b, Apply(op, x, y).value)
  {
  }

  ghost predicate ReachesAbove(op: BinaryOp, a: Interval, b: Interval, n: int) {
    exists v :: v >= n && Reaches(op, a, b, v)
  }

  ghost predicate ReachesBelow(op: BinaryOp, a: Interval, b: Interval, n: int) {
    exists v :: v <= n && Reaches(op, a, b, v)
  }

  lemma Above(op: BinaryOp, a: Interval, b: Interval, x: int, y: int, n: int)
    requires a.Contains(x) && b.Contains(y) && Apply(op, x, y).Some? && Apply(op, x, y).value >= n
    ensures ReachesAbove(op, a, b, n)
  {
    Reached(op, a, b, x, y);
  }

  /** Every end the range has is a value of the operator, and it lacks one only where the values go on for ever. */
  ghost predicate Sharp(op: BinaryOp, a: Interval, b: Interval, r: Interval) {
    && (if r.loKnown then Reaches(op, a, b, r.lo) else forall n :: ReachesBelow(op, a, b, n))
    && (if r.hi.Some? then Reaches(op, a, b, r.hi.value) else forall n :: ReachesAbove(op, a, b, n))
  }

  /** Do two ranges share a value, or one and the value after it? */
  predicate Share(a: Interval, b: Interval, more: nat) {
    var v := Max(a.lo, b.lo); a.Contains(v) && b.Contains(v) && a.Contains(v + more) && b.Contains(v + more)
  }

  /** Does the smaller range reach all the bits below the larger one's top bit? */
  predicate FillsBits(a: Interval, b: Interval) {
    a.hi.Some? && b.hi.Some? ==>
      && a.lo == b.lo == 0
      && (Max(a.hi.value, b.hi.value) > 0 ==>
            Min(a.hi.value, b.hi.value) >= Pow2(BitLength(Max(a.hi.value, b.hi.value)) - 1) - 1)
  }

  /** Operands whose range is exact. */
  predicate Spread(op: BinaryOp, a: Interval, b: Interval) {
    match op
    case Add => true
    case Sub => b.hi.Some? || a.hi.None?
    case Mul =>
      || (a.Bounded() && b.Bounded())
      || (a.NonNegative() && b.NonNegative() && a.hi != Some(0) && b.hi != Some(0))
    case Div => b.lo > 0 || (a.Bounded() && b.Bounded())
    case Mod => b.lo > 0 && (b.hi.Some? ==> a.lo < b.hi.value)
    case BitAnd => a.NonNegative() && b.NonNegative() && (a.lo == 0 || b.lo == 0) && Share(a, b, 0)
    case BitOr => a.NonNegative() && b.NonNegative() && Share(a, b, 0) && FillsBits(a, b)
    case BitXor => a.NonNegative() && b.NonNegative() && Share(a, b, 0) && FillsBits(a, b)
    case Shl => a.NonNegative() || a.Bounded()
    case Shr => a.NonNegative() || a.Bounded()
    case LogicalAnd => Share(a, b, 1) && a.Contains(0) && b.Contains(0)
    case LogicalOr => Share(a, b, 1) && a.Contains(0) && b.Contains(0)
    case _ => Share(a, b, 1)
  }

  lemma AddSharp(a: Interval, b: Interval)
    requires a.loKnown && b.loKnown && a.Inhabited() && b.Inhabited()
    ensures Sharp(Add, a, b, AddInterval(a, b))
  {
    Reached(Add, a, b, a.lo, b.lo);
    if a.hi.Some? && b.hi.Some? {
      Reached(Add, a, b, a.hi.value, b.hi.value);
    } else {
      forall n ensures ReachesAbove(Add, a, b, n) {
        if a.hi.None? { Above(Add, a, b, Max(a.lo, n - b.lo), b.lo, n); } else { Above(Add, a, b, a.lo, Max(b.lo, n - a.lo), n); }
      }
    }
  }

  lemma SubSharp(a: Interval, b: Interval)
    requires a.loKnown && b.loKnown && a.Inhabited() && b.Inhabited() && Spread(Sub, a, b)
    ensures Sharp(Sub, a, b, SubInterval(a, b))
  {
    if b.hi.Some? {
      Reached(Sub, a, b, a.lo, b.hi.value);
    } else {
      forall n ensures ReachesBelow(Sub, a, b, n) { Reached(Sub, a, b, a.lo, Max(b.lo, a.lo - n)); }
    }
    if a.hi.Some? && b.hi.Some? {
      Reached(Sub, a, b, a.hi.value, b.lo);
    } else {
      forall n ensures ReachesAbove(Sub, a, b, n) { Above(Sub, a, b, Max(a.lo, n + b.lo), b.lo, n); }
    }
  }

  lemma CornersSharp(op: BinaryOp, a: Interval, b: Interval)
    requires Exact(op) && Guarded(op, a, b) && a.Bounded() && a.Inhabited() && b.Bounded() && b.Inhabited()
    ensures Rule(op, a, b).Ok? && Sharp(op, a, b, Rule(op, a, b).value)
  {
    hide Rule, Apply, Guarded;
    var r, x, y, u, v := RuleTight(op, a, b);
    Reached(op, a, b, x, y);
    Reached(op, a, b, u, v);
  }

  lemma LargeProduct(x: int, y: int, n: int)
    requires x >= 1 && y >= 1 && (x >= n || y >= n)
    ensures x * y >= n
  {
    MulLess(1, y, x);
    MulLess(1, x, y);
  }

  lemma ProductAbove(a: Interval, b: Interval, n: int)
    requires a.NonNegative() && b.NonNegative() && a.Inhabited() && b.Inhabited() && a.hi != Some(0) && b.hi != Some(0)
    requires a.hi.None? || b.hi.None?
    ensures ReachesAbove(Mul, a, b, n)
  {
    var x := if a.hi.Some? then a.hi.value else Max(Max(a.lo, 1), n);
    var y := if b.hi.Some? then b.hi.value else Max(Max(b.lo, 1), n);
    LargeProduct(x, y, n);
    Above(Mul, a, b, x, y, n);
  }

  lemma MulSharp(a: Interval, b: Interval)
    requires a.loKnown && b.loKnown && a.Inhabited() && b.Inhabited() && Spread(Mul, a, b)
    ensures Sharp(Mul, a, b, MulInterval(a, b))
  {
    if a.Bounded() && b.Bounded() {
      CornersSharp(Mul, a, b);
    } else {
      hide ReachesAbove;
      Reached(Mul, a, b, a.lo, b.lo);
      forall n ensures ReachesAbove(Mul, a, b, n) { ProductAbove(a, b, n); }
    }
  }

  lemma DivSharp(a: Interval, b: Interval)
    requires a.loKnown && b.loKnown && a.Inhabited() && b.Inhabited() && Spread(Div, a, b) && Guarded(Div, a, b)
    ensures DivInterval(a, b).Ok? && Sharp(Div, a, b, DivInterval(a, b).value)
  {
    if a.Bounded() && b.Bounded() {
      CornersSharp(Div, a, b);
    } else {
      if b.hi.Some? {
        TruncIsFloor(a.lo, b.hi.value);
        Reached(Div, a, b, a.lo, b.hi.value);
      } else {
        var y := Max(b.lo, a.lo + 1);
        TruncIsFloor(a.lo, y);
        DivUnique(a.lo, y, 0);
        Reached(Div, a, b, a.lo, y);
      }
      if a.hi.Some? {
        TruncIsFloor(a.hi.value, b.lo);
        Reached(Div, a, b, a.hi.value, b.lo);
      } else {
        forall n ensures ReachesAbove(Div, a, b, n) {
          MulLess(0, Max(n, 0), b.lo);
          var x := Max(a.lo, Max(n, 0) * b.lo);
          TruncIsFloor(x, b.lo);
          DivMonotone(Max(n, 0) * b.lo, x, b.lo);
          DivUnique(Max(n, 0) * b.lo, b.lo, Max(n, 0));
          Above(Div, a, b, x, b.lo, n);
        }
      }
    }
  }

  lemma Small(x: nat, y: int)
    requires y > x
    ensures Apply(Mod, x, y) == Some(x)
  {
    TruncIsFloor(x, y);
    DivUnique(x, y, 0);
  }

  lemma Whole(y: int)
    requires y > 0
    ensures Apply(Mod, y, y) == Some(0)
  {
    TruncIsFloor(y, y);
    DivUnique(y, y, 1);
  }

  lemma ModSharp(a: Interval, b: Interval)
    requires a.loKnown && b.loKnown && a.Inhabited() && b.Inhabited() && Spread(Mod, a, b) && Guarded(Mod, a, b)
    ensures Sharp(Mod, a, b, ModInterval(a, b))
  {
    hide Apply;
    if a.hi.Some? && a.hi.value < b.lo {
      Small(a.lo, b.lo);
      Small(a.hi.value, b.lo);
      Reached(Mod, a, b, a.lo, b.lo);
      Reached(Mod, a, b, a.hi.value, b.lo);
    } else {
      var w := Max(a.lo, b.lo);
      Whole(w);
      Reached(Mod, a, b, w, w);
      if a.hi.Some? && (b.hi.Some? ==> a.hi.value <= b.hi.value - 1) {
        var y := if b.hi.Some? then b.hi.value else Max(b.lo, a.hi.value + 1);
        Small(a.hi.value, y);
        Reached(Mod, a, b, a.hi.value, y);
      } else if b.hi.Some? {
        Small(b.hi.value - 1, b.hi.value);
        Reached(Mod, a, b, b.hi.value - 1, b.hi.value);
      } else {
        forall n ensures ReachesAbove(Mod, a, b, n) {
          var x := Max(a.lo, n);
          Small(x, Max(b.lo, x + 1));
          Above(Mod, a, b, x, Max(b.lo, x + 1), n);
        }
      }
    }
  }

  lemma AndSharp(a: Interval, b: Interval)
    requires a.loKnown && b.loKnown && Spread(BitAnd, a, b)
    ensures Sharp(BitAnd, a, b, AndInterval(a, b))
  {
    hide And;
    AndNothing(a.lo, b.lo);
    Reached(BitAnd, a, b, a.lo, b.lo);
    if a.hi.Some? || b.hi.Some? {
      var w := Least(a.hi, b.hi).value;
      Itself(w);
      Reached(BitAnd, a, b, w, w);
    } else {
      forall n ensures ReachesAbove(BitAnd, a, b, n) {
        var w := Max(Max(a.lo, b.lo), n);
        Itself(w);
        Above(BitAnd, a, b, w, w, n);
      }
    }
  }

  lemma AndNothing(x: int, y: int)
    requires x == 0 || y == 0
    ensures And(x, y) == 0
  {
  }

  /** The top bit of the larger end, and all the bits below it. */
  lemma {:induction false} TopReached(op: BinaryOp, a: Interval, b: Interval)
    requires op == BitOr || op == BitXor
    requires a.NonNegative() && b.NonNegative() && a.Bounded() && b.Bounded() && a.Inhabited() && b.Inhabited() && FillsBits(a, b)
    ensures Reaches(op, a, b, Mask(Max(a.hi.value, b.hi.value)))
  {
    hide Or, Xor, BitLength, Pow2, Reaches;
    var top := Max(a.hi.value, b.hi.value);
    BitLengthIs(top);
    if top == 0 {
      Itself(0);
      ZeroLength();
      NoPower();
      Reached(op, a, b, 0, 0);
    } else {
      var k := BitLength(top) - 1;
      Doubled(k);
      HighBit(k, Pow2(k) - 1);
      Commutes(Pow2(k), Pow2(k) - 1);
      if a.hi.value >= b.hi.value { Reached(op, a, b, Pow2(k), Pow2(k) - 1); } else { Reached(op, a, b, Pow2(k) - 1, Pow2(k)); }
    }
  }

  lemma NoPower()
    ensures Pow2(0) == 1
  {
  }

  lemma Doubled(k: nat)
    ensures Pow2(k + 1) == 2 * Pow2(k)
  {
  }

  lemma {:induction false} BitsAbove(op: BinaryOp, a: Interval, b: Interval, n: int)
    requires op == BitOr || op == BitXor
    requires a.NonNegative() && b.NonNegative() && a.Inhabited() && b.Inhabited() && (a.hi.None? || b.hi.None?)
    ensures ReachesAbove(op, a, b, n)
  {
    hide Or, Xor, BitLength, Pow2, ReachesAbove;
    var low, most := if a.hi.None? then b.lo else a.lo, Max(Max(n, 0), Max(a.lo, b.lo));
    var k := BitLength(most);
    BitLengthIs(most);
    HighBit(k, low);
    Commutes(Pow2(k), low);
    if a.hi.None? { Above(op, a, b, Pow2(k), low, n); } else { Above(op, a, b, low, Pow2(k), n); }
  }

  lemma {:induction false} BitsSharp(op: BinaryOp, a: Interval, b: Interval)
    requires op == BitOr || op == BitXor
    requires a.loKnown && b.loKnown && a.Inhabited() && b.Inhabited() && Spread(op, a, b)
    ensures a.hi.Some? && b.hi.Some? ==> Reaches(op, a, b, Mask(Max(a.hi.value, b.hi.value)))
    ensures a.hi.None? || b.hi.None? ==> forall n :: ReachesAbove(op, a, b, n)
  {
    hide Reaches, ReachesAbove, Mask, FillsBits;
    if a.hi.Some? && b.hi.Some? {
      TopReached(op, a, b);
    } else {
      forall n ensures ReachesAbove(op, a, b, n) { BitsAbove(op, a, b, n); }
    }
  }

  lemma ZeroLength()
    ensures BitLength(0) == 0
  {
  }

  lemma {:induction false} Commutes(x: nat, y: nat)
    ensures Or(x, y) == Or(y, x) && Xor(x, y) == Xor(y, x)
    decreases x
  {
    if x != 0 && y != 0 { Commutes(x / 2, y / 2); }
  }

  lemma OrSharp(a: Interval, b: Interval)
    requires a.loKnown && b.loKnown && a.Inhabited() && b.Inhabited() && Spread(BitOr, a, b)
    ensures Sharp(BitOr, a, b, OrInterval(a, b))
  {
    hide Or, Mask;
    var w := Max(a.lo, b.lo);
    Itself(w);
    Reached(BitOr, a, b, w, w);
    BitsSharp(BitOr, a, b);
  }

  lemma XorSharp(a: Interval, b: Interval)
    requires a.loKnown && b.loKnown && a.Inhabited() && b.Inhabited() && Spread(BitXor, a, b)
    ensures Sharp(BitXor, a, b, XorInterval(a, b))
  {
    hide Xor, Mask;
    var w := Max(a.lo, b.lo);
    Itself(w);
    Reached(BitXor, a, b, w, w);
    BitsSharp(BitXor, a, b);
  }

  lemma ShlSharp(a: Interval, b: Interval)
    requires a.loKnown && b.loKnown && a.Inhabited() && b.Inhabited() && Spread(Shl, a, b) && Guarded(Shl, a, b)
    ensures ShlInterval(a, b).Ok? && Sharp(Shl, a, b, ShlInterval(a, b).value)
  {
    hide Pow2;
    if a.Bounded() {
      CornersSharp(Shl, a, b);
    } else {
      Reached(Shl, a, b, a.lo, b.lo);
      forall n ensures ReachesAbove(Shl, a, b, n) {
        var x := Max(a.lo, n);
        MulLess(1, Pow2(b.lo), x);
        Above(Shl, a, b, x, b.lo, n);
      }
    }
  }

  lemma ShrSharp(a: Interval, b: Interval)
    requires a.loKnown && b.loKnown && a.Inhabited() && b.Inhabited() && Spread(Shr, a, b) && Guarded(Shr, a, b)
    ensures ShrInterval(a, b).Ok? && Sharp(Shr, a, b, ShrInterval(a, b).value)
  {
    hide Pow2;
    if a.Bounded() {
      CornersSharp(Shr, a, b);
    } else {
      Reached(Shr, a, b, a.lo, b.hi.value);
      forall n ensures ReachesAbove(Shr, a, b, n) {
        var p := Pow2(b.lo);
        var x := Max(a.lo, Max(n, 0) * p);
        DivMonotone(Max(n, 0) * p, x, p);
        DivUnique(Max(n, 0) * p, p, Max(n, 0));
        Above(Shr, a, b, x, b.lo, n);
      }
    }
  }

  lemma TestSharp(op: BinaryOp, a: Interval, b: Interval)
    requires op in {Eq, Ne, Lt, Gt, Le, Ge, LogicalAnd, LogicalOr} && Spread(op, a, b)
    ensures Sharp(op, a, b, Interval(0, Some(1), true))
  {
    var u := Max(a.lo, b.lo);
    var v := u + 1;
    Reached(op, a, b, u, u);
    Reached(op, a, b, u, v);
    Reached(op, a, b, v, u);
    Reached(op, a, b, v, v);
    if op == LogicalAnd || op == LogicalOr { Reached(op, a, b, 0, 0); }
  }

  /** Every operator at once: over operands with known lower ends, its range is no wider than its values are. */
  lemma RuleSharp(op: BinaryOp, a: Interval, b: Interval)
    requires a.loKnown && b.loKnown && a.Inhabited() && b.Inhabited() && Guarded(op, a, b) && Spread(op, a, b)
    ensures Rule(op, a, b).Ok? && Sharp(op, a, b, Rule(op, a, b).value)
  {
    hide Spread, Sharp, Guarded, AddInterval, SubInterval, MulInterval, DivInterval, ModInterval, AndInterval, OrInterval, XorInterval,
         ShlInterval, ShrInterval;
    match op
    case Add => AddSharp(a, b);
    case Sub => SubSharp(a, b);
    case Mul => MulSharp(a, b);
    case Div => DivSharp(a, b);
    case Mod => ModSharp(a, b);
    case BitAnd => AndSharp(a, b);
    case BitOr => OrSharp(a, b);
    case BitXor => XorSharp(a, b);
    case Shl => ShlSharp(a, b);
    case Shr => ShrSharp(a, b);
    case _ => TestSharp(op, a, b);
  }

  // ----- what is not known, and what is refused

  /** A range that is known from below, or not at all. */
  predicate Formed(r: Interval) {
    r.Inhabited() && (r.loKnown || r == Unknown())
  }

  /** Where both ends of a result can be worked out from the operands' ends. */
  predicate Known(op: BinaryOp, a: Interval, b: Interval) {
    match op
    case Add => a.loKnown && b.loKnown
    case Sub => a.loKnown && b.hi.Some?
    case Mul => (a.NonNegative() && b.NonNegative()) || (a.Bounded() && b.Bounded())
    case Div => (a.NonNegative() && b.lo > 0) || (a.Bounded() && b.Bounded())
    case Mod => b.lo > 0
    case Shl => a.NonNegative() || a.Bounded()
    case Shr => a.NonNegative() || a.Bounded()
    case _ => op !in {BitAnd, BitOr, BitXor} || (a.NonNegative() && b.NonNegative())
  }

  /** A rule gives a lower end exactly there, and nothing at all elsewhere. */
  lemma KnownIff(op: BinaryOp, a: Interval, b: Interval)
    requires Formed(a) && Formed(b) && Guarded(op, a, b)
    ensures Rule(op, a, b).Ok? && Formed(Rule(op, a, b).value)
    ensures Rule(op, a, b).value.loKnown <==> Known(op, a, b)
  {
    hide Pow2, Or, And, Xor, TruncDiv, TruncMod, FloorDiv, Mask;
    if Known(op, a, b) && a.Bounded() && b.Bounded() && Exact(op) { var r, x, y, u, v := RuleTight(op, a, b); RuleSound(op, a, b, x, y); }
    if op in {BitOr, BitXor} && a.NonNegative() && b.NonNegative() && a.hi.Some? && b.hi.Some? { MaskCovers(a, b); }
    if op == Div && a.NonNegative() && b.lo > 0 { QuotientsOrdered(a, b); }
  }

  lemma MaskCovers(a: Interval, b: Interval)
    requires a.NonNegative() && b.NonNegative() && a.Bounded() && b.Bounded() && a.Inhabited() && b.Inhabited()
    ensures Max(a.lo, b.lo) <= Mask(Max(a.hi.value, b.hi.value))
  {
    BitLengthBound(Max(a.hi.value, b.hi.value));
  }

  lemma QuotientsOrdered(a: Interval, b: Interval)
    requires a.NonNegative() && b.loKnown && b.lo > 0 && a.Inhabited() && b.Inhabited()
    ensures a.hi.Some? && b.hi.Some? ==> FloorDiv(a.lo, b.hi.value) <= a.hi.value / b.lo
    ensures a.hi.Some? ==> 0 <= a.hi.value / b.lo
  {
    if a.hi.Some? { DivMonotone(0, a.hi.value, b.lo); }
    if a.hi.Some? && b.hi.Some? {
      DivMonotone(a.lo, a.hi.value, b.hi.value);
      DivisorAntitone(a.hi.value, b.lo, b.hi.value);
    }
  }

  /** A range that a value can be below is not known to be above it. */
  ghost predicate MayBeBelow(r: Interval, n: int) {
    exists v :: v < n && r.Contains(v)
  }

  /** An operator is refused exactly where some operands in range cannot be given to it: zero to divide by, then
      something negative to divide, or a shift by less than 0 or more than 63. */
  lemma RefusedIff(op: BinaryOp, l: Interval, r: Interval)
    requires Formed(l) && Formed(r)
    ensures BinaryInterval(op, l, r) == Err(DivisorMayBeZero) <==> (op == Div || op == Mod) && r.Contains(0)
    ensures BinaryInterval(op, l, r) == Err(DividendMayBeNegative) <==> (op == Div || op == Mod) && !r.Contains(0) && MayBeBelow(l, 0)
    ensures BinaryInterval(op, l, r) == Err(ShiftNotProvable) <==>
            (op == Shl || op == Shr) && (MayBeBelow(r, 0) || exists v :: v >= SHIFT_WIDTH && r.Contains(v))
    ensures BinaryInterval(op, l, r).Err? ==>
            BinaryInterval(op, l, r).error in {DivisorMayBeZero, DividendMayBeNegative, ShiftNotProvable}
  {
    hide Rule;
    LowEnd(l, 0);
    LowEnd(r, 0);
    HighEnd(r, SHIFT_WIDTH);
    if Guarded(op, l, r) { KnownIff(op, l, r); }
  }

  lemma LowEnd(r: Interval, n: int)
    requires Formed(r)
    ensures MayBeBelow(r, n) <==> !r.loKnown || r.lo < n
  {
    if !r.loKnown { assert r.Contains(n - 1); }
    if r.loKnown && r.lo < n { assert r.Contains(r.lo); }
  }

  lemma HighEnd(r: Interval, n: int)
    requires Formed(r)
    ensures (exists v :: v >= n && r.Contains(v)) <==> r.hi.None? || r.hi.value >= n
  {
    if r.hi.None? { assert r.Contains(Max(r.lo, n)); }
    if r.hi.Some? && r.hi.value >= n { assert r.Contains(r.hi.value); }
  }

  /** Folding is refused exactly where Python has no answer, or the shift is by more than the word. */
  lemma FoldRefusedIff(op: BinaryOp, l: int, r: int)
    ensures Fold(op, l, r).Err? <==> Apply(op, l, r).None? || ((op == Shl || op == Shr) && r > SHIFT_WIDTH)
    ensures Fold(op, l, r).Ok? ==> Apply(op, l, r) == Some(Fold(op, l, r).value)
    ensures Fold(op, l, r) == Err(DivisionByZero) <==> (op == Div || op == Mod) && r == 0
  {
  }

  // ----- the other ranges

  ghost predicate BuiltinReaches(fn: string, held: seq<Interval>, v: int)
    requires fn in VALUE_BUILTINS && |held| == VALUE_BUILTINS[fn]
  {
    exists vs: seq<int> :: |vs| == |held| && (forall i :: 0 <= i < |vs| ==> held[i].Contains(vs[i])) && Builtin(fn, vs) == Ok(v)
  }

  ghost predicate BuiltinReachesAbove(fn: string, held: seq<Interval>, n: int)
    requires fn in VALUE_BUILTINS && |held| == VALUE_BUILTINS[fn]
  {
    exists v :: v >= n && BuiltinReaches(fn, held, v)
  }

  lemma ReachedWith(fn: string, held: seq<Interval>, vs: seq<int>)
    requires fn in VALUE_BUILTINS && |vs| == |held| == VALUE_BUILTINS[fn]
    requires (forall i :: 0 <= i < |vs| ==> held[i].Contains(vs[i])) && Builtin(fn, vs).Ok?
    ensures BuiltinReaches(fn, held, Builtin(fn, vs).value)
  {
  }

  /** Arguments whose call's range is exact. */
  predicate BuiltinSpread(fn: string, held: seq<Interval>)
    requires fn in VALUE_BUILTINS && |held| == VALUE_BUILTINS[fn]
  {
    && (forall i :: 0 <= i < |held| ==> held[i].loKnown && held[i].Inhabited())
    && (fn == "min" ==> held[0].hi.Some? || held[1].hi.None?)
    && (fn == "min" ==> held[1].hi.Some? || held[0].hi.None?)
    && (fn == "popcount" ==> held[0].lo == 0 && held[0].hi.Some? && held[0].hi.value == Mask(held[0].hi.value))
    && (fn == "align_up" ==> held[1].IsPoint() && held[1].lo > 0 && held[0].lo >= 0)
  }

  /** The range of a call has ends the call attains, and no upper one only where it has none. */
  lemma BuiltinSharp(fn: string, held: seq<Interval>)
    requires fn in VALUE_BUILTINS && |held| == VALUE_BUILTINS[fn] && BuiltinSpread(fn, held)
    ensures BuiltinInterval(fn, held).Ok?
    ensures var r := BuiltinInterval(fn, held).value;
            && r.loKnown && BuiltinReaches(fn, held, r.lo)
            && (if r.hi.Some? then BuiltinReaches(fn, held, r.hi.value)
                else forall n :: BuiltinReachesAbove(fn, held, n))
  {
    hide RoundUp, BitLength, BitCount;
    var r := BuiltinInterval(fn, held).value;
    if fn == "popcount" {
      CountSharp(held);
    } else {
      ReachedWith(fn, held, [held[0].lo, held[1].lo]);
      if held[0].hi.Some? && held[1].hi.Some? { ReachedWith(fn, held, [held[0].hi.value, held[1].hi.value]); }
      if r.hi.None? {
        forall n ensures BuiltinReachesAbove(fn, held, n) {
          var x := if held[0].hi.None? then Max(held[0].lo, n) else held[0].lo;
          var y := if held[1].hi.None? then Max(held[1].lo, n) else held[1].lo;
          if fn == "align_up" { RoundUpIs(x, y); }
          ReachedWith(fn, held, [x, y]);
        }
      }
    }
  }

  lemma CountSharp(held: seq<Interval>)
    requires |held| == 1 && BuiltinSpread("popcount", held)
    ensures BuiltinInterval("popcount", held).Ok?
    ensures var r := BuiltinInterval("popcount", held).value;
            r.loKnown && r.hi.Some? && BuiltinReaches("popcount", held, r.lo) && BuiltinReaches("popcount", held, r.hi.value)
  {
    hide BitLength, BitCount;
    AllOnes(BitLength(held[0].hi.value));
    assert BitCount(0) == 0 by { NoBits(); }
    ReachedWith("popcount", held, [0]);
    ReachedWith("popcount", held, [held[0].hi.value]);
  }

  lemma NoBits()
    ensures BitCount(0) == 0
  {
  }

  /** Minus, over a range with two ends, and not, over one with zero and something else, attain both ends too. */
  lemma UnarySharp(op: UnaryOp, i: Interval)
    requires i.Inhabited() && ((op == Negate && i.Bounded()) || (op == LogicalNot && i.Contains(0) && exists v :: v != 0 && i.Contains(v)))
    ensures var r := UnaryInterval(op, i);
            && r.Bounded() && (exists x :: i.Contains(x) && ApplyUnary(op, x) == r.lo)
            && exists x :: i.Contains(x) && ApplyUnary(op, x) == r.hi.value
  {
    if op == Negate {
      assert i.Contains(i.lo) && i.Contains(i.hi.value);
    } else {
      var v :| v != 0 && i.Contains(v);
      assert !i.IsPoint();
    }
  }

  /** What a field of a width can hold is what that many bits can spell. */
  lemma ScalarIs(bits: nat, v: int)
    ensures ScalarInterval(bits, false).Contains(v) <==> v >= 0 && BitLength(v) <= bits
    ensures bits > 0 ==> (ScalarInterval(bits, true).Contains(v) <==> BitLength(if v >= 0 then v else -v - 1) < bits)
  {
    hide Pow2, BitLength;
    var w := if v >= 0 then v else -v - 1;
    BitLengthIs(w);
    Fits(w, bits);
    if bits > 0 { Fits(w, bits - 1); }
  }

  lemma {:induction false} Fits(w: nat, n: nat)
    ensures BitLength(w) <= n <==> w < Pow2(n)
  {
    hide Pow2, BitLength;
    BitLengthIs(w);
    ZeroLength();
    if BitLength(w) <= n { Pow2Monotone(BitLength(w), n); } else { Pow2Monotone(n, BitLength(w) - 1); }
  }
}
