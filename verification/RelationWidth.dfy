/** The types a relation is computed in by C and C++: which one its reads are widened to, and which
    operators can leave them. */
module RelationWidth {
  import opened Prelude
  import opened Ast
  import opened Bits
  import opened Intervals
  import opened Relations

  const WORD: nat := 64

  /** The values of the 64-bit type operands are widened to. */
  function Word(signed: bool): Interval {
    ScalarInterval(WORD, signed)
  }

  predicate InWord(signed: bool, v: int) {
    Word(signed).Contains(v)
  }

  /** A scalar a layout can hold. */
  predicate Sized(s: Scalar) {
    s.bits <= WORD && (s.signed ==> s.bits > 0)
  }

  lemma WordEnds()
    ensures Pow2(WORD) == 2 * Pow2(WORD - 1) && Pow2(WORD - 1) >= 4 && Pow2(1) == 2
  {
    assert Pow2(2) == 4;
    Pow2Monotone(2, WORD - 1);
  }

  // ----- widening

  /** Does the 64-bit type hold everything the scalar can be? */
  ghost predicate Holds64(signed: bool, s: Scalar)
    requires Sized(s)
  {
    forall v :: ScalarInterval(s.bits, s.signed).Contains(v) ==> InWord(signed, v)
  }

  lemma {:induction false} Holds64Iff(signed: bool, s: Scalar)
    requires Sized(s)
    ensures Holds64(signed, s) <==> (if signed then s.signed || s.bits < WORD else !s.signed)
  {
    hide Pow2;
    WordEnds();
    var r := ScalarInterval(s.bits, s.signed);
    Pow2Monotone(if s.signed then s.bits - 1 else s.bits, if s.signed then WORD - 1 else WORD);
    if !s.signed && s.bits < WORD { Pow2Monotone(s.bits, WORD - 1); }
    assert r.Contains(if s.signed then r.lo else r.hi.value);
  }

  /** Widening is refused exactly when neither 64-bit type holds every operand, and the type it
      chooses holds them all. */
  lemma {:induction false} WidenIff(operands: seq<Scalar>)
    requires forall s :: s in operands ==> Sized(s)
    ensures Widen(operands).Err? <==>
            !(forall s :: s in operands ==> Holds64(false, s)) && !(forall s :: s in operands ==> Holds64(true, s))
    ensures Widen(operands).Ok? ==> forall s :: s in operands ==> Holds64(Widen(operands).value, s)
  {
    hide Holds64;
    forall s | s in operands
      ensures (Holds64(true, s) <==> s.signed || s.bits < WORD) && (Holds64(false, s) <==> !s.signed)
    {
      Holds64Iff(true, s);
      Holds64Iff(false, s);
    }
  }

  // ----- types

  /** `int`, and the 64-bit types. Reads are cast to one of the latter; a literal is an `int` where it fits
      one, and a signed 64-bit value otherwise. */
  datatype Ctype = Int32 | Int64 | Word64

  function Width(t: Ctype): nat {
    if t == Int32 then 32 else WORD
  }

  function TypeRange(t: Ctype): Interval {
    ScalarInterval(Width(t), t != Word64)
  }

  predicate InType(t: Ctype, v: int) {
    TypeRange(t).Contains(v)
  }

  /** The type reads are cast to. */
  function ReadType(signed: bool): Ctype {
    if signed then Int64 else Word64
  }

  lemma ReadTypeIsWord(signed: bool, v: int)
    ensures InType(ReadType(signed), v) <==> InWord(signed, v)
  {
  }

  /** The usual arithmetic conversions, among these three. */
  function Common(a: Ctype, b: Ctype): Ctype {
    if a == Word64 || b == Word64 then Word64 else if a == Int64 || b == Int64 then Int64 else Int32
  }

  lemma TypeEnds(t: Ctype)
    ensures Pow2(Width(t)) == 2 * Pow2(Width(t) - 1) && Pow2(Width(t) - 1) >= 64 && Pow2(1) == 2
    ensures Pow2(31) <= Pow2(Width(t) - 1) <= Pow2(63)
  {
    hide Pow2;
    Doubles(Width(t));
    SixtyFour();
    Pow2Monotone(6, Width(t) - 1);
    Pow2Monotone(31, Width(t) - 1);
    Pow2Monotone(Width(t) - 1, 63);
  }

  lemma Doubles(n: nat)
    requires n > 0
    ensures Pow2(n) == 2 * Pow2(n - 1)
  {
  }

  lemma SixtyFour()
    ensures Pow2(6) == 64 && Pow2(1) == 2
  {
    assert Pow2(3) == 8;
  }

  /** A signed type holds all that a narrower one does. */
  lemma SignedHolds(a: Ctype, b: Ctype, v: int)
    requires a != Word64 && b != Word64 && InType(a, v)
    ensures InType(Common(a, b), v)
  {
    hide Pow2;
    TypeEnds(a);
    TypeEnds(Common(a, b));
    Pow2Monotone(31, 63);
  }

  /** Every type holds the small numbers. */
  lemma SmallFits(t: Ctype, v: int)
    requires 0 <= v < SHIFT_WIDTH
    ensures InType(t, v)
  {
    hide Pow2;
    TypeEnds(t);
  }

  // ----- operators

  /** Operators that never leave the type their operands are in. */
  predicate Closed(op: BinaryOp) {
    op !in {Add, Sub, Mul, Shl}
  }

  predicate ClosedUnary(op: UnaryOp, t: Ctype) {
    op == LogicalNot || (op == Complement && t != Word64)
  }

  /** What an operator can be given: no signed division, and no shift by the width or more. */
  predicate Allowed(op: BinaryOp, t: Ctype, b: int) {
    && (t != Word64 ==> op != Div && op != Mod)
    && (op == Shl || op == Shr ==> 0 <= b < Width(t))
  }

  lemma {:induction false} TwosComplement(a: int, b: int, k: nat)
    requires 0 - Pow2(k) <= a < Pow2(k) && 0 - Pow2(k) <= b < Pow2(k)
    ensures 0 - Pow2(k) <= And(a, b) < Pow2(k) && 0 - Pow2(k) <= Or(a, b) < Pow2(k) && 0 - Pow2(k) <= Xor(a, b) < Pow2(k)
    decreases k
  {
    if k > 0 { TwosComplement(a / 2, b / 2, k - 1); }
  }

  lemma {:induction false} QuotientWithin(a: int, d: int)
    requires d > 0
    ensures a >= 0 ==> 0 <= a / d <= a
    ensures a < 0 ==> a <= a / d < 0
  {
    DivisorAntitone(a, 1, d);
    assert a / 1 == a;
    if a < 0 && a / d >= 0 { MulLess(0, a / d, d); }
  }

  lemma {:induction false} ClosedFits(op: BinaryOp, t: Ctype, a: int, b: int)
    requires Closed(op) && InType(t, a) && InType(t, b) && Allowed(op, t, b)
    ensures Apply(op, a, b).Some? ==> InType(t, Apply(op, a, b).value)
  {
    hide Pow2, And, Or, Xor;
    TypeEnds(t);
    match op
    case BitAnd => Bitwise(t, a, b);
    case BitOr => Bitwise(t, a, b);
    case BitXor => Bitwise(t, a, b);
    case Shr => QuotientWithin(a, Pow2(b));
    case Div => if b > 0 { QuotientWithin(a, b); }
    case Mod => if b > 0 { QuotientWithin(a, b); RemainderWithin(a, b); }
    case _ =>
  }

  lemma {:induction false} RemainderWithin(a: nat, b: nat)
    requires b > 0
    ensures 0 <= TruncMod(a, b) <= a
  {
    QuotientWithin(a, b);
    MulLess(0, a / b, b);
  }

  lemma {:induction false} Bitwise(t: Ctype, a: int, b: int)
    requires InType(t, a) && InType(t, b)
    ensures InType(t, And(a, b)) && InType(t, Or(a, b)) && InType(t, Xor(a, b))
  {
    if t != Word64 {
      TwosComplement(a, b, Width(t) - 1);
    } else {
      AndBound(a, b);
      OrBound(a, b, WORD);
      XorBound(a, b, WORD);
    }
  }

  /** Is every result of the operator, on operands in the type, in the type? */
  ghost predicate StaysIn(op: BinaryOp, t: Ctype) {
    forall a, b :: InType(t, a) && InType(t, b) && Allowed(op, t, b) && Apply(op, a, b).Some? ==>
      InType(t, Apply(op, a, b).value)
  }

  lemma {:induction false} Leaves(op: BinaryOp, t: Ctype) returns (a: int, b: int)
    requires !Closed(op)
    ensures InType(t, a) && InType(t, b) && Allowed(op, t, b)
    ensures Apply(op, a, b).Some? && !InType(t, Apply(op, a, b).value)
  {
    hide Pow2, And, Or, Xor, TruncDiv, TruncMod;
    TypeEnds(t);
    var w := TypeRange(t);
    a, b := if op == Sub then w.lo else w.hi.value, if op == Mul then 2 else 1;
    if op == Shl {
      assert a * Pow2(b) == a * 2;
      assert Apply(op, a, b) == Some(a * 2);
    }
    assert InType(t, a) && InType(t, b);
    assert Allowed(op, t, b);
  }

  /** Exactly four binary operators can leave a type, whichever it is. */
  lemma {:induction false} ClosedIff(op: BinaryOp, t: Ctype)
    ensures StaysIn(op, t) <==> Closed(op)
  {
    hide InType, Apply, Closed;
    if Closed(op) {
      forall a, b | InType(t, a) && InType(t, b) && Allowed(op, t, b) && Apply(op, a, b).Some?
        ensures InType(t, Apply(op, a, b).value)
      {
        ClosedFits(op, t, a, b);
      }
    } else {
      var a, b := Leaves(op, t);
      assert Apply(op, a, b).Some?;
    }
  }

  lemma {:induction false} ClosedUnaryIff(op: UnaryOp, t: Ctype)
    ensures (forall a :: InType(t, a) ==> InType(t, ApplyUnary(op, a))) <==> ClosedUnary(op, t)
  {
    hide Pow2;
    TypeEnds(t);
    var a := if t != Word64 then TypeRange(t).lo else 1;
    assert InType(t, a);
    if !ClosedUnary(op, t) { assert !InType(t, ApplyUnary(op, a)); }
  }
}
