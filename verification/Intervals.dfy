/** Interval arithmetic (situc/expr.py): one rule per operator, and why each is sound. */
module Intervals {
  import opened Prelude
  import opened Ast
  import opened Bits

  /** `hi` of None is unbounded above. `lo` is a placeholder unless `loKnown`. */
  datatype Interval = Interval(lo: int, hi: Option<int>, loKnown: bool)
  {
    predicate IsPoint() {
      loKnown && hi == Some(lo)
    }

    predicate NonNegative() {
      loKnown && lo >= 0
    }

    /** Is `v` among the values the interval allows? */
    predicate Contains(v: int) {
      (loKnown ==> lo <= v) && (hi.Some? ==> v <= hi.value)
    }

    /** Both ends are facts. */
    predicate Bounded() {
      loKnown && hi.Some?
    }

    /** Does the interval not rule out every value? A field declared `[min = 8, max = 0]` fails this. */
    predicate Inhabited() {
      Bounded() ==> lo <= hi.value
    }
  }

  /** The diagnostics of situc/expr.py; `HostError` is a Python exception that is none of them. */
  datatype Refusal =
    | NotInScope | NotConstant | NotAnExpression
    | DivisionByZero | DivisorMayBeZero | DividendMayBeNegative
    | BadShiftCount | ShiftNotProvable
    | BadAlignment | BadArity | UnknownFunction | SignedPopcount
    | LayoutUnknown | HostError

  type Ranged = Result<Interval, Refusal>

  const SHIFT_WIDTH: nat := 64

  function Point(v: int): Interval {
    Interval(v, Some(v), true)
  }

  function Unknown(): Interval {
    Interval(0, None, false)
  }

  /** `scalar_interval`: what a field of this width can hold. */
  function ScalarInterval(bits: nat, signed: bool): Interval
    requires signed ==> bits > 0
  {
    if signed then Interval(0 - Pow2(bits - 1), Some(Pow2(bits - 1) - 1), true)
    else Interval(0, Some(Pow2(bits) - 1), true)
  }

  function Bool(b: bool): int {
    if b then 1 else 0
  }

  /** `BINARY_OPS`; None where Python raises. */
  function Apply(op: BinaryOp, a: int, b: int): Option<int> {
    match op
    case Add => Some(a + b)
    case Sub => Some(a - b)
    case Mul => Some(a * b)
    case Div => if b == 0 then None else Some(TruncDiv(a, b))
    case Mod => if b == 0 then None else Some(TruncMod(a, b))
    case BitAnd => Some(And(a, b))
    case BitOr => Some(Or(a, b))
    case BitXor => Some(Xor(a, b))
    case Shl => if b < 0 then None else Some(a * Pow2(b))
    case Shr => if b < 0 then None else Some(a / Pow2(b))
    case Eq => Some(Bool(a == b))
    case Ne => Some(Bool(a != b))
    case Lt => Some(Bool(a < b))
    case Gt => Some(Bool(a > b))
    case Le => Some(Bool(a <= b))
    case Ge => Some(Bool(a >= b))
    case LogicalAnd => Some(Bool(a != 0 && b != 0))
    case LogicalOr => Some(Bool(a != 0 || b != 0))
  }

  /** `UNARY_OPS`. */
  function ApplyUnary(op: UnaryOp, a: int): int {
    match op
    case Negate => -a
    case Complement => -a - 1
    case LogicalNot => Bool(a == 0)
  }

  // ----- the rules

  function Span(lo: Option<int>, hi: Option<int>): Interval {
    match lo
    case None => Unknown()
    case Some(l) => Interval(l, hi, true)
  }

  function Least(a: Option<int>, b: Option<int>): Option<int> {
    match (a, b)
    case (None, _) => b
    case (_, None) => a
    case (Some(x), Some(y)) => Some(Min(x, y))
  }

  /** The smallest and largest of an operator's values at the corners of a box. */
  function Corners(op: BinaryOp, a: Interval, b: Interval): Interval {
    if !a.Bounded() || !b.Bounded() then Unknown()
    else
      match (Apply(op, a.lo, b.lo), Apply(op, a.lo, b.hi.value),
             Apply(op, a.hi.value, b.lo), Apply(op, a.hi.value, b.hi.value))
      case (Some(p), Some(q), Some(r), Some(s)) =>
        Interval(Min(Min(p, q), Min(r, s)), Some(Max(Max(p, q), Max(r, s))), true)
      case _ => Unknown()
  }

  function AddInterval(a: Interval, b: Interval): Interval {
    Span(if a.loKnown && b.loKnown then Some(a.lo + b.lo) else None,
         if a.hi.Some? && b.hi.Some? then Some(a.hi.value + b.hi.value) else None)
  }

  function SubInterval(a: Interval, b: Interval): Interval {
    Span(if a.loKnown && b.hi.Some? then Some(a.lo - b.hi.value) else None,
         if a.hi.Some? && b.loKnown then Some(a.hi.value - b.lo) else None)
  }

  function MulInterval(a: Interval, b: Interval): Interval {
    if a.NonNegative() && b.NonNegative() then
      Interval(a.lo * b.lo,
               if a.hi.Some? && b.hi.Some? then Some(a.hi.value * b.hi.value) else None, true)
    else Corners(Mul, a, b)
  }

  /** Python's `//` raises where the divisor's declared range is empty and ends at zero. */
  function DivInterval(a: Interval, b: Interval): Ranged {
    if a.NonNegative() && b.loKnown && b.lo > 0 then
      if b.hi == Some(0) then Err(HostError)
      else Ok(Interval(if b.hi.None? then 0 else FloorDiv(a.lo, b.hi.value),
                       if a.hi.None? then None else Some(a.hi.value / b.lo), true))
    else Ok(Corners(Div, a, b))
  }

  function ModInterval(a: Interval, b: Interval): Interval {
    if !(a.NonNegative() && b.loKnown && b.lo > 0) then Unknown()
    else if a.hi.Some? && a.hi.value < b.lo then a
    else Interval(0, Least(a.hi, if b.hi.None? then None else Some(b.hi.value - 1)), true)
  }

  function AndInterval(a: Interval, b: Interval): Interval {
    if !(a.NonNegative() && b.NonNegative()) then Unknown()
    else Interval(0, Least(a.hi, b.hi), true)
  }

  function OrInterval(a: Interval, b: Interval): Interval {
    if !(a.NonNegative() && b.NonNegative()) then Unknown()
    else Interval(Max(a.lo, b.lo),
                  if a.hi.Some? && b.hi.Some? then Some(Mask(Max(a.hi.value, b.hi.value))) else None, true)
  }

  function XorInterval(a: Interval, b: Interval): Interval {
    if !(a.NonNegative() && b.NonNegative()) then Unknown()
    else Interval(0,
                  if a.hi.Some? && b.hi.Some? then Some(Mask(Max(a.hi.value, b.hi.value))) else None, true)
  }

  function ShlInterval(a: Interval, b: Interval): Ranged {
    if a.NonNegative() && b.NonNegative() then
      if a.hi.Some? && b.hi.Some? && b.hi.value < 0 then Err(HostError)
      else Ok(Interval(a.lo * Pow2(b.lo),
                       if a.hi.Some? && b.hi.Some? then Some(a.hi.value * Pow2(b.hi.value)) else None, true))
    else Ok(Corners(Shl, a, b))
  }

  function ShrInterval(a: Interval, b: Interval): Ranged {
    if a.NonNegative() && b.NonNegative() then
      if b.hi.Some? && b.hi.value < 0 then Err(HostError)
      else Ok(Interval(if b.hi.None? then 0 else a.lo / Pow2(b.hi.value),
                       if a.hi.None? then None else Some(a.hi.value / Pow2(b.lo)), true))
    else Ok(Corners(Shr, a, b))
  }

  /** `INTERVAL_RULES`. */
  function Rule(op: BinaryOp, a: Interval, b: Interval): Ranged {
    match op
    case Add => Ok(AddInterval(a, b))
    case Sub => Ok(SubInterval(a, b))
    case Mul => Ok(MulInterval(a, b))
    case Div => DivInterval(a, b)
    case Mod => Ok(ModInterval(a, b))
    case BitAnd => Ok(AndInterval(a, b))
    case BitOr => Ok(OrInterval(a, b))
    case BitXor => Ok(XorInterval(a, b))
    case Shl => ShlInterval(a, b)
    case Shr => ShrInterval(a, b)
    case _ => Ok(Interval(0, Some(1), true))
  }

  /** Does the divisor's range include zero, or have no known floor? */
  predicate MayBeZero(b: Interval) {
    !b.loKnown || (b.lo <= 0 && (b.hi.None? || 0 <= b.hi.value))
  }

  predicate MayBeNegative(a: Interval) {
    !a.loKnown || a.lo < 0
  }

  predicate ShiftInRange(b: Interval) {
    b.loKnown && b.lo >= 0 && b.hi.Some? && b.hi.value < SHIFT_WIDTH
  }

  /** What `interval_of` has established about the operands before it asks for a rule. */
  predicate Guarded(op: BinaryOp, a: Interval, b: Interval) {
    && (op in {Div, Mod} ==> !MayBeZero(b) && !MayBeNegative(a))
    && (op in {Shl, Shr} ==> ShiftInRange(b))
  }

  // ----- every rule contains every value the operator can produce

  lemma TruncIsFloor(x: nat, y: int)
    requires y > 0
    ensures TruncDiv(x, y) == x / y && TruncMod(x, y) == x % y
  {
  }

  lemma TruncByNegative(x: nat, y: int)
    requires y < 0
    ensures TruncDiv(x, y) == -(x / -y)
  {
  }

  lemma MulSound(a: Interval, b: Interval, x: int, y: int)
    requires a.Contains(x) && b.Contains(y)
    ensures MulInterval(a, b).Contains(x * y)
  {
    if a.NonNegative() && b.NonNegative() {
      MulLess(a.lo, x, b.lo);
      MulLess(b.lo, y, x);
      if a.hi.Some? && b.hi.Some? {
        MulLess(x, a.hi.value, y);
        MulLess(y, b.hi.value, a.hi.value);
      }
    } else if a.Bounded() && b.Bounded() {
      MulMonotone(x, a.lo, a.hi.value, y);
      MulMonotone(y, b.lo, b.hi.value, a.lo);
      MulMonotone(y, b.lo, b.hi.value, a.hi.value);
    }
  }

  lemma DivSound(a: Interval, b: Interval, x: int, y: int)
    requires Guarded(Div, a, b) && a.Contains(x) && b.Contains(y) && y != 0
    ensures DivInterval(a, b).Ok? ==> DivInterval(a, b).value.Contains(TruncDiv(x, y))
  {
    if b.lo > 0 {
      TruncIsFloor(x, y);
      DivisorAntitone(x, b.lo, y);
      if a.hi.Some? { DivMonotone(x, a.hi.value, b.lo); }
      if b.hi.Some? {
        DivMonotone(a.lo, x, b.hi.value);
        DivisorAntitone(x, y, b.hi.value);
      }
    } else if a.Bounded() && b.Bounded() {
      var lo, hi := -b.hi.value, -b.lo;
      TruncByNegative(x, y);
      TruncByNegative(a.lo, b.hi.value);
      TruncByNegative(a.hi.value, b.hi.value);
      TruncByNegative(a.lo, b.lo);
      TruncByNegative(a.hi.value, b.lo);
      DivMonotone(a.lo, x, hi);
      DivisorAntitone(x, -y, hi);
      DivMonotone(x, a.hi.value, lo);
      DivisorAntitone(x, lo, -y);
    }
  }

  lemma ModSound(a: Interval, b: Interval, x: int, y: int)
    requires a.Contains(x) && b.Contains(y) && y != 0
    ensures ModInterval(a, b).Contains(TruncMod(x, y))
  {
    if a.NonNegative() && b.loKnown && b.lo > 0 {
      TruncIsFloor(x, y);
    }
  }

  lemma BitwiseSound(a: Interval, b: Interval, x: int, y: int)
    requires a.Contains(x) && b.Contains(y)
    ensures AndInterval(a, b).Contains(And(x, y))
    ensures OrInterval(a, b).Contains(Or(x, y))
    ensures XorInterval(a, b).Contains(Xor(x, y))
  {
    if a.NonNegative() && b.NonNegative() {
      AndBound(x, y);
      var top: nat := if a.hi.Some? && b.hi.Some? then Max(a.hi.value, b.hi.value) else Max(x, y);
      var k := BitLength(top);
      BitLengthBound(top);
      OrBound(x, y, k);
      XorBound(x, y, k);
    }
  }

  lemma ShlSound(a: Interval, b: Interval, x: int, y: nat)
    requires Guarded(Shl, a, b) && a.Contains(x) && b.Contains(y)
    ensures ShlInterval(a, b).Ok? ==> ShlInterval(a, b).value.Contains(x * Pow2(y))
  {
    Pow2Monotone(b.lo, y);
    Pow2Monotone(y, b.hi.value);
    var p, q, r := Pow2(b.lo), Pow2(y), Pow2(b.hi.value);
    if a.NonNegative() {
      MulLess(a.lo, x, p);
      MulLess(p, q, x);
      if a.hi.Some? {
        MulLess(x, a.hi.value, q);
        MulLess(q, r, a.hi.value);
      }
    } else if a.Bounded() {
      MulMonotone(x, a.lo, a.hi.value, q);
      MulMonotone(q, p, r, a.lo);
      MulMonotone(q, p, r, a.hi.value);
    }
  }

  lemma ShrSound(a: Interval, b: Interval, x: int, y: nat)
    requires Guarded(Shr, a, b) && a.Contains(x) && b.Contains(y)
    ensures ShrInterval(a, b).Ok? ==> ShrInterval(a, b).value.Contains(x / Pow2(y))
  {
    Pow2Monotone(b.lo, y);
    Pow2Monotone(y, b.hi.value);
    var p, q, r := Pow2(b.lo), Pow2(y), Pow2(b.hi.value);
    if a.loKnown {
      DivMonotone(a.lo, x, q);
      DivisorAntitone(a.lo, p, q);
      DivisorAntitone(a.lo, q, r);
    }
    if a.hi.Some? {
      DivMonotone(x, a.hi.value, q);
      DivisorAntitone(a.hi.value, p, q);
      DivisorAntitone(a.hi.value, q, r);
    }
  }

  /** The rule of every operator, at once. */
  lemma RuleSound(op: BinaryOp, a: Interval, b: Interval, x: int, y: int)
    requires Guarded(op, a, b) && Rule(op, a, b).Ok?
    requires a.Contains(x) && b.Contains(y)
    ensures Apply(op, x, y).Some?
    ensures Rule(op, a, b).value.Contains(Apply(op, x, y).value)
  {
    match op {
      case Mul => MulSound(a, b, x, y);
      case Div => DivSound(a, b, x, y);
      case Mod => ModSound(a, b, x, y);
      case BitAnd => BitwiseSound(a, b, x, y);
      case BitOr => BitwiseSound(a, b, x, y);
      case BitXor => BitwiseSound(a, b, x, y);
      case Shl => ShlSound(a, b, x, y);
      case Shr => ShrSound(a, b, x, y);
      case _ =>
    }
  }

  // ----- and no more than the operator needs

  /** The operators whose rule is exact: each end is a value of the operator. */
  predicate Exact(op: BinaryOp) {
    op in {Add, Sub, Mul, Div, Shl, Shr}
  }

  /** Over a bounded box both ends are attained, by the operands this hands back. */
  lemma RuleTight(op: BinaryOp, a: Interval, b: Interval)
    returns (r: Interval, x: int, y: int, u: int, v: int)
    requires Exact(op) && Guarded(op, a, b)
    requires a.Bounded() && a.Inhabited() && b.Bounded() && b.Inhabited()
    ensures Rule(op, a, b) == Ok(r) && r.Bounded()
    ensures a.Contains(x) && b.Contains(y) && Apply(op, x, y) == Some(r.lo)
    ensures a.Contains(u) && b.Contains(v) && Apply(op, u, v) == Some(r.hi.value)
  {
    r := Rule(op, a, b).value;
    x, y := CornerWith(op, a, b, r.lo);
    u, v := CornerWith(op, a, b, r.hi.value);
  }

  lemma CornerWith(op: BinaryOp, a: Interval, b: Interval, end: int) returns (x: int, y: int)
    requires Exact(op) && Guarded(op, a, b)
    requires a.Bounded() && a.Inhabited() && b.Bounded() && b.Inhabited()
    requires Rule(op, a, b).Ok? && Rule(op, a, b).value.Bounded()
    requires end == Rule(op, a, b).value.lo || end == Rule(op, a, b).value.hi.value
    ensures a.Contains(x) && b.Contains(y) && Apply(op, x, y) == Some(end)
  {
    if op == Div && b.lo > 0 {
      TruncIsFloor(a.lo, b.hi.value);
      TruncIsFloor(a.hi.value, b.lo);
    }
    if Apply(op, a.lo, b.lo) == Some(end) { return a.lo, b.lo; }
    if Apply(op, a.lo, b.hi.value) == Some(end) { return a.lo, b.hi.value; }
    if Apply(op, a.hi.value, b.lo) == Some(end) { return a.hi.value, b.lo; }
    return a.hi.value, b.hi.value;
  }
}
