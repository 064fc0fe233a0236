/** What acceptance by `interval_of` is worth (situc/expr.py): exactly when its intervals are
    sound, when an accepted expression has a value, and when the solver itself cannot fail. */
module SolverTheorems {
  import opened Prelude
  import opened Ast
  import opened Bits
  import opened Intervals
  import opened Solver

  // ----- closed expressions fold to the point `evaluate` computes

  /** No field, `sum`, `remaining` or character literal where `interval_of` looks. */
  predicate Closed(e: Expr, env: Env) {
    match e
    case NameRef(name) => name in env.consts || name !in env.fields
    case Access(_, _) => PathText(e).None? || PathText(e).value !in env.fields
    case Unary(_, operand) => Closed(operand, env)
    case Binary(_, l, r) => Closed(l, env) && Closed(r, env)
    case Call(fn, args) =>
      fn != "sum" && (fn in VALUE_BUILTINS ==> forall i | 0 <= i < |args| :: Closed(args[i], env))
    case CharLit(_) => false
    case Remaining => false
    case _ => true
  }

  lemma {:induction false} ClosedFolds(e: Expr, env: Env)
    requires Closed(e, env)
    ensures match Value(e, env, None)
            case Ok(v) => IntervalOf(e, env) == Ok(Point(v))
            case Err(_) => IntervalOf(e, env).Err?
    decreases e
  {
    match e {
      case Unary(_, operand) => ClosedFolds(operand, env);
      case Binary(_, l, r) =>
        ClosedFolds(l, env);
        ClosedFolds(r, env);
      case Call(fn, args) =>
        if fn in VALUE_BUILTINS {
          forall i | 0 <= i < |args|
            ensures match Value(args[i], env, None)
                    case Ok(v) => IntervalOf(args[i], env) == Ok(Point(v))
                    case Err(_) => IntervalOf(args[i], env).Err?
          {
            ClosedFolds(args[i], env);
          }
          if exists i :: 0 <= i < |args| && Value(args[i], env, None).Err? {
            assert IntervalsOf(args, env).Err? && Values(args, env, None).Err?;
          }
        }
      case _ =>
    }
  }

  // ----- accepted means defined

  /** The second argument of every `align_up` that evaluation reaches. */
  function Alignments(e: Expr): set<Expr>
    decreases e, 1
  {
    match e
    case Unary(_, operand) => Alignments(operand)
    case Binary(_, l, r) => Alignments(l) + Alignments(r)
    case Call(fn, args) =>
      if fn !in VALUE_BUILTINS then {}
      else AlignmentsOf(args) + (if fn == "align_up" && |args| == 2 then {args[1]} else {})
    case _ => {}
  }

  function AlignmentsOf(es: seq<Expr>): (s: set<Expr>)
    ensures forall i :: 0 <= i < |es| ==> Alignments(es[i]) <= s
    ensures forall a :: a in s ==> exists i :: 0 <= i < |es| && a in Alignments(es[i])
    decreases es, 0
  {
    if es == [] then {} else Alignments(es[0]) + AlignmentsOf(es[1..])
  }

  predicate PositiveIn(a: Expr, env: Env) {
    IntervalOf(a, env).Ok? && IntervalOf(a, env).value.loKnown && IntervalOf(a, env).value.lo > 0
  }

  predicate ConstantIn(a: Expr, env: Env) {
    IntervalOf(a, env).Ok? && IntervalOf(a, env).value.IsPoint()
  }

  predicate AlignmentsPositive(e: Expr, env: Env) {
    forall a :: a in Alignments(e) ==> PositiveIn(a, env)
  }

  predicate AlignmentsConstant(e: Expr, env: Env) {
    forall a :: a in Alignments(e) ==> ConstantIn(a, env)
  }

  /** An accepted expression whose alignments are provably positive has a value for every
      message in range: no division by zero, no shift out of range, no unresolved name. */
  lemma {:induction false} AcceptedIsDefined(e: Expr, env: Env, m: Message)
    requires NamesAgree(env) && InRange(env, m)
    requires IntervalOf(e, env).Ok? && AlignmentsPositive(e, env)
    ensures Value(e, env, Some(m)).Ok?
    decreases e
  {
    match e {
      case Unary(_, operand) => AcceptedIsDefined(operand, env, m);
      case Binary(op, l, r) =>
        AcceptedIsDefined(l, env, m);
        AcceptedIsDefined(r, env, m);
        DefinedBinary(e, env, m);
      case Call(fn, args) =>
        if fn in VALUE_BUILTINS {
          CallParts(fn, args, env, m);
          forall i | 0 <= i < |args| ensures Value(args[i], env, Some(m)).Ok? {
            AcceptedIsDefined(args[i], env, m);
          }
          DefinedCall(fn, args, env, m);
        }
      case _ =>
    }
  }

  lemma {:induction false} DefinedCall(fn: string, args: seq<Expr>, env: Env, m: Message)
    requires NamesAgree(env) && InRange(env, m)
    requires fn in VALUE_BUILTINS && |args| == VALUE_BUILTINS[fn] && AlignmentsPositive(Call(fn, args), env)
    requires forall i :: 0 <= i < |args| ==> Value(args[i], env, Some(m)).Ok?
    ensures Value(Call(fn, args), env, Some(m)).Ok?
  {
    hide AlignmentsOf, IntervalOf;
    assert Values(args, env, Some(m)).Ok?;
    if fn == "align_up" {
      assert args[1] in Alignments(Call(fn, args)) && PositiveIn(args[1], env);
      IntervalSound(args[1], env, Some(m));
    }
  }

  lemma {:induction false} DefinedBinary(e: Expr, env: Env, m: Message)
    requires NamesAgree(env) && InRange(env, m)
    requires e.Binary? && IntervalOf(e, env).Ok?
    requires Value(e.left, env, Some(m)).Ok? && Value(e.right, env, Some(m)).Ok?
    ensures Value(e, env, Some(m)).Ok?
  {
    IntervalSound(e.left, env, Some(m));
    IntervalSound(e.right, env, Some(m));
  }

  /** One alignment that is a constant below one leaves the whole expression without a value. */
  lemma {:induction false} BadAlignmentIsUndefined(e: Expr, env: Env, m: Message, a: Expr)
    requires NamesAgree(env) && InRange(env, m)
    requires a in Alignments(e) && ConstantIn(a, env) && !PositiveIn(a, env)
    ensures Value(e, env, Some(m)).Err?
    decreases e
  {
    match e {
      case Unary(_, operand) => BadAlignmentIsUndefined(operand, env, m, a);
      case Binary(op, l, r) =>
        if a in Alignments(l) { BadAlignmentIsUndefined(l, env, m, a); }
        else { BadAlignmentIsUndefined(r, env, m, a); }
      case Call(fn, args) =>
        if a in AlignmentsOf(args) {
          var i :| 0 <= i < |args| && a in Alignments(args[i]);
          BadAlignmentIsUndefined(args[i], env, m, a);
        } else {
          IntervalSound(a, env, Some(m));
        }
    }
  }

  /** Does the alignment come out positive in this message? */
  predicate PositiveAt(a: Expr, env: Env, m: Message) {
    Value(a, env, Some(m)).Ok? && Value(a, env, Some(m)).value > 0
  }

  /** An accepted expression has a value in a message exactly when every alignment it evaluates is
      positive there. */
  lemma {:induction false} AcceptedIsDefinedIff(e: Expr, env: Env, m: Message)
    requires NamesAgree(env) && InRange(env, m) && IntervalOf(e, env).Ok?
    ensures Value(e, env, Some(m)).Ok? <==> forall a :: a in Alignments(e) ==> PositiveAt(a, env, m)
    decreases e
  {
    match e {
      case Unary(_, operand) => AcceptedIsDefinedIff(operand, env, m);
      case Binary(_, l, r) =>
        AcceptedIsDefinedIff(l, env, m);
        AcceptedIsDefinedIff(r, env, m);
        if Value(l, env, Some(m)).Ok? && Value(r, env, Some(m)).Ok? { DefinedBinary(e, env, m); }
      case Call(fn, args) =>
        if fn in VALUE_BUILTINS { CallDefinedIff(fn, args, env, m); }
      case _ =>
    }
  }

  lemma {:induction false} CallDefinedIff(fn: string, args: seq<Expr>, env: Env, m: Message)
    requires NamesAgree(env) && InRange(env, m) && fn in VALUE_BUILTINS && IntervalOf(Call(fn, args), env).Ok?
    ensures Value(Call(fn, args), env, Some(m)).Ok? <==> forall a :: a in Alignments(Call(fn, args)) ==> PositiveAt(a, env, m)
    decreases args
  {
    hide Value, Alignments, AlignmentsOf, IntervalOf, PositiveAt;
    CallParts(fn, args, env, m);
    forall i | 0 <= i < |args|
      ensures Value(args[i], env, Some(m)).Ok? <==> forall a :: a in Alignments(args[i]) ==> PositiveAt(a, env, m)
    {
      AcceptedIsDefinedIff(args[i], env, m);
    }
    if i: nat :| i < |args| && Value(args[i], env, Some(m)).Err? {
      var a :| a in Alignments(args[i]) && !PositiveAt(a, env, m);
      assert a in Alignments(Call(fn, args));
    } else {
      AlignedLast(fn, args, env, m);
    }
  }

  /** What an accepted call is made of. */
  lemma CallParts(fn: string, args: seq<Expr>, env: Env, m: Message)
    requires fn in VALUE_BUILTINS && IntervalOf(Call(fn, args), env).Ok?
    ensures |args| == VALUE_BUILTINS[fn] && forall i :: 0 <= i < |args| ==> IntervalOf(args[i], env).Ok?
    ensures forall i :: 0 <= i < |args| ==> Alignments(args[i]) <= Alignments(Call(fn, args))
    ensures Value(Call(fn, args), env, Some(m)).Ok? ==> forall i :: 0 <= i < |args| ==> Value(args[i], env, Some(m)).Ok?
  {
    assert IntervalsOf(args, env).Ok?;
  }

  /** With its arguments evaluated, a call is defined exactly when its own alignment is positive. */
  lemma AlignedLast(fn: string, args: seq<Expr>, env: Env, m: Message)
    requires fn in VALUE_BUILTINS && |args| == VALUE_BUILTINS[fn]
    requires forall i :: 0 <= i < |args| ==> Value(args[i], env, Some(m)).Ok?
    requires forall i, a :: 0 <= i < |args| && a in Alignments(args[i]) ==> PositiveAt(a, env, m)
    ensures Value(Call(fn, args), env, Some(m)).Ok? <==> forall a :: a in Alignments(Call(fn, args)) ==> PositiveAt(a, env, m)
  {
    var vs := Values(args, env, Some(m)).value;
    assert forall a :: a in AlignmentsOf(args) ==> PositiveAt(a, env, m);
    assert Value(Call(fn, args), env, Some(m)) == Builtin(fn, vs);
    hide Value, AlignmentsOf;
    if fn == "align_up" {
      assert args[1] in Alignments(Call(fn, args));
      assert PositiveAt(args[1], env, m) <==> vs[1] > 0;
    }
  }

  /** Where alignments are constants, as they are wherever a generator can reproduce them, that is so in
      every message exactly when the constants are positive. */
  lemma ConstantAlignmentsIff(e: Expr, env: Env, m: Message)
    requires NamesAgree(env) && InRange(env, m)
    requires IntervalOf(e, env).Ok? && AlignmentsConstant(e, env)
    ensures Value(e, env, Some(m)).Ok? <==> AlignmentsPositive(e, env)
  {
    if AlignmentsPositive(e, env) {
      AcceptedIsDefined(e, env, m);
    } else {
      var a :| a in Alignments(e) && !PositiveIn(a, env);
      BadAlignmentIsUndefined(e, env, m, a);
    }
  }

  // ----- what the refusals buy the generated code

  /** Truncation and floor agree on a non-negative dividend exactly where the divisor is
      positive or nothing is left over. */
  lemma TruncationIsFloorIff(a: nat, b: int)
    requires b != 0
    ensures TruncDiv(a, b) == FloorDiv(a, b) <==> b > 0 || a % -b == 0
  {
    if b < 0 {
      var d := -b;
      var q, r := a / d, a % d;
      assert a == q * d + r;
      var floor := if r == 0 then 0 - q else 0 - q - 1;
      DivUnique(0 - a, d, floor);
    }
  }

  /** Python's `%`. */
  function FloorMod(a: int, b: int): int
    requires b != 0
  {
    a - FloorDiv(a, b) * b
  }

  /** The operands an accepted, non-constant `/`, `%`, `<<` or `>>` meets in any message. */
  lemma AcceptedOperands(e: Expr, env: Env, m: Message)
    requires NamesAgree(env) && InRange(env, m)
    requires e.Binary? && IntervalOf(e, env).Ok?
    requires !(IntervalOf(e.left, env).value.IsPoint() && IntervalOf(e.right, env).value.IsPoint())
    requires Value(e.left, env, Some(m)).Ok? && Value(e.right, env, Some(m)).Ok?
    ensures var l, r := Value(e.left, env, Some(m)).value, Value(e.right, env, Some(m)).value;
            && (e.op in {Div, Mod} ==> l >= 0 && r != 0)
            && (e.op == Div ==> (TruncDiv(l, r) == FloorDiv(l, r) <==> r > 0 || l % -r == 0))
            && (e.op == Mod ==> (TruncMod(l, r) == FloorMod(l, r) <==> r > 0 || l % -r == 0))
            && (e.op in {Shl, Shr} ==> 0 <= r < SHIFT_WIDTH)
  {
    IntervalSound(e.left, env, Some(m));
    IntervalSound(e.right, env, Some(m));
    var l, r := Value(e.left, env, Some(m)).value, Value(e.right, env, Some(m)).value;
    if e.op == Div { TruncationIsFloorIff(l, r); }
    if e.op == Mod { RemainderIsFloorIff(l, r); }
  }

  /** A field of more than one value divided by a negative constant is accepted, and C and Python agree on
      the quotient in every message, and likewise on the remainder, exactly when the constant is -1. */
  lemma NegativeDivisorIff(env: Env, f: string, d: int)
    requires f in env.fields && f !in env.consts && d < 0
    requires env.fields[f].NonNegative() && env.fields[f].Bounded() && env.fields[f].lo < env.fields[f].hi.value
    ensures IntervalOf(Binary(Div, NameRef(f), Unary(Negate, IntLit(-d, ""))), env).Ok?
    ensures IntervalOf(Binary(Mod, NameRef(f), Unary(Negate, IntLit(-d, ""))), env).Ok?
    ensures (forall v :: env.fields[f].Contains(v) ==> TruncDiv(v, d) == FloorDiv(v, d)) <==> d == -1
    ensures (forall v :: env.fields[f].Contains(v) ==> TruncMod(v, d) == FloorMod(v, d)) <==> d == -1
  {
    hide TruncDiv, FloorDiv, TruncMod, FloorMod, IntervalOf;
    var range := env.fields[f];
    DividedByConstant(env, f, d);
    forall v | range.Contains(v)
      ensures TruncDiv(v, d) == FloorDiv(v, d) <==> v % -d == 0
      ensures TruncMod(v, d) == FloorMod(v, d) <==> v % -d == 0
    {
      TruncationIsFloorIff(v, d);
      RemainderIsFloorIff(v, d);
    }
    assert range.Contains(range.lo) && range.Contains(range.lo + 1);
    if d < -1 { ConsecutiveMultiples(range.lo, -d); }
  }

  lemma DividedByConstant(env: Env, f: string, d: int)
    requires f in env.fields && f !in env.consts && d != 0
    requires env.fields[f].NonNegative() && !env.fields[f].IsPoint()
    ensures IntervalOf(Binary(Div, NameRef(f), Unary(Negate, IntLit(-d, ""))), env).Ok?
    ensures IntervalOf(Binary(Mod, NameRef(f), Unary(Negate, IntLit(-d, ""))), env).Ok?
  {
    hide AddInterval, MulInterval, AndInterval, OrInterval, XorInterval, ShlInterval, ShrInterval, Corners, BuiltinInterval;
    assert IntervalOf(NameRef(f), env) == Ok(env.fields[f]);
    assert IntervalOf(Unary(Negate, IntLit(-d, "")), env) == Ok(Point(d));
  }

  lemma ConsecutiveMultiples(n: nat, d: nat)
    requires d > 1
    ensures n % d != 0 || (n + 1) % d != 0
  {
    if n % d == 0 {
      assert n == n / d * d;
      DivUnique(n + 1, d, n / d);
    }
  }

  /** The remainders agree exactly where the quotients do. */
  lemma RemainderIsFloorIff(a: nat, b: int)
    requires b != 0
    ensures TruncMod(a, b) == FloorMod(a, b) <==> b > 0 || a % -b == 0
  {
    hide TruncDiv, FloorDiv;
    TruncationIsFloorIff(a, b);
    SameProduct(TruncDiv(a, b), FloorDiv(a, b), b);
  }

  lemma SameProduct(x: int, y: int, b: int)
    requires b != 0
    ensures x * b == y * b <==> x == y
  {
    if x < y { MulDistributes(y, x, b); assert (y - x) * b != 0; }
    if x > y { MulDistributes(x, y, b); assert (x - y) * b != 0; }
  }

  // ----- exactly when intervals are sound

  lemma CallOfTwo(fn: string, a: Expr, b: Expr, env: Env, m: Option<Message>)
    requires fn in {"min", "max"}
    requires Value(a, env, m).Ok? && Value(b, env, m).Ok?
    requires IntervalOf(a, env).Ok? && IntervalOf(b, env).Ok?
    ensures Value(Call(fn, [a, b]), env, m) == Builtin(fn, [Value(a, env, m).value, Value(b, env, m).value])
    ensures var i, j := IntervalOf(a, env).value, IntervalOf(b, env).value;
            IntervalOf(Call(fn, [a, b]), env) ==
            if !(i.IsPoint() && j.IsPoint()) then BuiltinInterval(fn, [i, j])
            else match Value(Call(fn, [a, b]), env, None) case Ok(v) => Ok(Point(v)) case Err(why) => Err(why)
  {
    hide Builtin, BuiltinInterval, Rule, Fold, BinaryInterval, EnumMember, PathText;
    TwoValues(a, b, env, m);
    var held := IntervalsOf([a, b], env).value;
    assert held == [IntervalOf(a, env).value, IntervalOf(b, env).value];
    assert held[0].IsPoint() && held[1].IsPoint() <==> forall i :: 0 <= i < |held| ==> held[i].IsPoint();
  }

  lemma TwoValues(a: Expr, b: Expr, env: Env, m: Option<Message>)
    requires Value(a, env, m).Ok? && Value(b, env, m).Ok?
    ensures Values([a, b], env, m) == Ok([Value(a, env, m).value, Value(b, env, m).value])
  {
    hide Value, Values;
    var es := [a, b];
    assert es[0] == a && es[1] == b && forall e :: e in es ==> Value(e, env, m).Ok?;
    assert Values(es, env, m).value == [Value(a, env, m).value, Value(b, env, m).value];
  }

  /** Is the expression computed when a message is read? One whose range is a point is emitted as it. */
  predicate Computed(e: Expr, env: Env) {
    IntervalOf(e, env).Ok? && !IntervalOf(e, env).value.IsPoint()
  }

  /** `e + remaining % 2`, which no range makes a point. */
  function Unfolded(e: Expr): Expr {
    Binary(Add, e, Binary(Mod, Remaining, IntLit(2, "2")))
  }

  /** What is remaining, to take it past the end of its range that is wrong. */
  function Away(c: int, v: int): nat {
    if v > c then 1 else 0
  }

  /** Where an expression is taken for one value and has another, so is one that is computed. */
  lemma UnfoldedUnsound(e: Expr, env: Env, m: Message, c: int, v: int)
    requires IntervalOf(e, env) == Ok(Point(c)) && Value(e, env, Some(m)) == Ok(v) && v != c && m.remaining == Away(c, v)
    ensures Computed(Unfolded(e), env) && !Bounds(Unfolded(e), env, Some(m))
  {
    hide IntervalOf, Value, Rule;
    ParityRange(env, m);
    SumParts(e, Binary(Mod, Remaining, IntLit(2, "2")), env, m);
    assert Rule(Add, Point(c), Interval(0, Some(1), true)) == Ok(Interval(c, Some(c + 1), true)) by { PointPlus(c); }
  }

  lemma ParityRange(env: Env, m: Message)
    requires m.remaining < 2
    ensures IntervalOf(Binary(Mod, Remaining, IntLit(2, "2")), env) == Ok(Interval(0, Some(1), true))
    ensures Value(Binary(Mod, Remaining, IntLit(2, "2")), env, Some(m)) == Ok(m.remaining)
  {
    hide AddInterval, MulInterval, AndInterval, OrInterval, XorInterval, ShlInterval, ShrInterval, Corners, BuiltinInterval;
    assert Value(Remaining, env, Some(m)) == Ok(m.remaining) && Value(IntLit(2, "2"), env, Some(m)) == Ok(2);
    assert IntervalOf(Remaining, env) == Ok(Interval(0, None, true)) && IntervalOf(IntLit(2, "2"), env) == Ok(Point(2));
    TruncIsFloor(m.remaining, 2);
  }

  lemma PointPlus(c: int)
    ensures Rule(Add, Point(c), Interval(0, Some(1), true)) == Ok(Interval(c, Some(c + 1), true))
  {
  }

  lemma SumParts(l: Expr, r: Expr, env: Env, m: Message)
    requires IntervalOf(l, env).Ok? && IntervalOf(r, env).Ok? && !IntervalOf(r, env).value.IsPoint()
    requires Value(l, env, Some(m)).Ok? && Value(r, env, Some(m)).Ok?
    ensures IntervalOf(Binary(Add, l, r), env) == Rule(Add, IntervalOf(l, env).value, IntervalOf(r, env).value)
    ensures Value(Binary(Add, l, r), env, Some(m)) == Ok(Value(l, env, Some(m)).value + Value(r, env, Some(m)).value)
  {
    hide Rule;
  }

  /** An expression and a message that break soundness where an enum member's value is outside the range
      of the field its path also names. */
  lemma EnumOutOfRangeUnsound(env: Env, en: string, x: string) returns (e: Expr, m: Message)
    requires forall f :: f in env.fields ==> env.fields[f].Bounded() && env.fields[f].Inhabited()
    requires en in env.enums && x in env.enums[en] && (en + "." + x) in env.fields
    requires !env.fields[en + "." + x].Contains(env.enums[en][x])
    ensures InRange(env, m) && Computed(e, env) && !Bounds(e, env, Some(m))
  {
    hide Value, IntervalOf, Unfolded;
    var path := en + "." + x;
    var range, w := env.fields[path], env.enums[en][x];
    var fn, end := if w < range.lo then "min" else "max", if w < range.lo then range.lo else range.hi.value;
    m := Message(map f | f in env.fields :: if f == path then end else env.fields[f].lo, Away(w, end), map[]);
    var folded := FoldedMember(env, en, x, fn, end, m);
    UnfoldedUnsound(folded, env, m, w, end);
    e := Unfolded(folded);
  }

  /** The member's path folded twice over: once it is read as the field, and then as the member. */
  lemma FoldedMember(env: Env, en: string, x: string, fn: string, end: int, m: Message) returns (e: Expr)
    requires en in env.enums && x in env.enums[en] && (en + "." + x) in env.fields && env.fields[en + "." + x].Bounded()
    requires var w, range := env.enums[en][x], env.fields[en + "." + x];
             (fn == "min" && w < range.lo == end) || (fn == "max" && w > range.hi.value == end)
    requires (en + "." + x) in m.fields && m.fields[en + "." + x] == end && env.fields[en + "." + x].Inhabited()
    ensures IntervalOf(e, env) == Ok(Point(env.enums[en][x])) && Value(e, env, Some(m)) == Ok(end)
  {
    var w := env.enums[en][x];
    var access := Access(NameRef(en), x);
    assert PathText(access) == Some(en + "." + x);
    var lit := IntLit(end, "");
    var inner := Call(fn, [access, lit]);
    e := Call(fn, [inner, lit]);
    CallOfTwo(fn, access, lit, env, None);
    CallOfTwo(fn, access, lit, env, Some(m));
    assert Value(inner, env, None) == Ok(w) && Value(inner, env, Some(m)) == Ok(end);
    CallOfTwo(fn, inner, lit, env, None);
    CallOfTwo(fn, inner, lit, env, Some(m));
  }

  /** And where a constant shares its name with a field that can hold something else: `n + remaining % 2`. */
  lemma SharedNameUnsound(env: Env, n: string) returns (e: Expr, m: Message)
    requires forall f :: f in env.fields ==> env.fields[f].Bounded() && env.fields[f].Inhabited()
    requires n in env.consts && n in env.fields && env.fields[n] != Point(env.consts[n])
    ensures InRange(env, m) && Computed(e, env) && !Bounds(e, env, Some(m))
  {
    hide Unfolded;
    var c, held := env.consts[n], env.fields[n];
    var v := if held.lo != c then held.lo else held.hi.value;
    m := Message(map f | f in env.fields :: if f == n then v else env.fields[f].lo, Away(c, v), map[]);
    UnfoldedUnsound(NameRef(n), env, m, c, v);
    e := Unfolded(NameRef(n));
  }

  /** `interval_of` bounds every expression over every message, and every one that is computed, exactly
      when no enum member shares a path with a field whose range excludes its value and no constant its
      name with a field that can hold anything else. */
  lemma SoundIff(env: Env)
    requires forall f :: f in env.fields ==> env.fields[f].Bounded() && env.fields[f].Inhabited()
    ensures NamesAgree(env) <==> forall e, m :: InRange(env, m) ==> Bounds(e, env, Some(m))
    ensures NamesAgree(env) <==> forall e, m :: InRange(env, m) && Computed(e, env) ==> Bounds(e, env, Some(m))
  {
    hide Bounds, Computed, InRange;
    if NamesAgree(env) {
      forall e, m | InRange(env, m) ensures Bounds(e, env, Some(m)) {
        IntervalSound(e, env, Some(m));
      }
    } else if !EnumsInRange(env) {
      var en, x :| en in env.enums && x in env.enums[en] && (en + "." + x) in env.fields
        && !env.fields[en + "." + x].Contains(env.enums[en][x]);
      var e, m := EnumOutOfRangeUnsound(env, en, x);
    } else {
      var n :| n in env.consts && n in env.fields && env.fields[n] != Point(env.consts[n]);
      var e, m := SharedNameUnsound(env, n);
    }
  }

  // ----- exactly when the solver itself cannot raise

  lemma RuleInhabited(op: BinaryOp, a: Interval, b: Interval)
    requires a.Inhabited() && b.Inhabited() && Guarded(op, a, b)
    ensures Rule(op, a, b).Ok? && Rule(op, a, b).value.Inhabited()
  {
    if a.Bounded() && b.Bounded() {
      if Exact(op) {
        var _ := RuleAtLow(op, a, b);
      } else if a.NonNegative() && b.NonNegative() {
        BitLengthBound(Max(a.hi.value, b.hi.value));
      }
    } else if Exact(op) {
      UnboundedRule(op, a, b);
    }
  }

  lemma UnboundedRule(op: BinaryOp, a: Interval, b: Interval)
    requires Exact(op) && Guarded(op, a, b) && a.Inhabited() && b.Inhabited() && !(a.Bounded() && b.Bounded())
    ensures Rule(op, a, b).Ok? && Rule(op, a, b).value.Inhabited()
  {
    match op {
      case Div => if b.lo > 0 && a.hi.Some? { DivMonotone(0, a.hi.value, b.lo); }
      case _ =>
    }
  }

  /** The low corner of the box gives a value, and the rule contains it. */
  lemma RuleAtLow(op: BinaryOp, a: Interval, b: Interval) returns (v: int)
    requires Exact(op) && Guarded(op, a, b)
    requires a.Bounded() && a.Inhabited() && b.Bounded() && b.Inhabited()
    ensures Rule(op, a, b).Ok? && Rule(op, a, b).value.Contains(v)
  {
    RuleSound(op, a, b, a.lo, b.lo);
    v := Apply(op, a.lo, b.lo).value;
  }

  lemma BuiltinInhabited(fn: string, held: seq<Interval>)
    requires fn in VALUE_BUILTINS && |held| == VALUE_BUILTINS[fn]
    requires forall i :: 0 <= i < |held| ==> held[i].Inhabited()
    ensures BuiltinInterval(fn, held) != Err(HostError)
    ensures BuiltinInterval(fn, held).Ok? ==> BuiltinInterval(fn, held).value.Inhabited()
  {
    assert held[0].Inhabited();
    if fn == "popcount" {
      if held[0].loKnown && held[0].lo >= 0 && held[0].hi.Some? {
        BitCountBound(held[0].hi.value);
      }
    } else {
      assert held[1].Inhabited();
      if fn == "align_up" && held[1].IsPoint() && held[1].lo > 0 && held[0].NonNegative() && held[0].hi.Some? {
        RoundUpMonotone(held[0].lo, held[0].hi.value, held[1].lo);
      }
    }
  }

  /** Does some expression read the field? A constant of the same name hides it, unless it is a dotted
      path, which is looked up among the fields first. */
  predicate Read(env: Env, f: string) {
    f in env.fields && (f !in env.consts || '.' in f)
  }

  predicate AllInhabited(env: Env) {
    forall f <- env.fields :: Read(env, f) ==> env.fields[f].Inhabited()
  }

  /** Over inhabited ranges `interval_of` answers or refuses; no Python exception escapes it. */
  lemma {:induction false} NoHostError(e: Expr, env: Env)
    requires AllInhabited(env)
    ensures IntervalOf(e, env) != Err(HostError)
    ensures IntervalOf(e, env).Ok? ==> IntervalOf(e, env).value.Inhabited()
    decreases e
  {
    match e {
      case NameRef(name) => assert name in env.fields && name !in env.consts ==> Read(env, name);
      case Access(_, _) =>
        var path := PathText(e);
        assert path.Some? ==> '.' in path.value;
        assert path.Some? && path.value in env.fields ==> Read(env, path.value);
      case Unary(_, operand) => NoHostError(operand, env);
      case Binary(op, l, r) =>
        NoHostError(l, env);
        NoHostError(r, env);
        if IsPadding(e) { NoHostError(l.args[1], env); }
        if IntervalOf(l, env).Ok? && IntervalOf(r, env).Ok? {
          if Guarded(op, IntervalOf(l, env).value, IntervalOf(r, env).value) {
            RuleInhabited(op, IntervalOf(l, env).value, IntervalOf(r, env).value);
          }
        }
      case Call(fn, args) =>
        NoHostFold(e, env);
        if fn in VALUE_BUILTINS {
          NoHostErrors(args, env);
          if |args| == VALUE_BUILTINS[fn] && IntervalsOf(args, env).Ok? {
            BuiltinInhabited(fn, IntervalsOf(args, env).value);
          }
        }
      case _ =>
    }
  }

  lemma {:induction false} NoHostErrors(es: seq<Expr>, env: Env)
    requires AllInhabited(env)
    ensures IntervalsOf(es, env) != Err(HostError)
    ensures IntervalsOf(es, env).Ok? ==>
      forall i :: 0 <= i < |es| ==> IntervalsOf(es, env).value[i].Inhabited()
    decreases es
  {
    if es != [] {
      NoHostError(es[0], env);
      NoHostErrors(es[1..], env);
    }
  }

  lemma {:induction false} NoHostFold(e: Expr, env: Env)
    ensures Value(e, env, None) != Err(HostError)
    decreases e
  {
    match e {
      case Unary(_, operand) => NoHostFold(operand, env);
      case Binary(_, l, r) =>
        NoHostFold(l, env);
        NoHostFold(r, env);
      case Call(_, args) => NoHostFolds(args, env);
      case _ =>
    }
  }

  lemma {:induction false} NoHostFolds(es: seq<Expr>, env: Env)
    ensures Values(es, env, None) != Err(HostError)
    decreases es
  {
    if es != [] {
      NoHostFold(es[0], env);
      NoHostFolds(es[1..], env);
    }
  }

  /** An expression that reads the field. */
  lemma {:induction false} Reader(env: Env, f: string) returns (e: Expr)
    requires Read(env, f)
    ensures IntervalOf(e, env) == Ok(env.fields[f])
  {
    if f !in env.consts {
      e := NameRef(f);
    } else {
      var i :| 0 <= i < |f| && f[i] == '.';
      e := Access(NameRef(f[..i]), f[i + 1..]);
      assert f == f[..i] + "." + f[i + 1..];
      assert PathText(e) == Some(f);
    }
  }

  /** A range that `[min]` and `[max]` emptied is enough to crash the solver: divide by the
      field less its maximum. So the solver is total exactly when every range it reads is inhabited. */
  lemma NoHostErrorIff(env: Env)
    ensures AllInhabited(env) <==> forall e :: IntervalOf(e, env) != Err(HostError)
  {
    hide IntervalOf;
    if AllInhabited(env) {
      forall e ensures IntervalOf(e, env) != Err(HostError) { NoHostError(e, env); }
    } else {
      var f :| Read(env, f) && !env.fields[f].Inhabited();
      var reader := Reader(env, f);
      var e := Crasher(env, env.fields[f], reader);
    }
  }

  lemma EmptyDivisor(range: Interval)
    requires !range.Inhabited()
    ensures BinaryInterval(Sub, range, Point(range.hi.value)) == Ok(Interval(range.lo - range.hi.value, Some(0), true))
    ensures BinaryInterval(Div, Point(1), Interval(range.lo - range.hi.value, Some(0), true)) == Err(HostError)
  {
  }

  lemma Crasher(env: Env, range: Interval, reader: Expr) returns (e: Expr)
    requires IntervalOf(reader, env) == Ok(range) && !range.Inhabited()
    ensures IntervalOf(e, env) == Err(HostError)
  {
    hide BinaryInterval, BuiltinInterval, Fold, Value;
    var top := IntLit(range.hi.value, "");
    var divisor := Binary(Sub, reader, top);
    e := Binary(Div, IntLit(1, "1"), divisor);
    EmptyDivisor(range);
    assert IntervalOf(top, env) == Ok(Point(range.hi.value)) && IntervalOf(IntLit(1, "1"), env) == Ok(Point(1));
    assert IntervalOf(divisor, env) == Ok(Interval(range.lo - top.value, Some(0), true));
  }
}
