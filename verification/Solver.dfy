/** `evaluate` and `interval_of` (situc/expr.py): folding an expression, and bounding it. */
module Solver {
  import opened Prelude
  import opened Ast
  import opened Bits
  import opened Intervals

  /** What names an expression may refer to. */
  datatype Env = Env(
    consts: map<string, int>,
    enums: map<string, map<string, int>>,
    layout: Option<map<(string, string), int>>,
    fields: map<string, Interval>)

  /** One message: what each field in scope holds, how much of the frame is left, and
      the value of each `sum(run)`. */
  datatype Message = Message(fields: map<string, int>, remaining: nat, sums: map<string, nat>)

  type Folded = Result<int, Refusal>

  const VALUE_BUILTINS: map<string, nat> := map["min" := 2, "max" := 2, "align_up" := 2, "popcount" := 1]
  const LAYOUT_BUILTINS: set<string> := {"size", "offset", "count"}

  // ----- concrete evaluation

  /** `_access`: an enum member, or no constant. */
  function EnumMember(e: Expr, env: Env): Folded
    requires e.Access?
  {
    if e.base.NameRef? && e.base.name in env.enums && e.member in env.enums[e.base.name]
    then Ok(env.enums[e.base.name][e.member])
    else Err(NotConstant)
  }

  /** `_guard`: operand checks that apply however the operands were obtained. */
  function Guard(op: BinaryOp, right: int): Option<Refusal> {
    if op in {Div, Mod} && right == 0 then Some(DivisionByZero)
    else if op in {Shl, Shr} && !(0 <= right <= 64) then Some(BadShiftCount)
    else None
  }

  /** A binary operator on two known values. */
  function Fold(op: BinaryOp, l: int, r: int): Folded {
    match Guard(op, r)
    case Some(why) => Err(why)
    case None => Ok(Apply(op, l, r).value)
  }

  /** The value builtins, with their arguments evaluated. */
  function Builtin(fn: string, vs: seq<int>): Folded
    requires fn in VALUE_BUILTINS && |vs| == VALUE_BUILTINS[fn]
  {
    if fn == "min" then Ok(Min(vs[0], vs[1]))
    else if fn == "max" then Ok(Max(vs[0], vs[1]))
    else if fn == "popcount" then Ok(BitCount(vs[0]))
    else if vs[1] <= 0 then Err(BadAlignment)
    else Ok(RoundUp(vs[0], vs[1]))
  }

  /** `_layout_call`: a question the solved layout answers. */
  function LayoutCall(fn: string, arg: Expr, env: Env): Folded {
    match PathText(arg)
    case None => Err(NotAnExpression)
    case Some(path) =>
      if env.layout.Some? && (fn, path) in env.layout.value then Ok(env.layout.value[(fn, path)])
      else Err(LayoutUnknown)
  }

  /** `sum(run)`: a number the message chose. */
  function SumOf(run: Expr, m: Message): nat {
    match PathText(run)
    case Some(path) => if path in m.sums then m.sums[path] else 0
    case None => 0
  }

  /** The value of an expression. Without a message this is `evaluate`, which folds
      constants and refuses fields; with one it also reads the message's fields, as the
      generated code does: a name is a field before it is a constant. The operator tables and
      guards are the same. */
  function Value(e: Expr, env: Env, m: Option<Message>): Folded
    decreases e, 0
  {
    match e
    case IntLit(v, _) => Ok(v)
    case CharLit(code) => Ok(code)
    case NameRef(name) =>
      if m.Some? && name in m.value.fields then Ok(m.value.fields[name])
      else if name in env.consts then Ok(env.consts[name])
      else Err(NotConstant)
    case Access(_, _) =>
      var path := PathText(e);
      if m.Some? && path.Some? && path.value in m.value.fields then Ok(m.value.fields[path.value])
      else EnumMember(e, env)
    case Unary(op, operand) =>
      var v :- Value(operand, env, m);
      Ok(ApplyUnary(op, v))
    case Binary(op, left, right) =>
      var l :- Value(left, env, m);
      var r :- Value(right, env, m);
      Fold(op, l, r)
    case Call(fn, args) =>
      if fn in VALUE_BUILTINS then
        if |args| != VALUE_BUILTINS[fn] then Err(BadArity)
        else
          var vs :- Values(args, env, m);
          Builtin(fn, vs)
      else if fn in LAYOUT_BUILTINS then
        if |args| != 1 then Err(BadArity) else LayoutCall(fn, args[0], env)
      else if fn == "sum" && m.Some? then
        if |args| != 1 then Err(BadArity)
        else Ok(SumOf(args[0], m.value))
      else Err(UnknownFunction)
    case Remaining => if m.Some? then Ok(m.value.remaining) else Err(NotConstant)
    case _ => Err(NotAnExpression)
  }

  function Values(es: seq<Expr>, env: Env, m: Option<Message>): (r: Result<seq<int>, Refusal>)
    ensures r.Ok? ==> |r.value| == |es|
    ensures r.Ok? ==> forall i :: 0 <= i < |es| ==> Value(es[i], env, m) == Ok(r.value[i])
    ensures (forall e :: e in es ==> Value(e, env, m).Ok?) ==> r.Ok?
    decreases es, 0
  {
    if es == [] then Ok([])
    else
      var v :- Value(es[0], env, m);
      var vs :- Values(es[1..], env, m);
      Ok([v] + vs)
  }

  // ----- the range of an expression

  /** `interval_of`: the range an expression can take, or why it may not be a size. */
  function IntervalOf(e: Expr, env: Env): Ranged
    decreases e, 1
  {
    match e
    case IntLit(v, _) => Ok(Point(v))
    case NameRef(name) =>
      if name in env.consts then Ok(Point(env.consts[name]))
      else if name in env.fields then Ok(env.fields[name])
      else Err(NotInScope)
    case Access(_, _) =>
      var path := PathText(e);
      if path.Some? && path.value in env.fields then Ok(env.fields[path.value])
      else
        (match EnumMember(e, env)
         case Ok(v) => Ok(Point(v))
         case Err(_) => Err(NotInScope))
    case Unary(op, operand) =>
      var i :- IntervalOf(operand, env);
      Ok(UnaryInterval(op, i))
    case Binary(op, left, right) =>
      var l :- IntervalOf(left, env);
      var r :- IntervalOf(right, env);
      if l.IsPoint() && r.IsPoint() then
        var v :- Fold(op, l.lo, r.lo);
        Ok(Point(v))
      else if IsPadding(e) then
        var k :- IntervalOf(left.args[1], env);
        if k.IsPoint() && k.lo > 0 then Ok(Interval(0, Some(k.lo - 1), true))
        else BinaryInterval(op, l, r)
      else BinaryInterval(op, l, r)
    case Call(fn, args) =>
      if fn == "sum" then
        if |args| != 1 then Err(BadArity) else Ok(Interval(0, None, true))
      else if fn in VALUE_BUILTINS then
        if |args| != VALUE_BUILTINS[fn] then Err(BadArity)
        else
          var held :- IntervalsOf(args, env);
          if forall i :: 0 <= i < |held| ==> held[i].IsPoint() then
            var v :- Value(e, env, None);
            Ok(Point(v))
          else BuiltinInterval(fn, held)
      else
        var v :- Value(e, env, None);
        Ok(Point(v))
    case Remaining => Ok(Interval(0, None, true))
    case _ => Err(NotAnExpression)
  }

  function IntervalsOf(es: seq<Expr>, env: Env): (r: Result<seq<Interval>, Refusal>)
    ensures r.Ok? ==> |r.value| == |es|
    ensures r.Ok? ==> forall i :: 0 <= i < |es| ==> IntervalOf(es[i], env) == Ok(r.value[i])
    ensures (forall e :: e in es ==> IntervalOf(e, env).Ok?) ==> r.Ok?
    decreases es, 0
  {
    if es == [] then Ok([])
    else
      var i :- IntervalOf(es[0], env);
      var held :- IntervalsOf(es[1..], env);
      Ok([i] + held)
  }

  function UnaryInterval(op: UnaryOp, i: Interval): Interval {
    match op
    case Negate => if i.Bounded() then Interval(-i.hi.value, Some(-i.lo), true) else Unknown()
    case LogicalNot => if i.IsPoint() then Point(ApplyUnary(op, i.lo)) else Interval(0, Some(1), true)
    case Complement => if i.IsPoint() then Point(ApplyUnary(op, i.lo)) else Unknown()
  }

  /** The shape `align_up(x, k) - x`. */
  predicate IsPadding(e: Expr) {
    && e.Binary? && e.op == Sub && e.left.Call?
    && e.left.fn == "align_up" && |e.left.args| == 2
    && SameExpression(e.left.args[0], e.right)
  }

  /** The refusals of a binary operator that is not a constant, then its rule. */
  function BinaryInterval(op: BinaryOp, l: Interval, r: Interval): Ranged {
    if op in {Div, Mod} && MayBeZero(r) then Err(DivisorMayBeZero)
    else if op in {Div, Mod} && MayBeNegative(l) then Err(DividendMayBeNegative)
    else if op in {Shl, Shr} && !ShiftInRange(r) then Err(ShiftNotProvable)
    else Rule(op, l, r)
  }

  function BuiltinInterval(fn: string, held: seq<Interval>): Ranged
    requires fn in VALUE_BUILTINS && |held| == VALUE_BUILTINS[fn]
  {
    if exists i :: 0 <= i < |held| && !held[i].loKnown then Ok(Unknown())
    else if fn == "min" then
      Ok(Interval(Min(held[0].lo, held[1].lo),
                  if held[0].hi.None? || held[1].hi.None? then None
                  else Some(Min(held[0].hi.value, held[1].hi.value)), true))
    else if fn == "max" then
      Ok(Interval(Max(held[0].lo, held[1].lo),
                  if held[0].hi.None? || held[1].hi.None? then None
                  else Some(Max(held[0].hi.value, held[1].hi.value)), true))
    else if fn == "popcount" then
      if held[0].lo < 0 || held[0].hi.None? then Err(SignedPopcount)
      else Ok(Interval(if held[0].lo == 0 then 0 else 1, Some(BitLength(held[0].hi.value)), true))
    else if held[1].IsPoint() && held[1].lo > 0 && held[0].NonNegative() then
      Ok(Interval(RoundUp(held[0].lo, held[1].lo),
                  if held[0].hi.None? then None else Some(RoundUp(held[0].hi.value, held[1].lo)), true))
    else Ok(Unknown())
  }

  // ----- soundness

  /** Every field of the message is in scope and inside its declared range. */
  predicate InRange(env: Env, m: Message) {
    && m.fields.Keys == env.fields.Keys
    && forall f :: f in env.fields ==> env.fields[f].Contains(m.fields[f])
  }

  /** Where a field path is also spelled like an enum member, that member's value lies in
      the field's range. `_call` folds through `evaluate`, which reads the path as the enum
      member, while `interval_of` reads it as the field. */
  predicate EnumsInRange(env: Env) {
    forall e, x :: e in env.enums && x in env.enums[e] && (e + "." + x) in env.fields
      ==> env.fields[e + "." + x].Contains(env.enums[e][x])
  }

  /** A name that is both a constant and a field, which `interval_of` takes for the one and generated code
      for the other, is a field that can only hold the constant. */
  predicate SharedAgree(env: Env) {
    forall n :: n in env.consts && n in env.fields ==> env.fields[n] == Point(env.consts[n])
  }

  /** What is spelled two ways can only have one value. */
  predicate NamesAgree(env: Env) {
    EnumsInRange(env) && SharedAgree(env)
  }

  lemma {:induction false} SameValue(l: Expr, r: Expr, env: Env, m: Option<Message>)
    requires SameExpression(l, r)
    ensures Value(l, env, m) == Value(r, env, m)
    ensures PathText(l) == PathText(r)
    decreases l
  {
    hide Fold, Builtin, ApplyUnary;
    match (l, r) {
      case (Access(p, _), Access(q, _)) =>
        SameValue(p, q, env, m);
        assert p.NameRef? <==> q.NameRef?;
      case (Unary(_, x), Unary(_, y)) => SameValue(x, y, env, m);
      case (Binary(_, a, b), Binary(_, c, d)) =>
        SameValue(a, c, env, m);
        SameValue(b, d, env, m);
      case (Call(fn, xs), Call(_, ys)) =>
        SameValues(xs, ys, env, m);
        if |xs| == 1 { SameValue(xs[0], ys[0], env, m); }
      case _ =>
    }
  }

  lemma {:induction false} SameValues(xs: seq<Expr>, ys: seq<Expr>, env: Env, m: Option<Message>)
    requires |xs| == |ys| && forall i :: 0 <= i < |xs| ==> SameExpression(xs[i], ys[i])
    ensures Values(xs, env, m) == Values(ys, env, m)
    decreases xs
  {
    if xs != [] {
      SameValue(xs[0], ys[0], env, m);
      SameValues(xs[1..], ys[1..], env, m);
    }
  }

  /** Does the interval computed for `e` contain the value `e` has, where both exist? */
  predicate Bounds(e: Expr, env: Env, m: Option<Message>) {
    IntervalOf(e, env).Ok? && Value(e, env, m).Ok? ==> IntervalOf(e, env).value.Contains(Value(e, env, m).value)
  }

  /** Every value an accepted expression takes lies in the interval computed for it: with a
      message, over all messages in range; without one, for what `evaluate` folds. */
  lemma {:induction false} IntervalSound(e: Expr, env: Env, m: Option<Message>)
    requires NamesAgree(env) && (m.Some? ==> InRange(env, m.value))
    ensures Bounds(e, env, m)
    decreases e
  {
    hide Rule, Builtin, BuiltinInterval, BinaryInterval, SameExpression, Fold;
    match e {
      case Access(base, member) =>
        if base.NameRef? { assert PathText(e) == Some(base.name + "." + member); }
      case Unary(_, operand) => IntervalSound(operand, env, m);
      case Binary(op, left, right) =>
        IntervalSound(left, env, m);
        IntervalSound(right, env, m);
        if IsPadding(e) { IntervalSound(left.args[1], env, m); }
        BinarySound(e, env, m);
      case Call(fn, args) =>
        if fn in VALUE_BUILTINS {
          forall i | 0 <= i < |args| ensures Bounds(args[i], env, m) && Bounds(args[i], env, None) {
            IntervalSound(args[i], env, m);
            IntervalSound(args[i], env, None);
          }
          CallSound(e, env, m);
        }
      case _ =>
    }
  }

  lemma BinarySound(e: Expr, env: Env, m: Option<Message>)
    requires e.Binary? && Bounds(e.left, env, m) && Bounds(e.right, env, m)
    requires IsPadding(e) ==> Bounds(e.left.args[1], env, m)
    ensures Bounds(e, env, m)
  {
    hide Rule, Apply, SameExpression, Builtin, BuiltinInterval;
    if IntervalOf(e, env).Ok? && Value(e, env, m).Ok? {
      var l, r := IntervalOf(e.left, env).value, IntervalOf(e.right, env).value;
      var x, y := Value(e.left, env, m).value, Value(e.right, env, m).value;
      if IsPadding(e) { PaddingSound(e, env, m); }
      if Guarded(e.op, l, r) && Rule(e.op, l, r).Ok? { RuleSound(e.op, l, r, x, y); }
    }
  }

  /** Padding is less than the alignment it pads to. */
  lemma PaddingSound(e: Expr, env: Env, m: Option<Message>)
    requires IsPadding(e) && Value(e, env, m).Ok?
    ensures Value(e.left.args[1], env, m).Ok?
    ensures 0 <= Value(e, env, m).value < Value(e.left.args[1], env, m).value
  {
    var args := e.left.args;
    SameValue(args[0], e.right, env, m);
    var vs := Values(args, env, m).value;
    RoundUpClose(vs[0], vs[1]);
  }

  lemma CallSound(e: Expr, env: Env, m: Option<Message>)
    requires e.Call? && e.fn in VALUE_BUILTINS
    requires forall i :: 0 <= i < |e.args| ==> Bounds(e.args[i], env, m) && Bounds(e.args[i], env, None)
    ensures Bounds(e, env, m)
  {
    hide Builtin, BuiltinInterval, Rule, Fold, EnumMember, BinaryInterval, PathText, LayoutCall;
    if IntervalOf(e, env).Ok? && Value(e, env, m).Ok? {
      var held, vs := IntervalsOf(e.args, env).value, Values(e.args, env, m).value;
      forall i | 0 <= i < |held| ensures held[i].Contains(vs[i]) {
        assert Bounds(e.args[i], env, m);
      }
      if forall i :: 0 <= i < |held| ==> held[i].IsPoint() {
        var ws := Values(e.args, env, None).value;
        forall i | 0 <= i < |held| ensures ws[i] == vs[i] {
          assert Bounds(e.args[i], env, None) && held[i].IsPoint();
        }
        assert ws == vs;
      } else {
        BuiltinSound(e.fn, held, vs);
      }
    }
  }

  lemma BuiltinSound(fn: string, held: seq<Interval>, vs: seq<int>)
    requires fn in VALUE_BUILTINS && |held| == |vs| == VALUE_BUILTINS[fn]
    requires forall i :: 0 <= i < |held| ==> held[i].Contains(vs[i])
    requires BuiltinInterval(fn, held).Ok? && Builtin(fn, vs).Ok?
    ensures BuiltinInterval(fn, held).value.Contains(Builtin(fn, vs).value)
  {
    assert held[0].Contains(vs[0]);
    if fn == "popcount" {
      if held[0].loKnown {
        BitCountBound(vs[0]);
        BitLengthMonotone(vs[0], held[0].hi.value);
      }
    } else {
      assert held[1].Contains(vs[1]);
      if fn == "align_up" && held[1].IsPoint() && held[0].NonNegative() && vs[1] > 0 {
        RoundUpMonotone(held[0].lo, vs[0], vs[1]);
        if held[0].hi.Some? { RoundUpMonotone(vs[0], held[0].hi.value, vs[1]); }
      }
    }
  }
}
