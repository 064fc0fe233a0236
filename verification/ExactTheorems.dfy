/** Which expressions have exactly the range they are given: padding, and whatever names each field once
    (situc/expr.py). */
module ExactTheorems {
  import opened Prelude
  import opened Ast
  import opened Bits
  import opened Intervals
  import opened Solver
  import opened Exactness

  // ----- the same expression twice

  /** Kinds of expression that are compared. */
  predicate Comparable(e: Expr) {
    match e
    case IntLit(_, _) => true
    case NameRef(_) => true
    case Access(base, _) => Comparable(base)
    case Unary(_, x) => Comparable(x)
    case Binary(_, l, r) => Comparable(l) && Comparable(r)
    case Call(_, args) => forall i | 0 <= i < |args| :: Comparable(args[i])
    case _ => false
  }

  /** The expression whatever its literals are spelled like. */
  function Unspelled(e: Expr): Expr {
    match e
    case IntLit(v, _) => IntLit(v, "")
    case Access(base, member) => Access(Unspelled(base), member)
    case Unary(op, x) => Unary(op, Unspelled(x))
    case Binary(op, l, r) => Binary(op, Unspelled(l), Unspelled(r))
    case Call(fn, args) => Call(fn, seq(|args|, i requires 0 <= i < |args| => Unspelled(args[i])))
    case _ => e
  }

  /** Two expressions are taken for one exactly when they are comparable and differ in no more than how their
      literals are spelled. */
  lemma {:induction false} SameExpressionIff(l: Expr, r: Expr)
    ensures SameExpression(l, r) <==> Comparable(l) && Unspelled(l) == Unspelled(r)
  {
    match (l, r)
    case (Access(p, _), Access(q, _)) => SameExpressionIff(p, q);
    case (Unary(_, x), Unary(_, y)) => SameExpressionIff(x, y);
    case (Binary(_, a, b), Binary(_, c, d)) =>
      SameExpressionIff(a, c);
      SameExpressionIff(b, d);
    case (Call(f, xs), Call(g, ys)) =>
      if |xs| == |ys| {
        forall i | 0 <= i < |xs| ensures SameExpression(xs[i], ys[i]) <==> Comparable(xs[i]) && Unspelled(xs[i]) == Unspelled(ys[i]) {
          SameExpressionIff(xs[i], ys[i]);
        }
        var us, vs := Unspelled(l).args, Unspelled(r).args;
        assert forall i :: 0 <= i < |xs| ==> us[i] == Unspelled(xs[i]) && vs[i] == Unspelled(ys[i]);
        if SameExpression(l, r) { assert us == vs; }
        if Comparable(l) && Unspelled(l) == Unspelled(r) {
          forall i | 0 <= i < |xs| ensures SameExpression(xs[i], ys[i]) { assert us[i] == vs[i]; }
        }
      } else {
        assert |Unspelled(l).args| == |xs| && |Unspelled(r).args| == |ys|;
      }
    case _ =>
  }

  // ----- padding

  /** The messages in which the padded expression has `count` values, one after the other. */
  ghost predicate Consecutive(x: Expr, env: Env, ms: seq<Message>, first: int) {
    forall i :: 0 <= i < |ms| ==> InRange(env, ms[i]) && Value(x, env, Some(ms[i])) == Ok(first + i)
  }

  /** An accepted `align_up(x, k) - x` over a constant `k`, its two sides not both known. */
  predicate Pads(e: Expr, env: Env, k: int) {
    && IsPadding(e) && IntervalOf(e.left, env).Ok? && IntervalOf(e.right, env).Ok?
    && !(IntervalOf(e.left, env).value.IsPoint() && IntervalOf(e.right, env).value.IsPoint())
    && IntervalOf(e.left.args[1], env) == Ok(Point(k)) && k > 0
  }

  lemma {:induction false} PaddingIs(e: Expr, env: Env, k: int)
    requires Pads(e, env, k)
    ensures IntervalOf(e, env) == Ok(Interval(0, Some(k - 1), true))
  {
  }

  /** It ranges within 0 to `k - 1`, whatever the range of `x`. */
  lemma {:induction false} PaddingWithin(e: Expr, env: Env, k: int)
    requires Pads(e, env, k)
    ensures IntervalOf(e, env).Ok? && IntervalOf(e, env).value.Bounded()
    ensures 0 <= IntervalOf(e, env).value.lo && IntervalOf(e, env).value.hi.value < k
  {
    PaddingIs(e, env, k);
  }

  /** Where `x` has `k` values one after the other, both ends of that range are attained. */
  lemma {:induction false} PaddingAttained(e: Expr, env: Env, k: int, ms: seq<Message>, first: int) returns (m: Message, m': Message)
    requires NamesAgree(env) && Pads(e, env, k) && |ms| == k && Consecutive(e.right, env, ms, first)
    requires forall i :: 0 <= i < k ==> Value(e.left.args[1], env, Some(ms[i])).Ok?
    ensures IntervalOf(e, env).Ok? && IntervalOf(e, env).value.Bounded() && m in ms && m' in ms
    ensures Value(e, env, Some(m)) == Ok(IntervalOf(e, env).value.lo)
    ensures Value(e, env, Some(m')) == Ok(IntervalOf(e, env).value.hi.value)
  {
    hide RoundUp, NamesAgree, InRange, IntervalOf, Value, IsPadding;
    PaddingIs(e, env, k);
    var i, j := RoundPlaces(first, k);
    m, m' := ms[i], ms[j];
    PaddingAt(e, env, m, k, first + i);
    PaddingAt(e, env, m', k, first + j);
  }

  /** Among `k` numbers in a row one is a multiple of `k` and one is just above one. */
  lemma RoundPlaces(first: int, k: int) returns (i: nat, j: nat)
    requires k > 0
    ensures i < k && RoundUp(first + i, k) - (first + i) == 0
    ensures j < k && RoundUp(first + j, k) - (first + j) == k - 1
  {
    hide RoundUp;
    RoundUpIs(first, k);
    var up := RoundUp(first, k);
    i := up - first;
    var q := up / k;
    MulDistributes(q, 1, k);
    Rounds(up, q, k);
    if i + 1 < k {
      j := i + 1;
      Rounds(up + 1, q + 1, k);
    } else {
      j := 0;
    }
  }

  lemma Rounds(x: int, q: int, k: int)
    requires k > 0 && q * k - k < x <= q * k
    ensures RoundUp(x, k) == q * k
  {
    DivUnique(x + k - 1, k, q);
  }

  lemma {:induction false} PaddingAt(e: Expr, env: Env, m: Message, k: int, x: int)
    requires IsPadding(e) && NamesAgree(env) && InRange(env, m) && IntervalOf(e.left.args[1], env) == Ok(Point(k)) && k > 0
    requires Value(e.right, env, Some(m)) == Ok(x) && Value(e.left.args[1], env, Some(m)).Ok?
    ensures Value(e, env, Some(m)) == Ok(RoundUp(x, k) - x)
  {
    hide IntervalOf;
    var args := e.left.args;
    SameValue(args[0], e.right, env, Some(m));
    IntervalSound(args[1], env, Some(m));
    TwoArguments(e.left, env, m, x, k);
  }

  lemma TwoArguments(e: Expr, env: Env, m: Message, x: int, y: int)
    requires e.Call? && e.fn in {"min", "max", "align_up"} && |e.args| == 2
    requires Value(e.args[0], env, Some(m)) == Ok(x) && Value(e.args[1], env, Some(m)) == Ok(y)
    ensures Value(e, env, Some(m)) == Builtin(e.fn, [x, y])
  {
    hide Builtin;
    assert e.args[1..][0] == e.args[1] && e.args[1..][1..] == [];
    assert Values(e.args[1..], env, Some(m)) == Ok([y]) by { assert [y] + [] == [y]; }
    assert [x] + [y] == [x, y];
  }

  // ----- what an expression reads

  datatype Source = Field(path: string) | Rest | Run(run: string)

  function Uses(e: Expr): set<Source>
    decreases e, 0
  {
    match e
    case NameRef(name) => {Field(name)}
    case Access(_, _) => if PathText(e).Some? then {Field(PathText(e).value)} else {}
    case Unary(_, x) => Uses(x)
    case Binary(_, l, r) => Uses(l) + Uses(r)
    case Call(fn, args) =>
      if fn == "sum" then (if |args| == 1 && PathText(args[0]).Some? then {Run(PathText(args[0]).value)} else {}) else UsesAll(args)
    case Remaining => {Rest}
    case _ => {}
  }

  function UsesAll(es: seq<Expr>): set<Source>
    decreases es, 1
  {
    if es == [] then {} else Uses(es[0]) + UsesAll(es[1..])
  }

  predicate Agree(m: Message, m': Message, s: Source) {
    match s
    case Field(path) => (path in m.fields <==> path in m'.fields) && (path in m.fields ==> m.fields[path] == m'.fields[path])
    case Rest => m.remaining == m'.remaining
    case Run(run) => (run in m.sums <==> run in m'.sums) && (run in m.sums ==> m.sums[run] == m'.sums[run])
  }

  predicate AgreeOn(m: Message, m': Message, sources: set<Source>) {
    forall s :: s in sources ==> Agree(m, m', s)
  }

  /** An expression's value is decided by what it reads. */
  lemma {:induction false} ValueReads(e: Expr, env: Env, m: Message, m': Message)
    requires AgreeOn(m, m', Uses(e))
    ensures Value(e, env, Some(m)) == Value(e, env, Some(m'))
    decreases e, 0
  {
    hide Fold, Builtin, ApplyUnary, LayoutCall, EnumMember;
    match e
    case NameRef(name) => assert Agree(m, m', Field(name));
    case Access(_, _) => if PathText(e).Some? { assert Agree(m, m', Field(PathText(e).value)); }
    case Unary(_, x) => ValueReads(x, env, m, m');
    case Binary(_, l, r) =>
      assert AgreeOn(m, m', Uses(l)) && AgreeOn(m, m', Uses(r));
      ValueReads(l, env, m, m');
      ValueReads(r, env, m, m');
    case Call(fn, args) =>
      if fn == "sum" {
        if |args| == 1 && PathText(args[0]).Some? { assert Agree(m, m', Run(PathText(args[0]).value)); }
      } else {
        ValuesRead(args, env, m, m');
      }
    case Remaining => assert Agree(m, m', Rest);
    case _ =>
  }

  lemma {:induction false} ValuesRead(es: seq<Expr>, env: Env, m: Message, m': Message)
    requires AgreeOn(m, m', UsesAll(es))
    ensures Values(es, env, Some(m)) == Values(es, env, Some(m'))
    decreases es, 1
  {
    if es != [] {
      assert AgreeOn(m, m', Uses(es[0])) && AgreeOn(m, m', UsesAll(es[1..]));
      ValueReads(es[0], env, m, m');
      ValuesRead(es[1..], env, m, m');
    }
  }

  /** A question to the layout has the answer the layout gives for that question and path, in every
      message and without one, and no other value. */
  lemma {:induction false} LayoutCallIff(fn: string, args: seq<Expr>, env: Env, m: Option<Message>, v: int)
    requires fn in {"size", "offset", "count"}
    ensures Value(Call(fn, args), env, m) == Ok(v) <==>
            && |args| == 1 && PathText(args[0]).Some? && env.layout.Some?
            && (fn, PathText(args[0]).value) in env.layout.value && env.layout.value[(fn, PathText(args[0]).value)] == v
    ensures Value(Call(fn, args), env, m).Err? ==>
              Value(Call(fn, args), env, m).error ==
              if |args| != 1 then BadArity else if PathText(args[0]) == None then NotAnExpression else LayoutUnknown
  {
  }

  /** A run's sum is what the message says it is, and there is none without a message. */
  lemma {:induction false} SumIs(args: seq<Expr>, env: Env, m: Message)
    ensures Value(Call("sum", args), env, None).Err?
    ensures |args| != 1 ==> Value(Call("sum", args), env, Some(m)) == Err(BadArity)
    ensures forall path <- m.sums :: |args| == 1 && PathText(args[0]) == Some(path) ==>
              Value(Call("sum", args), env, Some(m)) == Ok(m.sums[path])
  {
    assert "sum" !in VALUE_BUILTINS && "sum" !in LAYOUT_BUILTINS;
  }

  /** `m` for the sources given, and `m'` for all others. */
  function Mixed(m: Message, m': Message, sources: set<Source>): Message {
    Message(map f | f in m.fields.Keys + m'.fields.Keys && (if Field(f) in sources then f in m.fields else f in m'.fields) ::
              if Field(f) in sources then m.fields[f] else m'.fields[f],
            if Rest in sources then m.remaining else m'.remaining,
            map r | r in m.sums.Keys + m'.sums.Keys && (if Run(r) in sources then r in m.sums else r in m'.sums) ::
              if Run(r) in sources then m.sums[r] else m'.sums[r])
  }

  lemma MixedAgrees(m: Message, m': Message, a: set<Source>, b: set<Source>)
    requires a !! b
    ensures AgreeOn(Mixed(m, m', a), m, a) && AgreeOn(Mixed(m, m', a), m', b)
  {
  }

  lemma MixedInRange(env: Env, m: Message, m': Message, sources: set<Source>)
    requires InRange(env, m) && InRange(env, m')
    ensures InRange(env, Mixed(m, m', sources))
  {
  }

  // ----- naming each field once

  /** Operators whose ends are values at the operands' ends. */
  predicate AtCorners(op: BinaryOp, a: Interval, b: Interval) {
    match op
    case Add => true
    case Sub => b.hi.Some?
    case Mul => (a.NonNegative() && b.NonNegative()) || (a.Bounded() && b.Bounded())
    case Div => (b.lo > 0 && b.hi.Some?) || (a.Bounded() && b.Bounded())
    case Shl => a.NonNegative() || a.Bounded()
    case Shr => a.NonNegative() || a.Bounded()
    case _ => false
  }

  function End(r: Interval, high: bool): int
    requires high ==> r.hi.Some?
  {
    if high then r.hi.value else r.lo
  }

  predicate HasEnd(r: Interval, high: bool) {
    high ==> r.hi.Some?
  }

  /** At which of the operands' ends the operator has this end of its range. */
  lemma CornerOf(op: BinaryOp, a: Interval, b: Interval, high: bool) returns (p: bool, q: bool)
    requires a.loKnown && b.loKnown && a.Inhabited() && b.Inhabited() && Guarded(op, a, b) && AtCorners(op, a, b)
    requires Rule(op, a, b).Ok? && HasEnd(Rule(op, a, b).value, high)
    ensures Rule(op, a, b).value.loKnown && HasEnd(a, p) && HasEnd(b, q)
    ensures Apply(op, End(a, p), End(b, q)) == Some(End(Rule(op, a, b).value, high))
  {
    hide Pow2;
    if a.Bounded() && b.Bounded() {
      p, q := BoundedCorner(op, a, b, high);
    } else {
      p, q := high, if op in {Sub, Div, Shr} then !high else high;
      if op == Div { TruncIsFloor(End(a, p), End(b, q)); }
    }
  }

  lemma BoundedCorner(op: BinaryOp, a: Interval, b: Interval, high: bool) returns (p: bool, q: bool)
    requires a.Bounded() && b.Bounded() && a.Inhabited() && b.Inhabited() && Guarded(op, a, b) && AtCorners(op, a, b)
    requires Rule(op, a, b).Ok? && HasEnd(Rule(op, a, b).value, high)
    ensures Rule(op, a, b).value.loKnown && Apply(op, End(a, p), End(b, q)) == Some(End(Rule(op, a, b).value, high))
  {
    hide Pow2;
    var end := End(Rule(op, a, b).value, high);
    if op == Div && b.lo > 0 {
      TruncIsFloor(a.lo, b.hi.value);
      TruncIsFloor(a.hi.value, b.lo);
    }
    if Apply(op, a.lo, b.lo) == Some(end) { return false, false; }
    if Apply(op, a.lo, b.hi.value) == Some(end) { return false, true; }
    if Apply(op, a.hi.value, b.lo) == Some(end) { return true, false; }
    return true, true;
  }

  predicate Points(l: Expr, r: Expr, env: Env) {
    && IntervalOf(l, env).Ok? && IntervalOf(l, env).value.IsPoint()
    && IntervalOf(r, env).Ok? && IntervalOf(r, env).value.IsPoint()
  }

  /** Names each field at most once, under operators that move one way in each operand. */
  predicate ReadOnce(e: Expr, env: Env) {
    match e
    case IntLit(_, _) => true
    case NameRef(name) => name in env.fields || name in env.consts
    case Access(_, _) => PathText(e).Some?
    case Unary(op, x) =>
      ReadOnce(x, env) && IntervalOf(x, env).Ok? && (IntervalOf(x, env).value.IsPoint() || (op == Negate && IntervalOf(x, env).value.Bounded()))
    case Binary(op, l, r) =>
      && ReadOnce(l, env) && ReadOnce(r, env) && Uses(l) !! Uses(r) && !IsPadding(e)
      && (Points(l, r, env) ||
          (IntervalOf(l, env).Ok? && IntervalOf(r, env).Ok? && AtCorners(op, IntervalOf(l, env).value, IntervalOf(r, env).value)))
    case Call(fn, args) =>
      || (fn == "sum" && |args| == 1)
      || (&& fn in {"min", "max", "align_up"} && |args| == 2
          && ReadOnce(args[0], env) && ReadOnce(args[1], env) && Uses(args[0]) !! Uses(args[1])
          && (fn == "align_up" ==> IntervalOf(args[1], env).Ok? && IntervalOf(args[1], env).value.IsPoint() && IntervalOf(args[1], env).value.lo > 0
                                   && IntervalOf(args[0], env).Ok? && IntervalOf(args[0], env).value.NonNegative()))
    case Remaining => true
    case _ => false
  }

  /** Every field has a lower end and a value. */
  predicate Declared(env: Env) {
    forall f :: f in env.fields ==> env.fields[f].loKnown && env.fields[f].Inhabited()
  }

  ghost predicate Attains(e: Expr, env: Env, m: Message, v: int) {
    InRange(env, m) && Value(e, env, Some(m)) == Ok(v)
  }

  /** The range of an accepted expression that names each field once is known from below, and each end it has is the
      expression's value in a message in range: the one this hands back. */
  lemma {:induction false} EndsAttained(e: Expr, env: Env, high: bool) returns (m: Message)
    requires NamesAgree(env) && Declared(env) && ReadOnce(e, env) && IntervalOf(e, env).Ok?
    ensures IntervalOf(e, env).value.loKnown && IntervalOf(e, env).value.Inhabited()
    ensures HasEnd(IntervalOf(e, env).value, high) ==> Attains(e, env, m, End(IntervalOf(e, env).value, high))
    decreases e
  {
    hide Rule, Builtin, BuiltinInterval, BinaryInterval, SameExpression, Fold, ApplyUnary, AtCorners, Mixed, Uses, UnaryInterval;
    match e
    case IntLit(_, _) => m := Low(env);
    case NameRef(_) => m := PathAttained(e, env, high);
    case Access(_, _) => m := PathAttained(e, env, high);
    case Unary(op, x) =>
      var low := EndsAttained(x, env, false);
      var up := EndsAttained(x, env, true);
      m := UnaryAttained(e, env, high, low, up);
    case Binary(op, l, r) =>
      var ll := EndsAttained(l, env, false);
      var lh := EndsAttained(l, env, true);
      var rl := EndsAttained(r, env, false);
      var rh := EndsAttained(r, env, true);
      m := BinaryAttained(e, env, high, ll, lh, rl, rh);
    case Call(fn, args) =>
      if fn == "sum" {
        m := SumAttained(e, env);
      } else {
        var ll := EndsAttained(args[0], env, false);
        var lh := EndsAttained(args[0], env, true);
        var rl := EndsAttained(args[1], env, false);
        var rh := EndsAttained(args[1], env, true);
        m := CallAttained(e, env, high, ll, lh, rl, rh);
      }
    case Remaining => m := Low(env);
  }

  /** The message with every field at its lower end, nothing left and no runs. */
  function Low(env: Env): Message {
    Message(map f | f in env.fields :: env.fields[f].lo, 0, map[])
  }

  lemma SumAttained(e: Expr, env: Env) returns (m: Message)
    requires Declared(env) && e.Call? && e.fn == "sum" && |e.args| == 1
    ensures IntervalOf(e, env) == Ok(Interval(0, None, true)) && Attains(e, env, m, 0)
  {
    m := Low(env);
  }

  lemma {:induction false} PathAttained(e: Expr, env: Env, high: bool) returns (m: Message)
    requires NamesAgree(env) && Declared(env) && (e.NameRef? || e.Access?) && PathText(e).Some? && IntervalOf(e, env).Ok?
    ensures IntervalOf(e, env).value.loKnown && IntervalOf(e, env).value.Inhabited()
    ensures HasEnd(IntervalOf(e, env).value, high) ==> Attains(e, env, m, End(IntervalOf(e, env).value, high))
  {
    var path := PathText(e).value;
    m := Low(env);
    if path in env.fields && HasEnd(env.fields[path], high) {
      m := m.(fields := m.fields[path := End(env.fields[path], high)]);
    }
  }

  lemma {:induction false} UnaryAttained(e: Expr, env: Env, high: bool, low: Message, up: Message) returns (m: Message)
    requires e.Unary? && ReadOnce(e, env) && IntervalOf(e, env).Ok?
    requires var i := IntervalOf(e.operand, env).value;
             && i.loKnown && i.Inhabited() && Attains(e.operand, env, low, i.lo)
             && (i.hi.Some? ==> Attains(e.operand, env, up, i.hi.value))
    ensures IntervalOf(e, env).value.loKnown && IntervalOf(e, env).value.Inhabited()
    ensures HasEnd(IntervalOf(e, env).value, high) ==> Attains(e, env, m, End(IntervalOf(e, env).value, high))
  {
    m := if e.uop == Negate && !high then up else low;
  }

  lemma {:induction false} BinaryAttained(e: Expr, env: Env, high: bool, ll: Message, lh: Message, rl: Message, rh: Message)
      returns (m: Message)
    requires e.Binary? && ReadOnce(e, env) && IntervalOf(e, env).Ok?
    requires var a := IntervalOf(e.left, env).value;
             && a.loKnown && a.Inhabited() && Attains(e.left, env, ll, a.lo) && (a.hi.Some? ==> Attains(e.left, env, lh, a.hi.value))
    requires var b := IntervalOf(e.right, env).value;
             && b.loKnown && b.Inhabited() && Attains(e.right, env, rl, b.lo) && (b.hi.Some? ==> Attains(e.right, env, rh, b.hi.value))
    ensures IntervalOf(e, env).value.loKnown && IntervalOf(e, env).value.Inhabited()
    ensures HasEnd(IntervalOf(e, env).value, high) ==> Attains(e, env, m, End(IntervalOf(e, env).value, high))
  {
    hide Rule, Apply, SameExpression, AtCorners, Mixed, Uses, InRange, Share;
    var a, b := IntervalOf(e.left, env).value, IntervalOf(e.right, env).value;
    m := ll;
    if a.IsPoint() && b.IsPoint() {
      m := Mixed(ll, rl, Uses(e.left));
      MixedSides(e.left, e.right, env, ll, rl, a.lo, b.lo);
    } else {
      assert Guarded(e.op, a, b) && Rule(e.op, a, b).Ok?;
      RuleInhabits(e.op, a, b);
      if HasEnd(Rule(e.op, a, b).value, high) {
        var p, q := CornerOf(e.op, a, b, high);
        m := Mixed(if p then lh else ll, if q then rh else rl, Uses(e.left));
        MixedSides(e.left, e.right, env, if p then lh else ll, if q then rh else rl, End(a, p), End(b, q));
        FoldIs(e.op, a, b, End(a, p), End(b, q));
      } else {
        var p, q := CornerOf(e.op, a, b, false);
      }
    }
  }

  lemma RuleInhabits(op: BinaryOp, a: Interval, b: Interval)
    requires a.loKnown && b.loKnown && a.Inhabited() && b.Inhabited() && Guarded(op, a, b) && AtCorners(op, a, b)
    ensures Rule(op, a, b).Ok? && Rule(op, a, b).value.loKnown && Rule(op, a, b).value.Inhabited()
  {
    hide Rule;
    KnownIff(op, a, b);
  }

  lemma FoldIs(op: BinaryOp, a: Interval, b: Interval, x: int, y: int)
    requires Guarded(op, a, b) && b.Contains(y) && a.Contains(x) && Apply(op, x, y).Some?
    ensures Fold(op, x, y) == Ok(Apply(op, x, y).value)
  {
    hide Apply;
  }

  /** Two expressions that read different things take any two of their values in one message. */
  lemma MixedSides(l: Expr, r: Expr, env: Env, m: Message, m': Message, x: int, y: int)
    requires Uses(l) !! Uses(r) && Attains(l, env, m, x) && Attains(r, env, m', y)
    ensures Attains(l, env, Mixed(m, m', Uses(l)), x) && Attains(r, env, Mixed(m, m', Uses(l)), y)
  {
    hide Value, InRange, AgreeOn, Mixed, Uses;
    MixedAgrees(m, m', Uses(l), Uses(r));
    MixedInRange(env, m, m', Uses(l));
    ValueReads(l, env, Mixed(m, m', Uses(l)), m);
    ValueReads(r, env, Mixed(m, m', Uses(l)), m');
  }

  lemma {:induction false} CallAttained(e: Expr, env: Env, high: bool, ll: Message, lh: Message, rl: Message, rh: Message)
      returns (m: Message)
    requires NamesAgree(env) && e.Call? && e.fn != "sum" && ReadOnce(e, env) && IntervalOf(e, env).Ok?
    requires IntervalOf(e.args[0], env).Ok? && IntervalOf(e.args[1], env).Ok?
    requires var a := IntervalOf(e.args[0], env).value;
             && a.loKnown && a.Inhabited() && Attains(e.args[0], env, ll, a.lo) && (a.hi.Some? ==> Attains(e.args[0], env, lh, a.hi.value))
    requires var b := IntervalOf(e.args[1], env).value;
             && b.loKnown && b.Inhabited() && Attains(e.args[1], env, rl, b.lo) && (b.hi.Some? ==> Attains(e.args[1], env, rh, b.hi.value))
    ensures IntervalOf(e, env).value.loKnown && IntervalOf(e, env).value.Inhabited()
    ensures HasEnd(IntervalOf(e, env).value, high) ==> Attains(e, env, m, End(IntervalOf(e, env).value, high))
  {
    hide Builtin, BuiltinInterval, Mixed, Uses, InRange;
    var x, y := e.args[0], e.args[1];
    var a, b := IntervalOf(x, env).value, IntervalOf(y, env).value;
    var up := high && a.hi.Some? && b.hi.Some?;
    m := Mixed(if up then lh else ll, if up then rh else rl, Uses(x));
    MixedSides(x, y, env, if up then lh else ll, if up then rh else rl, End(a, up), End(b, up));
    TwoArguments(e, env, m, End(a, up), End(b, up));
    if a.IsPoint() && b.IsPoint() {
      PointCall(e, env, m);
    } else {
      CallRange(e, env, a, b);
      CallEnds(e.fn, a, b, high);
    }
  }

  lemma {:induction false} CallRange(e: Expr, env: Env, a: Interval, b: Interval)
    requires e.Call? && e.fn in {"min", "max", "align_up"} && |e.args| == 2
    requires IntervalOf(e.args[0], env) == Ok(a) && IntervalOf(e.args[1], env) == Ok(b) && !(a.IsPoint() && b.IsPoint())
    ensures IntervalOf(e, env) == BuiltinInterval(e.fn, [a, b])
  {
    hide BuiltinInterval;
    var held := IntervalsOf(e.args, env).value;
    assert held == [a, b];
    assert !(held[0].IsPoint() && held[1].IsPoint());
  }

  lemma {:induction false} PointCall(e: Expr, env: Env, m: Message)
    requires NamesAgree(env) && InRange(env, m) && e.Call? && e.fn in {"min", "max", "align_up"} && |e.args| == 2
    requires IntervalOf(e, env).Ok? && IntervalOf(e.args[0], env).Ok? && IntervalOf(e.args[1], env).Ok?
    requires IntervalOf(e.args[0], env).value.IsPoint() && IntervalOf(e.args[1], env).value.IsPoint()
    requires e.fn == "align_up" ==> IntervalOf(e.args[1], env).value.lo > 0
    requires Value(e.args[0], env, Some(m)).Ok? && Value(e.args[1], env, Some(m)).Ok?
    ensures IntervalOf(e, env).value.IsPoint() && Value(e, env, Some(m)) == Ok(IntervalOf(e, env).value.lo)
  {
    PointCallFolds(e, env);
    hide *;
    var x, y := e.args[0], e.args[1];
    PointValue(x, env, m);
    PointValue(y, env, m);
    TwoArguments(e, env, m, IntervalOf(x, env).value.lo, IntervalOf(y, env).value.lo);
    GivesValue(e.fn, IntervalOf(x, env).value.lo, IntervalOf(y, env).value.lo);
    PointValue(e, env, m);
  }

  /** What ranges as a point has that value. */
  lemma {:induction false} PointValue(e: Expr, env: Env, m: Message)
    requires NamesAgree(env) && InRange(env, m) && IntervalOf(e, env).Ok? && IntervalOf(e, env).value.IsPoint()
    requires Value(e, env, Some(m)).Ok?
    ensures Value(e, env, Some(m)) == Ok(IntervalOf(e, env).value.lo)
  {
    hide InRange, NamesAgree, IntervalOf, Value;
    IntervalSound(e, env, Some(m));
  }

  lemma {:induction false} PointCallFolds(e: Expr, env: Env)
    requires e.Call? && e.fn in {"min", "max", "align_up"} && |e.args| == 2
    requires IntervalOf(e, env).Ok? && IntervalOf(e.args[0], env).Ok? && IntervalOf(e.args[1], env).Ok?
    requires IntervalOf(e.args[0], env).value.IsPoint() && IntervalOf(e.args[1], env).value.IsPoint()
    ensures IntervalOf(e, env).value.IsPoint()
  {
    hide Builtin, BuiltinInterval, Value;
    var held := IntervalsOf(e.args, env).value;
    assert held == [IntervalOf(e.args[0], env).value, IntervalOf(e.args[1], env).value];
    assert forall i :: 0 <= i < |held| ==> held[i].IsPoint();
  }

  lemma GivesValue(fn: string, x: int, y: int)
    requires fn in {"min", "max", "align_up"} && (fn == "align_up" ==> y > 0)
    ensures Builtin(fn, [x, y]).Ok?
  {
  }

  lemma CallEnds(fn: string, a: Interval, b: Interval, high: bool)
    requires fn in {"min", "max", "align_up"} && a.loKnown && b.loKnown && a.Inhabited() && b.Inhabited()
    requires fn == "align_up" ==> b.IsPoint() && b.lo > 0 && a.lo >= 0
    ensures BuiltinInterval(fn, [a, b]).Ok?
    ensures var r := BuiltinInterval(fn, [a, b]).value;
            var up := high && a.hi.Some? && b.hi.Some?;
            && r.loKnown && r.Inhabited()
            && (HasEnd(r, high) ==> Builtin(fn, [End(a, up), End(b, up)]) == Ok(End(r, high)))
  {
    hide RoundUp;
    if fn == "align_up" && a.hi.Some? { RoundUpMonotone(a.lo, a.hi.value, b.lo); }
  }
}
