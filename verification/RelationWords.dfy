/** Compiling a relation preserves what it says in C and C++: from its fields' ranges alone, and exactly
    where values leave their types. */
module RelationWords {
  import opened Prelude
  import opened Ast
  import opened Bits
  import opened Intervals
  import opened Relations
  import opened RelationTheorems
  import opened RelationMeaning
  import opened RelationWidth
  import opened RelationMachine
  import Solver

  // ----- bounding an expression from its fields alone

  predicate Within(r: Interval, t: Ctype) {
    r.Bounded() && TypeRange(t).lo <= r.lo && r.hi.value <= TypeRange(t).hi.value
  }

  /** Operators whose results a type holds whatever operands it holds. */
  predicate ClosedIn(op: BinaryOp, t: Ctype) {
    Closed(op) && !Compares(op) && !Stops(op) && (op == Div || op == Mod ==> t == Word64)
  }

  /** The compiler's own interval rules, and the whole type where they give no better. */
  function RangeOf(e: Expr, signed: bool, ranges: map<Path, Interval>): Interval {
    match e
    case IntLit(v, _) => Point(v)
    case NameRef(_) => PathRange(e, signed, ranges)
    case Access(_, _) => PathRange(e, signed, ranges)
    case Unary(op, x) =>
      var r := Solver.UnaryInterval(op, RangeOf(x, signed, ranges));
      if !Within(r, TypeOf(e, signed)) && op == Complement && TypeOf(x, signed) != Word64 then TypeRange(TypeOf(x, signed)) else r
    case Binary(op, l, r) =>
      var t := OperandType(op, l, r, signed);
      var ruled := Ruled(op, RangeOf(l, signed, ranges), RangeOf(r, signed, ranges));
      if !Within(ruled, TypeOf(e, signed)) && ClosedIn(op, t) then TypeRange(t) else ruled
    case _ => Unknown()
  }

  function Ruled(op: BinaryOp, a: Interval, b: Interval): Interval {
    if Guarded(op, a, b) && Rule(op, a, b).Ok? then Rule(op, a, b).value else Unknown()
  }

  function PathRange(e: Expr, signed: bool, ranges: map<Path, Interval>): Interval
    requires e.NameRef? || e.Access?
  {
    var t := ReadType(signed);
    if PathOf(e) in ranges && Within(ranges[PathOf(e)], t) then ranges[PathOf(e)] else TypeRange(t)
  }

  /** Do the operands' ranges lie in the type they are brought to, and a shift's amount below its width? */
  predicate OperandRanges(op: BinaryOp, t: Ctype, a: Interval, b: Interval) {
    if Stops(op) then true
    else if Shifts(op) then b.Bounded() && 0 <= b.lo && b.hi.value < Width(t)
    else Within(a, t) && Within(b, t)
  }

  /** Does the range of every part lie in the type it is computed in, and in the type it is brought to? */
  predicate KeptInside(e: Expr, signed: bool, ranges: map<Path, Interval>) {
    && Within(RangeOf(e, signed, ranges), TypeOf(e, signed))
    && match e
       case Unary(_, x) => KeptInside(x, signed, ranges)
       case Binary(op, l, r) =>
         && KeptInside(l, signed, ranges) && KeptInside(r, signed, ranges)
         && OperandRanges(op, OperandType(op, l, r, signed), RangeOf(l, signed, ranges), RangeOf(r, signed, ranges))
       case _ => true
  }

  /** The test has the types of its expression. */
  lemma {:induction false} RenderedType(e: Expr, signed: bool, names: map<Path, string>)
    requires Render(e, names).Some?
    ensures TypeOf(Render(e, names).value, signed) == TypeOf(e, signed)
  {
    hide InType, RenderPath, PathsIn;
    match e
    case NameRef(_) => PathIsName(e, names);
    case Access(_, _) => PathIsName(e, names);
    case Unary(_, x) => RenderedType(x, signed, names);
    case Binary(_, l, r) => RenderedType(l, signed, names); RenderedType(r, signed, names);
    case _ =>
  }

  lemma PathIsName(e: Expr, names: map<Path, string>)
    requires (e.NameRef? || e.Access?) && Render(e, names).Some?
    ensures Render(e, names).value.NameRef?
  {
  }

  /** What the range of one part says of its value. */
  predicate Bounds(e: Expr, test: Expr, signed: bool, ranges: map<Path, Interval>, env: Env) {
    var v := Evaluate(test, env); v.Some? ==> v.value.Number? && RangeOf(e, signed, ranges).Contains(v.value.value)
  }

  /** An expression whose ranges lie in its types stays in them in every message. */
  lemma {:induction false} KeptIsInside(e: Expr, signed: bool, ranges: map<Path, Interval>, names: map<Path, string>, env: Env)
    requires Check(e, signed, ranges).Ok? && InRanges(e, signed, ranges, names, env) && KeptInside(e, signed, ranges)
    ensures Render(e, names).Some?
    ensures var test := Render(e, names).value;
            Inside(test, signed, env) && Bounds(e, test, signed, ranges, env)
  {
    hide InWord, ShiftAmount, InRanges, PathsIn, RangedPath, RenderPath, Operate, ApplyUnary, RangeOf, Within, Rule, TypeOf, OperandType,
         OperandRanges, InType, Evaluate, Fitting, Inside, Bounds;
    RenderedFits(e, signed, ranges, names, env);
    match e
    case IntLit(_, _) =>
      LiteralInside(e, signed, ranges, env);
    case NameRef(_) =>
      LeafInside(e, signed, ranges, names, env);
    case Access(_, _) =>
      LeafInside(e, signed, ranges, names, env);
    case Unary(op, x) =>
      RangedInside(x, op, signed, ranges, names, env);
      KeptIsInside(x, signed, ranges, names, env);
      RenderedType(x, signed, names);
      UnaryInside(op, x, Render(x, names).value, signed, ranges, env);
    case Binary(op, l, r) =>
      RangedSplit(l, r, op, signed, ranges, names, env);
      KeptIsInside(l, signed, ranges, names, env);
      KeptIsInside(r, signed, ranges, names, env);
      RenderedType(l, signed, names);
      RenderedType(r, signed, names);
      BinaryInside(op, l, r, Render(l, names).value, Render(r, names).value, signed, ranges, env);
  }

  lemma InsideType(r: Interval, t: Ctype, v: int)
    requires Within(r, t) && r.Contains(v)
    ensures InType(t, v)
  {
    hide Pow2;
  }

  lemma LiteralInside(e: Expr, signed: bool, ranges: map<Path, Interval>, env: Env)
    requires e.IntLit? && KeptInside(e, signed, ranges)
    ensures Inside(e, signed, env) && Bounds(e, e, signed, ranges, env)
  {
    hide Pow2;
  }

  lemma {:induction false} LeafInside(e: Expr, signed: bool, ranges: map<Path, Interval>, names: map<Path, string>, env: Env)
    requires (e.NameRef? || e.Access?) && InRanges(e, signed, ranges, names, env)
    ensures Render(e, names).Some? && Inside(Render(e, names).value, signed, env)
    ensures Bounds(e, Render(e, names).value, signed, ranges, env)
  {
    hide Pow2;
    assert PathsIn(e) == [PathOf(e)];
    assert RangedPath(PathsIn(e)[0], signed, ranges, names, env);
    PathTest(e, names);
  }

  lemma {:induction false} UnaryInside(op: UnaryOp, x: Expr, test: Expr, signed: bool, ranges: map<Path, Interval>, env: Env)
    requires TypeOf(test, signed) == TypeOf(x, signed)
    requires Inside(test, signed, env) && Bounds(x, test, signed, ranges, env) && KeptInside(Unary(op, x), signed, ranges)
    ensures Inside(Unary(op, test), signed, env) && Bounds(Unary(op, x), Unary(op, test), signed, ranges, env)
  {
    hide Pow2, Machine, Evaluate, InType, Within;
    UnaryStep(op, test, signed, env);
    var v := Evaluate(test, env);
    if v.Some? {
      var a := v.value.value;
      InsideType(RangeOf(x, signed, ranges), TypeOf(x, signed), a);
      UnaryBounds(op, x, signed, ranges, a);
      InsideType(RangeOf(Unary(op, x), signed, ranges), TypeOf(Unary(op, x), signed), ApplyUnary(op, a));
    }
  }

  lemma {:induction false} UnaryBounds(op: UnaryOp, x: Expr, signed: bool, ranges: map<Path, Interval>, a: int)
    requires InType(TypeOf(x, signed), a) && RangeOf(x, signed, ranges).Contains(a)
    ensures RangeOf(Unary(op, x), signed, ranges).Contains(ApplyUnary(op, a))
  {
    hide Pow2, Within, TypeOf;
    ClosedUnaryIff(op, TypeOf(x, signed));
  }

  lemma {:induction false} BinaryInside(op: BinaryOp, l: Expr, r: Expr, ltest: Expr, rtest: Expr, signed: bool,
                                        ranges: map<Path, Interval>, env: Env)
    requires TypeOf(ltest, signed) == TypeOf(l, signed) && TypeOf(rtest, signed) == TypeOf(r, signed)
    requires Inside(ltest, signed, env) && Bounds(l, ltest, signed, ranges, env)
    requires Inside(rtest, signed, env) && Bounds(r, rtest, signed, ranges, env)
    requires KeptInside(Binary(op, l, r), signed, ranges)
    ensures Inside(Binary(op, ltest, rtest), signed, env)
    ensures Bounds(Binary(op, l, r), Binary(op, ltest, rtest), signed, ranges, env)
  {
    hide Pow2, Machine, Evaluate, InType, Within, RangeOf, Operate, Apply, TypeOf, OperandsInside, OperandRanges;
    OperandsKept(op, l, r, ltest, rtest, signed, ranges, env);
    SameTypes(op, l, r, ltest, rtest, signed);
    var v := Evaluate(Binary(op, ltest, rtest), env);
    if v.Some? {
      if Stops(op) {
        StopBounds(op, l, r, ltest, rtest, signed, ranges, env);
      } else {
        OneStep(op, ltest, rtest, signed, env);
        OperateNumbers(op, Evaluate(ltest, env), Evaluate(rtest, env));
        var a, b := Evaluate(ltest, env).value.value, Evaluate(rtest, env).value.value;
        InsideType(RangeOf(l, signed, ranges), TypeOf(l, signed), a);
        OperatorBounds(op, l, r, signed, ranges, a, b);
      }
      InsideType(RangeOf(Binary(op, l, r), signed, ranges), TypeOf(Binary(op, l, r), signed), v.value.value);
    }
  }

  lemma SameTypes(op: BinaryOp, l: Expr, r: Expr, ltest: Expr, rtest: Expr, signed: bool)
    requires TypeOf(ltest, signed) == TypeOf(l, signed) && TypeOf(rtest, signed) == TypeOf(r, signed)
    ensures TypeOf(Binary(op, ltest, rtest), signed) == TypeOf(Binary(op, l, r), signed)
    ensures OperandType(op, ltest, rtest, signed) == OperandType(op, l, r, signed)
  {
  }

  lemma {:induction false} OperandsKept(op: BinaryOp, l: Expr, r: Expr, ltest: Expr, rtest: Expr, signed: bool,
                                        ranges: map<Path, Interval>, env: Env)
    requires Bounds(l, ltest, signed, ranges, env) && Bounds(r, rtest, signed, ranges, env)
    requires OperandRanges(op, OperandType(op, l, r, signed), RangeOf(l, signed, ranges), RangeOf(r, signed, ranges))
    ensures OperandsInside(op, OperandType(op, l, r, signed), Evaluate(ltest, env), Evaluate(rtest, env))
  {
    hide Evaluate, InType, Within, RangeOf, TypeOf;
    var t, a, b := OperandType(op, l, r, signed), Evaluate(ltest, env), Evaluate(rtest, env);
    if !Stops(op) && !Shifts(op) {
      if a.Some? { InsideType(RangeOf(l, signed, ranges), t, a.value.value); }
      if b.Some? { InsideType(RangeOf(r, signed, ranges), t, b.value.value); }
    }
  }

  lemma OperateNumbers(op: BinaryOp, l: Option<Node>, r: Option<Node>)
    requires Operate(op, l, r).Some?
    requires l.Some? ==> l.value.Number?
    requires r.Some? ==> r.value.Number?
    ensures l.Some? && r.Some? && Apply(op, l.value.value, r.value.value).Some?
    ensures Operate(op, l, r) == Some(Number(Apply(op, l.value.value, r.value.value).value))
  {
    hide Apply;
  }

  lemma {:induction false} StopBounds(op: BinaryOp, l: Expr, r: Expr, ltest: Expr, rtest: Expr, signed: bool,
                                      ranges: map<Path, Interval>, env: Env)
    requires Stops(op)
    ensures Bounds(Binary(op, l, r), Binary(op, ltest, rtest), signed, ranges, env)
  {
    hide Pow2, Operate, OperandType, Within;
    assert Rule(op, RangeOf(l, signed, ranges), RangeOf(r, signed, ranges)) == Ok(Interval(0, Some(1), true));
    assert RangeOf(Binary(op, l, r), signed, ranges) == Interval(0, Some(1), true);
  }

  lemma {:induction false} OperatorBounds(op: BinaryOp, l: Expr, r: Expr, signed: bool, ranges: map<Path, Interval>,
                                          a: int, b: int)
    requires InType(TypeOf(l, signed), a) && Apply(op, a, b).Some?
    requires RangeOf(l, signed, ranges).Contains(a) && RangeOf(r, signed, ranges).Contains(b)
    requires OperandRanges(op, OperandType(op, l, r, signed), RangeOf(l, signed, ranges), RangeOf(r, signed, ranges))
    requires !Stops(op)
    ensures RangeOf(Binary(op, l, r), signed, ranges).Contains(Apply(op, a, b).value)
  {
    var x, y, t := RangeOf(l, signed, ranges), RangeOf(r, signed, ranges), OperandType(op, l, r, signed);
    hide Pow2, Within, Apply, Rule, Guarded, RangeOf, TypeOf, Closed, Compares;
    if Guarded(op, x, y) && Rule(op, x, y).Ok? { RuleSound(op, x, y, a, b); }
    if ClosedIn(op, t) {
      if Shifts(op) {
        SmallFits(t, b);
      } else {
        InsideType(x, t, a);
        InsideType(y, t, b);
      }
      ClosedFits(op, t, a, b);
    }
    BinaryRange(op, l, r, signed, ranges);
  }

  lemma BinaryRange(op: BinaryOp, l: Expr, r: Expr, signed: bool, ranges: map<Path, Interval>)
    ensures var t := OperandType(op, l, r, signed);
            var ruled := Ruled(op, RangeOf(l, signed, ranges), RangeOf(r, signed, ranges));
            RangeOf(Binary(op, l, r), signed, ranges) ==
            if !Within(ruled, TypeOf(Binary(op, l, r), signed)) && ClosedIn(op, t) then TypeRange(t) else ruled
  {
    hide Ruled, Within, TypeRange, ClosedIn, Pow2, TypeOf, OperandType;
  }

  // ----- whole constraints

  /** The generated predicate, as C and C++ run it. */
  function MachineVerdict(c: Constraint, scope: Scope, views: Env): Option<bool>
    requires c.bytesEqual.None?
  {
    match Execute(Scoped(scope, c.bindings), views)
    case None => None
    case Some(env) =>
      match Render(c.expr, Names(scope, c.locals))
      case None => None
      case Some(test) => Truth(Machine(test, c.signed, env))
  }

  predicate AllSized(layouts: Layouts) {
    forall s, m :: s in layouts && m in layouts[s] && layouts[s][m].scalar.Some? ==> Sized(layouts[s][m].scalar.value)
  }

  /** Every value a path names is within the literal bounds of its field. */
  ghost predicate KeepsBounds(layouts: Layouts, params: map<string, string>, e: Expr, views: Env) {
    forall i :: 0 <= i < |PathsIn(e)| ==> KeepsBound(layouts, params, PathsIn(e)[i], views)
  }

  ghost predicate KeepsBound(layouts: Layouts, params: map<string, string>, path: Path, views: Env) {
    path != [] && LeafPlacement(layouts, params, path).Ok? && Lookup(views, path).Some? && Lookup(views, path).value.Number? ==>
      AmountRange(LeafPlacement(layouts, params, path).value).Contains(Lookup(views, path).value.value)
  }

  /** What the loop over paths knows of each path's field. */
  ghost predicate Known(layouts: Layouts, params: map<string, string>, c: Collected, path: Path) {
    && |path| > 1 && path in c.ranges && LeafPlacement(layouts, params, path).Ok?
    && var p := LeafPlacement(layouts, params, path).value;
    && Leaf(p).Ok? && p.scalar.value in c.operands && c.ranges[path] == AmountRange(p)
  }

  lemma {:induction false} KnownAfter(layouts: Layouts, params: map<string, string>, c: Collected, path: Path,
                                      other: Path, index: nat)
    requires path != [] && |other| > 1 && BindPath(layouts, params, c, path, index, false).Ok?
    requires other == path || Known(layouts, params, c, other)
    ensures Known(layouts, params, BindPath(layouts, params, c, path, index, false).value, other)
  {
    hide Local, AmountRange, LeafOf;
    var more := BindPath(layouts, params, c, path, index, false).value;
    if |path| > 1 {
      var s := Leaf(LeafPlacement(layouts, params, path).value).value;
      assert more.operands == c.operands + [s] && s in more.operands;
    }
  }

  lemma {:induction false} CollectedKnows(layouts: Layouts, params: map<string, string>, paths: seq<Path>, index: nat, i: nat)
    requires NonEmptyPaths(paths) && BindPaths(layouts, params, paths, index, false).Ok?
    requires i < |paths| && |paths[i]| > 1
    ensures Known(layouts, params, BindPaths(layouts, params, paths, index, false).value, paths[i])
  {
    hide Known, BindPath, BindPaths;
    LoopTail(layouts, params, paths, index, false);
    var init, path := paths[..|paths| - 1], paths[|paths| - 1];
    if i < |init| { CollectedKnows(layouts, params, init, index, i); }
    KnownAfter(layouts, params, BindPaths(layouts, params, init, index, false).value, path, paths[i], index);
  }

  /** Every operand collected is some field's scalar. */
  lemma {:induction false} OperandsSized(layouts: Layouts, params: map<string, string>, paths: seq<Path>, index: nat)
    requires NonEmptyPaths(paths) && BindPaths(layouts, params, paths, index, false).Ok? && AllSized(layouts)
    ensures forall s :: s in BindPaths(layouts, params, paths, index, false).value.operands ==> Sized(s)
  {
    hide BindPath, AllSized;
    if paths != [] {
      LoopTail(layouts, params, paths, index, false);
      var init, path := paths[..|paths| - 1], paths[|paths| - 1];
      OperandsSized(layouts, params, init, index);
      OperandSized(layouts, params, BindPaths(layouts, params, init, index, false).value, path, index);
    }
  }

  lemma {:induction false} OperandSized(layouts: Layouts, params: map<string, string>, c: Collected, path: Path, index: nat)
    requires path != [] && BindPath(layouts, params, c, path, index, false).Ok? && AllSized(layouts)
    requires forall s :: s in c.operands ==> Sized(s)
    ensures forall s :: s in BindPath(layouts, params, c, path, index, false).value.operands ==> Sized(s)
  {
    hide Local, AmountRange, AllSized, Sized;
    if |path| > 1 {
      LeafSized(layouts, params[path[0]], path[1..]);
    }
  }

  lemma {:induction false} LeafSized(layouts: Layouts, owner: string, components: Path)
    requires AllSized(layouts) && owner in layouts && components != [] && LeafOf(layouts, owner, components).Ok?
    ensures var p := LeafOf(layouts, owner, components).value; p.scalar.Some? ==> Sized(p.scalar.value)
    decreases |components|
  {
    if |components| > 1 { LeafSized(layouts, layouts[owner][components[0]].typeName, components[1..]); }
  }

  lemma {:induction false} NarrowKnown(r: Interval, limits: seq<Limit>)
    requires r.loKnown
    ensures Narrow(r, limits).loKnown
    decreases |limits|
  {
    if limits != [] {
      match limits[0]
      case MustEqual(_) =>
      case MaxIs(v) => NarrowKnown(r.(hi := Some(if r.hi.None? then v else Min(r.hi.value, v))), limits[1..]);
      case MinIs(v) => NarrowKnown(r.(lo := Max(r.lo, v)), limits[1..]);
    }
  }

  /** A path that is read along itself has a local within its field's range and in the type. */
  lemma {:induction false} PathRanged(layouts: Layouts, params: map<string, string>, path: Path, c: Collected, signed: bool,
                                      names: map<Path, string>, env: Env, views: Env)
    requires WellGiven(layouts, params, views) && Known(layouts, params, c, path) && Singles(layouts, params[path[0]], path[1..])
    requires (forall s :: s in c.operands ==> Sized(s)) && Widen(c.operands) == Ok(signed)
    requires KeepsBound(layouts, params, path, views)
    requires path in names && names[path] in env && Lookup(views, path) == Some(env[names[path]])
    ensures RangedPath(path, signed, c.ranges, names, env)
  {
    hide Widen, Narrow, Singles, Fetch, LeafOf, Shaped, Sized, Word, InType;
    var p := LeafPlacement(layouts, params, path).value;
    FetchFits(layouts, params[path[0]], path[1..], views[path[0]]);
    SinglesLeaf(layouts, params[path[0]], path[1..]);
    WidenIff(c.operands);
    assert Holds64(signed, p.scalar.value);
    NarrowKnown(ScalarInterval(p.scalar.value.bits, p.scalar.value.signed), p.bounds);
  }

  lemma {:induction false} SinglesLeaf(layouts: Layouts, owner: string, components: Path)
    requires owner in layouts && components != [] && LeafOf(layouts, owner, components).Ok? && Singles(layouts, owner, components)
    ensures LeafOf(layouts, owner, components).value.extent != RunTime
    decreases |components|
  {
    if |components| > 1 { SinglesLeaf(layouts, layouts[owner][components[0]].typeName, components[1..]); }
  }

  /** What is asked of a scalar constraint, its scope and the messages it is put to. */
  ghost predicate InBounds(layouts: Layouts, params: map<string, string>, e: Expr, index: nat, scope: Scope, views: Env) {
    && Entered(layouts, params, e, index, scope, views) && AllSized(layouts) && NamesMembers(e)
    && KeepsBounds(layouts, params, e, views) && PlanOne(layouts, params, e, index).value.bytesEqual.None?
    && AllSingles(layouts, params, Named(e)) && Uncaptured(scope, Named(e), index)
  }

  /** The ranges the shift rule takes the paths of a constraint to have. */
  function FieldRanges(layouts: Layouts, params: map<string, string>, e: Expr, index: nat): map<Path, Interval> {
    var c := BindPaths(layouts, params, Named(e), index, false);
    if c.Ok? then c.value.ranges else map[]
  }

  /** The bindings run, and the rendered test meets what the operators ask for and means the relation as
      it is read. */
  lemma {:induction false} TestReady(layouts: Layouts, params: map<string, string>, e: Expr, index: nat, scope: Scope, views: Env)
      returns (env: Env, test: Expr)
    requires InBounds(layouts, params, e, index, scope, views)
    ensures var c := PlanOne(layouts, params, e, index).value;
            var sources, names := Sources(scope, c.bindings, c.locals), Names(scope, c.locals);
            && Execute(Scoped(scope, c.bindings), views) == Some(env) && Render(e, names) == Some(test) && c.expr == e
            && Check(e, c.signed, FieldRanges(layouts, params, e, index)).Ok?
            && InRanges(e, c.signed, FieldRanges(layouts, params, e, index), names, env)
            && Stands(e, sources, names, env, views) && Reading(e, sources) == AsRead(e)
            && Fitting(test, c.signed, env) && Evaluate(test, env) == Evaluate(AsRead(e), views)
  {
    hide PlanOne, BindPaths, Execute, Machine, Evaluate, Check, Render, Stands, WellGiven, BarePaths, AllSingles, Reading, RootsHeld,
         Count, InRanges, SourceIn, Traced, AllSized, KeepsBounds, Widen, PathsIn, Sources, Names, Planned, EntersAt, Fitting;
    var c := PlanOne(layouts, params, e, index).value;
    PathsStand(layouts, params, e, index, scope, views);
    PlanCollects(layouts, params, e, index);
    ReadsOwn(layouts, params, e, index, scope);
    env := Execute(Scoped(scope, c.bindings), views).value;
    var ranges, sources, names := FieldRanges(layouts, params, e, index), Sources(scope, c.bindings, c.locals), Names(scope, c.locals);
    AllRanged(layouts, params, e, index, c.signed, sources, names, env, views);
    RenderMeans(e, c.signed, ranges, sources, names, env, views);
    RenderedFits(e, c.signed, ranges, names, env);
    test := Render(e, names).value;
  }

  lemma {:induction false} AllRanged(layouts: Layouts, params: map<string, string>, e: Expr, index: nat, signed: bool,
                                     sources: map<Path, Path>, names: map<Path, string>, env: Env, views: Env)
    requires WellGiven(layouts, params, views) && AllSized(layouts) && NamesMembers(e)
    requires BindPaths(layouts, params, Named(e), index, false).Ok?
    requires Widen(BindPaths(layouts, params, Named(e), index, false).value.operands) == Ok(signed)
    requires AllSingles(layouts, params, Named(e)) && KeepsBounds(layouts, params, e, views)
    requires Stands(e, sources, names, env, views)
    requires forall i :: 0 <= i < |PathsIn(e)| ==> PathsIn(e)[i] != [] && SourceIn(sources, PathsIn(e)[i]) == PathsIn(e)[i]
    ensures InRanges(e, signed, FieldRanges(layouts, params, e, index), names, env)
  {
    hide BindPaths, WellGiven, AllSized, AllSingles, Widen, RangedPath, Known, PathsIn, KeepsBound, Sized, SourceIn, Lookup;
    var collected := BindPaths(layouts, params, Named(e), index, false).value;
    OperandsSized(layouts, params, Named(e), index);
    forall i | 0 <= i < |PathsIn(e)| ensures RangedPath(PathsIn(e)[i], signed, collected.ranges, names, env) {
      var path := PathsIn(e)[i];
      OnceKeeps(PathsIn(e));
      assert path in Named(e);
      var k :| 0 <= k < |Named(e)| && Named(e)[k] == path;
      CollectedKnows(layouts, params, Named(e), index, k);
      NamedSingles(layouts, params, e, i);
      KnownRoot(layouts, params, collected, path);
      assert StandsFor(path, sources, names, env, views);
      PathRanged(layouts, params, path, collected, signed, names, env, views);
    }
  }

  lemma {:induction false} KnownRoot(layouts: Layouts, params: map<string, string>, c: Collected, path: Path)
    requires Known(layouts, params, c, path)
    ensures path[0] in params
  {
  }

  // ----- from the test back to the relation

  /** The test has the types, stays inside and is carried exactly as the relation over the messages. */
  lemma {:induction false} SameParts(e: Expr, signed: bool, ranges: map<Path, Interval>, sources: map<Path, Path>,
                                     names: map<Path, string>, env: Env, views: Env)
    requires Check(e, signed, ranges).Ok? && Stands(e, sources, names, env, views)
    ensures Render(e, names).Some?
    ensures TypeOf(Render(e, names).value, signed) == TypeOf(Reading(e, sources), signed)
    ensures Inside(Render(e, names).value, signed, env) <==> Inside(Reading(e, sources), signed, views)
    ensures Carried(Render(e, names).value, signed, env) <==> Carried(Reading(e, sources), signed, views)
  {
    hide Operate, ApplyUnary, StandsFor, ShiftAmount, ProvablyBelow64, Stands, PathsIn, RenderPath, PathExpr, SourceIn, Evaluate,
         ValueInside, Skips, InType, Common, OperandsInside, TypeOf, OperandType, Inside, Carried;
    RenderMeans(e, signed, ranges, sources, names, env, views);
    match e
    case IntLit(_, _) => LiteralParts(e, signed, env, views);
    case NameRef(_) =>
      LeafParts(e, signed, sources, names, env, views);
    case Access(_, _) =>
      LeafParts(e, signed, sources, names, env, views);
    case Unary(op, x) =>
      StandsInside(x, e.uop, sources, names, env, views);
      SameParts(x, signed, ranges, sources, names, env, views);
      RenderMeans(x, signed, ranges, sources, names, env, views);
      UnaryParts(op, Render(x, names).value, env, Reading(x, sources), views, signed);
    case Binary(op, l, r) =>
      StandsSplit(l, r, e.op, sources, names, env, views);
      SameParts(l, signed, ranges, sources, names, env, views);
      SameParts(r, signed, ranges, sources, names, env, views);
      RenderMeans(l, signed, ranges, sources, names, env, views);
      RenderMeans(r, signed, ranges, sources, names, env, views);
      BinaryParts(op, Render(l, names).value, Render(r, names).value, env, Reading(l, sources), Reading(r, sources), views, signed);
  }

  /** Do two expressions, each in its own environment, have the same type and stay in it alike? */
  predicate Alike(e: Expr, env: Env, e': Expr, env': Env, signed: bool) {
    && TypeOf(e, signed) == TypeOf(e', signed) && Evaluate(e, env) == Evaluate(e', env')
    && (Inside(e, signed, env) <==> Inside(e', signed, env')) && (Carried(e, signed, env) <==> Carried(e', signed, env'))
  }

  lemma LiteralParts(e: Expr, signed: bool, env: Env, views: Env)
    requires e.IntLit?
    ensures Alike(e, env, e, views, signed)
  {
    hide InType;
  }

  lemma {:induction false} UnaryParts(op: UnaryOp, x: Expr, env: Env, x': Expr, env': Env, signed: bool)
    requires Alike(x, env, x', env', signed) && Evaluate(Unary(op, x), env) == Evaluate(Unary(op, x'), env')
    ensures Alike(Unary(op, x), env, Unary(op, x'), env', signed)
  {
    hide Evaluate, InType, ValueInside;
  }

  lemma {:induction false} BinaryParts(op: BinaryOp, l: Expr, r: Expr, env: Env, l': Expr, r': Expr, env': Env, signed: bool)
    requires Alike(l, env, l', env', signed) && Alike(r, env, r', env', signed)
    requires Evaluate(Binary(op, l, r), env) == Evaluate(Binary(op, l', r'), env')
    ensures Alike(Binary(op, l, r), env, Binary(op, l', r'), env', signed)
  {
    hide Evaluate, InType, ValueInside, OperandsInside, Skips, Common;
  }

  lemma LeafParts(e: Expr, signed: bool, sources: map<Path, Path>, names: map<Path, string>, env: Env, views: Env)
    requires (e.NameRef? || e.Access?) && Stands(e, sources, names, env, views)
    ensures Render(e, names).Some? && Alike(Render(e, names).value, env, Reading(e, sources), views, signed)
  {
    hide Evaluate, PathExpr, Render, Stands, ValueInside, InType;
    PathRenders(e, sources, names, env, views);
    Spelling(SourceIn(sources, PathOf(e)));
  }

  // ----- compiling to C preserves meaning

  /** In every pair of messages that keep to their fields' bounds, an accepted constraint whose values
      all stay in the types they are computed in answers in C what the relation says. */
  lemma {:induction false} WordsPreserved(layouts: Layouts, params: map<string, string>, e: Expr, index: nat, scope: Scope,
                                          views: Env, c: Constraint)
    requires InBounds(layouts, params, e, index, scope, views) && PlanOne(layouts, params, e, index) == Ok(c)
    requires Inside(AsRead(e), c.signed, views)
    ensures c.bytesEqual.None?
    ensures MachineVerdict(c, scope, views) == Said(AsRead(e), views)
  {
    hide PlanOne, Machine, Evaluate, Check, Render, Stands, Inside, Carried, Reading, AsRead, InRanges, Fitting, Execute, Entered,
         AllSized, KeepsBounds, AllSingles, Uncaptured, TypeOf, Names, Sources;
    var env, test := TestReady(layouts, params, e, index, scope, views);
    SameParts(e, c.signed, FieldRanges(layouts, params, e, index), Sources(scope, c.bindings, c.locals), Names(scope, c.locals), env,
              views);
    MachineAgrees(test, c.signed, env);
  }

  /** Where its operands are signed that is exact: whatever leaves its type is undefined. */
  lemma {:induction false} SignedWordsIff(layouts: Layouts, params: map<string, string>, e: Expr, index: nat, scope: Scope,
                                          views: Env, c: Constraint)
    requires InBounds(layouts, params, e, index, scope, views) && PlanOne(layouts, params, e, index) == Ok(c) && c.signed
    ensures c.bytesEqual.None?
    ensures MachineVerdict(c, scope, views) ==
            if Inside(AsRead(e), true, views) then Said(AsRead(e), views) else None
  {
    hide PlanOne, Machine, Evaluate, Check, Render, Stands, Inside, Carried, Reading, AsRead, InRanges, Fitting, Execute, Entered,
         AllSized, KeepsBounds, AllSingles, Uncaptured, TypeOf, Names, Sources;
    var env, test := TestReady(layouts, params, e, index, scope, views);
    SameParts(e, c.signed, FieldRanges(layouts, params, e, index), Sources(scope, c.bindings, c.locals), Names(scope, c.locals), env,
              views);
    SignedIff(test, env);
  }

  /** Where the compiler's own interval rules, from the fields' ranges alone, keep every part in its type,
      so it is in every pair of messages. */
  lemma {:induction false} RangesSuffice(layouts: Layouts, params: map<string, string>, e: Expr, index: nat, scope: Scope,
                                         views: Env, c: Constraint)
    requires InBounds(layouts, params, e, index, scope, views) && PlanOne(layouts, params, e, index) == Ok(c)
    requires KeptInside(e, c.signed, FieldRanges(layouts, params, e, index))
    ensures c.bytesEqual.None?
    ensures MachineVerdict(c, scope, views) == Said(AsRead(e), views)
  {
    hide PlanOne, Machine, Evaluate, Check, Render, Stands, Inside, KeptInside, Reading, AsRead, InRanges, Fitting, Execute, Bounds,
         Entered, AllSized, KeepsBounds, AllSingles, Uncaptured, Names, Sources;
    var env, test := TestReady(layouts, params, e, index, scope, views);
    KeptIsInside(e, c.signed, FieldRanges(layouts, params, e, index), Names(scope, c.locals), env);
    MachineAgrees(test, c.signed, env);
  }

  /** Is it a comparison of two parts that stay in their types, or are trees of `+`, `-`, `*`, `<<` and `~`
      over such in unsigned 64 bits, with values `a` and `b`? */
  predicate ComparesCarried(e: Expr, signed: bool, views: Env, a: int, b: int) {
    && e.Binary? && Compares(e.op) && Carried(AsRead(e.left), signed, views) && Carried(AsRead(e.right), signed, views)
    && Evaluate(AsRead(e.left), views) == Some(Number(a)) && Evaluate(AsRead(e.right), views) == Some(Number(b))
  }

  /** Such a comparison answers in C what the relation says exactly when the two are not brought to the
      unsigned type, or their unbounded values compare alike once kept in it. */
  lemma {:induction false} WordsComparedIff(layouts: Layouts, params: map<string, string>, e: Expr, index: nat, scope: Scope,
                                            views: Env, c: Constraint, a: int, b: int)
    requires InBounds(layouts, params, e, index, scope, views) && PlanOne(layouts, params, e, index) == Ok(c)
    requires ComparesCarried(e, c.signed, views, a, b)
    ensures Said(AsRead(e), views) == Some(Apply(e.op, a, b) == Some(1))
    ensures c.bytesEqual.None?
    ensures MachineVerdict(c, scope, views) == Said(AsRead(e), views) <==>
            (OperandType(e.op, AsRead(e.left), AsRead(e.right), c.signed) == Word64 ==> ComparesAlike(e.op, a, b))
  {
    hide PlanOne, Machine, Evaluate, Check, Render, Stands, Carried, Reading, AsRead, InRanges, Fitting, Execute, Entered, AllSized,
         KeepsBounds, AllSingles, Uncaptured, ComparesAlike, Apply, Compares, TypeOf, OperandType, Names, Sources;
    var env, test := TestReady(layouts, params, e, index, scope, views);
    ComparedSides(e, test, c.signed, FieldRanges(layouts, params, e, index), Sources(scope, c.bindings, c.locals),
                  Names(scope, c.locals), env, views, a, b);
    TruthSame(Machine(test, c.signed, env), Evaluate(test, env));
  }

  lemma {:induction false} ComparedSides(e: Expr, test: Expr, signed: bool, ranges: map<Path, Interval>, sources: map<Path, Path>,
                                         names: map<Path, string>, env: Env, views: Env, a: int, b: int)
    requires ComparesCarried(e, signed, views, a, b) && Check(e, signed, ranges).Ok? && Stands(e, sources, names, env, views)
    requires Render(e, names) == Some(test) && Fitting(test, signed, env) && Reading(e, sources) == AsRead(e)
    ensures Evaluate(test, env) == Flag(Apply(e.op, a, b) == Some(1))
    ensures IsFlag(Machine(test, signed, env)) && IsFlag(Evaluate(test, env))
    ensures Machine(test, signed, env) == Evaluate(test, env) <==>
            (OperandType(e.op, AsRead(e.left), AsRead(e.right), signed) == Word64 ==> ComparesAlike(e.op, a, b))
  {
    hide Evaluate, Machine, Stands, Carried, Fitting, ComparesAlike, Wrap, TypeOf, Inside, Apply;
    StandsSplit(e.left, e.right, e.op, sources, names, env, views);
    RenderMeans(e.left, signed, ranges, sources, names, env, views);
    RenderMeans(e.right, signed, ranges, sources, names, env, views);
    SameParts(e.left, signed, ranges, sources, names, env, views);
    SameParts(e.right, signed, ranges, sources, names, env, views);
    var l, r := Render(e.left, names).value, Render(e.right, names).value;
    assert test == Binary(e.op, l, r);
    ComparisonIff(e.op, l, r, signed, env, a, b);
  }

  lemma TruthSame(m: Option<Node>, n: Option<Node>)
    requires IsFlag(m) && IsFlag(n)
    ensures Truth(m) == Truth(n) <==> m == n
  {
  }

  /** Is it `p == v << q`, with a literal `v` that an `int` holds and paths `p` and `q`? */
  predicate ShiftsLiteral(e: Expr, v: int) {
    && e.Binary? && e.op == Eq && Components(e.left).Some?
    && e.right.Binary? && e.right.op == Shl && e.right.left.IntLit? && e.right.left.value == v && v >= 0 && InType(Int32, v)
    && Components(e.right.right).Some?
  }

  /** In C it answers what the relation says exactly when the shift is by less than 32 and its result fits
      an `int`, and is undefined otherwise. */
  lemma {:induction false} ShiftedLiteralIff(layouts: Layouts, params: map<string, string>, e: Expr, index: nat, scope: Scope,
                                             views: Env, c: Constraint, v: int) returns (n: int)
    requires InBounds(layouts, params, e, index, scope, views) && PlanOne(layouts, params, e, index) == Ok(c)
    requires ShiftsLiteral(e, v)
    ensures Evaluate(e.right.right, views) == Some(Number(n)) && 0 <= n < SHIFT_WIDTH && Said(e, views).Some?
    ensures c.bytesEqual.None?
    ensures MachineVerdict(c, scope, views) == if n < 32 && InType(Int32, v * Pow2(n)) then Said(e, views) else None
  {
    hide PlanOne, Machine, Check, Stands, InRanges, Execute, Entered, AllSized, KeepsBounds, AllSingles, Uncaptured, Names, Sources,
         Pow2, InType, Render, Reading, AsRead, Evaluate, Fitting, FieldRanges;
    var env, test := TestReady(layouts, params, e, index, scope, views);
    var p, q, x, n' := ShiftTest(e, v, test, c.signed, FieldRanges(layouts, params, e, index), Sources(scope, c.bindings, c.locals),
                                 Names(scope, c.locals), env, views);
    n := n';
    LiteralShiftIff(p, v, e.right.left.text, q, c.signed, env, x, n);
  }

  /** Its test shifts the literal by the amount the relation does. */
  lemma {:induction false} ShiftTest(e: Expr, v: int, test: Expr, signed: bool, ranges: map<Path, Interval>, sources: map<Path, Path>,
                                     names: map<Path, string>, env: Env, views: Env) returns (p: string, q: string, x: int, n: int)
    requires ShiftsLiteral(e, v) && Check(e, signed, ranges).Ok? && Stands(e, sources, names, env, views)
    requires Render(e, names) == Some(test) && Fitting(test, signed, env) && Reading(e, sources) == AsRead(e)
    ensures test == Binary(Eq, NameRef(p), Binary(Shl, IntLit(v, e.right.left.text), NameRef(q))) && AsRead(e) == e
    ensures p in env && env[p] == Number(x) && InWord(signed, x)
    ensures q in env && env[q] == Number(n) && 0 <= n < SHIFT_WIDTH && Evaluate(e.right.right, views) == Some(Number(n))
  {
    hide Check, Stands, Pow2, InType, InWord, RenderPath, PathsIn, AsRead, Reading, Components, Render;
    BareSides(e);
    var shift := e.right;
    RenderSides(e, names);
    RenderSides(shift, names);
    p, q := Render(e.left, names).value.name, Render(shift.right, names).value.name;
    x, n := env[p].value, env[q].value;
    AmountRead(e, signed, ranges, sources, names, env, views);
  }

  lemma RenderSides(e: Expr, names: map<Path, string>)
    requires e.Binary? && Render(e, names).Some?
    ensures Render(e.left, names).Some? && Render(e.right, names).Some?
    ensures Render(e, names).value == Binary(e.op, Render(e.left, names).value, Render(e.right, names).value)
    ensures e.left.IntLit? ==> Render(e.left, names).value == e.left
    ensures e.left.NameRef? || e.left.Access? ==> Render(e.left, names).value.NameRef?
    ensures e.right.NameRef? || e.right.Access? ==> Render(e.right, names).value.NameRef?
  {
  }

  /** Its sides are read as they are written. */
  lemma {:induction false} BareSides(e: Expr)
    requires e.Binary? && Components(e.left).Some?
    requires e.right.Binary? && e.right.left.IntLit? && Components(e.right.right).Some?
    ensures AsRead(e) == e && (e.left.NameRef? || e.left.Access?) && (e.right.right.NameRef? || e.right.right.Access?)
  {
    hide AsRead;
    AsReadIff(e);
    BareIsPath(e.left);
    BareIsPath(e.right.right);
    assert BarePaths(e.right);
  }

  lemma BareIsPath(e: Expr)
    requires Components(e).Some?
    ensures BarePaths(e) && (e.NameRef? || e.Access?)
  {
  }

  /** The amount the test shifts by is the one the relation does. */
  lemma {:induction false} AmountRead(e: Expr, signed: bool, ranges: map<Path, Interval>, sources: map<Path, Path>,
                                      names: map<Path, string>, env: Env, views: Env)
    requires e.Binary? && e.right.Binary? && (e.right.right.NameRef? || e.right.right.Access?) && Components(e.right.right).Some?
    requires Stands(e, sources, names, env, views) && Reading(e, sources) == AsRead(e)
    ensures Render(e.right.right, names).Some?
    ensures Evaluate(Render(e.right.right, names).value, env) == Evaluate(e.right.right, views)
  {
    hide Evaluate, Stands, PathExpr, Render, PathsIn, SourceIn, Components;
    StandsSplit(e.left, e.right, e.op, sources, names, env, views);
    StandsSplit(e.right.left, e.right.right, e.right.op, sources, names, env, views);
    var amount := e.right.right;
    PathRenders(amount, sources, names, env, views);
    SidesRead(e, sources);
    SidesRead(e.right, sources);
    AsReadIff(amount);
    BareIsPath(amount);
  }

  lemma SidesRead(e: Expr, sources: map<Path, Path>)
    requires e.Binary? && Reading(e, sources) == AsRead(e)
    ensures Reading(e.right, sources) == AsRead(e.right)
  {
    hide PathExpr, SourceIn, PathsIn;
  }
}
