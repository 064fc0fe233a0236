/** Compiling a relation preserves what it says, in unbounded integers and in 64 bits. */
module RelationMeaning {
  import opened Prelude
  import opened Ast
  import opened Bits
  import opened Intervals
  import opened Relations
  import opened RelationTheorems

  // ----- what an expression says

  function Truth(n: Option<Node>): Option<bool> {
    match n
    case Some(Number(v)) => Some(v != 0)
    case _ => None
  }

  function Flag(b: bool): Option<Node> {
    Some(Number(Bool(b)))
  }

  /** Two values under an operator; two byte strings can be the same or not. */
  function Operate(op: BinaryOp, l: Option<Node>, r: Option<Node>): Option<Node> {
    match (l, r)
    case (Some(Number(a)), Some(Number(b))) =>
      (match Apply(op, a, b) case None => None case Some(v) => Some(Number(v)))
    case (Some(Bytes(a)), Some(Bytes(b))) =>
      if op == Eq then Flag(a == b) else if op == Ne then Flag(a != b) else None
    case _ => None
  }

  /** The value of an expression where names stand for what `env` says. `&&` and `||` stop early. */
  function Evaluate(e: Expr, env: Env): Option<Node> {
    match e
    case IntLit(v, _) => Some(Number(v))
    case NameRef(name) => if name in env then Some(env[name]) else None
    case Access(base, member) =>
      (match Evaluate(base, env)
       case Some(View(_, members)) => if member in members then Some(members[member]) else None
       case _ => None)
    case Unary(op, x) =>
      (match Evaluate(x, env)
       case Some(Number(v)) => Some(Number(ApplyUnary(op, v)))
       case _ => None)
    case Binary(LogicalAnd, l, r) =>
      (match Truth(Evaluate(l, env))
       case None => None
       case Some(false) => Flag(false)
       case Some(true) => match Truth(Evaluate(r, env)) case None => None case Some(b) => Flag(b))
    case Binary(LogicalOr, l, r) =>
      (match Truth(Evaluate(l, env))
       case None => None
       case Some(true) => Flag(true)
       case Some(false) => match Truth(Evaluate(r, env)) case None => None case Some(b) => Flag(b))
    case Binary(op, l, r) => Operate(op, Evaluate(l, env), Evaluate(r, env))
    case _ => None
  }

  /** `render`, as the tree the fully parenthesised text is read back as; None where the source
      has no local to name. */
  function Render(e: Expr, locals: map<Path, string>): Option<Expr> {
    match e
    case IntLit(_, _) => Some(e)
    case NameRef(_) => RenderPath(e, locals)
    case Access(_, _) => RenderPath(e, locals)
    case Unary(op, x) => (match Render(x, locals) case None => None case Some(y) => Some(Unary(op, y)))
    case Binary(op, l, r) =>
      (match (Render(l, locals), Render(r, locals))
       case (Some(a), Some(b)) => Some(Binary(op, a, b))
       case _ => None)
    case _ => None
  }

  function RenderPath(e: Expr, locals: map<Path, string>): Option<Expr> {
    if PathsIn(e) == [] || PathsIn(e)[0] !in locals then None else Some(NameRef(locals[PathsIn(e)[0]]))
  }

  /** The paths' locals as the target spells them. */
  function Names(scope: Scope, locals: map<Path, string>): map<Path, string> {
    map path <- locals :: scope.prefix + locals[path]
  }

  /** What the generated predicate answers: run the bindings, after what ran before in their scope, and
      then the test. */
  function Verdict(c: Constraint, scope: Scope, views: Env): Option<bool> {
    match Execute(Scoped(scope, c.bindings), views)
    case None => None
    case Some(env) =>
      match c.bytesEqual
      case Some(t) =>
        var (l, r) := (scope.prefix + t.left, scope.prefix + t.right);
        if l in env && r in env && env[l].Bytes? && env[r].Bytes? then Some((env[l] == env[r]) != t.negated)
        else None
      case None =>
        match Render(c.expr, Names(scope, c.locals))
        case None => None
        case Some(test) => Truth(Evaluate(test, env))
  }

  /** What the relation says: look each path up in the two messages, then test. */
  function Said(e: Expr, views: Env): Option<bool> {
    Truth(Evaluate(e, views))
  }

  // ----- paths

  /** The components of a dotted path, or None for an expression that is not one. */
  function Components(e: Expr): Option<Path> {
    match e
    case NameRef(name) => Some([name])
    case Access(base, member) => (match Components(base) case None => None case Some(p) => Some(p + [member]))
    case _ => None
  }

  /** Members are taken only of paths. */
  predicate BarePaths(e: Expr) {
    match e
    case Access(_, _) => Components(e).Some?
    case Unary(_, x) => BarePaths(x)
    case Binary(_, l, r) => BarePaths(l) && BarePaths(r)
    case _ => true
  }

  /** Every path goes on past its parameter. */
  predicate NamesMembers(e: Expr) {
    forall i :: 0 <= i < |PathsIn(e)| ==> |PathsIn(e)[i]| > 1
  }

  lemma {:induction false} PathMeans(e: Expr, env: Env)
    requires Components(e).Some?
    ensures PathsIn(e) == [Components(e).value] && Components(e).value != []
    ensures Evaluate(e, env) == Lookup(env, Components(e).value)
  {
    var p := Components(e).value;
    match e
    case NameRef(name) =>
      assert [name][1..] == [];
    case Access(base, member) =>
      PathMeans(base, env);
      var q := Components(base).value;
      assert p == q + [member] && p[0] == q[0] && p[1..] == q[1..] + [member];
      if p[0] in env { FetchJoin(env[p[0]], q[1..], member); }
  }

  // ----- what is read for each path

  /** The one path of a name or a member access. */
  function PathOf(e: Expr): (path: Path)
    requires e.NameRef? || e.Access?
    ensures path != [] && PathsIn(e) == [path]
  {
    PathsNonEmpty(e);
    assert PathsIn(e)[0] in PathsIn(e);
    PathsIn(e)[0]
  }

  /** A path spelled as an expression. */
  function PathExpr(path: Path): (e: Expr)
    requires path != []
    ensures Components(e) == Some(path) && PathsIn(e) == [path]
    decreases |path|
  {
    var init, last := path[..|path| - 1], path[|path| - 1];
    assert path == init + [last];
    if init == [] then NameRef(last) else Access(PathExpr(init), last)
  }

  /** The path each planned path's local is read along. */
  function Sources(scope: Scope, bindings: seq<Binding>, locals: map<Path, string>): map<Path, Path> {
    map path <- locals | path != [] :: SourceOf(scope, bindings, locals, path)
  }

  function SourceIn(sources: map<Path, Path>, path: Path): (source: Path)
    requires path != []
    ensures source != []
  {
    if path in sources && sources[path] != [] then sources[path] else path
  }

  lemma SourcesAre(scope: Scope, bindings: seq<Binding>, locals: map<Path, string>, path: Path)
    requires path != []
    ensures SourceIn(Sources(scope, bindings, locals), path) == SourceOf(scope, bindings, locals, path)
  {
    hide Origin, Scoped;
  }

  /** The expression with each path spelled as the one its local is read along. */
  function Reading(e: Expr, sources: map<Path, Path>): Expr {
    match e
    case NameRef(_) => PathExpr(SourceIn(sources, PathOf(e)))
    case Access(_, _) => PathExpr(SourceIn(sources, PathOf(e)))
    case Unary(op, x) => Unary(op, Reading(x, sources))
    case Binary(op, l, r) => Binary(op, Reading(l, sources), Reading(r, sources))
    case _ => e
  }

  /** The expression with each member access spelled as the path it is planned under: `(x + y).z` as
      `x.z`. */
  function AsRead(e: Expr): Expr {
    Reading(e, map[])
  }

  /** Only accesses on something other than a path are spelled anew. */
  lemma {:induction false} AsReadIff(e: Expr)
    ensures AsRead(e) == e <==> BarePaths(e)
    ensures BarePaths(AsRead(e)) && PathsIn(AsRead(e)) == PathsIn(e)
  {
    match e
    case NameRef(name) =>
      SpellsIff(e);
    case Access(_, _) =>
      SpellsIff(e);
    case Unary(_, x) => AsReadIff(x);
    case Binary(_, l, r) => AsReadIff(l); AsReadIff(r);
    case _ =>
  }

  lemma {:induction false} SpellsIff(e: Expr)
    requires e.NameRef? || e.Access?
    ensures PathExpr(PathOf(e)) == e <==> Components(e).Some?
    ensures PathExpr(PathOf(e)).NameRef? || PathExpr(PathOf(e)).Access?
  {
    hide PathExpr;
    if Components(e).Some? {
      PathMeans(e, map[]);
      SpelledBack(e);
    }
    Spelling(PathOf(e));
  }

  lemma Spelling(path: Path)
    requires path != []
    ensures PathExpr(path).NameRef? || PathExpr(path).Access?
  {
  }

  lemma {:induction false} SpelledBack(e: Expr)
    requires Components(e).Some? && Components(e).value != []
    ensures PathExpr(Components(e).value) == e
  {
    match e
    case NameRef(name) =>
      assert [name][..0] == [];
    case Access(base, member) =>
      var q := Components(base).value;
      PathMeans(base, map[]);
      assert q != [];
      SpelledBack(base);
      assert (q + [member])[..|q|] == q;
  }

  /** Where the relation says something of the messages, spelling it as it is read changes nothing. */
  lemma {:induction false} AsReadKeeps(e: Expr, env: Env)
    requires Evaluate(e, env).Some?
    ensures Evaluate(AsRead(e), env) == Evaluate(e, env)
  {
    hide Apply, ApplyUnary, PathExpr, PathsIn;
    match e
    case NameRef(_) =>
      SpellsIff(e);
    case Access(base, _) =>
      SpellsIff(e);
      if Components(e).None? { OnlyPathsAreBytes(base, env); }
    case Unary(_, x) => AsReadKeeps(x, env);
    case Binary(op, l, r) =>
      AsReadKeeps(l, env);
      if Evaluate(r, env).Some? { AsReadKeeps(r, env); }
    case _ =>
  }

  /** Reading each path along itself is reading what was written. */
  lemma {:induction false} OwnReading(e: Expr, sources: map<Path, Path>)
    requires forall i :: 0 <= i < |PathsIn(e)| ==> PathsIn(e)[i] != [] && SourceIn(sources, PathsIn(e)[i]) == PathsIn(e)[i]
    ensures Reading(e, sources) == AsRead(e)
  {
    hide PathsIn, PathExpr;
    match e
    case NameRef(_) =>
      assert PathsIn(e) == [PathOf(e)] && PathsIn(e)[0] == PathOf(e);
    case Access(_, _) =>
      assert PathsIn(e) == [PathOf(e)] && PathsIn(e)[0] == PathOf(e);
    case Unary(op, x) =>
      PathsInside(op, x);
      OwnReading(x, sources);
    case Binary(op, l, r) =>
      PathsSplit(op, l, r);
      assert forall i :: 0 <= i < |PathsIn(l)| ==> PathsIn(l)[i] == PathsIn(e)[i];
      assert forall i :: 0 <= i < |PathsIn(r)| ==> PathsIn(r)[i] == PathsIn(e)[|PathsIn(l)| + i];
      OwnReading(l, sources);
      OwnReading(r, sources);
    case _ =>
  }

  lemma PathsInside(op: UnaryOp, x: Expr)
    ensures PathsIn(Unary(op, x)) == PathsIn(x)
  {
  }

  lemma PathsSplit(op: BinaryOp, l: Expr, r: Expr)
    ensures PathsIn(Binary(op, l, r)) == PathsIn(l) + PathsIn(r)
  {
  }

  // ----- the rendered test

  /** Each path's local holds what lookup finds along its source. */
  ghost predicate Stands(e: Expr, sources: map<Path, Path>, names: map<Path, string>, env: Env, views: Env) {
    forall i :: 0 <= i < |PathsIn(e)| ==> StandsFor(PathsIn(e)[i], sources, names, env, views)
  }

  ghost predicate StandsFor(path: Path, sources: map<Path, Path>, names: map<Path, string>, env: Env, views: Env) {
    && path != [] && path in names && names[path] in env
    && Lookup(views, SourceIn(sources, path)) == Some(env[names[path]])
  }

  lemma {:induction false} PathRenders(e: Expr, sources: map<Path, Path>, names: map<Path, string>, env: Env, views: Env)
    requires (e.NameRef? || e.Access?) && Stands(e, sources, names, env, views)
    ensures Render(e, names) == Some(NameRef(names[PathOf(e)]))
    ensures Evaluate(Render(e, names).value, env) == Evaluate(Reading(e, sources), views)
  {
    hide Lookup, PathExpr;
    var path := PathOf(e);
    assert StandsFor(PathsIn(e)[0], sources, names, env, views);
    PathMeans(PathExpr(SourceIn(sources, path)), views);
  }

  /** The test over the locals means what the expression means with each path read along its source. */
  lemma {:induction false} RenderMeans(e: Expr, signed: bool, ranges: map<Path, Interval>, sources: map<Path, Path>, names: map<Path, string>, env: Env, views: Env)
    requires Check(e, signed, ranges).Ok? && Stands(e, sources, names, env, views)
    ensures Render(e, names).Some?
    ensures Evaluate(Render(e, names).value, env) == Evaluate(Reading(e, sources), views)
  {
    hide Operate, ApplyUnary, StandsFor, ShiftAmount, Stands, PathsIn, Components, RenderPath, PathExpr, SourceIn, Lookup, ProvablyBelow64;
    match e
    case IntLit(_, _) =>
    case NameRef(_) =>
      PathRenders(e, sources, names, env, views);
    case Access(_, _) =>
      PathRenders(e, sources, names, env, views);
    case Unary(_, x) =>
      StandsInside(x, e.uop, sources, names, env, views);
      RenderMeans(x, signed, ranges, sources, names, env, views);
    case Binary(_, l, r) =>
      StandsSplit(l, r, e.op, sources, names, env, views);
      RenderMeans(l, signed, ranges, sources, names, env, views);
      RenderMeans(r, signed, ranges, sources, names, env, views);
      BinaryMeans(e.op, Render(l, names).value, Render(r, names).value, env,
                  Reading(l, sources), Reading(r, sources), views);
  }

  lemma {:induction false} BinaryMeans(op: BinaryOp, l: Expr, r: Expr, env: Env, l': Expr, r': Expr, env': Env)
    requires Evaluate(l, env) == Evaluate(l', env') && Evaluate(r, env) == Evaluate(r', env')
    ensures Evaluate(Binary(op, l, r), env) == Evaluate(Binary(op, l', r'), env')
  {
    hide Operate;
  }

  lemma {:induction false} StandsInside(x: Expr, op: UnaryOp, sources: map<Path, Path>, names: map<Path, string>,
                                        env: Env, views: Env)
    requires Stands(Unary(op, x), sources, names, env, views)
    ensures Stands(x, sources, names, env, views)
  {
    hide StandsFor;
    PathsInside(op, x);
  }

  lemma {:induction false} StandsSplit(l: Expr, r: Expr, op: BinaryOp, sources: map<Path, Path>, names: map<Path, string>,
                                       env: Env, views: Env)
    requires Stands(Binary(op, l, r), sources, names, env, views)
    ensures Stands(l, sources, names, env, views) && Stands(r, sources, names, env, views)
  {
    hide StandsFor;
    var all := PathsIn(Binary(op, l, r));
    forall i | 0 <= i < |PathsIn(l)| ensures StandsFor(PathsIn(l)[i], sources, names, env, views) {
      assert all[i] == PathsIn(l)[i];
    }
    forall i | 0 <= i < |PathsIn(r)| ensures StandsFor(PathsIn(r)[i], sources, names, env, views) {
      assert all[|PathsIn(l)| + i] == PathsIn(r)[i];
    }
  }

  // ----- compiling preserves meaning

  /** Both messages have their shape. */
  ghost predicate WellGiven(layouts: Layouts, params: map<string, string>, views: Env) {
    ScalarsAreLeaves(layouts) && Given(layouts, params, views)
  }

  /** A planned constraint keeps what the loop over its paths collected. */
  lemma {:induction false} PlanCollects(layouts: Layouts, params: map<string, string>, e: Expr, index: nat)
    requires PlanOne(layouts, params, e, index).Ok?
    ensures ArrayEquality(e, layouts, params).Ok?
    ensures var arrays := ArrayEquality(e, layouts, params).value;
            var collected := BindPaths(layouts, params, Named(e), index, arrays.Some?);
            && collected.Ok? && Finish(e, arrays, collected.value) == PlanOne(layouts, params, e, index)
            && PlanOne(layouts, params, e, index).value.bindings == collected.value.bindings
            && PlanOne(layouts, params, e, index).value.locals == collected.value.locals
            && (PlanOne(layouts, params, e, index).value.bytesEqual.Some? <==> arrays.Some?)
            && PlanOne(layouts, params, e, index).value.expr == e
  {
    hide BindPaths, ArrayEquality, Check, Widen;
  }

  /** Every path of a planned constraint has a local, and each is read along its own path exactly when no
      path's root starts with an underscore or is spelled like a local that has been bound in its scope. */
  lemma {:induction false} CapturedIff(layouts: Layouts, params: map<string, string>, e: Expr, index: nat, scope: Scope)
    requires PlanOne(layouts, params, e, index).Ok? && EntersAt(scope, index)
    ensures var c := PlanOne(layouts, params, e, index).value;
            && HasLocals(params, scope, c.bindings, c.locals, Named(e), index, c.bytesEqual.Some?)
            && (ReadsItsPaths(scope, c.bindings, c.locals, Named(e)) <==> Uncaptured(scope, Named(e), index))
  {
    hide PlanOne, BindPaths, HasLocals, ReadsItsPaths, Uncaptured;
    PlanCollects(layouts, params, e, index);
    NamedOnce(e);
    OwnPathsIff(layouts, params, Named(e), index, PlanOne(layouts, params, e, index).value.bytesEqual.Some?, scope);
  }

  lemma NamedOnce(e: Expr)
    ensures OnceEach(Named(e))
  {
    OnceDistinct(PathsIn(e));
  }

  /** Is the constraint planned, and has what comes before it in its scope run? */
  ghost predicate Entered(layouts: Layouts, params: map<string, string>, e: Expr, index: nat, scope: Scope, views: Env) {
    && WellGiven(layouts, params, views) && PlanOne(layouts, params, e, index).Ok?
    && EntersAt(scope, index) && AllPlanned(layouts, scope.ran) && Execute(scope.ran, views).Some?
  }

  /** The bindings of a planned constraint run exactly when every path goes through single members to
      one the layout knows the length of and every root's spelling holds its parameter's struct; then each
      local holds what lookup finds along its source. */
  lemma {:induction false} PathsStand(layouts: Layouts, params: map<string, string>, e: Expr, index: nat, scope: Scope, views: Env)
    requires Entered(layouts, params, e, index, scope, views) && NamesMembers(e)
    ensures var c := PlanOne(layouts, params, e, index).value;
            var after := Execute(Scoped(scope, c.bindings), views);
            && |c.bindings| == Count(Named(e))
            && (after.Some? <==> AllSingles(layouts, params, Named(e)) && RootsHeld(params, scope, c.bindings, Named(e)))
            && (after.Some? ==>
                  && Traced(layouts, params, views, Scoped(scope, c.bindings), after.value)
                  && Stands(e, Sources(scope, c.bindings, c.locals), Names(scope, c.locals), after.value, views))
  {
    hide PlanOne, BindPaths, Execute, AllSingles, RootsHeld, Shaped, StandsFor, PathsIn, Count, HasLocals, Traced, EmitAll, Planned,
         Sources, Names;
    PlanCollects(layouts, params, e, index);
    CapturedIff(layouts, params, e, index, scope);
    var c := PlanOne(layouts, params, e, index).value;
    BindingsRunIff(layouts, params, Named(e), index, c.bytesEqual.Some?, scope, views);
    CollectedCount(layouts, params, Named(e), index, c.bytesEqual.Some?, scope.prefix);
    CollectedTargets(layouts, params, Named(e), index, c.bytesEqual.Some?);
    var after := Execute(Scoped(scope, c.bindings), views);
    if after.Some? {
      ExecutedTraced(layouts, params, views, Scoped(scope, c.bindings));
      forall i | 0 <= i < |PathsIn(e)|
        ensures StandsFor(PathsIn(e)[i], Sources(scope, c.bindings, c.locals), Names(scope, c.locals), after.value, views)
      {
        NamedStands(layouts, params, scope, c, e, i, index, after.value, views);
      }
    }
  }

  lemma {:induction false} NamedStands(layouts: Layouts, params: map<string, string>, scope: Scope, c: Constraint, e: Expr, i: nat,
                                       index: nat, env: Env, views: Env)
    requires i < |PathsIn(e)| && |PathsIn(e)[i]| > 1
    requires HasLocals(params, scope, c.bindings, c.locals, Named(e), index, c.bytesEqual.Some?)
    requires forall k :: 0 <= k < |c.bindings| ==> c.bindings[k].target == Local(index + k)
    requires Traced(layouts, params, views, Scoped(scope, c.bindings), env)
    ensures HasLocal(params, scope, c.bindings, c.locals, PathsIn(e)[i], index, c.bytesEqual.Some?)
    ensures StandsFor(PathsIn(e)[i], Sources(scope, c.bindings, c.locals), Names(scope, c.locals), env, views)
    ensures KindOf(env[scope.prefix + c.locals[PathsIn(e)[i]]]) ==
            Holding(params, Scoped(scope, c.bindings), scope.prefix + c.locals[PathsIn(e)[i]])
  {
    hide PathsIn, Lookup, Local, Shaped, Origin, Holding, Sources, Emitted;
    OnceKeeps(PathsIn(e));
    assert PathsIn(e)[i] in Named(e);
    var k :| 0 <= k < |Named(e)| && Named(e)[k] == PathsIn(e)[i];
    var path, all := Named(e)[k], Scoped(scope, c.bindings);
    assert HasLocal(params, scope, c.bindings, c.locals, path, index, c.bytesEqual.Some?);
    var name := scope.prefix + c.locals[path];
    var n: nat :| index <= n < index + |c.bindings| && name == LocalIn(scope, n);
    EmittedTarget(scope.prefix, c.bindings[n - index]);
    assert all[|scope.ran| + n - index] == Emitted(scope.prefix, c.bindings[n - index]);
    assert all[|scope.ran| + n - index].target == name;
    assert TracedName(layouts, params, views, all, name, env[name]);
    SourcesAre(scope, c.bindings, c.locals, path);
  }

  /** A scalar constraint answers exactly when its bindings run, and then it answers what the relation
      says with each path read along its source. */
  lemma {:induction false} VerdictReads(layouts: Layouts, params: map<string, string>, e: Expr, index: nat, scope: Scope, views: Env)
    requires Entered(layouts, params, e, index, scope, views) && NamesMembers(e)
    requires PlanOne(layouts, params, e, index).value.bytesEqual.None?
    ensures var c := PlanOne(layouts, params, e, index).value;
            && |c.bindings| == Count(Named(e))
            && Verdict(c, scope, views) ==
               if AllSingles(layouts, params, Named(e)) && RootsHeld(params, scope, c.bindings, Named(e))
               then Said(Reading(e, Sources(scope, c.bindings, c.locals)), views) else None
  {
    hide PlanOne, BindPaths, Shaped, Execute, ArrayEquality, AllSingles, Evaluate, Check, Render, Stands, RootsHeld, Count, Reading,
         Traced, Sources, Names, EmitAll, EntersAt;
    PathsStand(layouts, params, e, index, scope, views);
    PlanCollects(layouts, params, e, index);
    var c := PlanOne(layouts, params, e, index).value;
    var after := Execute(Scoped(scope, c.bindings), views);
    if after.Some? {
      var ranges := BindPaths(layouts, params, Named(e), index, false).value.ranges;
      RenderMeans(e, c.signed, ranges, Sources(scope, c.bindings, c.locals), Names(scope, c.locals), after.value, views);
    }
  }

  /** With every root read under its own name, a scalar constraint answers exactly when every path goes
      through single members to one the layout knows the length of and the relation, spelled as it is
      read, says something of the two messages. */
  lemma {:induction false} ScalarsPreserved(layouts: Layouts, params: map<string, string>, e: Expr, index: nat, scope: Scope,
                                            views: Env)
    requires Entered(layouts, params, e, index, scope, views) && NamesMembers(e)
    requires PlanOne(layouts, params, e, index).value.bytesEqual.None? && Uncaptured(scope, Named(e), index)
    ensures var c := PlanOne(layouts, params, e, index).value;
            Verdict(c, scope, views) == if AllSingles(layouts, params, Named(e)) then Said(AsRead(e), views) else None
    ensures BarePaths(e) ==> AsRead(e) == e
    ensures Said(e, views).Some? ==> Said(AsRead(e), views) == Said(e, views)
  {
    hide PlanOne, BindPaths, Verdict, AllSingles, Evaluate, RootsHeld, Count, Reading, WellGiven, Uncaptured, AsRead, BarePaths,
         Execute, EntersAt, Sources;
    VerdictReads(layouts, params, e, index, scope, views);
    ReadsOwn(layouts, params, e, index, scope);
    AsReadIff(e);
    if Evaluate(e, views).Some? { AsReadKeeps(e, views); }
  }

  /** Then every root holds its parameter's struct and every path is read along itself. */
  lemma {:induction false} ReadsOwn(layouts: Layouts, params: map<string, string>, e: Expr, index: nat, scope: Scope)
    requires NamesMembers(e) && PlanOne(layouts, params, e, index).Ok? && EntersAt(scope, index)
    requires Uncaptured(scope, Named(e), index)
    ensures var c := PlanOne(layouts, params, e, index).value;
            && |c.bindings| == Count(Named(e)) && RootsHeld(params, scope, c.bindings, Named(e))
            && Reading(e, Sources(scope, c.bindings, c.locals)) == AsRead(e)
            && forall i :: 0 <= i < |PathsIn(e)| ==>
                 PathsIn(e)[i] != [] && SourceIn(Sources(scope, c.bindings, c.locals), PathsIn(e)[i]) == PathsIn(e)[i]
  {
    hide PlanOne, BindPaths, RootsHeld, Count, Reading, Uncaptured, AsRead, SourceOf, PathsIn, HasLocals, EntersAt, Sources, SourceIn;
    var c := PlanOne(layouts, params, e, index).value;
    PlanCollects(layouts, params, e, index);
    CapturedIff(layouts, params, e, index, scope);
    UncapturedRoots(layouts, params, Named(e), index, c.bytesEqual.Some?, scope);
    OnceKeeps(PathsIn(e));
    forall i | 0 <= i < |PathsIn(e)|
      ensures PathsIn(e)[i] != [] && SourceIn(Sources(scope, c.bindings, c.locals), PathsIn(e)[i]) == PathsIn(e)[i]
    {
      assert PathsIn(e)[i] in Named(e);
      var k :| 0 <= k < |Named(e)| && Named(e)[k] == PathsIn(e)[i];
      SourcesAre(scope, c.bindings, c.locals, PathsIn(e)[i]);
    }
    OwnReading(e, Sources(scope, c.bindings, c.locals));
  }

  // ----- arrays

  lemma {:induction false} OnlyPathsAreBytes(e: Expr, env: Env)
    requires Components(e).None?
    ensures var v := Evaluate(e, env); v.None? || v.value.Number?
  {
    match e
    case Access(base, _) => OnlyPathsAreBytes(base, env);
    case _ =>
  }

  /** What direct lookup finds at a path's end has the shape the layout gives it. */
  lemma {:induction false} FetchFits(layouts: Layouts, owner: string, components: Path, node: Node)
    requires ScalarsAreLeaves(layouts) && owner in layouts && components != []
    requires LeafOf(layouts, owner, components).Ok? && Singles(layouts, owner, components)
    requires node.View? && node.struct == owner && Shaped(layouts, node)
    ensures Fetch(node, components).Some? && Fits(layouts, Fetch(node, components).value, LeafOf(layouts, owner, components).value)
    decreases |components|
  {
    hide Fits, ScalarsAreLeaves;
    MemberGives(layouts, node, components[0]);
    var got := node.members[components[0]];
    if |components| == 1 {
      assert components[1..] == [] && Fetch(got, components[1..]) == Some(got);
    } else {
      FetchFits(layouts, layouts[owner][components[0]].typeName, components[1..], got);
    }
  }

  /** What planning an array test has established. */
  lemma {:induction false} ArrayPlanned(layouts: Layouts, params: map<string, string>, e: Expr, index: nat)
    requires PlanOne(layouts, params, e, index).Ok? && PlanOne(layouts, params, e, index).value.bytesEqual.Some?
    ensures e.Binary? && (e.op == Eq || e.op == Ne) && |PathsIn(e.left)| == |PathsIn(e.right)| == 1
    ensures var l, r, c := PathsIn(e.left)[0], PathsIn(e.right)[0], PlanOne(layouts, params, e, index).value;
            && l != [] && LeafPlacement(layouts, params, l).Ok? && ArrayBytes(LeafPlacement(layouts, params, l).value).Ok?
            && r != [] && LeafPlacement(layouts, params, r).Ok? && ArrayBytes(LeafPlacement(layouts, params, r).value).Ok?
            && l in c.locals && r in c.locals
            && c.bytesEqual.value.left == c.locals[l] && c.bytesEqual.value.right == c.locals[r]
            && c.bytesEqual.value.negated == (e.op == Ne)
  {
    hide BindPaths, Check, Widen, ArrayBytes, LeafPlacement;
    PathsNonEmpty(e.left);
    PathsNonEmpty(e.right);
    assert PathsIn(e.left)[0] in PathsIn(e.left) && PathsIn(e.right)[0] in PathsIn(e.right);
  }

  /** Two arrays: the bytes found along the two sources are compared, exactly when the bindings run. */
  lemma {:induction false} ArraysRead(layouts: Layouts, params: map<string, string>, e: Expr, index: nat, scope: Scope, views: Env)
    requires Entered(layouts, params, e, index, scope, views)
    requires PlanOne(layouts, params, e, index).value.bytesEqual.Some?
    ensures e.Binary? && |PathsIn(e.left)| == |PathsIn(e.right)| == 1
    ensures var c, l, r := PlanOne(layouts, params, e, index).value, PathsIn(e.left)[0], PathsIn(e.right)[0];
            var sources := Sources(scope, c.bindings, c.locals);
            && |c.bindings| == Count(Named(e)) && l != [] && r != []
            && (Verdict(c, scope, views).Some? <==>
                AllSingles(layouts, params, Named(e)) && RootsHeld(params, scope, c.bindings, Named(e)))
            && (Verdict(c, scope, views).Some? ==>
                  var a, b := Lookup(views, SourceIn(sources, l)), Lookup(views, SourceIn(sources, r));
                  && a.Some? && a.value.Bytes? && b.Some? && b.value.Bytes?
                  && Verdict(c, scope, views) == Some((a == b) != (e.op == Ne)))
  {
    hide PlanOne, WellGiven, LeafPlacement, ArrayBytes, Execute, Lookup, Singles, AllSingles, RootsHeld, Count, Traced, Stands,
         HasLocals, SourceOf, Local, Holding, Scoped, EntersAt, Sources, SourceIn, Planned;
    ArrayPlanned(layouts, params, e, index);
    var l, r, c := PathsIn(e.left)[0], PathsIn(e.right)[0], PlanOne(layouts, params, e, index).value;
    assert PathsIn(e) == [l, r];
    assert NamesMembers(e) by { Longer(layouts, params, l); Longer(layouts, params, r); }
    PathsStand(layouts, params, e, index, scope, views);
    CapturedIff(layouts, params, e, index, scope);
    ConstraintTargets(layouts, params, e, index);
    if Execute(Scoped(scope, c.bindings), views).Some? {
      var env := Execute(Scoped(scope, c.bindings), views).value;
      NamedStands(layouts, params, scope, c, e, 0, index, env, views);
      NamedStands(layouts, params, scope, c, e, 1, index, env, views);
    }
  }

  lemma Longer(layouts: Layouts, params: map<string, string>, path: Path)
    requires path != [] && LeafPlacement(layouts, params, path).Ok?
    ensures |path| > 1
  {
  }

  /** With every root read under its own name, comparing two arrays' bytes is what the relation says exactly
      when its sides are the two paths and nothing else. Otherwise a side denotes no bytes at all. */
  lemma {:induction false} ArraysPreservedIff(layouts: Layouts, params: map<string, string>, e: Expr, index: nat, scope: Scope,
                                              views: Env)
    requires Entered(layouts, params, e, index, scope, views)
    requires PlanOne(layouts, params, e, index).value.bytesEqual.Some? && Uncaptured(scope, Named(e), index)
    requires AllSingles(layouts, params, Named(e))
    ensures e.Binary? && Verdict(PlanOne(layouts, params, e, index).value, scope, views).Some?
    ensures var l, r := Evaluate(e.left, views), Evaluate(e.right, views);
            (l.Some? && l.value.Bytes? && r.Some? && r.value.Bytes?) <==>
            Components(e.left).Some? && Components(e.right).Some?
    ensures Components(e.left).Some? && Components(e.right).Some? ==>
            Verdict(PlanOne(layouts, params, e, index).value, scope, views) == Said(e, views)
  {
    hide PlanOne, WellGiven, LeafPlacement, ArrayBytes, Execute, Lookup, Singles, AllSingles, RootsHeld, Count, SourceOf, Uncaptured,
         Verdict, Reading, EntersAt, Planned, Sources, SourceIn;
    ArrayPlanned(layouts, params, e, index);
    ArraysRead(layouts, params, e, index, scope, views);
    var l, r, c := PathsIn(e.left)[0], PathsIn(e.right)[0], PlanOne(layouts, params, e, index).value;
    assert PathsIn(e) == [l, r];
    assert NamesMembers(e) by { Longer(layouts, params, l); Longer(layouts, params, r); }
    ReadsOwn(layouts, params, e, index, scope);
    assert PathsIn(e)[0] == l && PathsIn(e)[1] == r;
    if Components(e.left).Some? { PathMeans(e.left, views); } else { OnlyPathsAreBytes(e.left, views); }
    if Components(e.right).Some? { PathMeans(e.right, views); } else { OnlyPathsAreBytes(e.right, views); }
  }

  lemma {:induction false} NamedSingles(layouts: Layouts, params: map<string, string>, e: Expr, i: nat)
    requires AllSingles(layouts, params, Named(e)) && i < |PathsIn(e)| && PathsIn(e)[i] != []
    ensures PathsIn(e)[i][0] in params ==> Singles(layouts, params[PathsIn(e)[i][0]], PathsIn(e)[i][1..])
  {
    hide Singles, PathsIn;
    OnceKeeps(PathsIn(e));
    assert PathsIn(e)[i] in Named(e);
  }

  // ----- where a plan and its relation part

  /** A member of something other than a path names nothing in any message, and yet it is accepted: it
      is read as the base's first path with the member after it, or as a parameter where the base
      names no path. */
  lemma {:induction false} NotAPathIsRead(e: Expr, signed: bool, ranges: map<Path, Interval>, views: Env)
    requires e.Access? && Components(e).None?
    ensures Evaluate(e, views).None? && Check(e, signed, ranges).Ok?
    ensures var first := if PathsIn(e.base) == [] then [] else PathsIn(e.base)[0];
            AsRead(e) == PathExpr(first + [e.member]) && Evaluate(AsRead(e), views) == Lookup(views, first + [e.member])
  {
    hide PathExpr, Lookup;
    OnlyPathsAreBytes(e.base, views);
    assert [] + [e.member] == [e.member];
    PathMeans(PathExpr(PathOf(e)), views);
  }

  // ----- a captured root

  const BYTE := Placement(Some(Scalar(UInt, false, 8)), "u8", Single, [])

  /** `T` holds a byte `y`; `S` holds a `T` called `sub`. */
  const NESTED: Layouts := map["S" := map["sub" := Placement(None, "T", Single, [])], "T" := map["y" := BYTE]]

  /** `b.sub.y == root.y` */
  function SubEquals(root: string): Expr {
    Binary(Eq, Access(Access(NameRef("b"), "sub"), "y"), Access(NameRef(root), "y"))
  }

  function Given2(root: string, x: int, y: int): Env {
    map[root := View("T", map["y" := Number(x)]), "b" := View("S", map["sub" := View("T", map["y" := Number(y)])])]
  }

  function Params2(root: string): map<string, string> {
    map[root := "T", "b" := "S"]
  }

  lemma SubSides(root: string)
    ensures Components(SubEquals(root).left) == Some(["b", "sub", "y"])
    ensures Components(SubEquals(root).right) == Some([root, "y"])
    ensures PathsIn(SubEquals(root).left) == [["b", "sub", "y"]] && PathsIn(SubEquals(root).right) == [[root, "y"]]
    ensures PathsIn(SubEquals(root)) == [["b", "sub", "y"], [root, "y"]]
  {
    assert ["b"] + ["sub"] + ["y"] == ["b", "sub", "y"] && [root] + ["y"] == [root, "y"];
    PathMeans(SubEquals(root).left, map[]);
    PathMeans(SubEquals(root).right, map[]);
    assert [["b", "sub", "y"]] + [[root, "y"]] == [["b", "sub", "y"], [root, "y"]];
  }

  lemma LocalIsNotB(index: nat)
    ensures Local(index) != "b"
  {
    assert Local(index)[0] == '_';
  }

  /** A scope of its own. */
  function Block(prefix: string): Scope {
    Scope(prefix, [])
  }

  lemma EmittedIsNotB(prefix: string, index: nat)
    requires prefix != ""
    ensures LocalIn(Block(prefix), index) != "b" && LocalIn(Block(prefix), index) != Local(index)
    ensures Spelled(prefix, "b") == "b" && Spelled(prefix, Local(index)) == LocalIn(Block(prefix), index)
  {
    LocalSpelled(Block(prefix), index);
    assert |LocalIn(Block(prefix), index)| == |prefix| + |Local(index)|;
    assert Local(index)[0] == '_';
  }

  lemma SubPaths(index: nat)
    ensures Named(SubEquals(Local(index))) == [["b", "sub", "y"], [Local(index), "y"]]
  {
    hide Local, PathsIn;
    LocalIsNotB(index);
    SubSides(Local(index));
    var l, r := ["b", "sub", "y"], [Local(index), "y"];
    assert l[0] != r[0];
    var none: seq<Path> := [];
    assert [l, r][..1] == [l] && [l][..0] == none;
    assert Once([l]) == [l];
    assert r !in [l] && Once([l, r]) == [l] + [r];
  }

  /** The bindings of the two paths: the first takes the name `root` for `b.sub`. */
  function SubBindings(index: nat): seq<Binding> {
    [SubView("S", "sub", "T", "b", Local(index)), Read("T", "y", Local(index), Local(index + 1)),
     Read("T", "y", Local(index), Local(index + 2))]
  }

  lemma SubWalked(index: nat)
    ensures Walk(NESTED, "S", ["sub", "y"], "b", index, false) == Ok(Walked(SubBindings(index)[..2], BYTE))
    ensures Walk(NESTED, "T", ["y"], Local(index), index + 2, false) == Ok(Walked(SubBindings(index)[2..], BYTE))
  {
    hide Local;
    assert ["sub", "y"][1..] == ["y"];
    assert Walk(NESTED, "T", ["y"], Local(index), index + 1, false) ==
           Ok(Walked([Read("T", "y", Local(index), Local(index + 1))], BYTE));
    assert SubBindings(index)[..2] == [SubBindings(index)[0]] + [SubBindings(index)[1]];
  }

  lemma SubCollected(index: nat)
    ensures var l, r := ["b", "sub", "y"], [Local(index), "y"];
            var c := BindPaths(NESTED, Params2(Local(index)), [l, r], index, false);
            && c.Ok? && c.value.bindings == SubBindings(index)
            && c.value.locals == map[l := Local(index + 1), r := Local(index + 2)]
            && forall s :: s in c.value.operands ==> !s.signed
  {
    hide Walk, Local, AmountRange;
    var params, l, r := Params2(Local(index)), ["b", "sub", "y"], [Local(index), "y"];
    LocalIsNotB(index);
    SubWalked(index);
    assert l[1..] == ["sub", "y"] && r[1..] == ["y"];
    var none: seq<Path> := [];
    assert [l, r][..1] == [l] && [l][..0] == none;
    var first := BindPath(NESTED, params, NOTHING, l, index, false);
    assert BindPaths(NESTED, params, [l], index, false) == first;
    assert first.value.bindings == SubBindings(index)[..2];
    assert SubBindings(index) == SubBindings(index)[..2] + SubBindings(index)[2..];
  }

  lemma SubPlanned(index: nat)
    ensures var c := PlanOne(NESTED, Params2(Local(index)), SubEquals(Local(index)), index);
            && c.Ok? && c.value.bytesEqual.None? && c.value.expr == SubEquals(Local(index))
            && c.value.bindings == SubBindings(index)
            && c.value.locals == map[["b", "sub", "y"] := Local(index + 1), [Local(index), "y"] := Local(index + 2)]
  {
    hide Local, BindPaths, PathsIn, Named;
    var e, params := SubEquals(Local(index)), Params2(Local(index));
    SubPaths(index);
    SubCollected(index);
    SubIsScalar(index);
    var c := BindPaths(NESTED, params, Named(e), index, false).value;
    assert Widen(c.operands) == Ok(false);
    assert Check(e.left, false, c.ranges).Ok? && Check(e.right, false, c.ranges).Ok?;
    assert Check(e, false, c.ranges).Ok?;
    assert Finish(e, None, c) == Ok(Constraint(c.bindings, c.locals, e, false, None));
  }

  lemma SubIsScalar(index: nat)
    ensures ArrayEquality(SubEquals(Local(index)), NESTED, Params2(Local(index))) == Ok(None)
  {
    hide Local, PathsIn;
    LocalIsNotB(index);
    SubSides(Local(index));
    assert ["b", "sub", "y"][1..] == ["sub", "y"] && ["sub", "y"][1..] == ["y"] && [Local(index), "y"][1..] == ["y"];
    assert LeafOf(NESTED, "T", ["y"]) == Ok(BYTE);
    assert LeafOf(NESTED, "S", ["sub", "y"]) == Ok(BYTE);
    var e := SubEquals(Local(index));
    assert LeafPlacement(NESTED, Params2(Local(index)), ["b", "sub", "y"]) == Ok(BYTE);
    assert LeafPlacement(NESTED, Params2(Local(index)), [Local(index), "y"]) == Ok(BYTE);
    assert PathsIn(e.left)[0] == ["b", "sub", "y"] && PathsIn(e.right)[0] == [Local(index), "y"];
  }

  /** A root captured by a view of its own struct is not noticed: `b.sub.y == root.y`, where `root` is
      spelled like the local the first path binds, is accepted and holds of every pair of messages,
      though the relation says that `x` and `y` are the same. */
  lemma CaptureAnswersAll(index: nat, prefix: string, x: int, y: int)
    requires 0 <= x < 256 && 0 <= y < 256 && prefix != ""
    ensures var e, views := SubEquals(Local(index)), Given2(Local(index), x, y);
            && Entered(NESTED, Params2(Local(index)), e, index, Block(prefix), views)
            && !Uncaptured(Block(prefix), Named(e), index)
            && var c := PlanOne(NESTED, Params2(Local(index)), e, index).value;
               Verdict(c, Block(prefix), views) == Some(true) && Said(e, views) == Some(x == y)
  {
    hide Local, LocalIn, PlanOne, Named, PathsIn, Execute, Uncaptured, WellGiven, Said, Render, Evaluate, EmitAll;
    SubPlanned(index);
    SubPaths(index);
    SubGiven(index, x, y);
    SubSaid(index, x, y);
    SubRuns(index, prefix, x, y);
    SubCaptured(index, prefix);
    SubTest(index, prefix);
    NothingRan(Given2(Local(index), x, y));
    SubVerdict(index, prefix, Execute(EmittedSub(prefix, index), Given2(Local(index), x, y)).value, y);
    assert [] + EmittedSub(prefix, index) == EmittedSub(prefix, index);
  }

  lemma NothingRan(views: Env)
    ensures Execute([], views) == Some(views)
  {
  }

  lemma SubVerdict(index: nat, prefix: string, env: Env, y: int)
    requires var l, r := LocalIn(Block(prefix), index + 1), LocalIn(Block(prefix), index + 2);
             l in env && r in env && env[l] == env[r] == Number(y)
    ensures var l, r := LocalIn(Block(prefix), index + 1), LocalIn(Block(prefix), index + 2);
            Truth(Evaluate(Binary(Eq, NameRef(l), NameRef(r)), env)) == Some(true)
  {
    hide LocalIn;
    var l, r := NameRef(LocalIn(Block(prefix), index + 1)), NameRef(LocalIn(Block(prefix), index + 2));
    assert Evaluate(l, env) == Evaluate(r, env) == Some(Number(y));
    assert Evaluate(Binary(Eq, l, r), env) == Flag(true);
  }

  lemma SubTest(index: nat, prefix: string)
    ensures var locals: map<Path, string> := map[["b", "sub", "y"] := Local(index + 1), [Local(index), "y"] := Local(index + 2)];
            Render(SubEquals(Local(index)), Names(Block(prefix), locals)) ==
            Some(Binary(Eq, NameRef(LocalIn(Block(prefix), index + 1)), NameRef(LocalIn(Block(prefix), index + 2))))
  {
    hide Local, PathsIn;
    LocalIsNotB(index);
    SubSides(Local(index));
    var e := SubEquals(Local(index));
    var locals: map<Path, string> := map[["b", "sub", "y"] := Local(index + 1), [Local(index), "y"] := Local(index + 2)];
    var names := Names(Block(prefix), locals);
    assert ["b", "sub", "y"][0] != [Local(index), "y"][0];
    assert ["b", "sub", "y"] in locals && [Local(index), "y"] in locals;
    assert Render(e.left, names) == RenderPath(e.left, names) == Some(NameRef(LocalIn(Block(prefix), index + 1)));
    assert Render(e.right, names) == RenderPath(e.right, names) == Some(NameRef(LocalIn(Block(prefix), index + 2)));
  }

  lemma SubGiven(index: nat, x: int, y: int)
    requires 0 <= x < 256 && 0 <= y < 256
    ensures WellGiven(NESTED, Params2(Local(index)), Given2(Local(index), x, y))
  {
    hide Local;
    LocalIsNotB(index);
    ByteFits(x);
    ByteFits(y);
    var t := View("T", map["y" := Number(y)]);
    assert Fits(NESTED, t, NESTED["S"]["sub"]);
  }

  lemma ByteFits(v: int)
    requires 0 <= v < 256
    ensures Shaped(NESTED, View("T", map["y" := Number(v)]))
  {
    assert Pow2(4) == 16;
    assert Pow2(8) == 256;
    assert Fits(NESTED, Number(v), BYTE);
  }

  lemma SubSaid(index: nat, x: int, y: int)
    ensures Said(SubEquals(Local(index)), Given2(Local(index), x, y)) == Some(x == y)
  {
    hide Local;
    LocalIsNotB(index);
    var e, views := SubEquals(Local(index)), Given2(Local(index), x, y);
    assert Evaluate(e.left.base.base, views) == Some(views["b"]);
    assert Evaluate(e.left, views) == Some(Number(y));
    assert Evaluate(e.right, views) == Some(Number(x));
  }

  /** What the two paths' bindings are in a target. */
  function EmittedSub(prefix: string, index: nat): seq<Binding> {
    EmitAll(prefix, SubBindings(index))
  }

  lemma SubRuns(index: nat, prefix: string, x: int, y: int)
    requires prefix != ""
    ensures var l, r := LocalIn(Block(prefix), index + 1), LocalIn(Block(prefix), index + 2);
            var after := Execute(EmittedSub(prefix, index), Given2(Local(index), x, y));
            after.Some? && l in after.value && r in after.value && after.value[l] == after.value[r] == Number(y)
  {
    hide Local, LocalIn, Run, EmitAll, Emitted;
    var scope, views, bs := Block(prefix), Given2(Local(index), x, y), EmittedSub(prefix, index);
    LocalInInjective(scope, index, index + 1);
    LocalInInjective(scope, index, index + 2);
    LocalInInjective(scope, index + 1, index + 2);
    var sub := View("T", map["y" := Number(y)]);
    var first := views[LocalIn(scope, index) := sub];
    var second := first[LocalIn(scope, index + 1) := Number(y)];
    SubSteps(index, prefix, x, y);
    assert |bs| == 3;
    assert bs[1..][1..] == bs[2..] && bs[2..][1..] == [];
    assert Execute(bs[2..], second) == Execute([], second[LocalIn(scope, index + 2) := Number(y)]);
    assert Execute(bs[1..], first) == Execute(bs[1..][1..], second);
  }

  lemma SubSteps(index: nat, prefix: string, x: int, y: int)
    requires prefix != ""
    ensures var scope, views, bs := Block(prefix), Given2(Local(index), x, y), EmittedSub(prefix, index);
            var first := views[LocalIn(scope, index) := View("T", map["y" := Number(y)])];
            var second := first[LocalIn(scope, index + 1) := Number(y)];
            && Run(bs[0], views) == Some(first) && Run(bs[1], first) == Some(second)
            && Run(bs[2], second) == Some(second[LocalIn(scope, index + 2) := Number(y)])
  {
    hide Local, LocalIn, Spelled;
    EmittedIsNotB(prefix, index);
    EmittedTargets(prefix, index);
    LocalInInjective(Block(prefix), index, index + 1);
    LocalIsNotB(index);
  }

  lemma EmittedTargets(prefix: string, index: nat)
    requires prefix != ""
    ensures var scope, bs := Block(prefix), EmittedSub(prefix, index);
            && bs[0] == SubView("S", "sub", "T", "b", LocalIn(scope, index))
            && bs[1] == Read("T", "y", LocalIn(scope, index), LocalIn(scope, index + 1))
            && bs[2] == Read("T", "y", LocalIn(scope, index), LocalIn(scope, index + 2))
  {
    hide Local, Spelled;
    EmittedIsNotB(prefix, index);
  }

  lemma SubCaptured(index: nat, prefix: string)
    ensures !Uncaptured(Block(prefix), [["b", "sub", "y"], [Local(index), "y"]], index)
  {
    hide Local;
    var none: seq<Path> := [];
    var paths: seq<Path> := [["b", "sub", "y"], [Local(index), "y"]];
    var first: seq<Path> := [["b", "sub", "y"]];
    assert paths[..1] == first && first[..0] == none && NonEmptyPaths(none);
    assert Count(none) == 0 && Count(first) == 2;
    LocalSpelled(Block(prefix), index);
    assert index <= index < index + 2;
    if Spelled(prefix, Local(index)) == Local(index) {
      assert LocalWithin(Block(prefix), Local(index), index, 2);
    }
  }

  // ----- a root that is not read at all

  /** What every path's root holds when its turn comes. */
  lemma {:induction false} RootsHeldAt(params: map<string, string>, scope: Scope, bindings: seq<Binding>, paths: seq<Path>, i: nat)
    requires NonEmptyPaths(paths) && |bindings| == Count(paths) && RootsHeld(params, scope, bindings, paths)
    requires i < |paths| && |paths[i]| > 1
    ensures NonEmptyPaths(paths[..i]) && Count(paths[..i]) <= |bindings| && paths[i][0] in params
    ensures RootHolds(params, scope, bindings[..Count(paths[..i])], paths[i]) == ViewOf(params[paths[i][0]])
    decreases |paths|
  {
    hide RootHolds;
    var init := paths[..|paths| - 1];
    var before := bindings[..Count(init)];
    if i < |init| {
      RootsHeldAt(params, scope, before, init, i);
      assert init[..i] == paths[..i];
      assert before[..Count(paths[..i])] == bindings[..Count(paths[..i])];
    } else {
      assert paths[..i] == init;
    }
  }

  /** A path rooted at a parameter that starts with an underscore is read from a local: where no such local
      has been bound, and no parameter is spelled as it would be, the constraint answers of no pair of
      messages. */
  lemma {:induction false} UnderscoreUnread(layouts: Layouts, params: map<string, string>, e: Expr, index: nat, scope: Scope,
                                            views: Env, i: nat)
    requires Entered(layouts, params, e, index, scope, views) && NamesMembers(e)
    requires PlanOne(layouts, params, e, index).value.bytesEqual.None?
    requires i < |Named(e)| && |Named(e)[i]| > 1 && NonEmptyPaths(Named(e)[..i])
    requires var from := Spelled(scope.prefix, Named(e)[i][0]);
             from !in params && !LocalWithin(scope, from, First(scope, index), |scope.ran| + Count(Named(e)[..i]))
    ensures Verdict(PlanOne(layouts, params, e, index).value, scope, views) == None
  {
    hide PlanOne, BindPaths, Verdict, AllSingles, Evaluate, RootsHeld, Count, Reading, WellGiven, Execute, Sources, LocalIn, Local, Named,
         Holding, Scoped, Spelled;
    VerdictReads(layouts, params, e, index, scope, views);
    ConstraintTargets(layouts, params, e, index);
    var c := PlanOne(layouts, params, e, index).value;
    if RootsHeld(params, scope, c.bindings, Named(e)) {
      RootsHeldAt(params, scope, c.bindings, Named(e), i);
      var before, from := c.bindings[..Count(Named(e)[..i])], Spelled(scope.prefix, Named(e)[i][0]);
      ScopedTargets(scope, before, index);
      var all := Scoped(scope, before);
      forall k | 0 <= k < |all| ensures all[k].target != from {
        assert First(scope, index) <= First(scope, index) + k < First(scope, index) + (|scope.ran| + |before|);
      }
      NothingHeld(params, all, from);
    }
  }
}
