/** What a planned relation means: its bindings, run in order over two views, and its test. */
module RelationTheorems {
  import opened Prelude
  import opened Ast
  import opened Bits
  import opened Intervals
  import opened Relations

  // ----- messages

  /** What a name can stand for: a value, the bytes of an array, a view of a struct, or an array
      of structs, which no one accessor reaches into. */
  datatype Node =
    | Number(value: int)
    | Bytes(bytes: seq<int>)
    | View(struct: string, members: map<string, Node>)
    | Records(items: seq<Node>)

  type Env = map<string, Node>

  /** A scalar's type names no struct. */
  predicate ScalarsAreLeaves(layouts: Layouts) {
    forall s, m :: s in layouts && m in layouts[s] && layouts[s][m].scalar.Some? ==> layouts[s][m].typeName !in layouts
  }

  predicate WholeElements(p: Placement) {
    p.scalar.Some? && p.scalar.value.bits % 8 == 0
  }

  /** Does the message have the shape its struct's layout gives it? */
  predicate Shaped(layouts: Layouts, node: Node)
    requires node.View?
    decreases node, 0
  {
    && node.struct in layouts
    && forall m <- layouts[node.struct] :: m in node.members && Fits(layouts, node.members[m], layouts[node.struct][m])
  }

  predicate Fits(layouts: Layouts, node: Node, p: Placement)
    decreases node, 1
  {
    match p.extent
    case Counted(count) =>
      if p.scalar.None? then node.Records?
      else WholeElements(p) ==> node.Bytes? && |node.bytes| == count * (p.scalar.value.bits / 8)
    case RunTime => if p.scalar.Some? then node.Bytes? else node.Records?
    case Single =>
      if p.scalar.Some? then
        node.Number? && (p.scalar.value.signed ==> p.scalar.value.bits > 0) &&
        ScalarInterval(p.scalar.value.bits, p.scalar.value.signed).Contains(node.value)
      else p.typeName in layouts ==> node.View? && node.struct == p.typeName && Shaped(layouts, node)
  }

  /** The views a relation is handed: one of each parameter's struct. */
  predicate Given(layouts: Layouts, params: map<string, string>, views: Env) {
    && views.Keys == params.Keys
    && forall p <- params ::
         views[p].View? && views[p].struct == params[p] && (params[p] in layouts ==> Shaped(layouts, views[p]))
  }

  /** Direct lookup, one member at a time. */
  function Fetch(node: Node, components: Path): Option<Node>
    decreases |components|
  {
    if components == [] then Some(node)
    else if node.View? && components[0] in node.members then Fetch(node.members[components[0]], components[1..])
    else None
  }

  function Lookup(views: Env, path: Path): Option<Node>
    requires path != []
  {
    if path[0] in views then Fetch(views[path[0]], path[1..]) else None
  }

  lemma {:induction false} FetchJoin(node: Node, a: Path, member: string)
    ensures Fetch(node, a + [member]) == (match Fetch(node, a)
                                          case Some(View(_, ms)) => if member in ms then Some(ms[member]) else None
                                          case _ => None)
    decreases |a|
  {
    if a == [] {
      assert a + [member] == [member] && [member][1..] == [];
      if node.View? && member in node.members {
        assert Fetch(node.members[member], []) == Some(node.members[member]);
      }
    } else {
      assert (a + [member])[0] == a[0] && (a + [member])[1..] == a[1..] + [member];
      if node.View? && a[0] in node.members { FetchJoin(node.members[a[0]], a[1..], member); }
    }
  }

  lemma {:induction false} LookupJoin(views: Env, path: Path, member: string)
    requires path != []
    ensures Lookup(views, path + [member]) == (match Lookup(views, path)
                                               case Some(View(_, ms)) => if member in ms then Some(ms[member]) else None
                                               case _ => None)
  {
    assert (path + [member])[0] == path[0] && (path + [member])[1..] == path[1..] + [member];
    if path[0] in views { FetchJoin(views[path[0]], path[1..], member); }
  }

  // ----- running a plan

  /** One accessor call: it exists only on its own struct, and gives what its kind gives. */
  function Run(b: Binding, env: Env): Option<Env> {
    if b.source !in env || !env[b.source].View? || env[b.source].struct != b.owner || b.member !in env[b.source].members
    then None
    else
      var got := env[b.source].members[b.member];
      var right := match b
        case SubView(_, _, into, _, _) => got.View? && got.struct == into
        case Read(_, _, _, _) => got.Number?
        case ReadBytes(_, _, _, _, length) => got.Bytes? && |got.bytes| == length;
      if right then Some(env[b.target := got]) else None
  }

  function Execute(bindings: seq<Binding>, env: Env): Option<Env>
    decreases |bindings|
  {
    if bindings == [] then Some(env)
    else
      match Run(bindings[0], env)
      case None => None
      case Some(next) => Execute(bindings[1..], next)
  }

  lemma {:induction false} ExecuteJoin(a: seq<Binding>, b: seq<Binding>, env: Env)
    ensures Execute(a + b, env) == (match Execute(a, env) case None => None case Some(next) => Execute(b, next))
    decreases |a|
  {
    if a == [] {
      assert a + b == b;
    } else {
      assert (a + b)[0] == a[0] && (a + b)[1..] == a[1..] + b;
      match Run(a[0], env)
      case None =>
      case Some(next) => ExecuteJoin(a[1..], b, next);
    }
  }

  // ----- names

  /** What a number's digits are worth. */
  function Worth(s: string): int {
    if s == [] then 0 else 10 * Worth(s[..|s| - 1]) + (s[|s| - 1] as int - '0' as int)
  }

  /** A local is numbered in decimal. */
  lemma {:induction false} DecimalIs(n: nat)
    ensures Worth(Decimal(n)) == n && Decimal(n) != [] && forall i :: 0 <= i < |Decimal(n)| ==> '0' <= Decimal(n)[i] <= '9'
  {
    if n >= 10 {
      DecimalIs(n / 10);
      assert Decimal(n)[..|Decimal(n)| - 1] == Decimal(n / 10);
    } else {
      assert Decimal(n)[..0] == [];
    }
  }

  lemma {:induction false} DecimalInjective(m: nat, n: nat)
    requires Decimal(m) == Decimal(n)
    ensures m == n
  {
    var a, b := Decimal(m), Decimal(n);
    assert a[|a| - 1] == b[|b| - 1];
    assert m % 10 == n % 10;
    DecimalLength(m / 10);
    DecimalLength(n / 10);
    if m >= 10 && n >= 10 {
      assert Decimal(m / 10) == a[..|a| - 1] && Decimal(n / 10) == b[..|b| - 1];
      DecimalInjective(m / 10, n / 10);
    }
  }

  lemma DecimalLength(n: nat)
    ensures |Decimal(n)| > 0
  {
  }

  lemma {:induction false} LocalInjective(m: nat, n: nat)
    ensures Local(m) == Local(n) ==> m == n
  {
    if Local(m) == Local(n) {
      assert Local(m)[1..] == Decimal(m) && Local(n)[1..] == Decimal(n);
      DecimalInjective(m, n);
    }
  }

  // ----- how a target spells names

  /** `_source`: whatever starts with an underscore is taken for a local. */
  function Spelled(prefix: string, name: string): string {
    if name != "" && name[0] == '_' then prefix + name else name
  }

  function Emitted(prefix: string, b: Binding): Binding {
    match b
    case SubView(owner, member, into, source, target) =>
      SubView(owner, member, into, Spelled(prefix, source), prefix + target)
    case Read(owner, member, source, target) => Read(owner, member, Spelled(prefix, source), prefix + target)
    case ReadBytes(owner, member, source, target, length) =>
      ReadBytes(owner, member, Spelled(prefix, source), prefix + target, length)
  }

  function EmitAll(prefix: string, bindings: seq<Binding>): (r: seq<Binding>)
    ensures |r| == |bindings| && forall i :: 0 <= i < |r| ==> r[i] == Emitted(prefix, bindings[i])
  {
    seq(|bindings|, i requires 0 <= i < |bindings| => Emitted(prefix, bindings[i]))
  }

  lemma EmitJoin(prefix: string, a: seq<Binding>, b: seq<Binding>)
    ensures EmitAll(prefix, a + b) == EmitAll(prefix, a) + EmitAll(prefix, b)
  {
  }

  /** Where a constraint's bindings run: the prefix of the target's locals, and what has run before in the
      same scope. Each constraint has a block of its own but in Python, where one function holds them all. */
  datatype Scope = Scope(prefix: string, ran: seq<Binding>)

  /** All that has run once a constraint's bindings have. */
  function Scoped(scope: Scope, bindings: seq<Binding>): seq<Binding> {
    scope.ran + EmitAll(scope.prefix, bindings)
  }

  lemma ScopedJoin(scope: Scope, a: seq<Binding>, b: seq<Binding>)
    ensures Scoped(scope, a + b) == Scoped(scope, a) + EmitAll(scope.prefix, b)
  {
    EmitJoin(scope.prefix, a, b);
    assert scope.ran + (EmitAll(scope.prefix, a) + EmitAll(scope.prefix, b)) ==
           scope.ran + EmitAll(scope.prefix, a) + EmitAll(scope.prefix, b);
  }

  /** The `n`-th local as the target spells it. */
  function LocalIn(scope: Scope, n: nat): string {
    scope.prefix + Local(n)
  }

  lemma LocalSpelled(scope: Scope, n: nat)
    ensures Spelled(scope.prefix, Local(n)) == LocalIn(scope, n)
  {
    assert Local(n)[0] == '_';
  }

  lemma {:induction false} LocalInInjective(scope: Scope, m: nat, n: nat)
    ensures LocalIn(scope, m) == LocalIn(scope, n) ==> m == n
  {
    hide Local;
    if LocalIn(scope, m) == LocalIn(scope, n) {
      assert LocalIn(scope, m)[|scope.prefix|..] == Local(m) && LocalIn(scope, n)[|scope.prefix|..] == Local(n);
      LocalInjective(m, n);
    }
  }

  /** Is it one of the `count` locals from `from` on? */
  ghost predicate LocalWithin(scope: Scope, name: string, from: nat, count: nat) {
    exists k: nat :: from <= k < from + count && name == LocalIn(scope, k)
  }

  /** What has run bound the locals just before this index. */
  ghost predicate EntersAt(scope: Scope, index: nat) {
    && scope.prefix != "" && |scope.ran| <= index
    && forall k :: 0 <= k < |scope.ran| ==> scope.ran[k].target == LocalIn(scope, index - |scope.ran| + k)
  }

  /** The first local bound in the scope. */
  function First(scope: Scope, index: nat): nat
    requires |scope.ran| <= index
  {
    index - |scope.ran|
  }

  lemma ScopedTargets(scope: Scope, bindings: seq<Binding>, index: nat)
    requires EntersAt(scope, index)
    requires forall k :: 0 <= k < |bindings| ==> bindings[k].target == Local(index + k)
    ensures var all := Scoped(scope, bindings);
            && |all| == |scope.ran| + |bindings|
            && forall k :: 0 <= k < |all| ==> all[k].target == LocalIn(scope, First(scope, index) + k)
  {
    hide Local;
    var all, n := Scoped(scope, bindings), |scope.ran|;
    forall k | 0 <= k < |all| ensures all[k].target == LocalIn(scope, First(scope, index) + k) {
      if k >= n { assert all[k] == Emitted(scope.prefix, bindings[k - n]); }
    }
  }

  // ----- every binding of a plan

  lemma {:induction false} CollectedTargets(layouts: Layouts, params: map<string, string>, paths: seq<Path>,
                                            index: nat, arrays: bool)
    requires NonEmptyPaths(paths) && BindPaths(layouts, params, paths, index, arrays).Ok?
    ensures var c := BindPaths(layouts, params, paths, index, arrays).value;
            forall k :: 0 <= k < |c.bindings| ==> c.bindings[k].target == Local(index + k)
  {
    hide Walk;
    if paths != [] { CollectedTargets(layouts, params, paths[..|paths| - 1], index, arrays); }
  }

  lemma {:induction false} ConstraintTargets(layouts: Layouts, params: map<string, string>, e: Expr, index: nat)
    requires PlanOne(layouts, params, e, index).Ok?
    ensures var c := PlanOne(layouts, params, e, index).value;
            forall k :: 0 <= k < |c.bindings| ==> c.bindings[k].target == Local(index + k)
  {
    hide BindPaths, ArrayEquality, Check, Local, Widen;
    var arrays := ArrayEquality(e, layouts, params).value;
    CollectedTargets(layouts, params, Named(e), index, arrays.Some?);
  }

  lemma {:induction false} PlanTail(layouts: Layouts, params: map<string, string>, body: seq<Expr>)
    requires body != [] && PlanAll(layouts, params, body).Ok?
    ensures var init, last := body[..|body| - 1], body[|body| - 1];
            && PlanAll(layouts, params, init).Ok?
            && var before := AllBindings(PlanAll(layouts, params, init).value);
            var c := PlanOne(layouts, params, last, |before|);
            c.Ok? && AllBindings(PlanAll(layouts, params, body).value) == before + c.value.bindings
  {
    hide PlanOne;
    var plans := PlanAll(layouts, params, body).value;
    assert plans[..|plans| - 1] == PlanAll(layouts, params, body[..|body| - 1]).value;
  }

  lemma {:induction false} TargetsAre(layouts: Layouts, params: map<string, string>, body: seq<Expr>, k: nat)
    requires PlanAll(layouts, params, body).Ok?
    requires k < |AllBindings(PlanAll(layouts, params, body).value)|
    ensures AllBindings(PlanAll(layouts, params, body).value)[k].target == Local(k)
  {
    hide PlanOne, Local;
    if body != [] {
      hide *;
      PlanTail(layouts, params, body);
      var init := body[..|body| - 1];
      var before := AllBindings(PlanAll(layouts, params, init).value);
      if k < |before| {
        TargetsAre(layouts, params, init, k);
      } else {
        ConstraintTargets(layouts, params, body[|body| - 1], |before|);
      }
    }
  }

  /** Over a whole plan the k-th binding binds the k-th local, so no two bind the same one. */
  lemma {:induction false} TargetsInOrder(layouts: Layouts, params: map<string, string>, body: seq<Expr>, j: nat, k: nat)
    requires PlanAll(layouts, params, body).Ok?
    requires j <= k < |AllBindings(PlanAll(layouts, params, body).value)|
    ensures var bs := AllBindings(PlanAll(layouts, params, body).value);
            bs[k].target == Local(k) && (bs[j].target == bs[k].target <==> j == k)
  {
    hide PlanAll, AllBindings, Local;
    TargetsAre(layouts, params, body, j);
    TargetsAre(layouts, params, body, k);
    LocalInjective(j, k);
  }

  // ----- where a name's value comes from

  /** The path a name is read along: from a parameter, member after member. */
  function Origin(bindings: seq<Binding>, name: string): (path: Path)
    ensures path != []
    decreases |bindings|
  {
    if bindings == [] then [name]
    else
      var before, b := bindings[..|bindings| - 1], bindings[|bindings| - 1];
      if b.target == name then Origin(before, b.source) + [b.member] else Origin(before, name)
  }

  /** What a name holds. */
  datatype Held = Nothing | Value | Span(length: int) | ViewOf(struct: string)

  function KindOf(node: Node): Held {
    match node
    case Number(_) => Value
    case Bytes(bytes) => Span(|bytes|)
    case View(struct, _) => ViewOf(struct)
    case Records(_) => Nothing
  }

  function Gives(b: Binding): Held {
    match b
    case SubView(_, _, into, _, _) => ViewOf(into)
    case Read(_, _, _, _) => Value
    case ReadBytes(_, _, _, _, length) => Span(length)
  }

  /** What the plan takes a name to hold after the bindings. */
  function Holding(params: map<string, string>, bindings: seq<Binding>, name: string): Held
    decreases |bindings|
  {
    if bindings == [] then (if name in params then ViewOf(params[name]) else Nothing)
    else
      var b := bindings[|bindings| - 1];
      if b.target == name then Gives(b) else Holding(params, bindings[..|bindings| - 1], name)
  }

  lemma {:induction false} OriginSnoc(params: map<string, string>, before: seq<Binding>, b: Binding, name: string)
    ensures Origin(before + [b], name) == if b.target == name then Origin(before, b.source) + [b.member] else Origin(before, name)
    ensures Holding(params, before + [b], name) == if b.target == name then Gives(b) else Holding(params, before, name)
  {
    assert (before + [b])[..|before|] == before;
  }

  /** Bindings that do not bind a name leave it what it was. */
  lemma {:induction false} OriginKept(params: map<string, string>, before: seq<Binding>, more: seq<Binding>, name: string)
    requires forall k :: 0 <= k < |more| ==> more[k].target != name
    ensures Origin(before + more, name) == Origin(before, name)
    ensures Holding(params, before + more, name) == Holding(params, before, name)
    decreases |more|
  {
    if more == [] {
      assert before + more == before;
    } else {
      var init, last := more[..|more| - 1], more[|more| - 1];
      assert before + more == (before + init) + [last];
      OriginKept(params, before, init, name);
      OriginSnoc(params, before + init, last, name);
    }
  }

  /** A name some binding binds goes back to a path of two components or more. */
  lemma {:induction false} BoundOrigin(bindings: seq<Binding>, k: nat)
    requires k < |bindings|
    ensures |Origin(bindings, bindings[k].target)| > 1
    decreases |bindings|
  {
    var before := bindings[..|bindings| - 1];
    if bindings[|bindings| - 1].target != bindings[k].target {
      assert before[k] == bindings[k];
      BoundOrigin(before, k);
    }
  }

  /** What the layouts say of a planned binding. */
  predicate Planned(layouts: Layouts, b: Binding) {
    && b.owner in layouts && b.member in layouts[b.owner]
    && (b.SubView? ==> b.into == layouts[b.owner][b.member].typeName && b.into in layouts)
  }

  predicate AllPlanned(layouts: Layouts, bindings: seq<Binding>) {
    forall k :: 0 <= k < |bindings| ==> Planned(layouts, bindings[k])
  }

  /** After the bindings, every name holds what lookup finds along its origin and what the plan takes
      it to hold, and a view has its struct's shape. */
  ghost predicate Traced(layouts: Layouts, params: map<string, string>, views: Env, bindings: seq<Binding>, env: Env) {
    && (forall name :: name in views ==> name in env)
    && (forall k :: 0 <= k < |bindings| ==> bindings[k].target in env)
    && forall name :: name in env ==> TracedName(layouts, params, views, bindings, name, env[name])
  }

  ghost predicate TracedName(layouts: Layouts, params: map<string, string>, views: Env, bindings: seq<Binding>,
                             name: string, node: Node) {
    && Lookup(views, Origin(bindings, name)) == Some(node)
    && Holding(params, bindings, name) == KindOf(node)
    && (node.View? && node.struct in layouts ==> Shaped(layouts, node))
  }

  /** What an accessor of a shaped view gives, by its placement. */
  lemma {:induction false} MemberGives(layouts: Layouts, node: Node, m: string)
    requires ScalarsAreLeaves(layouts) && node.View? && Shaped(layouts, node) && m in layouts[node.struct]
    ensures m in node.members
    ensures var p, got := layouts[node.struct][m], node.members[m];
            && (Leaf(p).Ok? ==> (got.Number? <==> p.extent != RunTime))
            && (ArrayBytes(p).Ok? ==> got.Bytes? && |got.bytes| == ArrayBytes(p).value)
            && (p.typeName in layouts ==>
                  if p.extent != Single then got.Records?
                  else got.View? && got.struct == p.typeName && Shaped(layouts, got))
  {
    assert Fits(layouts, node.members[m], layouts[node.struct][m]);
  }

  lemma {:induction false} RunTraced(layouts: Layouts, params: map<string, string>, views: Env, bindings: seq<Binding>,
                                     b: Binding, mid: Env)
    requires ScalarsAreLeaves(layouts) && Planned(layouts, b)
    requires Traced(layouts, params, views, bindings, mid) && Run(b, mid).Some?
    ensures Traced(layouts, params, views, bindings + [b], Run(b, mid).value)
  {
    hide Shaped, Lookup, Origin, Holding, ScalarsAreLeaves;
    var env, more := Run(b, mid).value, bindings + [b];
    assert TracedName(layouts, params, views, bindings, b.source, mid[b.source]);
    MemberGives(layouts, mid[b.source], b.member);
    forall name | name in env ensures TracedName(layouts, params, views, more, name, env[name]) {
      OriginSnoc(params, bindings, b, name);
      if name == b.target {
        LookupJoin(views, Origin(bindings, b.source), b.member);
      } else {
        assert TracedName(layouts, params, views, bindings, name, mid[name]);
      }
    }
    forall k | 0 <= k < |more| ensures more[k].target in env {
      if k < |bindings| { assert more[k] == bindings[k]; }
    }
  }

  /** Whatever ran, every name is traced. */
  lemma {:induction false} ExecutedTraced(layouts: Layouts, params: map<string, string>, views: Env, bindings: seq<Binding>)
    requires ScalarsAreLeaves(layouts) && Given(layouts, params, views) && AllPlanned(layouts, bindings)
    requires Execute(bindings, views).Some?
    ensures Traced(layouts, params, views, bindings, Execute(bindings, views).value)
    decreases |bindings|
  {
    hide Shaped, ScalarsAreLeaves, Planned, Run;
    if bindings == [] {
      NothingTraced(layouts, params, views);
    } else {
      hide Given, Traced;
      var init, b := bindings[..|bindings| - 1], bindings[|bindings| - 1];
      assert bindings == init + [b];
      ExecuteLast(init, b, views);
      ExecutedTraced(layouts, params, views, init);
      assert Planned(layouts, b);
      RunTraced(layouts, params, views, init, b, Execute(init, views).value);
    }
  }

  lemma {:induction false} NothingTraced(layouts: Layouts, params: map<string, string>, views: Env)
    requires Given(layouts, params, views)
    ensures Traced(layouts, params, views, [], views)
  {
    hide Shaped;
    forall name | name in views ensures TracedName(layouts, params, views, [], name, views[name]) {
      assert [name][1..] == [] && Fetch(views[name], []) == Some(views[name]);
      assert Lookup(views, [name]) == Some(views[name]);
      assert Origin([], name) == [name];
    }
  }

  lemma {:induction false} ExecuteLast(init: seq<Binding>, b: Binding, env: Env)
    ensures Execute(init + [b], env) == (match Execute(init, env) case None => None case Some(mid) => Run(b, mid))
  {
    hide Run;
    ExecuteJoin(init, [b], env);
    assert [b][1..] == [];
    match Execute(init, env)
    case None =>
    case Some(mid) =>
      match Run(b, mid)
      case None => assert Execute([b], mid) == None;
      case Some(next) => assert Execute([b], mid) == Execute([], next) == Some(next);
  }

  lemma ExecuteOne(b: Binding, env: Env)
    ensures Execute([b], env) == Run(b, env)
  {
    hide Run;
    assert [] + [b] == [b];
    ExecuteLast([], b, env);
  }

  // ----- one path

  /** Does the path go through single members, to one the layout knows the length of? */
  predicate Singles(layouts: Layouts, owner: string, components: Path)
    decreases |components|
  {
    components == [] ||
    (&& owner in layouts && components[0] in layouts[owner]
     && var p := layouts[owner][components[0]];
        if |components| == 1 then p.extent != RunTime
        else p.extent == Single && Singles(layouts, p.typeName, components[1..]))
  }

  lemma {:induction false} WalkHead(layouts: Layouts, owner: string, components: Path, source: string, index: nat, arrays: bool)
    requires owner in layouts && |components| > 1 && Walk(layouts, owner, components, source, index, arrays).Ok?
    ensures components[0] in layouts[owner] && layouts[owner][components[0]].typeName in layouts
    ensures var into := layouts[owner][components[0]].typeName;
            var rest := Walk(layouts, into, components[1..], Local(index), index + 1, arrays);
            && rest.Ok?
            && Walk(layouts, owner, components, source, index, arrays).value.bindings ==
               [SubView(owner, components[0], into, source, Local(index))] + rest.value.bindings
  {
    hide Local;
  }

  lemma {:induction false} WalkLast(layouts: Layouts, owner: string, component: string, source: string, index: nat,
                                    arrays: bool)
    requires owner in layouts && Walk(layouts, owner, [component], source, index, arrays).Ok?
    ensures component in layouts[owner]
    ensures var p, w := layouts[owner][component], Walk(layouts, owner, [component], source, index, arrays).value;
            w.bindings == [if arrays then ReadBytes(owner, component, source, Local(index), ArrayBytes(p).value)
                           else Read(owner, component, source, Local(index))]
            && (if arrays then ArrayBytes(p).Ok? else Leaf(p).Ok?)
  {
    hide Local, Leaf, ArrayBytes;
  }

  lemma {:induction false} WalkPlanned(layouts: Layouts, owner: string, components: Path, source: string, index: nat,
                                       arrays: bool, prefix: string)
    requires owner in layouts && components != [] && Walk(layouts, owner, components, source, index, arrays).Ok?
    ensures AllPlanned(layouts, EmitAll(prefix, Walk(layouts, owner, components, source, index, arrays).value.bindings))
    decreases |components|
  {
    hide Local, Walk, Spelled;
    var bindings := Walk(layouts, owner, components, source, index, arrays).value.bindings;
    if |components| == 1 {
      assert components == [components[0]];
      WalkLast(layouts, owner, components[0], source, index, arrays);
    } else {
      WalkHead(layouts, owner, components, source, index, arrays);
      var into := layouts[owner][components[0]].typeName;
      WalkPlanned(layouts, into, components[1..], Local(index), index + 1, arrays, prefix);
      EmitJoin(prefix, bindings[..1], bindings[1..]);
      assert bindings == bindings[..1] + bindings[1..];
    }
  }

  /** The bindings of one path, as the target spells them. */
  function EmittedWalk(layouts: Layouts, owner: string, components: Path, source: string, index: nat, arrays: bool,
                       scope: Scope): seq<Binding>
    requires owner in layouts && components != [] && Walk(layouts, owner, components, source, index, arrays).Ok?
  {
    EmitAll(scope.prefix, Walk(layouts, owner, components, source, index, arrays).value.bindings)
  }

  lemma {:induction false} EmittedHead(layouts: Layouts, owner: string, components: Path, source: string, index: nat,
                                       arrays: bool, scope: Scope)
    requires owner in layouts && |components| > 1 && Walk(layouts, owner, components, source, index, arrays).Ok?
    ensures components[0] in layouts[owner] && layouts[owner][components[0]].typeName in layouts
    ensures var into := layouts[owner][components[0]].typeName;
            && Walk(layouts, into, components[1..], Local(index), index + 1, arrays).Ok?
            && EmittedWalk(layouts, owner, components, source, index, arrays, scope) ==
               [SubView(owner, components[0], into, Spelled(scope.prefix, source), LocalIn(scope, index))]
               + EmittedWalk(layouts, into, components[1..], Local(index), index + 1, arrays, scope)
  {
    hide Local, Walk, Spelled, EmitAll;
    WalkHead(layouts, owner, components, source, index, arrays);
    var into := layouts[owner][components[0]].typeName;
    EmitFirst(scope.prefix, SubView(owner, components[0], into, source, Local(index)),
              Walk(layouts, into, components[1..], Local(index), index + 1, arrays).value.bindings);
  }

  lemma EmitFirst(prefix: string, b: Binding, rest: seq<Binding>)
    ensures EmitAll(prefix, [b] + rest) == [Emitted(prefix, b)] + EmitAll(prefix, rest)
  {
    hide Emitted;
    EmitJoin(prefix, [b], rest);
  }

  lemma {:induction false} EmittedLast(layouts: Layouts, owner: string, component: string, source: string, index: nat,
                                       arrays: bool, scope: Scope)
    requires owner in layouts && Walk(layouts, owner, [component], source, index, arrays).Ok?
    ensures component in layouts[owner]
    ensures var p, from := layouts[owner][component], Spelled(scope.prefix, source);
            && (if arrays then ArrayBytes(p).Ok? else Leaf(p).Ok?)
            && EmittedWalk(layouts, owner, [component], source, index, arrays, scope) ==
               [if arrays then ReadBytes(owner, component, from, LocalIn(scope, index), ArrayBytes(p).value)
                else Read(owner, component, from, LocalIn(scope, index))]
  {
    hide Local, Walk, Spelled, Leaf, ArrayBytes;
    WalkLast(layouts, owner, component, source, index, arrays);
  }

  /** A path's last local is read along the path from whatever its root's spelling was read along. */
  lemma {:induction false} WalkOrigin(layouts: Layouts, owner: string, components: Path, source: string, index: nat,
                                      arrays: bool, scope: Scope, params: map<string, string>, before: seq<Binding>)
    requires owner in layouts && components != [] && Walk(layouts, owner, components, source, index, arrays).Ok?
    ensures var after, last := before + EmittedWalk(layouts, owner, components, source, index, arrays, scope),
                               LocalIn(scope, index + |components| - 1);
            && Origin(after, last) == Origin(before, Spelled(scope.prefix, source)) + components
            && (if arrays then Holding(params, after, last).Span? else Holding(params, after, last).Value?)
    decreases |components|
  {
    hide Local, Walk, Origin, Holding, Spelled, EmittedWalk, LocalIn;
    var bindings := EmittedWalk(layouts, owner, components, source, index, arrays, scope);
    var from := Spelled(scope.prefix, source);
    if |components| == 1 {
      assert components == [components[0]];
      EmittedLast(layouts, owner, components[0], source, index, arrays, scope);
      OriginSnoc(params, before, bindings[0], LocalIn(scope, index));
      assert bindings == [bindings[0]];
    } else {
      EmittedHead(layouts, owner, components, source, index, arrays, scope);
      LocalSpelled(scope, index);
      var into := layouts[owner][components[0]].typeName;
      var b := SubView(owner, components[0], into, from, LocalIn(scope, index));
      var rest := EmittedWalk(layouts, into, components[1..], Local(index), index + 1, arrays, scope);
      WalkOrigin(layouts, into, components[1..], Local(index), index + 1, arrays, scope, params, before + [b]);
      OriginSnoc(params, before, b, LocalIn(scope, index));
      assert before + bindings == before + [b] + rest;
      assert Origin(before, from) + components == Origin(before, from) + [components[0]] + components[1..];
    }
  }

  /** Is it a view of the struct, with the shape the layout gives it? */
  ghost predicate ShapedAs(layouts: Layouts, owner: string, node: Node) {
    node.View? && node.struct == owner && Shaped(layouts, node)
  }

  lemma {:induction false} LastRuns(layouts: Layouts, owner: string, component: string, source: string, index: nat,
                                    arrays: bool, scope: Scope, env: Env)
    requires ScalarsAreLeaves(layouts) && owner in layouts
    requires Walk(layouts, owner, [component], source, index, arrays).Ok?
    requires Spelled(scope.prefix, source) in env && ShapedAs(layouts, owner, env[Spelled(scope.prefix, source)])
    ensures Execute(EmittedWalk(layouts, owner, [component], source, index, arrays, scope), env).Some? <==>
            Singles(layouts, owner, [component])
  {
    hide Local, Shaped, ArrayBytes, Leaf, Walk, Execute, Spelled, EmittedWalk, LocalIn;
    MemberGives(layouts, env[Spelled(scope.prefix, source)], component);
    EmittedLast(layouts, owner, component, source, index, arrays, scope);
    var bindings := EmittedWalk(layouts, owner, [component], source, index, arrays, scope);
    assert bindings == [bindings[0]];
    ExecuteOne(bindings[0], env);
    if arrays { ArrayCounted(layouts[owner][component]); }
  }

  lemma ArrayCounted(p: Placement)
    requires ArrayBytes(p).Ok?
    ensures p.extent.Counted?
  {
  }

  /** A path's bindings start from its root's spelling, and fail there unless it is a view of the path's struct. */
  lemma {:induction false} WalkNeedsRoot(layouts: Layouts, owner: string, components: Path, source: string, index: nat,
                                         arrays: bool, scope: Scope, env: Env)
    requires owner in layouts && components != [] && Walk(layouts, owner, components, source, index, arrays).Ok?
    requires var from := Spelled(scope.prefix, source); from !in env || !env[from].View? || env[from].struct != owner
    ensures Execute(EmittedWalk(layouts, owner, components, source, index, arrays, scope), env) == None
  {
    hide Local, Walk, Spelled, EmittedWalk, LocalIn;
    if |components| == 1 {
      assert components == [components[0]];
      EmittedLast(layouts, owner, components[0], source, index, arrays, scope);
    } else {
      EmittedHead(layouts, owner, components, source, index, arrays, scope);
    }
  }

  /** From a view of its struct, a path's bindings run exactly when it goes through single members
      to one the layout knows the length of. */
  lemma {:induction false} WalkRuns(layouts: Layouts, owner: string, components: Path, source: string, index: nat,
                                    arrays: bool, scope: Scope, env: Env)
    requires ScalarsAreLeaves(layouts) && owner in layouts && components != []
    requires Walk(layouts, owner, components, source, index, arrays).Ok?
    requires Spelled(scope.prefix, source) in env && ShapedAs(layouts, owner, env[Spelled(scope.prefix, source)])
    ensures Execute(EmittedWalk(layouts, owner, components, source, index, arrays, scope), env).Some? <==>
            Singles(layouts, owner, components)
    decreases |components|
  {
    hide Local, Walk, Shaped, ScalarsAreLeaves, Spelled, EmittedWalk, LocalIn;
    if |components| == 1 {
      assert components == [components[0]];
      LastRuns(layouts, owner, components[0], source, index, arrays, scope, env);
    } else {
      var from, target := Spelled(scope.prefix, source), LocalIn(scope, index);
      EmittedHead(layouts, owner, components, source, index, arrays, scope);
      LocalSpelled(scope, index);
      MemberGives(layouts, env[from], components[0]);
      var p, got := layouts[owner][components[0]], env[from].members[components[0]];
      var bindings := EmittedWalk(layouts, owner, components, source, index, arrays, scope);
      var rest := EmittedWalk(layouts, p.typeName, components[1..], Local(index), index + 1, arrays, scope);
      assert bindings[0] == SubView(owner, components[0], p.typeName, from, target) && bindings[1..] == rest;
      if p.extent == Single {
        assert Run(bindings[0], env) == Some(env[target := got]);
        WalkRuns(layouts, p.typeName, components[1..], Local(index), index + 1, arrays, scope, env[target := got]);
      } else {
        assert Run(bindings[0], env) == None;
      }
    }
  }

  // ----- all of them

  ghost predicate AllSingles(layouts: Layouts, params: map<string, string>, paths: seq<Path>)
    requires NonEmptyPaths(paths)
  {
    forall i :: 0 <= i < |paths| ==> paths[i][0] in params ==> Singles(layouts, params[paths[i][0]], paths[i][1..])
  }

  /** How many bindings the paths take. */
  function Count(paths: seq<Path>): nat
    requires NonEmptyPaths(paths)
    decreases |paths|
  {
    if paths == [] then 0 else Count(paths[..|paths| - 1]) + |paths[|paths| - 1]| - 1
  }

  /** What the spelling of a path's root holds, once these bindings have run. */
  function RootHolds(params: map<string, string>, scope: Scope, before: seq<Binding>, path: Path): Held
    requires path != []
  {
    Holding(params, Scoped(scope, before), Spelled(scope.prefix, path[0]))
  }

  /** When its turn comes, does the spelling of each path's root hold a view of its parameter's struct? */
  predicate RootsHeld(params: map<string, string>, scope: Scope, bindings: seq<Binding>, paths: seq<Path>)
    requires NonEmptyPaths(paths) && |bindings| == Count(paths)
    decreases |paths|
  {
    paths == [] ||
    (var init, path := paths[..|paths| - 1], paths[|paths| - 1];
     var before := bindings[..Count(init)];
     && RootsHeld(params, scope, before, init)
     && (|path| == 1 || (path[0] in params && RootHolds(params, scope, before, path) == ViewOf(params[path[0]]))))
  }

  /** Does the target read a name that is neither spelled as a local nor one, of the `count` from `from` on? */
  ghost predicate OwnName(scope: Scope, name: string, from: nat, count: nat) {
    Spelled(scope.prefix, name) == name && !LocalWithin(scope, name, from, count)
  }

  /** Does no path's root start with an underscore, and is none spelled like a local that has been bound
      in its scope? */
  ghost predicate Uncaptured(scope: Scope, paths: seq<Path>, index: nat)
    requires NonEmptyPaths(paths) && |scope.ran| <= index
    decreases |paths|
  {
    paths == [] ||
    (var init, path := paths[..|paths| - 1], paths[|paths| - 1];
     && Uncaptured(scope, init, index)
     && (|path| == 1 || OwnName(scope, path[0], First(scope, index), |scope.ran| + Count(init))))
  }

  /** What one turn of the loop adds. */
  lemma {:induction false} BoundPath(layouts: Layouts, params: map<string, string>, before: Collected, path: Path,
                                     index: nat, arrays: bool)
    requires |path| > 1 && BindPath(layouts, params, before, path, index, arrays).Ok?
    ensures path[0] in params && params[path[0]] in layouts
    ensures var c, at := BindPath(layouts, params, before, path, index, arrays).value, index + |before.bindings|;
            var w := Walk(layouts, params[path[0]], path[1..], path[0], at, arrays);
            && w.Ok? && c.bindings == before.bindings + w.value.bindings && |w.value.bindings| == |path| - 1
            && c.locals == before.locals[path := Local(at + |path| - 2)]
  {
    hide Local, Leaf, AmountRange;
  }

  lemma {:induction false} LoopTail(layouts: Layouts, params: map<string, string>, paths: seq<Path>, index: nat, arrays: bool)
    requires paths != [] && NonEmptyPaths(paths) && BindPaths(layouts, params, paths, index, arrays).Ok?
    ensures var init, path := paths[..|paths| - 1], paths[|paths| - 1];
            && path != [] && NonEmptyPaths(init) && BindPaths(layouts, params, init, index, arrays).Ok?
            && BindPaths(layouts, params, paths, index, arrays) ==
               BindPath(layouts, params, BindPaths(layouts, params, init, index, arrays).value, path, index, arrays)
  {
    hide BindPath;
  }

  lemma {:induction false} CollectedCount(layouts: Layouts, params: map<string, string>, paths: seq<Path>, index: nat,
                                          arrays: bool, prefix: string)
    requires NonEmptyPaths(paths) && BindPaths(layouts, params, paths, index, arrays).Ok?
    ensures |BindPaths(layouts, params, paths, index, arrays).value.bindings| == Count(paths)
    ensures AllPlanned(layouts, EmitAll(prefix, BindPaths(layouts, params, paths, index, arrays).value.bindings))
    decreases |paths|
  {
    hide Walk, BindPath, BindPaths, Planned, Emitted;
    if paths == [] {
      NoneBound(layouts, params, index, arrays);
    } else {
      LoopTail(layouts, params, paths, index, arrays);
      var init, path := paths[..|paths| - 1], paths[|paths| - 1];
      var before := BindPaths(layouts, params, init, index, arrays).value;
      CollectedCount(layouts, params, init, index, arrays, prefix);
      if |path| == 1 {
        BarePath(layouts, params, before, path, index, arrays);
      } else {
        BoundPath(layouts, params, before, path, index, arrays);
        var at := index + |before.bindings|;
        WalkPlanned(layouts, params[path[0]], path[1..], path[0], at, arrays, prefix);
        EmitJoin(prefix, before.bindings, Walk(layouts, params[path[0]], path[1..], path[0], at, arrays).value.bindings);
      }
    }
  }

  lemma NoneBound(layouts: Layouts, params: map<string, string>, index: nat, arrays: bool)
    ensures BindPaths(layouts, params, [], index, arrays) == Ok(NOTHING)
  {
  }

  lemma BarePath(layouts: Layouts, params: map<string, string>, c: Collected, path: Path, index: nat, arrays: bool)
    requires |path| == 1 && BindPath(layouts, params, c, path, index, arrays).Ok?
    ensures BindPath(layouts, params, c, path, index, arrays) == Ok(c)
  {
  }

  /** After whatever ran before in its scope, the bindings of a constraint run exactly when every path goes
      through single members to one the layout knows the length of, and the spelling of every root holds
      a view of its parameter's struct. */
  lemma {:induction false} BindingsRunIff(layouts: Layouts, params: map<string, string>, paths: seq<Path>, index: nat,
                                          arrays: bool, scope: Scope, views: Env)
    requires ScalarsAreLeaves(layouts) && Given(layouts, params, views) && AllPlanned(layouts, scope.ran)
    requires NonEmptyPaths(paths) && BindPaths(layouts, params, paths, index, arrays).Ok?
    requires Execute(scope.ran, views).Some?
    ensures var bindings := BindPaths(layouts, params, paths, index, arrays).value.bindings;
            && |bindings| == Count(paths)
            && (Execute(Scoped(scope, bindings), views).Some? <==>
                AllSingles(layouts, params, paths) && RootsHeld(params, scope, bindings, paths))
    decreases |paths|
  {
    hide *;
    CollectedCount(layouts, params, paths, index, arrays, scope.prefix);
    if paths == [] {
      NoneRun(layouts, params, paths, index, arrays, scope, views);
    } else {
      var init, path := paths[..|paths| - 1], paths[|paths| - 1];
      LoopTail(layouts, params, paths, index, arrays);
      BindingsRunIff(layouts, params, init, index, arrays, scope, views);
      CollectedCount(layouts, params, init, index, arrays, scope.prefix);
      PathRuns(layouts, params, init, path, BindPaths(layouts, params, init, index, arrays).value, index, arrays, scope, views);
      assert paths == init + [path];
    }
  }

  lemma {:induction false} NoneRun(layouts: Layouts, params: map<string, string>, paths: seq<Path>, index: nat,
                                   arrays: bool, scope: Scope, views: Env)
    requires paths == []
    ensures var bindings := BindPaths(layouts, params, paths, index, arrays).value.bindings;
            && bindings == [] && Scoped(scope, bindings) == scope.ran && AllSingles(layouts, params, paths)
            && RootsHeld(params, scope, bindings, paths)
  {
    assert scope.ran + [] == scope.ran;
  }

  lemma {:induction false} PathRuns(layouts: Layouts, params: map<string, string>, init: seq<Path>, path: Path,
                                    before: Collected, index: nat, arrays: bool, scope: Scope, views: Env)
    requires ScalarsAreLeaves(layouts) && Given(layouts, params, views) && NonEmptyPaths(init) && path != []
    requires |before.bindings| == Count(init)
    requires AllPlanned(layouts, scope.ran) && AllPlanned(layouts, EmitAll(scope.prefix, before.bindings))
    requires Execute(Scoped(scope, before.bindings), views).Some? <==>
             AllSingles(layouts, params, init) && RootsHeld(params, scope, before.bindings, init)
    requires BindPath(layouts, params, before, path, index, arrays).Ok?
    ensures var bindings := BindPath(layouts, params, before, path, index, arrays).value.bindings;
            && NonEmptyPaths(init + [path]) && |bindings| == Count(init + [path])
            && (Execute(Scoped(scope, bindings), views).Some? <==>
                AllSingles(layouts, params, init + [path]) && RootsHeld(params, scope, bindings, init + [path]))
  {
    hide Walk, Local, Shaped, Execute, BindPath, ScalarsAreLeaves, Singles, AllSingles, Planned, RootHolds, RootsHeld, Count, Traced,
         Scoped, EmitAll, EmittedWalk;
    CountJoin(init, path);
    if |path| == 1 {
      BarePath(layouts, params, before, path, index, arrays);
      BareRoot(layouts, params, before, path, index, arrays);
      RootsJoin(params, scope, before.bindings, [], init, path);
      assert before.bindings + [] == before.bindings;
      BareSingles(layouts, params, init, path);
    } else {
      BoundPath(layouts, params, before, path, index, arrays);
      var owner, at := params[path[0]], index + |before.bindings|;
      var w := Walk(layouts, owner, path[1..], path[0], at, arrays).value;
      RootsJoin(params, scope, before.bindings, w.bindings, init, path);
      SinglesJoin(layouts, params, init, path);
      PathAfter(layouts, params, views, scope, before.bindings, path, at, arrays);
    }
  }

  lemma {:induction false} PathAfter(layouts: Layouts, params: map<string, string>, views: Env, scope: Scope,
                                     before: seq<Binding>, path: Path, at: nat, arrays: bool)
    requires ScalarsAreLeaves(layouts) && Given(layouts, params, views) && |path| > 1
    requires AllPlanned(layouts, scope.ran) && AllPlanned(layouts, EmitAll(scope.prefix, before))
    requires path[0] in params && params[path[0]] in layouts
    requires Walk(layouts, params[path[0]], path[1..], path[0], at, arrays).Ok?
    ensures var owner := params[path[0]];
            var w := Walk(layouts, owner, path[1..], path[0], at, arrays).value;
            Execute(Scoped(scope, before + w.bindings), views).Some? <==>
            && Execute(Scoped(scope, before), views).Some?
            && RootHolds(params, scope, before, path) == ViewOf(owner) && Singles(layouts, owner, path[1..])
  {
    hide Walk, Shaped, Execute, ScalarsAreLeaves, Singles, Planned, Holding, Traced, Given;
    var owner, all := params[path[0]], Scoped(scope, before);
    var w := Walk(layouts, owner, path[1..], path[0], at, arrays).value;
    ScopedJoin(scope, before, w.bindings);
    ExecuteJoin(all, EmittedWalk(layouts, owner, path[1..], path[0], at, arrays, scope), views);
    if Execute(all, views).Some? {
      ExecutedTraced(layouts, params, views, all);
      RootDecides(layouts, params, views, scope, before, Execute(all, views).value, owner, path, at, arrays);
    }
  }

  /** What the root's spelling holds decides whether a path's bindings can start. */
  lemma {:induction false} RootDecides(layouts: Layouts, params: map<string, string>, views: Env, scope: Scope,
                                       before: seq<Binding>, mid: Env, owner: string, path: Path, at: nat, arrays: bool)
    requires ScalarsAreLeaves(layouts) && Traced(layouts, params, views, Scoped(scope, before), mid)
    requires |path| > 1 && owner in layouts && Walk(layouts, owner, path[1..], path[0], at, arrays).Ok?
    requires Given(layouts, params, views)
    ensures Execute(EmittedWalk(layouts, owner, path[1..], path[0], at, arrays, scope), mid).Some? <==>
            RootHolds(params, scope, before, path) == ViewOf(owner) && Singles(layouts, owner, path[1..])
  {
    hide Walk, Shaped, Execute, ScalarsAreLeaves, Singles, Holding, Origin, Lookup, EmittedWalk, Spelled, Scoped;
    var all, from := Scoped(scope, before), Spelled(scope.prefix, path[0]);
    if from in mid {
      assert TracedName(layouts, params, views, all, from, mid[from]);
    } else {
      NothingHeld(params, all, from);
    }
    if RootHolds(params, scope, before, path) == ViewOf(owner) {
      WalkRuns(layouts, owner, path[1..], path[0], at, arrays, scope, mid);
    } else {
      WalkNeedsRoot(layouts, owner, path[1..], path[0], at, arrays, scope, mid);
    }
  }

  /** A name that is neither a parameter nor bound holds nothing. */
  lemma {:induction false} NothingHeld(params: map<string, string>, bindings: seq<Binding>, name: string)
    requires name !in params && forall k :: 0 <= k < |bindings| ==> bindings[k].target != name
    ensures Holding(params, bindings, name) == Nothing
  {
    hide Origin;
    OriginKept(params, [], bindings, name);
    assert [] + bindings == bindings;
  }

  lemma CountJoin(init: seq<Path>, path: Path)
    requires NonEmptyPaths(init) && path != []
    ensures NonEmptyPaths(init + [path]) && Count(init + [path]) == Count(init) + |path| - 1
  {
    assert (init + [path])[..|init|] == init;
  }

  lemma {:induction false} RootsJoin(params: map<string, string>, scope: Scope, before: seq<Binding>, more: seq<Binding>,
                                     init: seq<Path>, path: Path)
    requires NonEmptyPaths(init) && path != [] && |before| == Count(init) && |more| == |path| - 1
    requires path[0] in params
    ensures NonEmptyPaths(init + [path]) && |before + more| == Count(init + [path])
    ensures RootsHeld(params, scope, before + more, init + [path]) <==>
            && RootsHeld(params, scope, before, init)
            && (|path| == 1 || RootHolds(params, scope, before, path) == ViewOf(params[path[0]]))
  {
    hide RootHolds, Count;
    CountJoin(init, path);
    var paths := init + [path];
    assert paths[..|paths| - 1] == init && paths[|paths| - 1] == path;
    assert (before + more)[..Count(init)] == before;
  }

  lemma {:induction false} SinglesJoin(layouts: Layouts, params: map<string, string>, init: seq<Path>, path: Path)
    requires NonEmptyPaths(init) && path != [] && path[0] in params
    ensures NonEmptyPaths(init + [path])
    ensures AllSingles(layouts, params, init + [path]) <==>
            AllSingles(layouts, params, init) && Singles(layouts, params[path[0]], path[1..])
  {
    hide Singles;
    var paths := init + [path];
    assert paths[|init|] == path && forall i :: 0 <= i < |init| ==> paths[i] == init[i];
  }

  lemma {:induction false} BareSingles(layouts: Layouts, params: map<string, string>, init: seq<Path>, path: Path)
    requires NonEmptyPaths(init) && |path| == 1
    ensures NonEmptyPaths(init + [path])
    ensures AllSingles(layouts, params, init + [path]) <==> AllSingles(layouts, params, init)
  {
    hide Singles;
    var paths := init + [path];
    assert paths[|init|] == path && forall i :: 0 <= i < |init| ==> paths[i] == init[i];
    assert path[1..] == [];
    forall owner ensures Singles(layouts, owner, path[1..]) { NoStep(layouts, owner); }
  }

  lemma NoStep(layouts: Layouts, owner: string)
    ensures Singles(layouts, owner, [])
  {
  }

  // ----- which paths are read

  predicate OnceEach(paths: seq<Path>) {
    forall i, j :: 0 <= i < j < |paths| ==> paths[i] != paths[j]
  }

  lemma {:induction false} OnceDistinct(paths: seq<Path>)
    ensures OnceEach(Once(paths))
  {
    if paths != [] { OnceDistinct(paths[..|paths| - 1]); }
  }

  /** The path a planned path's local is read along. */
  function SourceOf(scope: Scope, bindings: seq<Binding>, locals: map<Path, string>, path: Path): (source: Path)
    requires path != []
    ensures source != []
  {
    if path in locals then Origin(Scoped(scope, bindings), scope.prefix + locals[path]) else path
  }

  /** Each path of more than a parameter has a local, holding a value or an array's bytes. */
  ghost predicate HasLocals(params: map<string, string>, scope: Scope, bindings: seq<Binding>, locals: map<Path, string>,
                            paths: seq<Path>, index: nat, arrays: bool)
    requires NonEmptyPaths(paths)
  {
    forall i :: 0 <= i < |paths| && |paths[i]| > 1 ==> HasLocal(params, scope, bindings, locals, paths[i], index, arrays)
  }

  ghost predicate HasLocal(params: map<string, string>, scope: Scope, bindings: seq<Binding>, locals: map<Path, string>,
                           path: Path, index: nat, arrays: bool)
  {
    && path in locals && LocalWithin(scope, scope.prefix + locals[path], index, |bindings|)
    && var held := Holding(params, Scoped(scope, bindings), scope.prefix + locals[path]);
       if arrays then held.Span? else held.Value?
  }

  /** Is each path's local read along that path? */
  predicate ReadsItsPaths(scope: Scope, bindings: seq<Binding>, locals: map<Path, string>, paths: seq<Path>)
    requires NonEmptyPaths(paths)
  {
    forall i :: 0 <= i < |paths| && |paths[i]| > 1 ==> SourceOf(scope, bindings, locals, paths[i]) == paths[i]
  }

  /** Every local is read along its own path exactly when no path's root starts with an underscore or is
      spelled like a local that has been bound in its scope. */
  lemma {:induction false} OwnPathsIff(layouts: Layouts, params: map<string, string>, paths: seq<Path>, index: nat,
                                       arrays: bool, scope: Scope)
    requires NonEmptyPaths(paths) && OnceEach(paths) && BindPaths(layouts, params, paths, index, arrays).Ok?
    requires EntersAt(scope, index)
    ensures var c := BindPaths(layouts, params, paths, index, arrays).value;
            && HasLocals(params, scope, c.bindings, c.locals, paths, index, arrays)
            && (ReadsItsPaths(scope, c.bindings, c.locals, paths) <==> Uncaptured(scope, paths, index))
    decreases |paths|
  {
    hide BindPaths, BindPath, HasLocals, ReadsItsPaths, Uncaptured, OwnName;
    if paths == [] {
      NoneRead(params, paths, index, arrays, scope, BindPaths(layouts, params, paths, index, arrays).value);
    } else {
      var init, path := paths[..|paths| - 1], paths[|paths| - 1];
      LoopTail(layouts, params, paths, index, arrays);
      OwnPathsIff(layouts, params, init, index, arrays, scope);
      CollectedCount(layouts, params, init, index, arrays, scope.prefix);
      CollectedTargets(layouts, params, init, index, arrays);
      var before := BindPaths(layouts, params, init, index, arrays).value;
      PathsJoin(scope, init, path, index);
      assert paths == init + [path];
      assert path !in init by { assert forall i :: 0 <= i < |init| ==> init[i] == paths[i]; }
      if |path| == 1 {
        BarePath(layouts, params, before, path, index, arrays);
        BareRead(params, scope, before, init, path, index, arrays);
      } else {
        PathRead(layouts, params, scope, before, init, path, index, arrays);
      }
    }
  }

  lemma NoneRead(params: map<string, string>, paths: seq<Path>, index: nat, arrays: bool, scope: Scope, c: Collected)
    requires paths == [] && |scope.ran| <= index
    ensures NonEmptyPaths(paths) && HasLocals(params, scope, c.bindings, c.locals, paths, index, arrays)
    ensures ReadsItsPaths(scope, c.bindings, c.locals, paths) && Uncaptured(scope, paths, index)
  {
  }

  lemma {:induction false} PathsJoin(scope: Scope, init: seq<Path>, path: Path, index: nat)
    requires NonEmptyPaths(init) && path != [] && |scope.ran| <= index
    ensures NonEmptyPaths(init + [path])
    ensures Uncaptured(scope, init + [path], index) <==>
            && Uncaptured(scope, init, index)
            && (|path| == 1 || OwnName(scope, path[0], First(scope, index), |scope.ran| + Count(init)))
  {
    hide OwnName, Count;
    assert (init + [path])[..|init|] == init;
  }

  lemma {:induction false} BareRead(params: map<string, string>, scope: Scope, c: Collected, init: seq<Path>, path: Path,
                                    index: nat, arrays: bool)
    requires NonEmptyPaths(init) && |path| == 1 && HasLocals(params, scope, c.bindings, c.locals, init, index, arrays)
    ensures NonEmptyPaths(init + [path]) && HasLocals(params, scope, c.bindings, c.locals, init + [path], index, arrays)
    ensures ReadsItsPaths(scope, c.bindings, c.locals, init + [path]) <==> ReadsItsPaths(scope, c.bindings, c.locals, init)
  {
    hide SourceOf, HasLocal;
    var paths := init + [path];
    assert paths[|init|] == path && forall i :: 0 <= i < |init| ==> paths[i] == init[i];
  }

  lemma {:induction false} PathRead(layouts: Layouts, params: map<string, string>, scope: Scope, before: Collected,
                                    init: seq<Path>, path: Path, index: nat, arrays: bool)
    requires NonEmptyPaths(init) && |path| > 1 && path !in init && EntersAt(scope, index)
    requires HasLocals(params, scope, before.bindings, before.locals, init, index, arrays)
    requires forall k :: 0 <= k < |before.bindings| ==> before.bindings[k].target == Local(index + k)
    requires BindPath(layouts, params, before, path, index, arrays).Ok?
    ensures NonEmptyPaths(init + [path])
    ensures var c := BindPath(layouts, params, before, path, index, arrays).value;
            && HasLocals(params, scope, c.bindings, c.locals, init + [path], index, arrays)
            && (ReadsItsPaths(scope, c.bindings, c.locals, init + [path]) <==>
                && ReadsItsPaths(scope, before.bindings, before.locals, init)
                && OwnName(scope, path[0], First(scope, index), |scope.ran| + |before.bindings|))
  {
    hide BindPath, Walk, Origin, Holding, Local, HasLocal, SourceOf, EmitAll, OwnName;
    BoundPath(layouts, params, before, path, index, arrays);
    var c, at := BindPath(layouts, params, before, path, index, arrays).value, index + |before.bindings|;
    var paths := init + [path];
    LastRead(layouts, params, scope, before, path, index, arrays);
    assert paths[|init|] == path;
    forall i | 0 <= i < |init| && |init[i]| > 1
      ensures HasLocal(params, scope, c.bindings, c.locals, init[i], index, arrays)
      ensures SourceOf(scope, c.bindings, c.locals, init[i]) == SourceOf(scope, before.bindings, before.locals, init[i])
    {
      assert init[i] != path && HasLocal(params, scope, before.bindings, before.locals, init[i], index, arrays);
      StillRead(layouts, params, scope, before, path, init[i], index, arrays);
    }
    assert forall i :: 0 <= i < |init| ==> paths[i] == init[i];
  }

  /** The path just bound. */
  lemma {:induction false} LastRead(layouts: Layouts, params: map<string, string>, scope: Scope, before: Collected,
                                    path: Path, index: nat, arrays: bool)
    requires |path| > 1 && EntersAt(scope, index)
    requires forall k :: 0 <= k < |before.bindings| ==> before.bindings[k].target == Local(index + k)
    requires BindPath(layouts, params, before, path, index, arrays).Ok?
    ensures var c := BindPath(layouts, params, before, path, index, arrays).value;
            && HasLocal(params, scope, c.bindings, c.locals, path, index, arrays)
            && (SourceOf(scope, c.bindings, c.locals, path) == path <==>
                OwnName(scope, path[0], First(scope, index), |scope.ran| + |before.bindings|))
  {
    hide BindPath, Walk, Origin, Holding, Local, Spelled, Scoped;
    BoundPath(layouts, params, before, path, index, arrays);
    var c, at := BindPath(layouts, params, before, path, index, arrays).value, index + |before.bindings|;
    var w := Walk(layouts, params[path[0]], path[1..], path[0], at, arrays).value;
    var all, from := Scoped(scope, before.bindings), Spelled(scope.prefix, path[0]);
    ScopedJoin(scope, before.bindings, w.bindings);
    WalkOrigin(layouts, params[path[0]], path[1..], path[0], at, arrays, scope, params, all);
    ScopedTargets(scope, before.bindings, index);
    RootOrigin(params, scope, all, from, First(scope, index));
    OwnRoot(Origin(all, from), path);
    assert index <= at + |path| - 2 < index + |c.bindings|;
  }

  /** A path bound before. */
  lemma {:induction false} StillRead(layouts: Layouts, params: map<string, string>, scope: Scope, before: Collected,
                                     path: Path, other: Path, index: nat, arrays: bool)
    requires |path| > 1 && other != [] && other != path
    requires HasLocal(params, scope, before.bindings, before.locals, other, index, arrays)
    requires BindPath(layouts, params, before, path, index, arrays).Ok?
    ensures var c := BindPath(layouts, params, before, path, index, arrays).value;
            && HasLocal(params, scope, c.bindings, c.locals, other, index, arrays)
            && SourceOf(scope, c.bindings, c.locals, other) == SourceOf(scope, before.bindings, before.locals, other)
  {
    hide BindPath, Walk, Origin, Holding, Local, Scoped;
    BoundPath(layouts, params, before, path, index, arrays);
    var at := index + |before.bindings|;
    var w := Walk(layouts, params[path[0]], path[1..], path[0], at, arrays).value;
    var name := scope.prefix + before.locals[other];
    var more := EmitAll(scope.prefix, w.bindings);
    ScopedJoin(scope, before.bindings, w.bindings);
    var j: nat :| index <= j < at && name == LocalIn(scope, j);
    assert index <= j < index + |before.bindings + w.bindings|;
    forall k | 0 <= k < |more| ensures more[k].target != name {
      assert more[k].target == LocalIn(scope, at + k);
      LocalInInjective(scope, j, at + k);
    }
    OriginKept(params, Scoped(scope, before.bindings), more, name);
  }

  lemma {:induction false} OwnRoot(origin: Path, path: Path)
    requires origin != [] && path != []
    ensures origin + path[1..] == path <==> origin == [path[0]]
  {
    assert [path[0]] + path[1..] == path;
    if origin + path[1..] == path {
      assert |origin + path[1..]| == |origin| + |path| - 1;
      assert (origin + path[1..])[0] == origin[0];
    }
  }

  /** A name goes back to itself unless some binding binds it. */
  lemma {:induction false} RootOrigin(params: map<string, string>, scope: Scope, bindings: seq<Binding>, name: string, from: nat)
    requires forall k :: 0 <= k < |bindings| ==> bindings[k].target == LocalIn(scope, from + k)
    ensures if LocalWithin(scope, name, from, |bindings|) then |Origin(bindings, name)| > 1 else Origin(bindings, name) == [name]
  {
    hide Local, LocalIn, Origin, Holding;
    if LocalWithin(scope, name, from, |bindings|) {
      var k: nat :| from <= k < from + |bindings| && name == LocalIn(scope, k);
      assert bindings[k - from].target == name;
      BoundOrigin(bindings, k - from);
    } else {
      OriginKept(params, [], bindings, name);
      assert [] + bindings == bindings;
      NoOrigin(name);
    }
  }

  lemma NoOrigin(name: string)
    ensures Origin([], name) == [name]
  {
  }

  /** Where every root is read under its own name, every root holds its parameter's struct. */
  lemma {:induction false} UncapturedRoots(layouts: Layouts, params: map<string, string>, paths: seq<Path>, index: nat,
                                           arrays: bool, scope: Scope)
    requires NonEmptyPaths(paths) && BindPaths(layouts, params, paths, index, arrays).Ok?
    requires EntersAt(scope, index) && Uncaptured(scope, paths, index)
    ensures |BindPaths(layouts, params, paths, index, arrays).value.bindings| == Count(paths)
    ensures RootsHeld(params, scope, BindPaths(layouts, params, paths, index, arrays).value.bindings, paths)
    decreases |paths|
  {
    hide BindPaths, BindPath, RootsHeld, OwnName, Count, Walk, RootHolds;
    CollectedCount(layouts, params, paths, index, arrays, scope.prefix);
    if paths == [] {
      NoneRun(layouts, params, paths, index, arrays, scope, map[]);
    } else {
      var init, path := paths[..|paths| - 1], paths[|paths| - 1];
      assert paths == init + [path];
      LoopTail(layouts, params, paths, index, arrays);
      CollectedCount(layouts, params, init, index, arrays, scope.prefix);
      UncapturedRoots(layouts, params, init, index, arrays, scope);
      var before := BindPaths(layouts, params, init, index, arrays).value;
      if |path| == 1 {
        BarePath(layouts, params, before, path, index, arrays);
        BareRoot(layouts, params, before, path, index, arrays);
        RootsJoin(params, scope, before.bindings, [], init, path);
        assert before.bindings + [] == before.bindings;
      } else {
        CollectedTargets(layouts, params, init, index, arrays);
        BoundPath(layouts, params, before, path, index, arrays);
        RootKept(params, scope, before.bindings, path, index);
        RootsJoin(params, scope, before.bindings,
                  Walk(layouts, params[path[0]], path[1..], path[0], index + |before.bindings|, arrays).value.bindings,
                  init, path);
      }
    }
  }

  lemma BareRoot(layouts: Layouts, params: map<string, string>, c: Collected, path: Path, index: nat, arrays: bool)
    requires path != [] && BindPath(layouts, params, c, path, index, arrays).Ok?
    ensures path[0] in params
  {
  }

  lemma {:induction false} RootKept(params: map<string, string>, scope: Scope, bindings: seq<Binding>, path: Path, index: nat)
    requires EntersAt(scope, index) && path != [] && path[0] in params
    requires forall k :: 0 <= k < |bindings| ==> bindings[k].target == Local(index + k)
    requires OwnName(scope, path[0], First(scope, index), |scope.ran| + |bindings|)
    ensures RootHolds(params, scope, bindings, path) == ViewOf(params[path[0]])
  {
    hide Local, LocalIn, Origin, Scoped, Spelled;
    ScopedTargets(scope, bindings, index);
    var all, from := Scoped(scope, bindings), First(scope, index);
    forall k | 0 <= k < |all| ensures all[k].target != path[0] {
      assert from <= from + k < from + (|scope.ran| + |bindings|);
    }
    OriginKept(params, [], all, path[0]);
    assert [] + all == all;
  }

  // ----- the scopes of a whole plan

  /** The scope of a plan's `i`-th constraint, in a target that gives each its own block or all of them one. */
  function ScopeOf(plans: seq<Constraint>, i: nat, prefix: string, shared: bool): Scope
    requires i <= |plans|
  {
    Scope(prefix, if shared then EmitAll(prefix, AllBindings(plans[..i])) else [])
  }

  /** Every constraint of a plan is planned for the index its scope enters at. */
  lemma {:induction false} ScopesFit(layouts: Layouts, params: map<string, string>, body: seq<Expr>, i: nat, prefix: string,
                                     shared: bool)
    requires PlanAll(layouts, params, body).Ok? && i < |body| && prefix != ""
    ensures |PlanAll(layouts, params, body).value| == |body|
    ensures var plans := PlanAll(layouts, params, body).value;
            var scope, index := ScopeOf(plans, i, prefix, shared), |AllBindings(plans[..i])|;
            && PlanOne(layouts, params, body[i], index) == Ok(plans[i])
            && EntersAt(scope, index) && AllPlanned(layouts, scope.ran)
  {
    hide PlanOne, Local, Emitted, Planned;
    PlanPrefix(layouts, params, body, i);
    var plans := PlanAll(layouts, params, body).value;
    var before := AllBindings(plans[..i]);
    PlanAllPlanned(layouts, params, body[..i], prefix);
    assert [] == EmitAll(prefix, []);
    forall k | 0 <= k < |before| ensures before[k].target == Local(k) { TargetsAre(layouts, params, body[..i], k); }
    if shared {
      forall k | 0 <= k < |before| ensures EmitAll(prefix, before)[k].target == LocalIn(Scope(prefix, []), k) {
        EmittedTarget(prefix, before[k]);
      }
    }
  }

  lemma EmittedTarget(prefix: string, b: Binding)
    ensures Emitted(prefix, b).target == prefix + b.target
  {
  }

  /** The plan of the first constraints is the first part of the plan. */
  lemma {:induction false} PlanPrefix(layouts: Layouts, params: map<string, string>, body: seq<Expr>, i: nat)
    requires PlanAll(layouts, params, body).Ok? && i < |body|
    ensures |PlanAll(layouts, params, body).value| == |body|
    ensures var plans := PlanAll(layouts, params, body).value;
            && PlanAll(layouts, params, body[..i]) == Ok(plans[..i])
            && PlanOne(layouts, params, body[i], |AllBindings(plans[..i])|) == Ok(plans[i])
  {
    hide PlanOne, AllBindings;
    var init := body[..|body| - 1];
    var before := PlanAll(layouts, params, init).value;
    var plans := PlanAll(layouts, params, body).value;
    PlanLength(layouts, params, init);
    assert plans[..|init|] == before;
    if i < |init| {
      PlanPrefix(layouts, params, init, i);
      assert init[..i] == body[..i] && plans[..i] == before[..i];
    }
  }

  lemma {:induction false} PlanLength(layouts: Layouts, params: map<string, string>, body: seq<Expr>)
    requires PlanAll(layouts, params, body).Ok?
    ensures |PlanAll(layouts, params, body).value| == |body|
  {
    hide PlanOne;
    if body != [] { PlanLength(layouts, params, body[..|body| - 1]); }
  }

  lemma {:induction false} PlanAllPlanned(layouts: Layouts, params: map<string, string>, body: seq<Expr>, prefix: string)
    requires PlanAll(layouts, params, body).Ok?
    ensures AllPlanned(layouts, EmitAll(prefix, AllBindings(PlanAll(layouts, params, body).value)))
  {
    hide PlanOne, Planned, Emitted;
    if body != [] {
      hide PlanAll, AllBindings;
      PlanTail(layouts, params, body);
      var init, last := body[..|body| - 1], body[|body| - 1];
      var before := AllBindings(PlanAll(layouts, params, init).value);
      PlanAllPlanned(layouts, params, init, prefix);
      OnePlanned(layouts, params, last, |before|, prefix);
      EmitJoin(prefix, before, PlanOne(layouts, params, last, |before|).value.bindings);
    }
  }

  lemma {:induction false} OnePlanned(layouts: Layouts, params: map<string, string>, e: Expr, index: nat, prefix: string)
    requires PlanOne(layouts, params, e, index).Ok?
    ensures AllPlanned(layouts, EmitAll(prefix, PlanOne(layouts, params, e, index).value.bindings))
  {
    hide BindPaths, ArrayEquality, Check, Widen, Planned, Emitted;
    CollectedCount(layouts, params, Named(e), index, ArrayEquality(e, layouts, params).value.Some?, prefix);
  }
}
