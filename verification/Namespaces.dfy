/** Namespaces flattened into qualified names (situc/namespaces.py). */
module Namespaces {
  import opened Prelude
  import opened Ast
  import opened Intervals
  import opened Solver

  const SEPARATOR := "::"

  type Renaming = string -> string

  /** A type a member names; a scalar's is not a name. */
  datatype TypeRef = TypeRef(name: string, scalar: bool)

  /** A member by its type, the declarations it names beside it (a codec, a length type, a prefix), the
      expressions it holds and the members inside it. */
  datatype Member = Member(typeRef: Option<TypeRef>, refs: seq<string>, exprs: seq<Expr>, members: seq<Member>)

  datatype Decl =
    | Struct(name: string, members: seq<Member>, attrs: seq<Expr>)
    | Named(name: string)
    | Impl(codec: string)
    | Const(name: string, value: Expr)
    | Requirement(expr: Expr)
    | Invariant(head: string, rest: string, expr: Expr)
    | Relation(name: string, types: seq<string>, body: seq<Expr>)
    | Directive

  // ----- rewriting

  /** `_rewrite_expr`: only what a path starts with is renamed. */
  function RewriteExpr(e: Expr, f: Renaming): Expr {
    match e
    case NameRef(name) => NameRef(f(name))
    case Access(base, member) => Access(RewriteExpr(base, f), member)
    case Index(base, None) => Index(RewriteExpr(base, f), None)
    case Index(base, Some(i)) => Index(RewriteExpr(base, f), Some(RewriteExpr(i, f)))
    case Unary(op, x) => Unary(op, RewriteExpr(x, f))
    case Binary(op, l, r) => Binary(op, RewriteExpr(l, f), RewriteExpr(r, f))
    case Call(fn, args) => Call(fn, RewriteExprs(args, f))
    case _ => e
  }

  function RewriteExprs(es: seq<Expr>, f: Renaming): (r: seq<Expr>)
    ensures |r| == |es| && forall i :: 0 <= i < |es| ==> r[i] == RewriteExpr(es[i], f)
  {
    if es == [] then [] else [RewriteExpr(es[0], f)] + RewriteExprs(es[1..], f)
  }

  function RewriteNames(names: seq<string>, f: Renaming): (r: seq<string>)
    ensures |r| == |names| && forall i :: 0 <= i < |names| ==> r[i] == f(names[i])
  {
    if names == [] then [] else [f(names[0])] + RewriteNames(names[1..], f)
  }

  /** `_rewrite_member` */
  function RewriteMember(m: Member, f: Renaming): Member {
    Member(RewriteType(m.typeRef, f),
           RewriteNames(m.refs, f), RewriteExprs(m.exprs, f), RewriteMembers(m.members, f))
  }

  function RewriteMembers(ms: seq<Member>, f: Renaming): (r: seq<Member>)
    ensures |r| == |ms| && forall i :: 0 <= i < |ms| ==> r[i] == RewriteMember(ms[i], f)
  {
    if ms == [] then [] else [RewriteMember(ms[0], f)] + RewriteMembers(ms[1..], f)
  }

  /** `rewrite`. A relation's body is rooted at its parameters and is left alone. */
  function Rewrite(d: Decl, f: Renaming): Decl {
    match d
    case Struct(name, members, attrs) => Struct(f(name), RewriteMembers(members, f), RewriteExprs(attrs, f))
    case Named(name) => Named(f(name))
    case Impl(codec) => Impl(f(codec))
    case Const(name, value) => Const(f(name), RewriteExpr(value, f))
    case Requirement(e) => Requirement(RewriteExpr(e, f))
    case Invariant(head, rest, e) => Invariant(f(head), rest, RewriteExpr(e, f))
    case Relation(name, types, body) => Relation(f(name), RewriteNames(types, f), body)
    case Directive => d
  }

  // ----- the names a declaration holds

  function ExprNames(e: Expr): set<string> {
    match e
    case NameRef(name) => {name}
    case Access(base, _) => ExprNames(base)
    case Index(base, None) => ExprNames(base)
    case Index(base, Some(i)) => ExprNames(base) + ExprNames(i)
    case Unary(_, x) => ExprNames(x)
    case Binary(_, l, r) => ExprNames(l) + ExprNames(r)
    case Call(_, args) => ExprsNames(args)
    case _ => {}
  }

  function ExprsNames(es: seq<Expr>): set<string> {
    if es == [] then {} else ExprNames(es[0]) + ExprsNames(es[1..])
  }

  function Listed(names: seq<string>): set<string> {
    set n | n in names
  }

  function MemberNames(m: Member): set<string> {
    TypeNames(m.typeRef) + Listed(m.refs) + ExprsNames(m.exprs) + MembersNames(m.members)
  }

  function MembersNames(ms: seq<Member>): set<string> {
    if ms == [] then {} else MemberNames(ms[0]) + MembersNames(ms[1..])
  }

  function DeclNames(d: Decl): set<string> {
    match d
    case Struct(name, members, attrs) => {name} + MembersNames(members) + ExprsNames(attrs)
    case Named(name) => {name}
    case Impl(codec) => {codec}
    case Const(name, value) => {name} + ExprNames(value)
    case Requirement(e) => ExprNames(e)
    case Invariant(head, _, e) => {head} + ExprNames(e)
    case Relation(name, types, _) => {name} + Listed(types)
    case Directive => {}
  }

  // ----- two renamings in turn

  function Then(f: Renaming, g: Renaming): Renaming {
    s => g(f(s))
  }

  predicate Fixes(f: Renaming, names: set<string>) {
    forall n <- names :: f(n) == n
  }

  lemma {:induction false} ExprTwice(e: Expr, f: Renaming, g: Renaming)
    ensures RewriteExpr(RewriteExpr(e, f), g) == RewriteExpr(e, Then(f, g))
    decreases e, 0
  {
    match e
    case Access(base, _) => ExprTwice(base, f, g);
    case Index(base, None) => ExprTwice(base, f, g);
    case Index(base, Some(i)) => ExprTwice(base, f, g); ExprTwice(i, f, g);
    case Unary(_, x) => ExprTwice(x, f, g);
    case Binary(_, l, r) => ExprTwice(l, f, g); ExprTwice(r, f, g);
    case Call(_, args) => ExprsTwice(args, f, g);
    case _ =>
  }

  lemma {:induction false} ExprsTwice(es: seq<Expr>, f: Renaming, g: Renaming)
    ensures RewriteExprs(RewriteExprs(es, f), g) == RewriteExprs(es, Then(f, g))
    decreases es, 1
  {
    if es != [] {
      ExprTwice(es[0], f, g);
      ExprsTwice(es[1..], f, g);
      assert RewriteExprs(es, f)[1..] == RewriteExprs(es[1..], f);
    }
  }

  lemma {:induction false} ExprFixedIff(e: Expr, f: Renaming)
    ensures RewriteExpr(e, f) == e <==> Fixes(f, ExprNames(e))
    decreases e, 0
  {
    match e
    case Access(base, _) => ExprFixedIff(base, f);
    case Index(base, None) => ExprFixedIff(base, f);
    case Index(base, Some(i)) => ExprFixedIff(base, f); ExprFixedIff(i, f);
    case Unary(_, x) => ExprFixedIff(x, f);
    case Binary(_, l, r) => ExprFixedIff(l, f); ExprFixedIff(r, f);
    case Call(_, args) => ExprsFixedIff(args, f);
    case _ =>
  }

  lemma {:induction false} ExprsFixedIff(es: seq<Expr>, f: Renaming)
    ensures RewriteExprs(es, f) == es <==> Fixes(f, ExprsNames(es))
    decreases es, 1
  {
    if es != [] {
      ExprFixedIff(es[0], f);
      ExprsFixedIff(es[1..], f);
      Heads(RewriteExpr(es[0], f), RewriteExprs(es[1..], f), es);
    }
  }

  lemma Heads<T>(head: T, rest: seq<T>, all: seq<T>)
    requires all != []
    ensures [head] + rest == all <==> head == all[0] && rest == all[1..]
  {
    if head == all[0] && rest == all[1..] { assert [head] + rest == all; }
    if [head] + rest == all { assert rest == ([head] + rest)[1..]; }
  }

  lemma {:induction false} NamesTwice(names: seq<string>, f: Renaming, g: Renaming)
    ensures RewriteNames(RewriteNames(names, f), g) == RewriteNames(names, Then(f, g))
    ensures RewriteNames(names, f) == names <==> Fixes(f, Listed(names))
  {
    if Fixes(f, Listed(names)) {
      forall i | 0 <= i < |names| ensures f(names[i]) == names[i] { assert names[i] in Listed(names); }
    } else {
      var n :| n in Listed(names) && f(n) != n;
      var i :| 0 <= i < |names| && names[i] == n;
    }
  }

  lemma FixesBoth(f: Renaming, a: set<string>, b: set<string>)
    ensures Fixes(f, a + b) <==> Fixes(f, a) && Fixes(f, b)
  {
  }

  function TypeNames(t: Option<TypeRef>): set<string> {
    if t.Some? && !t.value.scalar then {t.value.name} else {}
  }

  function RewriteType(t: Option<TypeRef>, f: Renaming): Option<TypeRef> {
    match t
    case None => None
    case Some(t) => Some(if t.scalar then t else TypeRef(f(t.name), false))
  }

  lemma TypeTwice(t: Option<TypeRef>, f: Renaming, g: Renaming)
    ensures RewriteType(RewriteType(t, f), g) == RewriteType(t, Then(f, g))
    ensures RewriteType(t, f) == t <==> Fixes(f, TypeNames(t))
  {
  }

  lemma {:induction false} MemberTwice(m: Member, f: Renaming, g: Renaming)
    ensures RewriteMember(RewriteMember(m, f), g) == RewriteMember(m, Then(f, g))
    ensures RewriteMember(m, f) == m <==> Fixes(f, MemberNames(m))
    decreases m, 0
  {
    hide Fixes, RewriteType, TypeNames, RewriteNames, RewriteExprs, RewriteMembers, Listed, ExprsNames, MembersNames, Then;
    TypeTwice(m.typeRef, f, g);
    NamesTwice(m.refs, f, g);
    ExprsTwice(m.exprs, f, g);
    ExprsFixedIff(m.exprs, f);
    MembersTwice(m.members, f, g);
    var a, b, c, d := TypeNames(m.typeRef), Listed(m.refs), ExprsNames(m.exprs), MembersNames(m.members);
    FixesBoth(f, a, b);
    FixesBoth(f, a + b, c);
    FixesBoth(f, a + b + c, d);
  }

  lemma {:induction false} MembersTwice(ms: seq<Member>, f: Renaming, g: Renaming)
    ensures RewriteMembers(RewriteMembers(ms, f), g) == RewriteMembers(ms, Then(f, g))
    ensures RewriteMembers(ms, f) == ms <==> Fixes(f, MembersNames(ms))
    decreases ms, 1
  {
    if ms != [] {
      MemberTwice(ms[0], f, g);
      MembersTwice(ms[1..], f, g);
      Heads(RewriteMember(ms[0], f), RewriteMembers(ms[1..], f), ms);
      assert RewriteMembers(ms, f)[1..] == RewriteMembers(ms[1..], f);
    }
  }

  /** Renaming twice is renaming by both. */
  lemma {:induction false} DeclTwice(d: Decl, f: Renaming, g: Renaming)
    ensures Rewrite(Rewrite(d, f), g) == Rewrite(d, Then(f, g))
  {
    match d
    case Struct(_, members, attrs) => MembersTwice(members, f, g); ExprsTwice(attrs, f, g);
    case Const(_, value) => ExprTwice(value, f, g);
    case Requirement(e) => ExprTwice(e, f, g);
    case Invariant(_, _, e) => ExprTwice(e, f, g);
    case Relation(_, types, _) => NamesTwice(types, f, g);
    case _ =>
  }

  /** Renaming changes nothing exactly when it fixes every name the declaration holds. */
  lemma {:induction false} DeclFixedIff(d: Decl, f: Renaming)
    ensures Rewrite(d, f) == d <==> Fixes(f, DeclNames(d))
  {
    hide Fixes, RewriteMembers, RewriteExprs, RewriteExpr, RewriteNames, MembersNames, ExprsNames, ExprNames, Listed, Then;
    match d
    case Struct(name, members, attrs) =>
      MembersTwice(members, f, f);
      ExprsFixedIff(attrs, f);
      FixesBoth(f, {name} + MembersNames(members), ExprsNames(attrs));
      FixesBoth(f, {name}, MembersNames(members));
      FixesOne(f, name);
    case Const(name, value) =>
      ExprFixedIff(value, f);
      FixesBoth(f, {name}, ExprNames(value));
      FixesOne(f, name);
    case Requirement(e) => ExprFixedIff(e, f);
    case Invariant(head, _, e) =>
      ExprFixedIff(e, f);
      FixesBoth(f, {head}, ExprNames(e));
      FixesOne(f, head);
    case Relation(name, types, _) =>
      NamesTwice(types, f, f);
      FixesBoth(f, {name}, Listed(types));
      FixesOne(f, name);
    case Named(name) => FixesOne(f, name);
    case Impl(codec) => FixesOne(f, codec);
    case Directive => FixesNone(f);
  }

  lemma FixesOne(f: Renaming, name: string)
    ensures Fixes(f, {name}) <==> f(name) == name
  {
  }

  lemma FixesNone(f: Renaming)
    ensures Fixes(f, {})
  {
  }

  // ----- qualifying and back

  /** `qualified` */
  function Qualified(namespace: string, declared: set<string>): Renaming {
    name => if name in declared then namespace + SEPARATOR + name else name
  }

  predicate Carries(name: string, prefix: string) {
    |prefix| <= |name| && name[..|prefix|] == prefix
  }

  /** `stripped` */
  function Stripped(namespace: string): Renaming {
    var prefix := namespace + SEPARATOR;
    name => if Carries(name, prefix) then name[|prefix|..] else name
  }

  lemma StripQualified(namespace: string, declared: set<string>, name: string)
    ensures Then(Qualified(namespace, declared), Stripped(namespace))(name) == name <==>
            name in declared || !Carries(name, namespace + SEPARATOR)
  {
    var prefix := namespace + SEPARATOR;
    if name in declared {
      assert (prefix + name)[..|prefix|] == prefix && (prefix + name)[|prefix|..] == name;
    } else if Carries(name, prefix) {
      assert |name[|prefix|..]| < |name|;
    }
  }

  /** `unqualify` undoes flattening exactly when no name the declaration holds, but the namespace does
      not declare, carries the prefix already. */
  lemma {:induction false} UnqualifyUndoesIff(d: Decl, namespace: string, declared: set<string>)
    ensures Rewrite(Rewrite(d, Qualified(namespace, declared)), Stripped(namespace)) == d <==>
            forall n <- DeclNames(d) :: n in declared || !Carries(n, namespace + SEPARATOR)
  {
    hide Rewrite, DeclNames, Carries, Then, Qualified, Stripped;
    var both := Then(Qualified(namespace, declared), Stripped(namespace));
    DeclTwice(d, Qualified(namespace, declared), Stripped(namespace));
    DeclFixedIff(d, both);
    forall n | n in DeclNames(d)
      ensures both(n) == n <==> n in declared || !Carries(n, namespace + SEPARATOR)
    {
      StripQualified(namespace, declared, n);
    }
  }

  // ----- flattening

  /** `_declared_names`, of the declarations that have one. */
  function DeclaredNames(decls: seq<Decl>): set<string> {
    if decls == [] then {}
    else
      (if decls[0].Struct? || decls[0].Named? || decls[0].Const? || decls[0].Relation? then {decls[0].name} else {})
      + DeclaredNames(decls[1..])
  }

  datatype Item = Plain(decl: Decl) | Block(namespace: string, decls: seq<Decl>)

  datatype Refusal = NothingToScope

  function RewriteAll(decls: seq<Decl>, f: Renaming): (r: seq<Decl>)
    ensures |r| == |decls| && forall i :: 0 <= i < |decls| ==> r[i] == Rewrite(decls[i], f)
  {
    if decls == [] then [] else [Rewrite(decls[0], f)] + RewriteAll(decls[1..], f)
  }

  function FlattenOne(item: Item): Result<seq<Decl>, Refusal> {
    match item
    case Plain(decl) => Ok([decl])
    case Block(namespace, decls) =>
      if DeclaredNames(decls) == {} then Err(NothingToScope)
      else Ok(RewriteAll(decls, Qualified(namespace, DeclaredNames(decls))))
  }

  function FlattenSpec(items: seq<Item>): Result<seq<Decl>, Refusal> {
    if items == [] then Ok([])
    else
      var before :- FlattenSpec(items[..|items| - 1]);
      var last :- FlattenOne(items[|items| - 1]);
      Ok(before + last)
  }

  class Schema {
    var decls: seq<Decl>
    var items: seq<Item>
  }

  lemma {:induction false} RefusedEarly(items: seq<Item>, k: nat)
    requires k <= |items| && FlattenSpec(items[..k]).Err?
    ensures FlattenSpec(items) == FlattenSpec(items[..k])
  {
    if k == |items| {
      assert items[..k] == items;
    } else {
      assert items[..|items| - 1][..k] == items[..k];
      RefusedEarly(items[..|items| - 1], k);
    }
  }

  /** `flatten`: the schema's declarations become the flat ones, or it is left as it was. */
  method Flatten(schema: Schema) returns (why: Option<Refusal>)
    modifies schema`decls
    ensures match FlattenSpec(schema.items)
            case Err(refusal) => why == Some(refusal) && schema.decls == old(schema.decls)
            case Ok(flat) => why == None && schema.decls == flat
  {
    hide FlattenOne;
    var decls: seq<Decl> := [];
    for i := 0 to |schema.items|
      invariant schema.decls == old(schema.decls) && FlattenSpec(schema.items[..i]) == Ok(decls)
    {
      assert schema.items[..i + 1][..i] == schema.items[..i];
      var flat := FlattenOne(schema.items[i]);
      if flat.Err? {
        RefusedEarly(schema.items, i + 1);
        return Some(flat.error);
      }
      decls := decls + flat.value;
    }
    assert schema.items[..|schema.items|] == schema.items;
    schema.decls := decls;
    return None;
  }

  // ----- meaning

  /** Does no name hold a dot or a bracket? The lexer makes no others. */
  predicate Plain(names: set<string>) {
    forall n <- names :: '.' !in n && '[' !in n
  }

  /** How much of a path's text its head takes: all before the first dot or bracket. */
  function HeadLength(text: string): (n: nat)
    ensures n <= |text|
  {
    if text == "" || text[0] == '.' || text[0] == '[' then 0 else 1 + HeadLength(text[1..])
  }

  /** The text of a path with its head renamed. */
  function Moved(text: string, f: Renaming): string {
    f(text[..HeadLength(text)]) + text[HeadLength(text)..]
  }

  function Answer(env: Env, fn: string, path: string): Option<int> {
    if env.layout.Some? && (fn, path) in env.layout.value then Some(env.layout.value[(fn, path)]) else None
  }

  /** The same constants, enums and answers of the layout, by their new names. */
  ghost predicate Renamed(env: Env, after: Env, f: Renaming) {
    && (forall n :: SameConst(env, after, n, f(n)) && SameEnum(env, after, n, f(n)))
    && (forall fn, path :: SameAnswer(env, after, fn, path, f))
  }

  predicate SameConst(env: Env, after: Env, n: string, new': string) {
    (n in env.consts <==> new' in after.consts) && (n in env.consts ==> env.consts[n] == after.consts[new'])
  }

  predicate SameEnum(env: Env, after: Env, n: string, new': string) {
    (n in env.enums <==> new' in after.enums) && (n in env.enums ==> env.enums[n] == after.enums[new'])
  }

  predicate SameAnswer(env: Env, after: Env, fn: string, path: string, f: Renaming) {
    Answer(env, fn, path) == Answer(after, fn, Moved(path, f))
  }

  // ----- the schema as its namespace sees it

  /** The keys of the layout, and what they are without the prefix. */
  function Unprefixed(keys: set<(string, string)>, prefix: string): set<(string, string)> {
    keys + set k <- keys | Carries(k.1, prefix) :: (k.0, k.1[|prefix|..])
  }

  function Seen(layout: map<(string, string), int>, f: Renaming, keys: set<(string, string)>): map<(string, string), int> {
    map k <- keys | (k.0, Moved(k.1, f)) in layout :: layout[(k.0, Moved(k.1, f))]
  }

  /** A flattened schema by the names its namespace has for things. */
  function FromWithin(after: Env, namespace: string, declared: set<string>): Env {
    var f, prefix := Qualified(namespace, declared), namespace + SEPARATOR;
    Env(map n <- after.consts.Keys + declared | f(n) in after.consts :: after.consts[f(n)],
        map n <- after.enums.Keys + declared | f(n) in after.enums :: after.enums[f(n)],
        match after.layout
        case None => None
        case Some(layout) => Some(Seen(layout, f, Unprefixed(layout.Keys, prefix))),
        after.fields)
  }

  /** Every flattened schema, whatever its layout answers, is some schema renamed. */
  lemma {:induction false} WithinRenamed(after: Env, namespace: string, declared: set<string>)
    ensures Renamed(FromWithin(after, namespace, declared), after, Qualified(namespace, declared))
  {
    hide HeadLength, Moved, Seen;
    var env, f := FromWithin(after, namespace, declared), Qualified(namespace, declared);
    forall n ensures SameConst(env, after, n, f(n)) && SameEnum(env, after, n, f(n)) {
    }
    forall fn, path ensures SameAnswer(env, after, fn, path, f) {
      if after.layout.Some? { AnswerSeen(after.layout.value, namespace, declared, fn, path); }
    }
  }

  lemma {:induction false} AnswerSeen(layout: map<(string, string), int>, namespace: string, declared: set<string>,
                                      fn: string, path: string)
    ensures var f := Qualified(namespace, declared);
            var seen := Seen(layout, f, Unprefixed(layout.Keys, namespace + SEPARATOR));
            && ((fn, path) in seen <==> (fn, Moved(path, f)) in layout)
            && ((fn, path) in seen ==> seen[(fn, path)] == layout[(fn, Moved(path, f))])
  {
    var f, prefix := Qualified(namespace, declared), namespace + SEPARATOR;
    var head := path[..HeadLength(path)];
    if head in declared {
      assert Moved(path, f) == prefix + path by { assert head + path[HeadLength(path)..] == path; }
      assert (prefix + path)[..|prefix|] == prefix && (prefix + path)[|prefix|..] == path;
      if (fn, Moved(path, f)) in layout {
        assert Carries(Moved(path, f), prefix);
        assert (fn, path) in Unprefixed(layout.Keys, prefix);
      }
    } else {
      assert Moved(path, f) == path;
    }
  }

  // ----- paths

  /** The name a path starts with. */
  function HeadName(e: Expr): string {
    match e
    case NameRef(name) => name
    case Access(base, _) => HeadName(base)
    case Index(base, _) => HeadName(base)
    case _ => ""
  }

  lemma {:induction false} HeadEnds(head: string, rest: string)
    requires '.' !in head && '[' !in head && (rest == "" || rest[0] == '.' || rest[0] == '[')
    ensures HeadLength(head + rest) == |head|
  {
    if head == "" {
      assert head + rest == rest;
    } else {
      assert head[0] in head;
      assert (head + rest)[0] == head[0] && (head + rest)[1..] == head[1..] + rest;
      HeadEnds(head[1..], rest);
    }
  }

  /** What follows the head of a path. */
  lemma {:induction false} PathRest(e: Expr, f: Renaming) returns (rest: string)
    requires PathText(e).Some?
    ensures PathText(e) == Some(HeadName(e) + rest) && PathText(RewriteExpr(e, f)) == Some(f(HeadName(e)) + rest)
    ensures (rest == "" || rest[0] == '.' || rest[0] == '[') && HeadName(e) in ExprNames(e)
  {
    match e
    case NameRef(name) =>
      rest := "";
      assert name + "" == name && f(name) + "" == f(name);
    case Access(base, member) =>
      var before := PathRest(base, f);
      rest := before + ("." + member);
      Regroup(HeadName(base), f(HeadName(base)), before, ".", member);
    case Index(base, None) =>
      var before := PathRest(base, f);
      rest := before + ("[" + "]");
      assert "[" + "]" == "[]";
      Regroup(HeadName(base), f(HeadName(base)), before, "[", "]");
      Joined(HeadName(base) + before, "[", "]");
      Joined(f(HeadName(base)) + before, "[", "]");
    case Index(base, Some(IntLit(_, text))) =>
      var before := PathRest(base, f);
      rest := before + ("[" + (text + "]"));
      Regroup(HeadName(base), f(HeadName(base)), before, "[", text + "]");
      Joined(HeadName(base) + before + "[", text, "]");
      Joined(f(HeadName(base)) + before + "[", text, "]");
  }

  lemma Joined(a: string, b: string, c: string)
    ensures a + b + c == a + (b + c)
  {
  }

  lemma Regroup(head: string, other: string, before: string, mark: string, more: string)
    ensures head + before + mark + more == head + (before + (mark + more))
    ensures other + before + mark + more == other + (before + (mark + more))
    ensures before == "" ==> before + (mark + more) == mark + more
  {
  }

  /** Renaming what a path starts with moves its text. */
  lemma {:induction false} PathMoves(e: Expr, f: Renaming)
    requires Plain(ExprNames(e))
    ensures PathText(RewriteExpr(e, f)) == if PathText(e).None? then None else Some(Moved(PathText(e).value, f))
  {
    hide HeadLength, PathText, RewriteExpr, ExprNames;
    PathKept(e, f);
    if PathText(e).Some? {
      var rest := PathRest(e, f);
      HeadEnds(HeadName(e), rest);
      assert (HeadName(e) + rest)[..|HeadName(e)|] == HeadName(e) && (HeadName(e) + rest)[|HeadName(e)|..] == rest;
    }
  }

  /** No field or run of the message is spelled like a path the renaming moves, before or after. */
  ghost predicate Apart(e: Expr, f: Renaming, m: Message)
    decreases e, 0
  {
    && (PathText(e).Some? && RewriteExpr(e, f) != e ==> Unheld(PathText(e), m) && Unheld(PathText(RewriteExpr(e, f)), m))
    && match e
       case Unary(_, x) => Apart(x, f, m)
       case Binary(_, l, r) => Apart(l, f, m) && Apart(r, f, m)
       case Call(_, args) => ApartAll(args, f, m)
       case _ => true
  }

  ghost predicate ApartAll(es: seq<Expr>, f: Renaming, m: Message)
    decreases es, 1
  {
    es != [] ==> Apart(es[0], f, m) && ApartAll(es[1..], f, m)
  }

  predicate Unheld(path: Option<string>, m: Message) {
    path.Some? ==> path.value !in m.fields && path.value !in m.sums
  }

  lemma {:induction false} PathKept(e: Expr, f: Renaming)
    ensures PathText(RewriteExpr(e, f)).Some? <==> PathText(e).Some?
  {
    match e
    case Access(base, _) => PathKept(base, f);
    case Index(base, None) => PathKept(base, f);
    case Index(base, Some(_)) => PathKept(base, f);
    case _ =>
  }

  /** An expression means in the qualified schema what it meant inside the namespace, in every message
      none of whose fields is spelled like a path the renaming moves. */
  lemma {:induction false} MeaningKept(e: Expr, f: Renaming, env: Env, after: Env, m: Message)
    requires Renamed(env, after, f) && Plain(ExprNames(e)) && Apart(e, f, m)
    ensures Value(RewriteExpr(e, f), after, Some(m)) == Value(e, env, Some(m))
    decreases e, 0
  {
    PathKept(e, f);
    match e
    case NameRef(n) => assert SameConst(env, after, n, f(n));
    case Access(base, _) =>
      if base.NameRef? { assert SameEnum(env, after, base.name, f(base.name)); }
      assert base.NameRef? <==> RewriteExpr(base, f).NameRef?;
    case Unary(_, x) => MeaningKept(x, f, env, after, m);
    case Binary(_, l, r) => MeaningKept(l, f, env, after, m); MeaningKept(r, f, env, after, m);
    case Call(fn, args) =>
      MeaningsKept(args, f, env, after, m);
      CallKept(fn, args, f, env, after, m);
    case _ =>
  }

  lemma SumKept(e: Expr, f: Renaming, m: Message)
    requires Apart(e, f, m)
    ensures SumOf(RewriteExpr(e, f), m) == SumOf(e, m)
  {
    PathKept(e, f);
  }

  lemma {:induction false} LayoutKept(fn: string, e: Expr, f: Renaming, env: Env, after: Env)
    requires Renamed(env, after, f) && Plain(ExprNames(e))
    ensures LayoutCall(fn, RewriteExpr(e, f), after) == LayoutCall(fn, e, env)
  {
    hide PathText, RewriteExpr, ExprNames, Moved;
    PathMoves(e, f);
    if PathText(e).Some? { assert SameAnswer(env, after, fn, PathText(e).value, f); }
  }

  lemma {:induction false} CallKept(fn: string, args: seq<Expr>, f: Renaming, env: Env, after: Env, m: Message)
    requires Renamed(env, after, f) && Plain(ExprsNames(args)) && ApartAll(args, f, m)
    requires Values(RewriteExprs(args, f), after, Some(m)) == Values(args, env, Some(m))
    ensures Value(Call(fn, RewriteExprs(args, f)), after, Some(m)) == Value(Call(fn, args), env, Some(m))
  {
    hide RewriteExpr, RewriteExprs, Apart, ApartAll, SumOf, LayoutCall, Builtin, Renamed, ExprsNames, ExprNames, Plain, Values, Fold,
         EnumMember;
    if |args| == 1 { OneKept(fn, args, f, env, after, m); }
  }

  lemma {:induction false} OneKept(fn: string, args: seq<Expr>, f: Renaming, env: Env, after: Env, m: Message)
    requires Renamed(env, after, f) && Plain(ExprsNames(args)) && ApartAll(args, f, m) && |args| == 1
    ensures LayoutCall(fn, RewriteExprs(args, f)[0], after) == LayoutCall(fn, args[0], env)
    ensures SumOf(RewriteExprs(args, f)[0], m) == SumOf(args[0], m)
  {
    hide RewriteExpr, Apart, SumOf, LayoutCall, Renamed, ExprNames;
    LayoutKept(fn, args[0], f, env, after);
    SumKept(args[0], f, m);
  }

  lemma {:induction false} MeaningsKept(es: seq<Expr>, f: Renaming, env: Env, after: Env, m: Message)
    requires Renamed(env, after, f) && Plain(ExprsNames(es)) && ApartAll(es, f, m)
    ensures Values(RewriteExprs(es, f), after, Some(m)) == Values(es, env, Some(m))
    decreases es, 1
  {
    if es != [] {
      MeaningKept(es[0], f, env, after, m);
      MeaningsKept(es[1..], f, env, after, m);
      assert RewriteExprs(es, f)[1..] == RewriteExprs(es[1..], f);
    }
  }

  /** Whatever the flattened schema's layout answers, an expression means in it what it means by the
      names its namespace has for things. */
  lemma {:induction false} FlatteningKeeps(e: Expr, namespace: string, declared: set<string>, after: Env, m: Message)
    requires Plain(ExprNames(e)) && Apart(e, Qualified(namespace, declared), m)
    ensures Value(RewriteExpr(e, Qualified(namespace, declared)), after, Some(m)) ==
            Value(e, FromWithin(after, namespace, declared), Some(m))
  {
    hide *;
    WithinRenamed(after, namespace, declared);
    MeaningKept(e, Qualified(namespace, declared), FromWithin(after, namespace, declared), after, m);
  }

  /** A path to a field keeps its meaning exactly when the renaming does not move it, or the field's value
      is that of the constant or the enum member of the same spelling: a field spelled like a declared
      name is captured by it. */
  lemma {:induction false} PathKeptIff(e: Expr, f: Renaming, env: Env, after: Env, m: Message)
    requires e.NameRef? || e.Access?
    requires Renamed(env, after, f)
    requires RewriteExpr(e, f) != e ==> var moved := PathText(RewriteExpr(e, f)); moved.Some? ==> moved.value !in m.fields
    ensures Value(RewriteExpr(e, f), after, Some(m)) == Value(e, env, Some(m)) <==>
            var path := PathText(e);
            RewriteExpr(e, f) != e && path.Some? && path.value in m.fields ==>
              if e.NameRef? then e.name in env.consts && env.consts[e.name] == m.fields[e.name]
              else EnumMember(e, env) == Ok(m.fields[path.value])
  {
    PathKept(e, f);
    match e
    case NameRef(n) => assert SameConst(env, after, n, f(n));
    case Access(base, _) =>
      if base.NameRef? { assert SameEnum(env, after, base.name, f(base.name)); }
      assert base.NameRef? <==> RewriteExpr(base, f).NameRef?;
  }
}
