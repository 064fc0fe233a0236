/** Expanding the builtin calls of a rendered expression is translating the expression. */
module BuiltinTheorems {
  import opened Prelude
  import opened Bits
  import opened Builtins

  /** A rendered expression by its shape: chunks of text, what stands around them, and calls. */
  datatype Rendered =
    | Leaf(text: Text)
    | Join(left: Rendered, op: Text, right: Rendered)
    | Prefix(sign: Text, operand: Rendered)
    | Paren(inner: Rendered)
    | Count(arg: Rendered)
    | Pair(name: string, first: Rendered, second: Rendered)

  /** Every builtin's name in it stands behind a mark that makes it something else: `this->min()`. */
  predicate Inert(x: Text) {
    forall k :: 0 <= k < |x| && x[k].Word? && IsBuiltin(x[k].text) ==> k > 0 && Blocks(x[k - 1])
  }

  /** Text that goes right in front of an operand. */
  predicate IsSign(sign: Text) {
    Inert(sign) && Balanced(sign) && sign != [] && !Blank(sign[0]) && !Blocks(sign[|sign| - 1])
  }

  /** What rendering guarantees: reads and numbers that call no builtin, operators that end in a blank,
      signs with nothing after them, and calls of builtins that take two arguments. */
  predicate WellRendered(e: Rendered) {
    match e
    case Leaf(text) => Inert(text) && Balanced(text) && Trimmed(text)
    case Join(l, op, r) => WellRendered(l) && WellRendered(r) && Inert(op) && Balanced(op) && op != [] && !Blocks(op[|op| - 1])
    case Prefix(sign, x) => IsSign(sign) && WellRendered(x)
    case Paren(x) => WellRendered(x)
    case Count(x) => WellRendered(x)
    case Pair(name, l, r) => IsBuiltin(name) && name != "popcount" && WellRendered(l) && WellRendered(r)
  }

  /** `_all_bits` keeps a read a read. */
  ghost predicate KeepsReads(whole: Text -> Text) {
    forall x :: Inert(x) && Balanced(x) ==> Inert(whole(x)) && Balanced(whole(x))
  }

  function Called(name: string, args: Text): Text {
    [Word(name)] + OPEN + args + CLOSE
  }

  /** The expression's text with the calls of the builtins in `done` already C's, and the others as
      they were written. */
  function Written(e: Rendered, done: set<string>, whole: Text -> Text): Text {
    match e
    case Leaf(text) => text
    case Join(l, op, r) => Written(l, done, whole) + op + Written(r, done, whole)
    case Prefix(sign, x) => sign + Written(x, done, whole)
    case Paren(x) => InParens(Written(x, done, whole))
    case Count(x) => if "popcount" in done then InC(e, whole) else Called("popcount", Written(x, done, whole))
    case Pair(name, l, r) =>
      if name in done then InC(e, whole)
      else Called(name, Written(l, done, whole) + COMMA + Written(r, done, whole))
  }

  /** The translation, by the expression's shape. */
  function InC(e: Rendered, whole: Text -> Text): Text {
    match e
    case Leaf(text) => text
    case Join(l, op, r) => InC(l, whole) + op + InC(r, whole)
    case Prefix(sign, x) => sign + InC(x, whole)
    case Paren(x) => InParens(InC(x, whole))
    case Count(x) => [Word("situ_popcount_i64")] + InParens(whole(InC(x, whole)))
    case Pair(name, l, r) =>
      if name == "align_up" then Rounded(InC(l, whole), InC(r, whole))
      else Chosen(InC(l, whole), if name == "min" then '<' else '>', InC(r, whole))
  }

  /** How deep the calls nest. */
  function Nesting(e: Rendered): nat {
    match e
    case Leaf(_) => 0
    case Join(l, _, r) => Max(Nesting(l), Nesting(r))
    case Prefix(_, x) => Nesting(x)
    case Paren(x) => Nesting(x)
    case Count(x) => 1 + Nesting(x)
    case Pair(_, l, r) => 1 + Max(Nesting(l), Nesting(r))
  }

  // ----- what the translation is made of

  /** Text nothing rewrites and any argument can be. */
  predicate Plain(x: Text) {
    Inert(x) && Balanced(x)
  }

  lemma {:induction false} PlainJoin(a: Text, b: Text)
    requires Plain(a) && Plain(b)
    ensures Plain(a + b)
  {
    JoinBalanced(a, b);
  }

  lemma {:induction false} PlainParens(x: Text)
    requires Plain(x)
    ensures Plain(InParens(x)) && Trimmed(InParens(x))
  {
    ParenBalanced(x);
  }

  lemma PlainMark(t: Tok)
    requires !Opens(t) && !Closes(t) && t != Mark(',') && (t.Word? ==> !IsBuiltin(t.text))
    ensures Plain([t])
  {
    assert [t][1..] == [] && Depth([t], 1) == Depth([], 1) == Some(1);
  }

  lemma PlainSpaced(c: char)
    requires c !in "()[],"
    ensures Plain(Spaced(c))
  {
    hide Plain;
    PlainMark(Mark(' '));
    PlainMark(Mark(c));
    PlainJoin([Mark(' ')], [Mark(c)]);
    PlainJoin([Mark(' ')] + [Mark(c)], [Mark(' ')]);
    assert Spaced(c) == [Mark(' ')] + [Mark(c)] + [Mark(' ')];
  }

  lemma {:induction false} PlainChosen(l: Text, sign: char, r: Text)
    requires Plain(l) && Plain(r) && sign !in "()[],"
    ensures Plain(Chosen(l, sign, r)) && Trimmed(Chosen(l, sign, r))
  {
    hide Plain, InParens, Spaced;
    PlainParens(l);
    PlainParens(r);
    PlainSpaced(sign);
    PlainSpaced('?');
    PlainSpaced(':');
    PlainJoin(InParens(l), Spaced(sign));
    PlainJoin(InParens(l) + Spaced(sign), InParens(r));
    var test := InParens(InParens(l) + Spaced(sign) + InParens(r));
    PlainParens(InParens(l) + Spaced(sign) + InParens(r));
    PlainJoin(test, Spaced('?'));
    PlainJoin(test + Spaced('?'), InParens(l));
    PlainJoin(test + Spaced('?') + InParens(l), Spaced(':'));
    PlainJoin(test + Spaced('?') + InParens(l) + Spaced(':'), InParens(r));
    PlainParens(test + Spaced('?') + InParens(l) + Spaced(':') + InParens(r));
  }

  lemma {:induction false} PlainRounded(v: Text, u: Text)
    requires Plain(v) && Plain(u)
    ensures Plain(Rounded(v, u)) && Trimmed(Rounded(v, u))
  {
    hide Plain, InParens, Spaced;
    PlainParens(v);
    PlainParens(u);
    PlainSpaced('+');
    PlainSpaced('-');
    PlainSpaced('/');
    PlainSpaced('*');
    PlainMark(Word("1u"));
    var sum := InParens(v) + Spaced('+');
    PlainJoin(InParens(v), Spaced('+'));
    PlainJoin(sum, InParens(u));
    PlainJoin(sum + InParens(u), Spaced('-'));
    PlainJoin(sum + InParens(u) + Spaced('-'), [Word("1u")]);
    var top := InParens(sum + InParens(u) + Spaced('-') + [Word("1u")]);
    PlainParens(sum + InParens(u) + Spaced('-') + [Word("1u")]);
    PlainJoin(top, Spaced('/'));
    PlainJoin(top + Spaced('/'), InParens(u));
    PlainJoin(top + Spaced('/') + InParens(u), Spaced('*'));
    PlainJoin(top + Spaced('/') + InParens(u) + Spaced('*'), InParens(u));
    PlainParens(top + Spaced('/') + InParens(u) + Spaced('*') + InParens(u));
  }

  lemma {:induction false} InCPlain(e: Rendered, whole: Text -> Text)
    requires WellRendered(e) && KeepsReads(whole)
    ensures Plain(InC(e, whole)) && Trimmed(InC(e, whole))
  {
    hide Inert, Balanced, KeepsReads, Chosen, Rounded;
    match e
    case Leaf(_) =>
    case Join(l, op, r) =>
      InCPlain(l, whole);
      InCPlain(r, whole);
      PlainJoin(InC(l, whole), op);
      PlainJoin(InC(l, whole) + op, InC(r, whole));
    case Prefix(sign, x) =>
      InCPlain(x, whole);
      PlainJoin(sign, InC(x, whole));
    case Paren(x) =>
      InCPlain(x, whole);
      PlainParens(InC(x, whole));
    case Count(x) =>
      InCPlain(x, whole);
      ReadsKept(InC(x, whole), whole);
      PlainParens(whole(InC(x, whole)));
      PlainMark(Word("situ_popcount_i64"));
      PlainJoin([Word("situ_popcount_i64")], InParens(whole(InC(x, whole))));
    case Pair(name, l, r) =>
      InCPlain(l, whole);
      InCPlain(r, whole);
      PlainRounded(InC(l, whole), InC(r, whole));
      PlainChosen(InC(l, whole), if name == "min" then '<' else '>', InC(r, whole));
  }

  lemma ReadsKept(x: Text, whole: Text -> Text)
    requires KeepsReads(whole) && Plain(x)
    ensures Plain(whole(x))
  {
  }

  lemma {:induction false} WrittenIsArgument(e: Rendered, done: set<string>, whole: Text -> Text)
    requires WellRendered(e) && KeepsReads(whole)
    ensures Balanced(Written(e, done, whole)) && Trimmed(Written(e, done, whole))
  {
    hide Inert, Balanced, KeepsReads, InC;
    match e
    case Leaf(_) =>
    case Join(l, op, r) =>
      WrittenIsArgument(l, done, whole);
      WrittenIsArgument(r, done, whole);
      JoinBalanced(Written(l, done, whole), op);
      JoinBalanced(Written(l, done, whole) + op, Written(r, done, whole));
    case Prefix(sign, x) =>
      WrittenIsArgument(x, done, whole);
      JoinBalanced(sign, Written(x, done, whole));
    case Paren(x) =>
      WrittenIsArgument(x, done, whole);
      ParenBalanced(Written(x, done, whole));
    case Count(x) =>
      InCPlain(e, whole);
      WrittenIsArgument(x, done, whole);
      DeeperArgument(Written(x, done, whole));
      CalledBalanced("popcount", Written(x, done, whole));
    case Pair(name, l, r) =>
      InCPlain(e, whole);
      WrittenIsArgument(l, done, whole);
      WrittenIsArgument(r, done, whole);
      PairDepth(Written(l, done, whole), Written(r, done, whole));
      CalledBalanced(name, Written(l, done, whole) + COMMA + Written(r, done, whole));
  }

  lemma DeeperArgument(x: Text)
    requires Balanced(x)
    ensures Depth(x, 2) == Some(2)
  {
    DepthDeeper(x, 1);
  }

  lemma {:induction false} PairDepth(l: Text, r: Text)
    requires Balanced(l) && Balanced(r)
    ensures Depth(l + COMMA + r, 2) == Some(2)
  {
    DepthDeeper(l, 1);
    DepthDeeper(r, 1);
    assert COMMA[1..] == [Mark(' ')] && [Mark(' ')][1..] == [];
    DepthJoin(l, COMMA, 2);
    DepthJoin(l + COMMA, r, 2);
  }

  lemma {:induction false} CalledBalanced(name: string, args: Text)
    requires Depth(args, 2) == Some(2)
    ensures Balanced(Called(name, args)) && Trimmed(Called(name, args))
  {
    WrapBalanced(args);
    assert [Word(name)][1..] == [];
    JoinBalanced([Word(name)], InParens(args));
    assert Called(name, args) == [Word(name)] + InParens(args);
  }

  // ----- one pass

  /** `x` stands at `i`. */
  predicate At(t: Text, i: nat, x: Text) {
    i + |x| <= |t| && t[i..i + |x|] == x
  }

  lemma AtSplit(t: Text, i: nat, a: Text, b: Text)
    requires At(t, i, a + b)
    ensures At(t, i, a) && At(t, i + |a|, b)
  {
    assert (a + b)[..|a|] == a && (a + b)[|a|..] == b;
  }

  /** Nothing here makes what follows something other than a builtin. */
  predicate Clear(t: Text, i: nat) {
    i == 0 || (i <= |t| && !Blocks(t[i - 1]))
  }

  lemma PrependTwice(a: Text, b: Text, rest: Option<Text>)
    ensures Prepend(a, Prepend(b, rest)) == Prepend(a + b, rest)
  {
    if rest.Some? { assert a + (b + rest.value) == (a + b) + rest.value; }
  }

  /** A pass copies what calls no builtin. */
  lemma {:induction false} CopiesInert(fuel: nat, name: string, whole: Text -> Text, t: Text, i: nat, x: Text, k: nat)
    requires IsBuiltin(name) && At(t, i, x) && Inert(x) && k <= |x|
    ensures Pass(fuel, name, whole, t, i + k) == Prepend(x[k..], Pass(fuel, name, whole, t, i + |x|))
    decreases |x| - k
  {
    hide Args, ExpandEach, Spell;
    if k == |x| {
      assert x[k..] == [];
      NothingPrepended(Pass(fuel, name, whole, t, i + |x|));
    } else {
      assert t[i + k] == x[k] && (k > 0 ==> t[i + k - 1] == x[k - 1]);
      assert !CallAt(t, i + k, name);
      CopiesInert(fuel, name, whole, t, i, x, k + 1);
      PrependTwice([x[k]], x[k + 1..], Pass(fuel, name, whole, t, i + |x|));
      assert x[k..] == [x[k]] + x[k + 1..];
    }
  }

  lemma NothingPrepended(rest: Option<Text>)
    ensures Prepend([], rest) == rest
  {
    if rest.Some? { assert [] + rest.value == rest.value; }
  }

  lemma CopiesOther(fuel: nat, name: string, whole: Text -> Text, t: Text, i: nat, other: Tok)
    requires At(t, i, [other]) && other != Word(name)
    ensures Pass(fuel, name, whole, t, i) == Prepend([other], Pass(fuel, name, whole, t, i + 1))
  {
    assert t[i] == [other][0];
  }

  /** What one pass makes of the expression's text, wherever in a text it stands. */
  ghost predicate Rewrites(fuel: nat, name: string, whole: Text -> Text, e: Rendered, done: set<string>, t: Text, i: nat)
    requires i + |Written(e, done, whole)| <= |t|
  {
    Pass(fuel, name, whole, t, i) ==
    Prepend(Written(e, done + {name}, whole), Pass(fuel, name, whole, t, i + |Written(e, done, whole)|))
  }

  /** Where the lemmas of this section stand. */
  ghost predicate Stage(fuel: nat, name: string, whole: Text -> Text, e: Rendered, done: set<string>, t: Text, i: nat) {
    WellRendered(e) && KeepsReads(whole) && IsBuiltin(name) && fuel >= Nesting(e) && At(t, i, Written(e, done, whole)) && Clear(t, i)
  }

  lemma {:induction false} PassRewrites(fuel: nat, name: string, whole: Text -> Text, e: Rendered, done: set<string>,
                                        t: Text, i: nat)
    requires Stage(fuel, name, whole, e, done, t, i)
    ensures Rewrites(fuel, name, whole, e, done, t, i)
    decreases fuel, e, 2
  {
    hide Rewrites, Stage, Written, Pass, WellRendered, Nesting;
    match e
    case Leaf(_) => LeafRewrites(fuel, name, whole, e, done, t, i);
    case Join(_, _, _) => JoinRewrites(fuel, name, whole, e, done, t, i);
    case Prefix(_, _) => PrefixRewrites(fuel, name, whole, e, done, t, i);
    case Paren(_) => ParenRewrites(fuel, name, whole, e, done, t, i);
    case Count(_) => CountRewrites(fuel, name, whole, e, done, t, i);
    case Pair(_, _, _) => PairRewrites(fuel, name, whole, e, done, t, i);
  }

  lemma LeafRewrites(fuel: nat, name: string, whole: Text -> Text, e: Rendered, done: set<string>, t: Text, i: nat)
    requires Stage(fuel, name, whole, e, done, t, i) && e.Leaf?
    ensures Rewrites(fuel, name, whole, e, done, t, i)
  {
    hide Pass, KeepsReads, Inert, Balanced;
    CopiesInert(fuel, name, whole, t, i, e.text, 0);
    assert e.text[0..] == e.text;
  }

  lemma JoinInside(t: Text, i: nat, a: Text, op: Text, b: Text)
    requires At(t, i, a + op + b) && op != [] && !Blocks(op[|op| - 1])
    ensures At(t, i, a) && At(t, i + |a|, op) && At(t, i + |a| + |op|, b) && Clear(t, i + |a| + |op|)
  {
    AtSplit(t, i, a + op, b);
    AtSplit(t, i, a, op);
    assert t[i + |a| + |op| - 1] == op[|op| - 1];
  }

  lemma JoinParts(e: Rendered, done: set<string>, whole: Text -> Text)
    requires WellRendered(e) && e.Join?
    ensures WellRendered(e.left) && WellRendered(e.right) && Inert(e.op) && e.op != [] && !Blocks(e.op[|e.op| - 1])
    ensures Nesting(e) >= Nesting(e.left) && Nesting(e) >= Nesting(e.right)
    ensures Written(e, done, whole) == Written(e.left, done, whole) + e.op + Written(e.right, done, whole)
  {
  }

  lemma {:induction false} JoinRewrites(fuel: nat, name: string, whole: Text -> Text, e: Rendered, done: set<string>,
                                        t: Text, i: nat)
    requires Stage(fuel, name, whole, e, done, t, i) && e.Join?
    ensures Rewrites(fuel, name, whole, e, done, t, i)
    decreases fuel, e, 1
  {
    hide Pass, Inert, KeepsReads, At, Clear, Written, WellRendered, Nesting;
    var l, op, r := e.left, e.op, e.right;
    var a, b := Written(l, done, whole), Written(r, done, whole);
    JoinParts(e, done, whole);
    JoinParts(e, done + {name}, whole);
    JoinInside(t, i, a, op, b);
    Reaches(t, i + |a| + |op|, b);
    PassRewrites(fuel, name, whole, l, done, t, i);
    CopiesInert(fuel, name, whole, t, i + |a|, op, 0);
    assert op[0..] == op;
    PassRewrites(fuel, name, whole, r, done, t, i + |a| + |op|);
    ThreeParts(fuel, name, whole, t, i, Written(l, done + {name}, whole), op, Written(r, done + {name}, whole),
               i + |a|, i + |a| + |op|, i + |a| + |op| + |b|);
  }

  lemma PrefixParts(e: Rendered, done: set<string>, whole: Text -> Text)
    requires WellRendered(e) && e.Prefix?
    ensures WellRendered(e.operand) && IsSign(e.sign) && Nesting(e) >= Nesting(e.operand)
    ensures Written(e, done, whole) == e.sign + Written(e.operand, done, whole)
  {
  }

  lemma PrefixInside(t: Text, i: nat, sign: Text, b: Text)
    requires At(t, i, sign + b) && IsSign(sign)
    ensures At(t, i, sign) && At(t, i + |sign|, b) && Clear(t, i + |sign|)
  {
    AtSplit(t, i, sign, b);
    assert t[i + |sign| - 1] == sign[|sign| - 1];
  }

  lemma {:induction false} PrefixRewrites(fuel: nat, name: string, whole: Text -> Text, e: Rendered, done: set<string>,
                                          t: Text, i: nat)
    requires Stage(fuel, name, whole, e, done, t, i) && e.Prefix?
    ensures Rewrites(fuel, name, whole, e, done, t, i)
    decreases fuel, e, 1
  {
    hide Pass, Inert, Balanced, KeepsReads, At, Clear, Written, WellRendered, Nesting;
    var sign, x := e.sign, e.operand;
    var b := Written(x, done, whole);
    PrefixParts(e, done, whole);
    PrefixParts(e, done + {name}, whole);
    PrefixInside(t, i, sign, b);
    Reaches(t, i + |sign|, b);
    CopiesInert(fuel, name, whole, t, i, sign, 0);
    assert sign[0..] == sign;
    PassRewrites(fuel, name, whole, x, done, t, i + |sign|);
    PrependTwice(sign, Written(x, done + {name}, whole), Pass(fuel, name, whole, t, i + |sign| + |b|));
  }

  lemma {:induction false} ParenRewrites(fuel: nat, name: string, whole: Text -> Text, e: Rendered, done: set<string>,
                                         t: Text, i: nat)
    requires Stage(fuel, name, whole, e, done, t, i) && e.Paren?
    ensures Rewrites(fuel, name, whole, e, done, t, i)
    decreases fuel, e, 1
  {
    hide Pass, KeepsReads, InC, At, Clear, InParens;
    var x := e.inner;
    var y := Written(x, done, whole);
    Reaches(t, i, Written(e, done, whole));
    InsideParens(t, i, y);
    Reaches(t, i + 1, y);
    PassRewrites(fuel, name, whole, x, done, t, i + 1);
    ParensRewritten(fuel, name, whole, t, i, y, Written(x, done + {name}, whole));
  }

  lemma {:induction false} CountRewrites(fuel: nat, name: string, whole: Text -> Text, e: Rendered, done: set<string>,
                                         t: Text, i: nat)
    requires Stage(fuel, name, whole, e, done, t, i) && e.Count?
    ensures Rewrites(fuel, name, whole, e, done, t, i)
    decreases fuel, e, 1
  {
    hide Pass, KeepsReads, InC, InParens, Called, At, Clear, Expand;
    var x := e.arg;
    var y := Written(x, done, whole);
    if "popcount" in done {
      DoneRewrites(fuel, name, whole, e, done, t, i);
    } else if name == "popcount" {
      ArgumentExpanded(fuel, whole, x, done);
      CountCalled(fuel, whole, t, i, y, InC(x, whole));
      SingleInC(x, whole);
    } else {
      InsideCall(t, i, "popcount", y);
      PassRewrites(fuel, name, whole, x, done, t, i + 2);
      Reaches(t, i + 2, y);
      CallCopied(fuel, name, whole, t, i, "popcount", y, Written(x, done + {name}, whole));
    }
    Reaches(t, i, Written(e, done, whole));
  }

  lemma Reaches(t: Text, i: nat, x: Text)
    requires At(t, i, x)
    ensures i + |x| <= |t|
  {
  }

  lemma {:induction false} PairRewrites(fuel: nat, name: string, whole: Text -> Text, e: Rendered, done: set<string>,
                                        t: Text, i: nat)
    requires Stage(fuel, name, whole, e, done, t, i) && e.Pair?
    ensures Rewrites(fuel, name, whole, e, done, t, i)
    decreases fuel, e, 1
  {
    hide Pass, KeepsReads, InC, InParens, Called, At, Clear, Expand, Spell;
    Reaches(t, i, Written(e, done, whole));
    if e.name in done {
      DoneRewrites(fuel, name, whole, e, done, t, i);
    } else if name == e.name {
      var l, r := e.first, e.second;
      ArgumentExpanded(fuel, whole, l, done);
      ArgumentExpanded(fuel, whole, r, done);
      PairCalled(fuel, name, whole, t, i, Written(l, done, whole), Written(r, done, whole), InC(l, whole), InC(r, whole));
      PairInC(name, l, r, whole);
    } else {
      OtherRewrites(fuel, name, whole, e, done, t, i);
    }
  }

  lemma {:induction false} OtherRewrites(fuel: nat, name: string, whole: Text -> Text, e: Rendered, done: set<string>,
                                         t: Text, i: nat)
    requires Stage(fuel, name, whole, e, done, t, i) && e.Pair? && e.name !in done && e.name != name
    ensures Rewrites(fuel, name, whole, e, done, t, i)
    decreases fuel, e, 0
  {
    hide Pass, KeepsReads, InC, InParens, Called, At, Clear, Expand, Spell;
    var l, r := e.first, e.second;
    var a, b := Written(l, done, whole), Written(r, done, whole);
    Reaches(t, i, Written(e, done, whole));
    PairInside(t, i, e.name, a, b);
    PassRewrites(fuel, name, whole, l, done, t, i + 2);
    CommaCopied(fuel, name, whole, t, i + 2 + |a|);
    PassRewrites(fuel, name, whole, r, done, t, i + 4 + |a|);
    Reaches(t, i + 4 + |a|, b);
    ThreeParts(fuel, name, whole, t, i + 2, Written(l, done + {name}, whole), COMMA, Written(r, done + {name}, whole),
               i + 2 + |a|, i + 4 + |a|, i + 4 + |a| + |b|);
    CallCopied(fuel, name, whole, t, i, e.name, a + COMMA + b,
               Written(l, done + {name}, whole) + COMMA + Written(r, done + {name}, whole));
  }

  lemma PairInside(t: Text, i: nat, name: string, a: Text, b: Text)
    requires At(t, i, Called(name, a + COMMA + b))
    ensures At(t, i + 2, a) && At(t, i + 2 + |a|, COMMA) && At(t, i + 4 + |a|, b) && Clear(t, i + 2)
  {
    InsideCall(t, i, name, a + COMMA + b);
    AtSplit(t, i + 2, a + COMMA, b);
    AtSplit(t, i + 2, a, COMMA);
  }

  /** The argument of a call that is being expanded. */
  lemma {:induction false} ArgumentExpanded(fuel: nat, whole: Text -> Text, x: Rendered, done: set<string>)
    requires WellRendered(x) && KeepsReads(whole) && fuel > Nesting(x)
    ensures Expand(fuel - 1, whole, Written(x, done, whole)) == Some(InC(x, whole))
    ensures Balanced(Written(x, done, whole)) && Trimmed(Written(x, done, whole))
    decreases fuel, x, 5
  {
    hide *;
    WrittenIsArgument(x, done, whole);
    ExpandWritten(fuel - 1, whole, x, done);
  }

  /** Expanding the text of an expression some of whose builtins are already done finishes it. */
  lemma {:induction false} ExpandWritten(fuel: nat, whole: Text -> Text, e: Rendered, done: set<string>)
    requires WellRendered(e) && KeepsReads(whole) && fuel >= Nesting(e)
    ensures Expand(fuel, whole, Written(e, done, whole)) == Some(InC(e, whole))
    decreases fuel, e, 4
  {
    hide Passes, Written, InC, WellRendered, KeepsReads;
    PassesRewrite(fuel, 0, whole, e, done);
    assert ORDER[0..] == ORDER;
    assert forall n :: IsBuiltin(n) ==> n in done + Named(0);
    AllDone(e, done + Named(0), whole);
  }

  /** The builtins of the passes from `k` on. */
  function Named(k: nat): set<string>
    requires k <= |ORDER|
  {
    set n | n in ORDER[k..]
  }

  lemma {:induction false} PassesRewrite(fuel: nat, k: nat, whole: Text -> Text, e: Rendered, done: set<string>)
    requires WellRendered(e) && KeepsReads(whole) && fuel >= Nesting(e) && k <= |ORDER|
    ensures Passes(fuel, ORDER[k..], whole, Written(e, done, whole)) == Some(Written(e, done + Named(k), whole))
    decreases fuel, e, 3, |ORDER| - k
  {
    hide Written, WellRendered, KeepsReads, Pass;
    var t := Written(e, done, whole);
    if k == |ORDER| {
      assert done + Named(k) == done;
    } else {
      var name := ORDER[k];
      assert IsBuiltin(name);
      PassRewrites(fuel, name, whole, e, done, t, 0);
      Finished(fuel, name, whole, t, Written(e, done + {name}, whole));
      assert ORDER[k..][0] == name && ORDER[k..][1..] == ORDER[k + 1..];
      PassesRewrite(fuel, k + 1, whole, e, done + {name});
      assert done + {name} + Named(k + 1) == done + Named(k);
    }
  }

  lemma Finished(fuel: nat, name: string, whole: Text -> Text, t: Text, out: Text)
    requires Pass(fuel, name, whole, t, 0) == Prepend(out, Pass(fuel, name, whole, t, 0 + |t|))
    ensures Pass(fuel, name, whole, t, 0) == Some(out)
  {
    assert Pass(fuel, name, whole, t, |t|) == Some([]);
    assert out + [] == out;
  }

  lemma {:induction false} AllDone(e: Rendered, done: set<string>, whole: Text -> Text)
    requires WellRendered(e) && forall n :: IsBuiltin(n) ==> n in done
    ensures Written(e, done, whole) == InC(e, whole)
  {
    hide IsBuiltin;
    match e
    case Leaf(_) =>
    case Join(l, _, r) =>
      AllDone(l, done, whole);
      AllDone(r, done, whole);
    case Prefix(_, x) => AllDone(x, done, whole);
    case Paren(x) => AllDone(x, done, whole);
    case Count(_) => assert "popcount" in done by { CountIsBuiltin(); }
    case Pair(_, _, _) =>
  }

  lemma CountIsBuiltin()
    ensures IsBuiltin("popcount")
  {
  }

  // ----- the parts of a pass

  lemma {:induction false} DoneRewrites(fuel: nat, name: string, whole: Text -> Text, e: Rendered, done: set<string>,
                                        t: Text, i: nat)
    requires WellRendered(e) && KeepsReads(whole) && IsBuiltin(name)
    requires Written(e, done, whole) == Written(e, done + {name}, whole) == InC(e, whole) && At(t, i, InC(e, whole))
    ensures Rewrites(fuel, name, whole, e, done, t, i)
  {
    hide Pass, Inert, Balanced, KeepsReads, Written, InC, WellRendered;
    var x := InC(e, whole);
    InCPlain(e, whole);
    CopiesInert(fuel, name, whole, t, i, x, 0);
    assert x[0..] == x;
  }

  lemma InsideParens(t: Text, i: nat, y: Text)
    requires At(t, i, InParens(y))
    ensures At(t, i, OPEN) && At(t, i + 1, y) && At(t, i + 1 + |y|, CLOSE) && Clear(t, i + 1)
  {
    AtSplit(t, i, OPEN + y, CLOSE);
    AtSplit(t, i, OPEN, y);
    assert t[i] == OPEN[0];
  }

  lemma InsideCall(t: Text, i: nat, name: string, y: Text)
    requires At(t, i, Called(name, y))
    ensures At(t, i, [Word(name)]) && At(t, i + 1, InParens(y)) && At(t, i + 2, y) && Clear(t, i + 2)
  {
    assert Called(name, y) == [Word(name)] + InParens(y);
    AtSplit(t, i, [Word(name)], InParens(y));
    InsideParens(t, i + 1, y);
  }

  lemma {:induction false} MarkCopied(fuel: nat, name: string, whole: Text -> Text, t: Text, i: nat, m: Tok)
    requires At(t, i, [m]) && m.Mark?
    ensures Pass(fuel, name, whole, t, i) == Prepend([m], Pass(fuel, name, whole, t, i + 1))
  {
    CopiesOther(fuel, name, whole, t, i, m);
  }

  lemma {:induction false} CommaCopied(fuel: nat, name: string, whole: Text -> Text, t: Text, i: nat)
    requires At(t, i, COMMA)
    ensures Pass(fuel, name, whole, t, i) == Prepend(COMMA, Pass(fuel, name, whole, t, i + 2)) && Clear(t, i + 2)
  {
    hide Pass;
    AtSplit(t, i, [Mark(',')], [Mark(' ')]);
    MarkCopied(fuel, name, whole, t, i, Mark(','));
    MarkCopied(fuel, name, whole, t, i + 1, Mark(' '));
    PrependTwice([Mark(',')], [Mark(' ')], Pass(fuel, name, whole, t, i + 2));
    assert t[i + 1] == [Mark(' ')][0];
  }

  lemma {:induction false} ParensRewritten(fuel: nat, name: string, whole: Text -> Text, t: Text, i: nat, y: Text, out: Text)
    requires At(t, i, InParens(y))
    requires Pass(fuel, name, whole, t, i + 1) == Prepend(out, Pass(fuel, name, whole, t, i + 1 + |y|))
    ensures Pass(fuel, name, whole, t, i) == Prepend(InParens(out), Pass(fuel, name, whole, t, i + |InParens(y)|))
  {
    hide Pass;
    InsideParens(t, i, y);
    MarkCopied(fuel, name, whole, t, i, Mark('('));
    MarkCopied(fuel, name, whole, t, i + 1 + |y|, Mark(')'));
    ThreeParts(fuel, name, whole, t, i, OPEN, out, CLOSE, i + 1, i + 1 + |y|, i + 2 + |y|);
  }

  /** A call of another builtin is copied but for its arguments. */
  lemma {:induction false} CallCopied(fuel: nat, name: string, whole: Text -> Text, t: Text, i: nat, other: string,
                                      y: Text, out: Text)
    requires At(t, i, Called(other, y)) && other != name
    requires Pass(fuel, name, whole, t, i + 2) == Prepend(out, Pass(fuel, name, whole, t, i + 2 + |y|))
    ensures Pass(fuel, name, whole, t, i) == Prepend(Called(other, out), Pass(fuel, name, whole, t, i + |Called(other, y)|))
  {
    hide Pass;
    InsideCall(t, i, other, y);
    CopiesOther(fuel, name, whole, t, i, Word(other));
    ParensRewritten(fuel, name, whole, t, i + 1, y, out);
    PrependTwice([Word(other)], InParens(out), Pass(fuel, name, whole, t, i + |Called(other, y)|));
    assert Called(other, out) == [Word(other)] + InParens(out);
  }

  /** A call of the builtin is found, with its arguments. */
  lemma {:induction false} CallFound(t: Text, i: nat, name: string, y: Text, args: seq<Text>)
    requires At(t, i, Called(name, y)) && Clear(t, i) && Arguable(args) && Printed(args) == y + CLOSE
    ensures CallAt(t, i, name) && PastBlanks(t, i + 1) == i + 1
    ensures Args(t, i + 2, 1, i + 2, []) == Some(Found(args, i + |Called(name, y)|))
  {
    hide Args, Arguable;
    InsideCall(t, i, name, y);
    InsideParens(t, i + 1, y);
    assert t[i] == [Word(name)][0] && t[i + 1] == OPEN[0];
    assert t[i + 2..i + 2 + |y| + 1] == t[i + 2..i + 2 + |y|] + t[i + 2 + |y|..i + 2 + |y| + 1];
    ArgumentsInvert(t, i + 2, i + 2, [], args);
    assert [] + args == args;
  }

  lemma EachFirst(fuel: nat, whole: Text -> Text, x: Text, out: Text, rest: seq<Text>, outs: seq<Text>)
    requires Expand(fuel, whole, x) == Some(out) && (rest == [] ==> outs == [])
    requires rest != [] ==> ExpandEach(fuel, whole, rest) == Some(outs)
    ensures ExpandEach(fuel, whole, [x] + rest) == Some([out] + outs)
  {
    hide Expand;
    assert ([x] + rest)[0] == x && ([x] + rest)[1..] == rest;
  }

  lemma {:induction false} CountCalled(fuel: nat, whole: Text -> Text, t: Text, i: nat, y: Text, out: Text)
    requires At(t, i, Called("popcount", y)) && Clear(t, i) && Balanced(y) && Trimmed(y) && fuel > 0
    requires Expand(fuel - 1, whole, y) == Some(out)
    ensures Pass(fuel, "popcount", whole, t, i) ==
            Prepend([Word("situ_popcount_i64")] + InParens(whole(out)), Pass(fuel, "popcount", whole, t, i + |Called("popcount", y)|))
  {
    hide Args, Expand, CallAt, Balanced, Trimmed, InParens;
    CallFound(t, i, "popcount", y, [y]);
    assert [y][1..] == [];
    EachFirst(fuel - 1, whole, y, out, [], []);
    assert [y] == [y] + [] && [out] == [out] + [];
  }

  lemma {:induction false} PairCalled(fuel: nat, name: string, whole: Text -> Text, t: Text, i: nat, a: Text, b: Text,
                                      l: Text, r: Text)
    requires At(t, i, Called(name, a + COMMA + b)) && Clear(t, i) && fuel > 0 && name != "popcount"
    requires Balanced(a) && Trimmed(a) && Balanced(b) && Trimmed(b)
    requires Expand(fuel - 1, whole, a) == Some(l) && Expand(fuel - 1, whole, b) == Some(r)
    ensures Spell(name, [l, r], whole).Some?
    ensures Pass(fuel, name, whole, t, i) ==
            Prepend(Spell(name, [l, r], whole).value, Pass(fuel, name, whole, t, i + |Called(name, a + COMMA + b)|))
  {
    hide Args, Expand, CallAt, Balanced, Trimmed, Rounded, Chosen;
    assert [a, b][1..] == [b] && [b][1..] == [];
    assert Printed([b]) == b + CLOSE;
    assert Printed([a, b]) == a + COMMA + Printed([b]) == (a + COMMA + b) + CLOSE;
    CallFound(t, i, name, a + COMMA + b, [a, b]);
    EachFirst(fuel - 1, whole, b, r, [], []);
    assert [b] + [] == [b] && [r] + [] == [r];
    EachFirst(fuel - 1, whole, a, l, [b], [r]);
    assert [a] + [b] == [a, b] && [l] + [r] == [l, r];
  }

  lemma PairInC(name: string, l: Rendered, r: Rendered, whole: Text -> Text)
    requires IsBuiltin(name) && name != "popcount"
    ensures Spell(name, [InC(l, whole), InC(r, whole)], whole) == Some(InC(Pair(name, l, r), whole))
  {
  }

  lemma SingleInC(x: Rendered, whole: Text -> Text)
    ensures InC(Count(x), whole) == [Word("situ_popcount_i64")] + InParens(whole(InC(x, whole)))
  {
  }

  lemma {:induction false} ThreeParts(fuel: nat, name: string, whole: Text -> Text, t: Text, i: nat, a: Text, b: Text, c: Text,
                                      j: nat, k: nat, end: nat)
    requires i <= j <= k <= end <= |t|
    requires Pass(fuel, name, whole, t, i) == Prepend(a, Pass(fuel, name, whole, t, j))
    requires Pass(fuel, name, whole, t, j) == Prepend(b, Pass(fuel, name, whole, t, k))
    requires Pass(fuel, name, whole, t, k) == Prepend(c, Pass(fuel, name, whole, t, end))
    ensures Pass(fuel, name, whole, t, i) == Prepend(a + b + c, Pass(fuel, name, whole, t, end))
  {
    hide Pass;
    PrependTwice(a, b, Pass(fuel, name, whole, t, k));
    PrependTwice(a + b, c, Pass(fuel, name, whole, t, end));
  }

  // ----- the theorem

  /** The text of a rendered expression as written, every call still the schema's. */
  function Source(e: Rendered, whole: Text -> Text): Text {
    Written(e, {}, whole)
  }

  /** Rewriting the calls in an expression's text gives the translation of the expression, with no more
      recursion than its calls nest. */
  lemma {:induction false} ExpansionIsTranslation(fuel: nat, whole: Text -> Text, e: Rendered)
    requires WellRendered(e) && KeepsReads(whole) && fuel >= Nesting(e)
    ensures Expand(fuel, whole, Source(e, whole)) == Some(InC(e, whole))
  {
    ExpandWritten(fuel, whole, e, {});
  }

  lemma {:induction false} TruncatedBelowZero(n: int, unit: int)
    requires unit > 0 && n < 0
    ensures TruncDiv(n, unit) == if n % unit == 0 then n / unit else n / unit + 1
  {
    var q, r := n / unit, n % unit;
    assert n == q * unit + r;
    MulDistributes(q, 1, unit);
    if r == 0 { DivUnique(-n, unit, -q); } else { DivUnique(-n, unit, -q - 1); }
  }

  /** What C makes of a rounded alignment is what the compiler folds exactly when the sum it divides is
      not negative or divides evenly. */
  lemma {:induction false} RoundedAgreesIff(value: int, unit: int)
    requires unit > 0
    ensures TruncDiv(value + unit - 1, unit) * unit == RoundUp(value, unit) <==>
            value + unit - 1 >= 0 || (value + unit - 1) % unit == 0
  {
    var n := value + unit - 1;
    if n < 0 {
      hide TruncDiv;
      TruncatedBelowZero(n, unit);
      MulDistributes(n / unit, 1, unit);
    }
  }
}
