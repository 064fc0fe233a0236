/** Builtin calls in a rendered expression, rewritten as C spells them (situc/names.py). A text is its
    words, each a maximal run of `\w`, and the marks between them. */
module Builtins {
  import opened Prelude
  import opened Bits

  datatype Tok = Word(text: string) | Mark(c: char)

  type Text = seq<Tok>

  /** `CALL_ARITY`'s names, in the order the passes are made: longest first. */
  const ORDER: seq<string> := ["align_up", "popcount", "min", "max"]

  predicate IsBuiltin(name: string) {
    name == "align_up" || name == "popcount" || name == "min" || name == "max"
  }

  function Arity(name: string): nat {
    if name == "popcount" then 1 else 2
  }

  // ----- finding a call

  predicate Blank(t: Tok) {
    t.Mark? && (t.c == ' ' || t.c == '\t' || t.c == '\n')
  }

  /** What a builtin's name may not stand right behind. */
  predicate Blocks(t: Tok) {
    t.Word? || t.c == '.' || t.c == '>' || t.c == ':'
  }

  function PastBlanks(t: Text, i: nat): (j: nat)
    requires i <= |t|
    ensures i <= j <= |t|
    decreases |t| - i
  {
    if i < |t| && Blank(t[i]) then PastBlanks(t, i + 1) else i
  }

  /** Does a call of `name` start here? */
  predicate CallAt(t: Text, i: nat, name: string)
    requires i < |t|
  {
    && t[i] == Word(name) && (i == 0 || !Blocks(t[i - 1]))
    && var j := PastBlanks(t, i + 1);
    j < |t| && t[j] == Mark('(')
  }

  // ----- its arguments

  predicate Opens(t: Tok) {
    t == Mark('(') || t == Mark('[')
  }

  predicate Closes(t: Tok) {
    t == Mark(')') || t == Mark(']')
  }

  function DropBlanks(t: Text): Text {
    if t != [] && Blank(t[0]) then DropBlanks(t[1..]) else t
  }

  /** `str.strip` */
  function Strip(t: Text): Text
  {
    var s := DropBlanks(t);
    if s != [] && Blank(s[|s| - 1]) then StripEnd(s) else s
  }

  function StripEnd(t: Text): Text {
    if t != [] && Blank(t[|t| - 1]) then StripEnd(t[..|t| - 1]) else t
  }

  datatype Found = Found(args: seq<Text>, end: nat)

  /** The rest of the scan, with `piece` where the argument being read starts. */
  function Args(t: Text, index: nat, depth: nat, piece: nat, args: seq<Text>): (f: Option<Found>)
    requires piece <= index <= |t| && depth > 0
    ensures f.Some? ==> index < f.value.end <= |t|
    decreases |t| - index
  {
    if index == |t| then None
    else if Opens(t[index]) then Args(t, index + 1, depth + 1, piece, args)
    else if Closes(t[index]) then
      if depth == 1 then Some(Found(args + [Strip(t[piece..index])], index + 1))
      else Args(t, index + 1, depth - 1, piece, args)
    else if t[index] == Mark(',') && depth == 1 then
      Args(t, index + 1, depth, index + 1, args + [Strip(t[piece..index])])
    else Args(t, index + 1, depth, piece, args)
  }

  /** `_arguments` */
  method Arguments(t: Text, start: nat) returns (f: Option<Found>)
    requires start <= |t|
    ensures f == Args(t, start, 1, start, [])
  {
    hide Strip;
    var depth: nat, piece: nat := 1, start;
    var args: seq<Text> := [];
    for index := start to |t|
      invariant piece <= index && depth > 0
      invariant Args(t, start, 1, start, []) == Args(t, index, depth, piece, args)
    {
      if Opens(t[index]) {
        depth := depth + 1;
      } else if Closes(t[index]) {
        depth := depth - 1;
        if depth == 0 { return Some(Found(args + [Strip(t[piece..index])], index + 1)); }
      } else if t[index] == Mark(',') && depth == 1 {
        args, piece := args + [Strip(t[piece..index])], index + 1;
      }
    }
    return None;
  }

  // ----- spelling

  const OPEN: Text := [Mark('(')]
  const CLOSE: Text := [Mark(')')]
  const COMMA: Text := [Mark(','), Mark(' ')]

  function InParens(x: Text): Text {
    OPEN + x + CLOSE
  }

  function Spaced(c: char): Text {
    [Mark(' '), Mark(c), Mark(' ')]
  }

  /** `_rounded` as C has it. */
  function Rounded(value: Text, unit: Text): Text {
    InParens(InParens(InParens(value) + Spaced('+') + InParens(unit) + Spaced('-') + [Word("1u")])
             + Spaced('/') + InParens(unit) + Spaced('*') + InParens(unit))
  }

  /** The conditional `min` and `max` are. */
  function Chosen(left: Text, sign: char, right: Text): Text {
    InParens(InParens(InParens(left) + Spaced(sign) + InParens(right))
             + Spaced('?') + InParens(left) + Spaced(':') + InParens(right))
  }

  /** `c_spelling`, or None where unpacking the arguments raises. `whole` is `_all_bits`. */
  function Spell(name: string, args: seq<Text>, whole: Text -> Text): Option<Text> {
    if |args| != Arity(name) then None
    else if name == "popcount" then Some([Word("situ_popcount_i64")] + InParens(whole(args[0])))
    else if name == "align_up" then Some(Rounded(args[0], args[1]))
    else Some(Chosen(args[0], if name == "min" then '<' else '>', args[1]))
  }

  // ----- expanding

  function Prepend(t: Text, rest: Option<Text>): Option<Text> {
    match rest case None => None case Some(r) => Some(t + r)
  }

  /** `_expand_one` from a cursor on. `fuel` is how deep Python may recurse. */
  function Pass(fuel: nat, name: string, whole: Text -> Text, t: Text, i: nat): Option<Text>
    requires i <= |t|
    decreases fuel, 1, |t| - i
  {
    if i == |t| then Some([])
    else if CallAt(t, i, name) then
      var start := PastBlanks(t, i + 1) + 1;
      match Args(t, start, 1, start, [])
      case None => Some(t[i..])
      case Some(found) =>
        if fuel == 0 then None
        else
          match ExpandEach(fuel - 1, whole, found.args)
          case None => None
          case Some(args) =>
            match Spell(name, args, whole)
            case None => None
            case Some(spelled) => Prepend(spelled, Pass(fuel, name, whole, t, found.end))
    else Prepend([t[i]], Pass(fuel, name, whole, t, i + 1))
  }

  function ExpandEach(fuel: nat, whole: Text -> Text, args: seq<Text>): Option<seq<Text>>
    decreases fuel, 4, |args|
  {
    if args == [] then Some([])
    else
      match (Expand(fuel, whole, args[0]), ExpandEach(fuel, whole, args[1..]))
      case (Some(first), Some(rest)) => Some([first] + rest)
      case _ => None
  }

  function Passes(fuel: nat, names: seq<string>, whole: Text -> Text, t: Text): Option<Text>
    decreases fuel, 2, |names|
  {
    if names == [] then Some(t)
    else
      match Pass(fuel, names[0], whole, t, 0)
      case None => None
      case Some(next) => Passes(fuel, names[1..], whole, next)
  }

  /** `expand_calls` */
  function Expand(fuel: nat, whole: Text -> Text, t: Text): Option<Text>
    decreases fuel, 3
  {
    Passes(fuel, ORDER, whole, t)
  }

  // ----- the loop

  /** Where the next call of `name` starts, or the end of the text. */
  method Search(t: Text, name: string, cursor: nat) returns (i: nat)
    requires cursor <= |t|
    ensures cursor <= i <= |t| && (i < |t| ==> CallAt(t, i, name))
    ensures forall k :: cursor <= k < i ==> !CallAt(t, k, name)
  {
    i := cursor;
    while i < |t| && !CallAt(t, i, name)
      invariant cursor <= i <= |t| && forall k :: cursor <= k < i ==> !CallAt(t, k, name)
    {
      i := i + 1;
    }
  }

  lemma {:induction false} CopiesUpTo(fuel: nat, name: string, whole: Text -> Text, t: Text, i: nat, j: nat)
    requires i <= j <= |t| && forall k :: i <= k < j ==> !CallAt(t, k, name)
    ensures Pass(fuel, name, whole, t, i) == Prepend(t[i..j], Pass(fuel, name, whole, t, j))
    decreases j - i
  {
    hide CallAt, Args, ExpandEach, Spell;
    if i == j {
      Joined([], t[i..j], Pass(fuel, name, whole, t, j));
    } else {
      CopiesUpTo(fuel, name, whole, t, i + 1, j);
      Joined([t[i]], t[i + 1..j], Pass(fuel, name, whole, t, j));
      assert t[i..j] == [t[i]] + t[i + 1..j];
    }
  }

  lemma Joined(a: Text, b: Text, rest: Option<Text>)
    ensures Prepend(a, Prepend(b, rest)) == Prepend(a + b, rest)
    ensures Prepend([], rest) == rest
  {
    if rest.Some? {
      assert a + (b + rest.value) == (a + b) + rest.value;
      assert [] + rest.value == rest.value;
    }
  }

  /** `_expand_one`: one pass from left to right, which never reads again what it has written. */
  method ExpandOne(fuel: nat, name: string, whole: Text -> Text, t: Text) returns (r: Option<Text>)
    ensures r == Pass(fuel, name, whole, t, 0)
  {
    hide CallAt, Args, ExpandEach, Spell, PastBlanks;
    var pieces: Text := [];
    var cursor: nat := 0;
    Joined([], [], Pass(fuel, name, whole, t, 0));
    while true
      invariant cursor <= |t| && Pass(fuel, name, whole, t, 0) == Prepend(pieces, Pass(fuel, name, whole, t, cursor))
      decreases |t| - cursor
    {
      var found := Search(t, name, cursor);
      CopiesUpTo(fuel, name, whole, t, cursor, found);
      Joined(pieces, t[cursor..found], Pass(fuel, name, whole, t, found));
      if found == |t| {
        assert t[cursor..found] == t[cursor..] && pieces + t[cursor..] + [] == pieces + t[cursor..];
        return Some(pieces + t[cursor..]);
      }
      var start := AfterName(t, found, name);
      var args := Arguments(t, start);
      if args.None? {
        assert pieces + t[cursor..found] + t[found..] == pieces + t[cursor..] by { Split(t, cursor, found); }
        return Some(pieces + t[cursor..]);
      }
      if fuel == 0 { return None; }
      var expanded := ExpandEach(fuel - 1, whole, args.value.args);
      if expanded.None? { return None; }
      var spelled := Spell(name, expanded.value, whole);
      if spelled.None? { return None; }
      Joined(pieces + t[cursor..found], spelled.value, Pass(fuel, name, whole, t, args.value.end));
      pieces := pieces + t[cursor..found] + spelled.value;
      cursor := args.value.end;
    }
  }

  lemma Split(t: Text, i: nat, j: nat)
    requires i <= j <= |t|
    ensures t[i..j] + t[j..] == t[i..]
  {
  }

  /** Where a call's arguments start. */
  function AfterName(t: Text, i: nat, name: string): (start: nat)
    requires i < |t| && CallAt(t, i, name)
    ensures start <= |t| && start == PastBlanks(t, i + 1) + 1
  {
    PastBlanks(t, i + 1) + 1
  }

  // ----- one layer of parentheses

  /** The parentheses a stretch opens, less those it closes. */
  function Net(t: Text): int {
    if t == [] then 0
    else
      Net(t[..|t| - 1]) +
      (if t[|t| - 1] == Mark('(') then 1 else if t[|t| - 1] == Mark(')') then -1 else 0)
  }

  /** The first parenthesis closes only at the end. */
  predicate Wrapped(t: Text) {
    t != [] && t[0] == Mark('(') && t[|t| - 1] == Mark(')') && forall k :: 0 < k < |t| ==> Net(t[..k]) != 0
  }

  /** `unwrap_parens` */
  method UnwrapParens(t: Text) returns (r: Text)
    ensures r == if Wrapped(t) then t[1..|t| - 1] else t
  {
    if t == [] || t[0] != Mark('(') || t[|t| - 1] != Mark(')') { return t; }
    var depth := 0;
    for i := 0 to |t|
      invariant depth == Net(t[..i]) && forall k :: 0 < k <= i && k < |t| ==> Net(t[..k]) != 0
    {
      assert t[..i + 1][..i] == t[..i];
      depth := depth + (if t[i] == Mark('(') then 1 else if t[i] == Mark(')') then -1 else 0);
      if depth == 0 && i < |t| - 1 { return t; }
    }
    return t[1..|t| - 1];
  }

  // ----- balance

  /** The depth a stretch leaves, or None where it closes its call or separates its arguments. */
  function Depth(x: Text, d: nat): Option<nat>
    decreases |x|
  {
    if x == [] then Some(d)
    else if Opens(x[0]) then Depth(x[1..], d + 1)
    else if Closes(x[0]) then if d <= 1 then None else Depth(x[1..], d - 1)
    else if x[0] == Mark(',') && d == 1 then None
    else Depth(x[1..], d)
  }

  /** An argument: it closes what it opens and has no comma of its own. */
  predicate Balanced(x: Text) {
    Depth(x, 1) == Some(1)
  }

  lemma {:induction false} DepthJoin(a: Text, b: Text, d: nat)
    ensures Depth(a + b, d) == (match Depth(a, d) case None => None case Some(e) => Depth(b, e))
    decreases |a|
  {
    if a == [] {
      assert a + b == b;
    } else {
      assert (a + b)[1..] == a[1..] + b && (a + b)[0] == a[0];
      if Opens(a[0]) {
        DepthJoin(a[1..], b, d + 1);
      } else if Closes(a[0]) {
        if d > 1 { DepthJoin(a[1..], b, d - 1); }
      } else {
        DepthJoin(a[1..], b, d);
      }
    }
  }

  lemma {:induction false} DepthDeeper(x: Text, d: nat)
    requires d > 0 && Depth(x, d).Some?
    ensures Depth(x, d + 1) == Some(Depth(x, d).value + 1)
    decreases |x|
  {
    if x != [] {
      if Opens(x[0]) {
        DepthDeeper(x[1..], d + 1);
      } else if Closes(x[0]) {
        DepthDeeper(x[1..], d - 1);
      } else {
        DepthDeeper(x[1..], d);
      }
    }
  }

  lemma {:induction false} JoinBalanced(a: Text, b: Text)
    requires Balanced(a) && Balanced(b)
    ensures Balanced(a + b)
  {
    DepthJoin(a, b, 1);
  }

  /** Anything an argument could be, in parentheses of its own, can be one. */
  lemma {:induction false} WrapBalanced(x: Text)
    requires Depth(x, 2) == Some(2)
    ensures Balanced(InParens(x))
  {
    var y := x + [Mark(')')];
    assert InParens(x) == [Mark('(')] + y;
    assert ([Mark('(')] + y)[1..] == y;
    DepthJoin(x, [Mark(')')], 2);
    assert [Mark(')')][1..] == [];
  }

  lemma {:induction false} ParenBalanced(x: Text)
    requires Balanced(x)
    ensures Balanced(InParens(x))
  {
    DepthDeeper(x, 1);
    WrapBalanced(x);
  }

  // ----- the scan inverts printing

  predicate Trimmed(x: Text) {
    x != [] && !Blank(x[0]) && !Blank(x[|x| - 1])
  }

  lemma StripTrimmed(x: Text)
    requires Trimmed(x)
    ensures Strip(x) == x && Strip([Mark(' ')] + x) == x
  {
    assert ([Mark(' ')] + x)[1..] == x;
  }

  /** A stretch moves the scan by its length and its depth. */
  lemma {:induction false} ArgsOver(t: Text, i: nat, x: Text, depth: nat, piece: nat, args: seq<Text>)
    requires piece <= i && i + |x| <= |t| && t[i..i + |x|] == x && depth > 0
    requires Depth(x, depth).Some?
    ensures Depth(x, depth).value > 0
    ensures Args(t, i, depth, piece, args) == Args(t, i + |x|, Depth(x, depth).value, piece, args)
    decreases |x|
  {
    hide Strip;
    if x != [] {
      assert t[i] == x[0] && t[i + 1..i + 1 + |x[1..]|] == x[1..];
      if Opens(x[0]) {
        ArgsOver(t, i + 1, x[1..], depth + 1, piece, args);
      } else if Closes(x[0]) {
        ArgsOver(t, i + 1, x[1..], depth - 1, piece, args);
      } else {
        ArgsOver(t, i + 1, x[1..], depth, piece, args);
      }
    }
  }

  /** Arguments as a call prints them, up to its closing parenthesis. */
  function Printed(args: seq<Text>): Text
    requires args != []
  {
    if |args| == 1 then args[0] + CLOSE else args[0] + COMMA + Printed(args[1..])
  }

  predicate Arguable(args: seq<Text>) {
    args != [] && forall i :: 0 <= i < |args| ==> Balanced(args[i]) && Trimmed(args[i])
  }

  /** The scan passes one argument by, and would strip it to itself. */
  lemma {:induction false} FirstArgument(t: Text, i: nat, piece: nat, before: seq<Text>, x: Text)
    requires Balanced(x) && Trimmed(x) && i + |x| <= |t| && t[i..i + |x|] == x
    requires piece == i || (piece + 1 == i && t[piece] == Mark(' '))
    ensures Args(t, i, 1, piece, before) == Args(t, i + |x|, 1, piece, before)
    ensures Strip(t[piece..i + |x|]) == x
  {
    hide Strip, Args;
    ArgsOver(t, i, x, 1, piece, before);
    StripTrimmed(x);
    if piece + 1 == i { assert t[piece..i + |x|] == [t[piece]] + t[i..i + |x|]; }
  }

  lemma {:induction false} PrintedParts(t: Text, i: nat, args: seq<Text>)
    requires args != [] && i + |Printed(args)| <= |t| && t[i..i + |Printed(args)|] == Printed(args)
    ensures var next := i + |args[0]|;
            && next < |t| && t[i..next] == args[0]
            && if |args| == 1 then t[next] == Mark(')')
               else next + 2 + |Printed(args[1..])| <= |t| && t[next] == Mark(',') && t[next + 1] == Mark(' ')
                    && t[next + 2..next + 2 + |Printed(args[1..])|] == Printed(args[1..])
  {
    var p, x := Printed(args), args[0];
    assert p[..|x|] == x && t[i..i + |x|] == t[i..i + |p|][..|x|];
    assert t[i + |x|] == p[|x|];
    if |args| > 1 {
      assert t[i + |x| + 1] == p[|x| + 1];
      assert p[|x| + 2..] == Printed(args[1..]) && t[i + |x| + 2..i + |p|] == t[i..i + |p|][|x| + 2..];
    }
  }

  /** `_arguments` inverts printing: any list of balanced arguments comes back, and the cursor is past
      the parenthesis. */
  lemma {:induction false} ArgumentsInvert(t: Text, i: nat, piece: nat, before: seq<Text>, args: seq<Text>)
    requires Arguable(args) && i + |Printed(args)| <= |t| && t[i..i + |Printed(args)|] == Printed(args)
    requires piece == i || (piece + 1 == i && t[piece] == Mark(' '))
    ensures Args(t, i, 1, piece, before) == Some(Found(before + args, i + |Printed(args)|))
    decreases |args|
  {
    hide Strip, Balanced, Trimmed;
    var x := args[0];
    var next := i + |x|;
    PrintedParts(t, i, args);
    FirstArgument(t, i, piece, before, x);
    if |args| == 1 {
      assert before + [x] == before + args;
    } else {
      ArgumentsInvert(t, next + 2, next + 1, before + [x], args[1..]);
      assert (before + [x]) + args[1..] == before + args;
    }
  }

}
