/** What the emitted text of a size computes: C's reading of it, and the value the compiler gives its
    expression (situc/names.py, situc/unparse.py). */
module BuiltinMeaning {
  import opened Prelude
  import opened Ast
  import opened Bits
  import opened Intervals
  import opened Builtins
  import opened BuiltinTheorems
  import Solver

  // ----- C's reading of a text

  /** What each read and number is worth. */
  type Reading = Text -> Option<int>

  /** A text cut at the blanks outside its brackets: operands and operators. */
  function Chunks(t: Text, depth: nat, held: Text): (r: seq<Text>)
    ensures r != []
  {
    if t == [] then [held]
    else if depth == 0 && Blank(t[0]) then [held] + Chunks(t[1..], 0, [])
    else
      Chunks(t[1..], if Opens(t[0]) then depth + 1 else if Closes(t[0]) && depth > 0 then depth - 1 else depth, held + [t[0]])
  }

  function Size(chunks: seq<Text>): nat {
    if chunks == [] then 0 else |chunks[0]| + Size(chunks[1..])
  }

  lemma {:induction false} ChunksFit(t: Text, depth: nat, held: Text)
    ensures Size(Chunks(t, depth, held)) <= |held| + |t|
    decreases |t|
  {
    if t != [] {
      var rest := t[1..];
      if depth == 0 && Blank(t[0]) {
        ChunksFit(rest, 0, []);
        assert ([held] + Chunks(rest, 0, []))[1..] == Chunks(rest, 0, []);
      } else {
        ChunksFit(rest, if Opens(t[0]) then depth + 1 else if Closes(t[0]) && depth > 0 then depth - 1 else depth, held + [t[0]]);
      }
    } else {
      assert [held][1..] == [];
    }
  }

  lemma {:induction false} SizeCut(chunks: seq<Text>, k: nat)
    requires k <= |chunks|
    ensures Size(chunks[..k]) + Size(chunks[k..]) == Size(chunks)
  {
    if k == 0 {
      assert chunks[..0] == [] && chunks[0..] == chunks;
    } else {
      SizeCut(chunks[1..], k - 1);
      assert chunks[..k][0] == chunks[0] && chunks[..k][1..] == chunks[1..][..k - 1] && chunks[1..][k - 1..] == chunks[k..];
    }
  }

  /** How C spells an operator. */
  function Spelling(op: BinaryOp): Text {
    match op
    case Add => [Mark('+')]
    case Sub => [Mark('-')]
    case Mul => [Mark('*')]
    case Div => [Mark('/')]
    case Mod => [Mark('%')]
    case BitAnd => [Mark('&')]
    case BitOr => [Mark('|')]
    case BitXor => [Mark('^')]
    case Shl => [Mark('<'), Mark('<')]
    case Shr => [Mark('>'), Mark('>')]
    case Eq => [Mark('='), Mark('=')]
    case Ne => [Mark('!'), Mark('=')]
    case Lt => [Mark('<')]
    case Gt => [Mark('>')]
    case Le => [Mark('<'), Mark('=')]
    case Ge => [Mark('>'), Mark('=')]
    case LogicalAnd => [Mark('&'), Mark('&')]
    case LogicalOr => [Mark('|'), Mark('|')]
  }

  predicate IsOperator(chunk: Text) {
    exists op: BinaryOp :: Spelling(op) == chunk
  }

  ghost function Operator(chunk: Text): (op: BinaryOp)
    requires IsOperator(chunk)
    ensures Spelling(op) == chunk
  {
    var op: BinaryOp :| Spelling(op) == chunk;
    op
  }

  lemma SpellingUnique(a: BinaryOp, b: BinaryOp)
    requires Spelling(a) == Spelling(b)
    ensures a == b
  {
  }

  lemma OperatorIs(op: BinaryOp)
    ensures IsOperator(Spelling(op)) && Operator(Spelling(op)) == op
  {
    assert IsOperator(Spelling(op));
    SpellingUnique(Operator(Spelling(op)), op);
  }

  /** How tightly C binds it: more is tighter. */
  function Binding(op: BinaryOp): nat {
    match op
    case LogicalOr => 0
    case LogicalAnd => 1
    case BitOr => 2
    case BitXor => 3
    case BitAnd => 4
    case Eq => 5
    case Ne => 5
    case Lt => 6
    case Gt => 6
    case Le => 6
    case Ge => 6
    case Shl => 7
    case Shr => 7
    case Add => 8
    case Sub => 8
    case Mul => 9
    case Div => 9
    case Mod => 9
  }

  /** The last of the loosest operators among the first `n` chunks: where C splits them. */
  ghost function Loosest(chunks: seq<Text>, n: nat): (k: Option<nat>)
    requires n <= |chunks|
    ensures k.Some? ==> k.value < n && IsOperator(chunks[k.value])
  {
    if n == 0 then None
    else
      var best := Loosest(chunks, n - 1);
      if IsOperator(chunks[n - 1]) && (best.None? || Binding(Operator(chunks[n - 1])) <= Binding(Operator(chunks[best.value])))
      then Some(n - 1) else best
  }

  /** The first chunk from `i` on that is this mark. */
  function Find(chunks: seq<Text>, c: char, i: nat): (k: Option<nat>)
    requires i <= |chunks|
    ensures k.Some? ==> i <= k.value < |chunks| && chunks[k.value] == [Mark(c)]
    decreases |chunks| - i
  {
    if i == |chunks| then None else if chunks[i] == [Mark(c)] then Some(i) else Find(chunks, c, i + 1)
  }

  /** Parentheses around everything. */
  predicate Grouped(t: Text) {
    |t| >= 2 && t[0] == Mark('(') && t[|t| - 1] == Mark(')') && Balanced(t[1..|t| - 1])
  }

  predicate Signed(t: Text) {
    t != [] && (t[0] == Mark('-') || t[0] == Mark('~') || t[0] == Mark('!'))
  }

  function SignOf(t: Tok): UnaryOp {
    if t == Mark('-') then Negate else if t == Mark('~') then Complement else LogicalNot
  }

  function Sign(op: UnaryOp): Tok {
    match op case Negate => Mark('-') case Complement => Mark('~') case LogicalNot => Mark('!')
  }

  /** What C computes from the text, over integers without a width, or None where it computes nothing. */
  ghost function Meaning(t: Text, read: Reading): Option<int>
    decreases |t|, 3, 0
  {
    ChunksFit(t, 0, []);
    Of(Chunks(t, 0, []), read)
  }

  ghost function Of(chunks: seq<Text>, read: Reading): Option<int>
    decreases Size(chunks), 2, |chunks|
  {
    if chunks == [] then None
    else if |chunks| == 1 then assert chunks[1..] == []; Primary(chunks[0], read)
    else
      match Find(chunks, '?', 0)
      case Some(q) => Conditional(chunks, q, read)
      case None =>
        match Loosest(chunks, |chunks|)
        case None => None
        case Some(k) =>
          SizeAround(chunks, k);
          match (Of(chunks[..k], read), Of(chunks[k + 1..], read))
          case (Some(a), Some(b)) => Apply(Operator(chunks[k]), a, b)
          case _ => None
  }

  /** The conditional, where no other stands between its two marks. */
  ghost function Conditional(chunks: seq<Text>, q: nat, read: Reading): Option<int>
    requires q < |chunks| && chunks[q] == [Mark('?')]
    decreases Size(chunks), 1, |chunks|
  {
    match Find(chunks, ':', q + 1)
    case None => None
    case Some(k) =>
      if Find(chunks[q + 1..k], '?', 0).Some? then None
      else
        SizeAround(chunks, q);
        SizeAround(chunks, k);
        SizeCut(chunks[..k], q + 1);
        assert chunks[..k][q + 1..] == chunks[q + 1..k];
        match Of(chunks[..q], read)
        case None => None
        case Some(test) => if test != 0 then Of(chunks[q + 1..k], read) else Of(chunks[k + 1..], read)
  }

  lemma {:induction false} SizeAround(chunks: seq<Text>, k: nat)
    requires k < |chunks| && chunks[k] != []
    ensures Size(chunks[..k]) < Size(chunks) && Size(chunks[k + 1..]) < Size(chunks)
  {
    SizeCut(chunks, k);
    SizeCut(chunks, k + 1);
    assert chunks[k..][1..] == chunks[k + 1..] && chunks[k..][0] == chunks[k];
  }

  ghost function Primary(t: Text, read: Reading): Option<int>
    decreases |t|, 0, 0
  {
    if Signed(t) then
      (match Primary(t[1..], read) case None => None case Some(v) => Some(ApplyUnary(SignOf(t[0]), v)))
    else if Grouped(t) then Meaning(t[1..|t| - 1], read)
    else if t != [] && t[0] == Word("situ_popcount_i64") && Grouped(t[1..]) then
      (match Meaning(t[2..|t| - 1], read) case None => None case Some(v) => Some(BitCount(v)))
    else read(t)
  }

  // ----- reading what is built

  /** The depth a stretch leaves, or None where it closes too much or has a blank outside its brackets. */
  function Level(x: Text, d: nat): Option<nat> {
    if x == [] then Some(d)
    else if Opens(x[0]) then Level(x[1..], d + 1)
    else if Closes(x[0]) then if d == 0 then None else Level(x[1..], d - 1)
    else if d == 0 && Blank(x[0]) then None
    else Level(x[1..], d)
  }

  /** One chunk. */
  predicate Solid(x: Text) {
    x != [] && Level(x, 0) == Some(0)
  }

  /** Chunks with a blank between each two. */
  function Line(chunks: seq<Text>): Text {
    if chunks == [] then [] else if |chunks| == 1 then chunks[0] else chunks[0] + [Mark(' ')] + Line(chunks[1..])
  }

  lemma {:induction false} ChunksOver(x: Text, rest: Text, d: nat, held: Text)
    requires Level(x, d).Some?
    ensures Chunks(x + rest, d, held) == Chunks(rest, Level(x, d).value, held + x)
    decreases |x|
  {
    if x == [] {
      assert x + rest == rest && held + x == held;
    } else {
      assert (x + rest)[0] == x[0] && (x + rest)[1..] == x[1..] + rest;
      ChunksOver(x[1..], rest, if Opens(x[0]) then d + 1 else if Closes(x[0]) then d - 1 else d, held + [x[0]]);
      assert held + [x[0]] + x[1..] == held + x;
    }
  }

  /** A line is cut into what it was made of. */
  lemma {:induction false} LineChunks(chunks: seq<Text>)
    requires chunks != [] && forall i :: 0 <= i < |chunks| ==> Solid(chunks[i])
    ensures Chunks(Line(chunks), 0, []) == chunks
  {
    var x := chunks[0];
    if |chunks| == 1 {
      ChunksOver(x, [], 0, []);
      assert x + [] == x && [] + x == x;
    } else {
      var more := Line(chunks[1..]);
      LineChunks(chunks[1..]);
      ChunksOver(x, [Mark(' ')] + more, 0, []);
      assert [] + x == x && ([Mark(' ')] + more)[1..] == more;
      assert x + [Mark(' ')] + more == x + ([Mark(' ')] + more);
    }
  }

  lemma {:induction false} LevelJoin(a: Text, b: Text, d: nat)
    ensures Level(a + b, d) == (match Level(a, d) case None => None case Some(e) => Level(b, e))
    decreases |a|
  {
    if a == [] {
      assert a + b == b;
    } else {
      assert (a + b)[1..] == a[1..] + b && (a + b)[0] == a[0];
      LevelJoin(a[1..], b, if Opens(a[0]) then d + 1 else if Closes(a[0]) && d > 0 then d - 1 else d);
    }
  }

  lemma {:induction false} DepthIsLevel(x: Text, d: nat)
    requires d > 0 && Depth(x, d).Some?
    ensures Level(x, d) == Depth(x, d)
    decreases |x|
  {
    if x != [] {
      DepthIsLevel(x[1..], if Opens(x[0]) then d + 1 else if Closes(x[0]) then d - 1 else d);
    }
  }

  /** Anything in parentheses of its own is one chunk, and means what it did. */
  lemma {:induction false} Parenthesised(x: Text, read: Reading)
    requires Balanced(x)
    ensures Solid(InParens(x)) && Primary(InParens(x), read) == Meaning(x, read)
    ensures !IsOperator(InParens(x)) && InParens(x)[0] == Mark('(')
  {
    hide Meaning, Chunks;
    var t := InParens(x);
    assert t == [Mark('(')] + (x + [Mark(')')]);
    DepthIsLevel(x, 1);
    LevelJoin(x, [Mark(')')], 1);
    assert [Mark(')')][1..] == [];
    assert t[1..] == x + [Mark(')')];
    assert t[1..|t| - 1] == x;
  }

  lemma SolidMark(c: char)
    requires c !in "()[] \t\n"
    ensures Solid([Mark(c)])
  {
    assert [Mark(c)][1..] == [];
  }

  lemma SolidWord(w: string)
    ensures Solid([Word(w)]) && !IsOperator([Word(w)])
  {
    assert [Word(w)][1..] == [];
  }

  /** An operand: a chunk that is neither an operator nor part of a conditional. */
  predicate Operand(t: Text) {
    Solid(t) && !IsOperator(t) && t != [Mark('?')] && t != [Mark(':')] && t != [Mark('=')]
  }

  lemma SolidOperator(op: BinaryOp)
    ensures Solid(Spelling(op)) && Spelling(op) != [Mark('?')] && Spelling(op) != [Mark(':')]
  {
    assert [Mark('=')][1..] == [] && [Mark('<')][1..] == [] && [Mark('>')][1..] == [] && [Mark('&')][1..] == [] && [Mark('|')][1..] == [];
    assert |Spelling(op)| == 2 ==> Spelling(op)[1..] == [Spelling(op)[1]] && [Spelling(op)[1]][1..] == [];
    assert |Spelling(op)| == 1 ==> Spelling(op)[1..] == [];
  }

  /** Two operands and an operator. */
  lemma {:induction false} TwoMean(a: Text, op: BinaryOp, b: Text, read: Reading)
    requires Operand(a) && Operand(b)
    ensures Meaning(Line([a, Spelling(op), b]), read) == Of([a, Spelling(op), b], read)
    ensures Of([a, Spelling(op), b], read) == (match (Primary(a, read), Primary(b, read))
                                               case (Some(x), Some(y)) => Apply(op, x, y)
                                               case _ => None)
  {
    hide Apply, Solid, Primary, Spelling, Chunks, Line, Binding, IsOperator;
    var cs := [a, Spelling(op), b];
    SolidOperator(op);
    OperatorIs(op);
    LineChunks(cs);
    assert Find(cs, '?', 3) == None;
    assert Find(cs, '?', 2) == None;
    assert Find(cs, '?', 1) == None;
    assert Find(cs, '?', 0) == None;
    assert Loosest(cs, 1) == None by { assert Loosest(cs, 0) == None; }
    assert Loosest(cs, 2) == Some(1);
    assert Loosest(cs, 3) == Some(1);
    assert cs[..1] == [a] && cs[2..] == [b];
    assert Of([a], read) == Primary(a, read) && Of([b], read) == Primary(b, read);
  }

  /** Three, and two operators that bind alike: from left to right. */
  lemma {:induction false} ThreeMean(a: Text, op: BinaryOp, b: Text, op': BinaryOp, c: Text, read: Reading)
    requires Operand(a) && Operand(b) && Operand(c) && Binding(op) == Binding(op')
    ensures Meaning(Line([a, Spelling(op), b, Spelling(op'), c]), read) ==
            (match (Of([a, Spelling(op), b], read), Primary(c, read))
             case (Some(x), Some(y)) => Apply(op', x, y)
             case _ => None)
  {
    hide Apply, Solid, Primary, Spelling, Chunks, Line, IsOperator, Binding;
    var cs := [a, Spelling(op), b, Spelling(op'), c];
    SolidOperator(op);
    SolidOperator(op');
    OperatorIs(op);
    OperatorIs(op');
    LineChunks(cs);
    assert Find(cs, '?', 5) == None;
    assert Find(cs, '?', 4) == None;
    assert Find(cs, '?', 3) == None;
    assert Find(cs, '?', 2) == None;
    assert Find(cs, '?', 1) == None;
    assert Find(cs, '?', 0) == None;
    assert Loosest(cs, 0) == None;
    assert Loosest(cs, 1) == None;
    assert Loosest(cs, 2) == Some(1);
    assert Loosest(cs, 3) == Some(1);
    assert Loosest(cs, 4) == Some(3);
    assert Loosest(cs, 5) == Some(3);
    assert cs[..3] == [a, Spelling(op), b] && cs[4..] == [c];
    assert Of([c], read) == Primary(c, read);
  }

  /** The conditional of three operands. */
  lemma {:induction false} ConditionalMeans(a: Text, b: Text, c: Text, read: Reading)
    requires Operand(a) && Operand(b) && Operand(c)
    ensures Meaning(Line([a, [Mark('?')], b, [Mark(':')], c]), read) ==
            (match Primary(a, read)
             case None => None
             case Some(test) => if test != 0 then Primary(b, read) else Primary(c, read))
  {
    hide Solid, Primary, Chunks, Line, IsOperator;
    var cs := [a, [Mark('?')], b, [Mark(':')], c];
    SolidMark('?');
    SolidMark(':');
    LineChunks(cs);
    assert cs[1] == [Mark('?')] && cs[3] == [Mark(':')];
    assert Find(cs, '?', 1) == Some(1);
    assert Find(cs, '?', 0) == Some(1);
    assert Find(cs, ':', 3) == Some(3);
    assert Find(cs, ':', 2) == Some(3);
    assert cs[2..3] == [b];
    assert Find([b], '?', 1) == None;
    assert Find([b], '?', 0) == None;
    assert cs[..1] == [a] && cs[4..] == [c];
    assert Of([a], read) == Primary(a, read) && Of([b], read) == Primary(b, read) && Of([c], read) == Primary(c, read);
    assert Of(cs, read) == Conditional(cs, 1, read);
  }

  /** An operand that is read the same on its own and among others. */
  ghost predicate One(t: Text, read: Reading) {
    Operand(t) && Primary(t, read) == Meaning(t, read)
  }

  lemma {:induction false} OperandAlone(t: Text, read: Reading)
    requires Operand(t)
    ensures One(t, read)
  {
    hide Solid, Primary, IsOperator;
    LineChunks([t]);
    assert Line([t]) == t && Of([t], read) == Primary(t, read);
  }

  // ----- what the spelled calls compute

  /** `min` and `max`: the text emitted for one computes the smaller, or the larger, of what its arguments' texts
      compute. */
  lemma {:induction false} ChosenMeans(l: Text, least: bool, r: Text, read: Reading, a: int, b: int)
    requires Balanced(l) && Balanced(r) && Meaning(l, read) == Some(a) && Meaning(r, read) == Some(b)
    ensures Meaning(Chosen(l, if least then '<' else '>', r), read) == Some(if least then Min(a, b) else Max(a, b))
    ensures One(Chosen(l, if least then '<' else '>', r), read)
  {
    hide Meaning, Solid, Balanced, Primary, Line, IsOperator, InParens, One;
    var op := if least then Lt else Gt;
    Parenthesised(l, read);
    Parenthesised(r, read);
    var test := Line([InParens(l), Spelling(op), InParens(r)]);
    TwoMean(InParens(l), op, InParens(r), read);
    ThreeJoined(InParens(l), Spelling(op), InParens(r));
    BalancedParens(l);
    BalancedParens(r);
    BalancedOperator(op);
    JoinedBalanced(InParens(l), Spelling(op), InParens(r));
    Parenthesised(test, read);
    var whole := Line([InParens(test), [Mark('?')], InParens(l), [Mark(':')], InParens(r)]);
    ConditionalMeans(InParens(test), InParens(l), InParens(r), read);
    FiveJoined(InParens(test), [Mark('?')], InParens(l), [Mark(':')], InParens(r));
    BalancedParens(test);
    BalancedMark('?');
    BalancedMark(':');
    JoinedBalanced(InParens(test), [Mark('?')], InParens(l));
    JoinedMore(InParens(test), [Mark('?')], InParens(l), [Mark(':')], InParens(r));
    Regrouped(whole, read);
    assert Chosen(l, if least then '<' else '>', r) == InParens(whole) by { ChosenIs(l, least, r); }
  }

  /** A text that is only a group means what stands in it. */
  lemma {:induction false} Regrouped(x: Text, read: Reading)
    requires Balanced(x)
    ensures Meaning(InParens(x), read) == Meaning(x, read) && One(InParens(x), read)
  {
    hide Solid, Balanced, Primary, InParens, IsOperator;
    Parenthesised(x, read);
    LineChunks([InParens(x)]);
    assert Line([InParens(x)]) == InParens(x);
    assert Of([InParens(x)], read) == Primary(InParens(x), read);
  }

  lemma ThreeJoined(a: Text, op: Text, b: Text)
    ensures Line([a, op, b]) == a + [Mark(' ')] + op + [Mark(' ')] + b
  {
    assert [a, op, b][1..] == [op, b] && [op, b][1..] == [b];
    assert Line([op, b]) == op + [Mark(' ')] + b;
    assert a + [Mark(' ')] + (op + [Mark(' ')] + b) == a + [Mark(' ')] + op + [Mark(' ')] + b;
  }

  lemma FiveJoined(a: Text, op: Text, b: Text, op': Text, c: Text)
    ensures Line([a, op, b, op', c]) == a + [Mark(' ')] + op + [Mark(' ')] + b + [Mark(' ')] + op' + [Mark(' ')] + c
  {
    assert [a, op, b, op', c][1..] == [op, b, op', c] && [op, b, op', c][1..] == [b, op', c];
    ThreeJoined(b, op', c);
    var tail := Line([b, op', c]);
    assert Line([op, b, op', c]) == op + [Mark(' ')] + tail;
    assert a + [Mark(' ')] + (op + [Mark(' ')] + tail) == a + [Mark(' ')] + op + [Mark(' ')] + tail;
    var head := a + [Mark(' ')] + op + [Mark(' ')];
    assert head + (b + [Mark(' ')] + op' + [Mark(' ')] + c) == head + b + [Mark(' ')] + op' + [Mark(' ')] + c;
  }

  lemma {:induction false} BalancedParens(x: Text)
    requires Balanced(x)
    ensures Balanced(InParens(x))
  {
    ParenBalanced(x);
  }

  lemma BalancedMark(c: char)
    requires c !in "()[],"
    ensures Balanced([Mark(c)])
  {
    PlainMark(Mark(c));
  }

  lemma BalancedOperator(op: BinaryOp)
    ensures Balanced(Spelling(op))
  {
    hide Balanced;
    var t := Spelling(op);
    PlainMark(t[0]);
    if |t| == 2 {
      PlainMark(t[1]);
      JoinBalanced([t[0]], [t[1]]);
      assert t == [t[0]] + [t[1]];
    } else {
      assert t == [t[0]];
    }
  }

  lemma {:induction false} JoinedBalanced(a: Text, op: Text, b: Text)
    requires Balanced(a) && Balanced(op) && Balanced(b)
    ensures Balanced(Line([a, op, b]))
  {
    hide Balanced, Line;
    BalancedMark(' ');
    JoinBalanced(a, [Mark(' ')]);
    JoinBalanced(a + [Mark(' ')], op);
    JoinBalanced(a + [Mark(' ')] + op, [Mark(' ')]);
    JoinBalanced(a + [Mark(' ')] + op + [Mark(' ')], b);
    ThreeJoined(a, op, b);
  }

  lemma {:induction false} JoinedMore(a: Text, op: Text, b: Text, op': Text, c: Text)
    requires Balanced(Line([a, op, b])) && Balanced(op') && Balanced(c)
    ensures Balanced(Line([a, op, b, op', c]))
  {
    hide Balanced, Line;
    BalancedMark(' ');
    ThreeJoined(a, op, b);
    FiveJoined(a, op, b, op', c);
    var head := a + [Mark(' ')] + op + [Mark(' ')] + b;
    JoinBalanced(head, [Mark(' ')]);
    JoinBalanced(head + [Mark(' ')], op');
    JoinBalanced(head + [Mark(' ')] + op', [Mark(' ')]);
    JoinBalanced(head + [Mark(' ')] + op' + [Mark(' ')], c);
  }

  lemma ChosenIs(l: Text, least: bool, r: Text)
    ensures var test := Line([InParens(l), Spelling(if least then Lt else Gt), InParens(r)]);
            Chosen(l, if least then '<' else '>', r) ==
            InParens(Line([InParens(test), [Mark('?')], InParens(l), [Mark(':')], InParens(r)]))
  {
    hide InParens;
    var op := if least then Lt else Gt;
    var c := if least then '<' else '>';
    ThreeJoined(InParens(l), Spelling(op), InParens(r));
    var test := Line([InParens(l), Spelling(op), InParens(r)]);
    assert test == InParens(l) + Spaced(c) + InParens(r);
    FiveJoined(InParens(test), [Mark('?')], InParens(l), [Mark(':')], InParens(r));
    assert InParens(test) + Spaced('?') + InParens(l) + Spaced(':') + InParens(r) ==
           Line([InParens(test), [Mark('?')], InParens(l), [Mark(':')], InParens(r)]);
  }

  lemma RoundedIs(v: Text, u: Text)
    ensures var sum := Line([InParens(v), Spelling(Add), InParens(u), Spelling(Sub), [Word("1u")]]);
            Rounded(v, u) == InParens(Line([InParens(sum), Spelling(Div), InParens(u), Spelling(Mul), InParens(u)]))
  {
    hide InParens;
    FiveJoined(InParens(v), Spelling(Add), InParens(u), Spelling(Sub), [Word("1u")]);
    var sum := Line([InParens(v), Spelling(Add), InParens(u), Spelling(Sub), [Word("1u")]]);
    assert sum == InParens(v) + Spaced('+') + InParens(u) + Spaced('-') + [Word("1u")];
    FiveJoined(InParens(sum), Spelling(Div), InParens(u), Spelling(Mul), InParens(u));
    assert InParens(sum) + Spaced('/') + InParens(u) + Spaced('*') + InParens(u) ==
           Line([InParens(sum), Spelling(Div), InParens(u), Spelling(Mul), InParens(u)]);
  }

  /** The number one as C's unsigned literal has it. */
  predicate ReadsOne(read: Reading) {
    read([Word("1u")]) == Some(1)
  }

  /** `align_up`: the text emitted for it divides as C does, and so is the compiler's rounding exactly when the sum
      that is divided is not negative or divides evenly. */
  lemma {:induction false} RoundedMeans(v: Text, u: Text, read: Reading, a: int, b: int)
    requires Balanced(v) && Balanced(u) && ReadsOne(read) && Meaning(v, read) == Some(a) && Meaning(u, read) == Some(b)
    ensures Meaning(Rounded(v, u), read) == if b == 0 then None else Some(TruncDiv(a + b - 1, b) * b)
    ensures b > 0 ==> (Meaning(Rounded(v, u), read) == Some(RoundUp(a, b)) <==> a + b - 1 >= 0 || (a + b - 1) % b == 0)
    ensures One(Rounded(v, u), read)
  {
    hide Meaning, Solid, Balanced, Primary, Line, InParens, Spelling, IsOperator, TruncDiv, RoundUp, One;
    Parenthesised(v, read);
    Parenthesised(u, read);
    OneMeans(read);
    var one := [Word("1u")];
    TwoMean(InParens(v), Add, InParens(u), read);
    ThreeMean(InParens(v), Add, InParens(u), Sub, one, read);
    var sum := Line([InParens(v), Spelling(Add), InParens(u), Spelling(Sub), one]);
    assert Meaning(sum, read) == Some(a + b - 1);
    BalancedParens(v);
    BalancedParens(u);
    BalancedOperator(Add);
    BalancedOperator(Sub);
    BalancedOperator(Div);
    BalancedOperator(Mul);
    JoinedBalanced(InParens(v), Spelling(Add), InParens(u));
    JoinedMore(InParens(v), Spelling(Add), InParens(u), Spelling(Sub), one);
    Parenthesised(sum, read);
    BalancedParens(sum);
    TwoMean(InParens(sum), Div, InParens(u), read);
    ThreeMean(InParens(sum), Div, InParens(u), Mul, InParens(u), read);
    JoinedBalanced(InParens(sum), Spelling(Div), InParens(u));
    JoinedMore(InParens(sum), Spelling(Div), InParens(u), Spelling(Mul), InParens(u));
    Regrouped(Line([InParens(sum), Spelling(Div), InParens(u), Spelling(Mul), InParens(u)]), read);
    RoundedIs(v, u);
    if b > 0 { RoundedAgreesIff(a, b); }
  }

  lemma OneMeans(read: Reading)
    requires ReadsOne(read)
    ensures Operand([Word("1u")]) && Primary([Word("1u")], read) == Some(1) && Balanced([Word("1u")])
  {
    SolidWord("1u");
    PlainMark(Word("1u"));
  }

  // ----- whole expressions

  function Grouping(nested: bool, r: Rendered): Rendered {
    if nested then Paren(r) else r
  }

  /** `expr_to_source` with every operator in parentheses but the outermost; `spell` is what names, numbers and
      other calls are written as. */
  function Shown(e: Expr, nested: bool, spell: Expr -> Text): Rendered {
    match e
    case Unary(op, x) => Grouping(nested, Prefix([Sign(op)], Shown(x, true, spell)))
    case Binary(op, l, r) =>
      Grouping(nested, Join(Shown(l, true, spell), [Mark(' ')] + Spelling(op) + [Mark(' ')], Shown(r, true, spell)))
    case Call(fn, args) =>
      if fn == "popcount" && |args| == 1 then Count(Shown(args[0], false, spell))
      else if IsBuiltin(fn) && fn != "popcount" && |args| == 2 then Pair(fn, Shown(args[0], false, spell), Shown(args[1], false, spell))
      else Leaf(spell(e))
    case _ => Leaf(spell(e))
  }

  /** Is it written as it stands, neither an operator nor a call that is rewritten? */
  predicate Atomic(e: Expr) {
    match e
    case Unary(_, _) => false
    case Binary(_, _, _) => false
    case Call(fn, args) => !(fn == "popcount" && |args| == 1) && !(IsBuiltin(fn) && fn != "popcount" && |args| == 2)
    case _ => true
  }

  /** Text C takes for one read or number. */
  predicate Atom(t: Text) {
    && Inert(t) && Balanced(t) && Trimmed(t) && Operand(t) && !Signed(t) && !Grouped(t)
    && (t != [] && t[0] == Word("situ_popcount_i64") ==> !Grouped(t[1..]))
  }

  /** Every name and number in the expression is written as one, and is read as its value. */
  ghost predicate Readable(e: Expr, spell: Expr -> Text, read: Reading, env: Solver.Env, m: Solver.Message) {
    if Atomic(e) then
      Atom(spell(e)) && (Solver.Value(e, env, Some(m)).Ok? ==> read(spell(e)) == Some(Solver.Value(e, env, Some(m)).value))
    else
      match e
      case Unary(_, x) => Readable(x, spell, read, env, m)
      case Binary(_, l, r) => Readable(l, spell, read, env, m) && Readable(r, spell, read, env, m)
      case Call(_, args) => forall i | 0 <= i < |args| :: Readable(args[i], spell, read, env, m)
      case _ => true
  }

  /** Does every rounding in it divide a sum that is not negative, or that divides evenly? */
  predicate Evenly(e: Expr, env: Solver.Env, m: Solver.Message) {
    match e
    case Unary(_, x) => Evenly(x, env, m)
    case Binary(_, l, r) => Evenly(l, env, m) && Evenly(r, env, m)
    case Call(fn, args) =>
      && (forall i | 0 <= i < |args| :: Evenly(args[i], env, m))
      && (fn == "align_up" && |args| == 2 && Solver.Value(args[0], env, Some(m)).Ok? && Solver.Value(args[1], env, Some(m)).Ok? ==>
            var a, b := Solver.Value(args[0], env, Some(m)).value, Solver.Value(args[1], env, Some(m)).value;
            b > 0 ==> a + b - 1 >= 0 || (a + b - 1) % b == 0)
    case _ => true
  }

  /** `_all_bits` keeps what a text computes. */
  ghost predicate KeepsMeaning(whole: Text -> Text, read: Reading) {
    forall t :: Balanced(t) ==> Meaning(whole(t), read) == Meaning(t, read)
  }

  lemma {:induction false} ShownWell(e: Expr, nested: bool, spell: Expr -> Text, read: Reading, env: Solver.Env, m: Solver.Message)
    requires Readable(e, spell, read, env, m)
    ensures WellRendered(Shown(e, nested, spell))
  {
    hide Atom, IsSign, Inert, Balanced, Trimmed, Solver.Value, Spelling;
    match e
    case Unary(op, x) =>
      ShownWell(x, true, spell, read, env, m);
      SignIsSign(op);
    case Binary(op, l, r) =>
      ShownWell(l, true, spell, read, env, m);
      ShownWell(r, true, spell, read, env, m);
      SpacedOperator(op);
    case Call(fn, args) =>
      if Atomic(e) {
        AtomWell(spell(e));
      } else {
        ShownWell(args[0], false, spell, read, env, m);
        if |args| == 2 { ShownWell(args[1], false, spell, read, env, m); }
      }
    case _ => AtomWell(spell(e));
  }

  lemma AtomWell(t: Text)
    requires Atom(t)
    ensures WellRendered(Leaf(t))
  {
  }

  lemma SignIsSign(op: UnaryOp)
    ensures IsSign([Sign(op)])
  {
    assert [Sign(op)][1..] == [] && Depth([Sign(op)], 1) == Depth([], 1) == Some(1);
  }

  lemma {:induction false} SpacedOperator(op: BinaryOp)
    ensures var t := [Mark(' ')] + Spelling(op) + [Mark(' ')]; Inert(t) && Balanced(t) && t != [] && !Blocks(t[|t| - 1])
  {
    hide Balanced;
    BalancedOperator(op);
    BalancedMark(' ');
    JoinBalanced([Mark(' ')], Spelling(op));
    JoinBalanced([Mark(' ')] + Spelling(op), [Mark(' ')]);
  }

  /** What is known of how an expression is written where it is nested and where it is not. */
  ghost predicate Computes(e: Expr, spell: Expr -> Text, whole: Text -> Text, read: Reading, v: int) {
    && One(InC(Shown(e, true, spell), whole), read) && Primary(InC(Shown(e, true, spell), whole), read) == Some(v)
    && Meaning(InC(Shown(e, false, spell), whole), read) == Some(v) && Balanced(InC(Shown(e, false, spell), whole))
  }

  /** What the translation parameters keep. */
  ghost predicate Trusted(whole: Text -> Text, read: Reading) {
    KeepsReads(whole) && KeepsMeaning(whole, read) && ReadsOne(read)
  }

  /** The C text of an expression computes the value the compiler gives it. */
  lemma {:induction false} TextMeans(e: Expr, spell: Expr -> Text, whole: Text -> Text, read: Reading,
                                     env: Solver.Env, m: Solver.Message)
    requires Trusted(whole, read) && Readable(e, spell, read, env, m) && Evenly(e, env, m)
    requires Solver.Value(e, env, Some(m)).Ok?
    ensures Computes(e, spell, whole, read, Solver.Value(e, env, Some(m)).value)
  {
    hide Atom, Computes, Inert, Balanced, Trimmed, Trusted, Solver.Fold, Solver.Builtin, InC, Shown;
    ShownWell(e, false, spell, read, env, m);
    match e
    case Unary(op, x) =>
      TextMeans(x, spell, whole, read, env, m);
      UnaryText(e, spell, whole, read, env, m);
    case Binary(op, l, r) =>
      TextMeans(l, spell, whole, read, env, m);
      TextMeans(r, spell, whole, read, env, m);
      BinaryText(e, spell, whole, read, env, m);
    case Call(fn, args) =>
      if Atomic(e) {
        LeafText(e, spell, whole, read, env, m);
      } else {
        ArgumentValues(e, env, m);
        TextMeans(args[0], spell, whole, read, env, m);
        if |args| == 2 {
          TextMeans(args[1], spell, whole, read, env, m);
          PairText(e, spell, whole, read, env, m);
        } else {
          CountText(e, spell, whole, read, env, m);
        }
      }
    case _ => LeafText(e, spell, whole, read, env, m);
  }

  lemma ArgumentValues(e: Expr, env: Solver.Env, m: Solver.Message)
    requires e.Call? && e.fn in Solver.VALUE_BUILTINS && Solver.Value(e, env, Some(m)).Ok?
    ensures |e.args| == Solver.VALUE_BUILTINS[e.fn]
    ensures forall i :: 0 <= i < |e.args| ==> Solver.Value(e.args[i], env, Some(m)).Ok?
    ensures var vs := seq(|e.args|, i requires 0 <= i < |e.args| => Solver.Value(e.args[i], env, Some(m)).value);
            Solver.Value(e, env, Some(m)) == Solver.Builtin(e.fn, vs)
  {
    hide Solver.Builtin;
    var vs := Solver.Values(e.args, env, Some(m)).value;
    assert vs == seq(|e.args|, i requires 0 <= i < |e.args| => Solver.Value(e.args[i], env, Some(m)).value);
  }

  lemma {:induction false} LeafText(e: Expr, spell: Expr -> Text, whole: Text -> Text, read: Reading,
                                    env: Solver.Env, m: Solver.Message)
    requires Atomic(e) && Readable(e, spell, read, env, m) && Solver.Value(e, env, Some(m)).Ok?
    ensures Computes(e, spell, whole, read, Solver.Value(e, env, Some(m)).value)
  {
    hide Inert, Balanced, Trimmed, Operand, Meaning;
    OperandAlone(spell(e), read);
    assert Shown(e, true, spell) == Shown(e, false, spell) == Leaf(spell(e));
  }

  lemma {:induction false} UnaryText(e: Expr, spell: Expr -> Text, whole: Text -> Text, read: Reading,
                                     env: Solver.Env, m: Solver.Message)
    requires e.Unary? && Solver.Value(e, env, Some(m)).Ok? && Trusted(whole, read) && WellRendered(Shown(e, false, spell))
    requires Computes(e.operand, spell, whole, read, Solver.Value(e.operand, env, Some(m)).value)
    ensures Computes(e, spell, whole, read, Solver.Value(e, env, Some(m)).value)
  {
    hide Inert, Balanced, Trimmed, Meaning, Trusted, IsSign, WellRendered, IsOperator, Solver.Value;
    var x := InC(Shown(e.operand, true, spell), whole);
    var t := [Sign(e.uop)] + x;
    assert InC(Shown(e, false, spell), whole) == t && InC(Shown(e, true, spell), whole) == InParens(t);
    TextPlain(e, spell, whole, read);
    assert t[1..] == x && t[0] == Sign(e.uop);
    SignedText(e.uop, x, read);
    OperandAlone(t, read);
    Regrouped(t, read);
    ValueOfUnary(e, env, m);
  }

  lemma ValueOfUnary(e: Expr, env: Solver.Env, m: Solver.Message)
    requires e.Unary? && Solver.Value(e, env, Some(m)).Ok?
    ensures Solver.Value(e.operand, env, Some(m)).Ok?
    ensures Solver.Value(e, env, Some(m)).value == ApplyUnary(e.uop, Solver.Value(e.operand, env, Some(m)).value)
  {
  }

  lemma {:induction false} SignedText(op: UnaryOp, x: Text, read: Reading)
    requires Operand(x) && Primary(x, read).Some?
    ensures var t := [Sign(op)] + x; Operand(t) && Primary(t, read) == Some(ApplyUnary(op, Primary(x, read).value))
  {
    var t := [Sign(op)] + x;
    assert t[1..] == x && t[0] == Sign(op);
    assert Level(t, 0) == Level(x, 0);
    NotAnOperator(op, x);
  }

  /** A sign in front of an operand makes no operator of it. */
  lemma NotAnOperator(op: UnaryOp, x: Text)
    requires x != [] && x != [Mark('=')]
    ensures !IsOperator([Sign(op)] + x)
  {
    var t := [Sign(op)] + x;
    assert t[1..] == x && t[0] == Sign(op);
    if b: BinaryOp :| Spelling(b) == t { assert b == Ne; }
  }

  lemma SpelledInMarks()
    ensures forall op: BinaryOp :: Spelling(op)[0].Mark?
  {
  }

  lemma {:induction false} TextPlain(e: Expr, spell: Expr -> Text, whole: Text -> Text, read: Reading)
    requires Trusted(whole, read) && WellRendered(Shown(e, false, spell))
    ensures Balanced(InC(Shown(e, false, spell), whole))
  {
    hide WellRendered, InC, Inert, Balanced, Trimmed;
    InCPlain(Shown(e, false, spell), whole);
  }

  lemma {:induction false} BinaryText(e: Expr, spell: Expr -> Text, whole: Text -> Text, read: Reading,
                                      env: Solver.Env, m: Solver.Message)
    requires e.Binary? && Solver.Value(e, env, Some(m)).Ok? && Trusted(whole, read) && WellRendered(Shown(e, false, spell))
    requires Computes(e.left, spell, whole, read, Solver.Value(e.left, env, Some(m)).value)
    requires Computes(e.right, spell, whole, read, Solver.Value(e.right, env, Some(m)).value)
    ensures Computes(e, spell, whole, read, Solver.Value(e, env, Some(m)).value)
  {
    hide Inert, Balanced, Trimmed, Meaning, Trusted, WellRendered, Operand, Primary, Solver.Value, Spelling;
    var l, r := InC(Shown(e.left, true, spell), whole), InC(Shown(e.right, true, spell), whole);
    var op := [Mark(' ')] + Spelling(e.op) + [Mark(' ')];
    var t := l + op + r;
    assert InC(Shown(e, false, spell), whole) == t && InC(Shown(e, true, spell), whole) == InParens(t);
    TextPlain(e, spell, whole, read);
    ThreeJoined(l, Spelling(e.op), r);
    assert t == Line([l, Spelling(e.op), r]);
    TwoMean(l, e.op, r, read);
    Regrouped(t, read);
    ValueOfBinary(e, env, m);
  }

  lemma ValueOfBinary(e: Expr, env: Solver.Env, m: Solver.Message)
    requires e.Binary? && Solver.Value(e, env, Some(m)).Ok?
    ensures Solver.Value(e.left, env, Some(m)).Ok? && Solver.Value(e.right, env, Some(m)).Ok?
    ensures Apply(e.op, Solver.Value(e.left, env, Some(m)).value, Solver.Value(e.right, env, Some(m)).value)
            == Some(Solver.Value(e, env, Some(m)).value)
  {
    hide And, Or, Xor, Pow2, TruncDiv, TruncMod;
  }

  lemma {:induction false} PairText(e: Expr, spell: Expr -> Text, whole: Text -> Text, read: Reading,
                                    env: Solver.Env, m: Solver.Message)
    requires e.Call? && |e.args| == 2 && IsBuiltin(e.fn) && e.fn != "popcount" && Solver.Value(e, env, Some(m)).Ok?
    requires Trusted(whole, read) && Evenly(e, env, m) && WellRendered(Shown(e, false, spell))
    requires Solver.Value(e.args[0], env, Some(m)).Ok? && Solver.Value(e.args[1], env, Some(m)).Ok?
    requires Computes(e.args[0], spell, whole, read, Solver.Value(e.args[0], env, Some(m)).value)
    requires Computes(e.args[1], spell, whole, read, Solver.Value(e.args[1], env, Some(m)).value)
    ensures Computes(e, spell, whole, read, Solver.Value(e, env, Some(m)).value)
  {
    hide Inert, Balanced, Trimmed, Meaning, Operand, Primary, Solver.Value, WellRendered, Chosen, Rounded, RoundUp, KeepsReads, KeepsMeaning;
    var l, r := InC(Shown(e.args[0], false, spell), whole), InC(Shown(e.args[1], false, spell), whole);
    var a, b := Solver.Value(e.args[0], env, Some(m)).value, Solver.Value(e.args[1], env, Some(m)).value;
    var t := InC(Shown(e, false, spell), whole);
    assert Shown(e, true, spell) == Shown(e, false, spell);
    TextPlain(e, spell, whole, read);
    TwoValues(e, env, m);
    if e.fn == "align_up" {
      assert t == Rounded(l, r);
      RoundedMeans(l, r, read, a, b);
    } else {
      assert t == Chosen(l, if e.fn == "min" then '<' else '>', r);
      ChosenMeans(l, e.fn == "min", r, read, a, b);
    }
  }

  lemma TwoValues(e: Expr, env: Solver.Env, m: Solver.Message)
    requires e.Call? && |e.args| == 2 && e.fn in {"min", "max", "align_up"} && Solver.Value(e, env, Some(m)).Ok?
    requires Solver.Value(e.args[0], env, Some(m)).Ok? && Solver.Value(e.args[1], env, Some(m)).Ok?
    ensures var a, b := Solver.Value(e.args[0], env, Some(m)).value, Solver.Value(e.args[1], env, Some(m)).value;
            if e.fn == "align_up" then b > 0 && Solver.Value(e, env, Some(m)) == Ok(RoundUp(a, b))
            else Solver.Value(e, env, Some(m)) == Ok(if e.fn == "min" then Min(a, b) else Max(a, b))
  {
    hide Solver.Value, RoundUp;
    ArgumentValues(e, env, m);
  }

  lemma {:induction false} CountText(e: Expr, spell: Expr -> Text, whole: Text -> Text, read: Reading,
                                     env: Solver.Env, m: Solver.Message)
    requires e.Call? && |e.args| == 1 && e.fn == "popcount" && Solver.Value(e, env, Some(m)).Ok?
    requires Trusted(whole, read) && WellRendered(Shown(e, false, spell))
    requires Solver.Value(e.args[0], env, Some(m)).Ok?
    requires Computes(e.args[0], spell, whole, read, Solver.Value(e.args[0], env, Some(m)).value)
    ensures Computes(e, spell, whole, read, Solver.Value(e, env, Some(m)).value)
  {
    hide Inert, Balanced, Trimmed, Meaning, Primary, Solver.Value, KeepsReads, IsOperator, BitCount, WellRendered;
    var x := InC(Shown(e.args[0], false, spell), whole);
    assert Shown(e, true, spell) == Shown(e, false, spell);
    assert InC(Shown(e, false, spell), whole) == [Word("situ_popcount_i64")] + InParens(whole(x));
    TextPlain(e, spell, whole, read);
    ArgumentPlain(e, spell, whole);
    CountedText(whole(x), read);
    OperandAlone([Word("situ_popcount_i64")] + InParens(whole(x)), read);
    ArgumentValues(e, env, m);
  }

  lemma {:induction false} ArgumentPlain(e: Expr, spell: Expr -> Text, whole: Text -> Text)
    requires e.Call? && |e.args| == 1 && e.fn == "popcount" && KeepsReads(whole) && WellRendered(Shown(e, false, spell))
    ensures Balanced(whole(InC(Shown(e.args[0], false, spell), whole)))
  {
    hide InC, Inert, Balanced, Trimmed;
    InCPlain(Shown(e.args[0], false, spell), whole);
    ReadsKept(InC(Shown(e.args[0], false, spell), whole), whole);
  }

  lemma {:induction false} CountedText(y: Text, read: Reading)
    requires Balanced(y) && Meaning(y, read).Some?
    ensures var t := [Word("situ_popcount_i64")] + InParens(y); Operand(t) && Primary(t, read) == Some(BitCount(Meaning(y, read).value))
  {
    hide Meaning, Balanced, BitCount;
    var t := [Word("situ_popcount_i64")] + InParens(y);
    Parenthesised(y, read);
    assert t[1..] == InParens(y) && t[2..|t| - 1] == y && InParens(y)[1..|InParens(y)| - 1] == y;
    assert Level(t, 0) == Level(InParens(y), 0);
    SpelledInMarks();
  }

  /** The text that is emitted for a size: expanding the calls in its rendering gives text from which C computes the
      value the compiler gives the expression in that message. */
  lemma {:induction false} GeneratedMeans(fuel: nat, e: Expr, spell: Expr -> Text, whole: Text -> Text, read: Reading,
                                          env: Solver.Env, m: Solver.Message) returns (text: Text)
    requires Trusted(whole, read) && Readable(e, spell, read, env, m) && Evenly(e, env, m)
    requires Solver.Value(e, env, Some(m)).Ok? && fuel >= Nesting(Shown(e, false, spell))
    ensures Expand(fuel, whole, BuiltinTheorems.Source(Shown(e, false, spell), whole)) == Some(text)
    ensures Meaning(text, read) == Some(Solver.Value(e, env, Some(m)).value)
  {
    hide Readable, Evenly, Solver.Value, Expand, Meaning, Shown, KeepsMeaning, KeepsReads, WellRendered, InC;
    ShownWell(e, false, spell, read, env, m);
    ExpansionIsTranslation(fuel, whole, Shown(e, false, spell));
    TextMeans(e, spell, whole, read, env, m);
    text := InC(Shown(e, false, spell), whole);
  }
}
