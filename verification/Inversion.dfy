/** Running a size expression backwards (situc/invariant.py): which field a length determines,
    and how to recover it. */
module Inversion {
  import opened Prelude
  import opened Ast
  import opened Bits
  import opened Intervals
  import opened Terms

  /** A constant, and a coefficient per path. */
  datatype Form = Form(constant: int, terms: Terms)

  /** `scale * path + offset` */
  datatype Linear = Linear(path: string, scale: int, offset: int)

  /** Why there is no linear form, or no single field; `NegativeShift` is Python's refusal to shift by a
      negative amount, and `DoesNotDetermine` the sentence `inversion_refusal` ends on. */
  datatype Why =
    | AppliesUnary | Calls | NotArithmetic | ShiftsByField | MultipliesFields | MultipliesByZero
    | Divides | UsesOperator | NegativeShift
    | NamesNoField | NamesSeveral | Shrinks | DoesNotDetermine

  /** `paths_in`: every dotted path an expression mentions. `spell` writes an index back as source. */
  function PathsIn(e: Expr, spell: Expr -> string): (paths: seq<string>)
    ensures e.NameRef? || e.Access? ==> |paths| == 1
    decreases e, 1
  {
    match e
    case Access(base, member) =>
      var paths := PathsIn(base, spell);
      [if paths != [] then paths[0] + "." + member else member]
    case Index(base, index) =>
      var paths := PathsIn(base, spell);
      if paths == [] then []
      else [paths[0] + "[" + (if index.Some? then spell(index.value) else "") + "]"]
    case NameRef(name) => [name]
    case Call(_, args) => PathsInAll(args, spell)
    case Binary(_, left, right) => PathsIn(left, spell) + PathsIn(right, spell)
    case Unary(_, operand) => PathsIn(operand, spell)
    case _ => []
  }

  function PathsInAll(es: seq<Expr>, spell: Expr -> string): seq<string>
    decreases es, 0
  {
    if es == [] then [] else PathsIn(es[0], spell) + PathsInAll(es[1..], spell)
  }

  // ----- which paths are listed

  /** A path as its author wrote it, or None for anything else. */
  function Spelling(e: Expr, spell: Expr -> string): Option<string> {
    match e
    case NameRef(name) => Some(name)
    case Access(base, member) =>
      var b := Spelling(base, spell);
      if b.None? then None else Some(b.value + "." + member)
    case Index(base, index) =>
      var b := Spelling(base, spell);
      if b.None? then None else Some(b.value + "[" + (if index.Some? then spell(index.value) else "") + "]")
    case _ => None
  }

  /** What an expression applies its operators and calls to, from left to right. */
  function Operands(e: Expr): seq<Expr>
    decreases e, 1
  {
    match e
    case Binary(_, left, right) => Operands(left) + Operands(right)
    case Unary(_, operand) => Operands(operand)
    case Call(_, args) => OperandsOf(args)
    case _ => [e]
  }

  function OperandsOf(es: seq<Expr>): seq<Expr>
    decreases es, 0
  {
    if es == [] then [] else Operands(es[0]) + OperandsOf(es[1..])
  }

  /** The spellings of those that are paths, in order. */
  function Spellings(es: seq<Expr>, spell: Expr -> string): seq<string> {
    if es == [] then []
    else
      var first := Spelling(es[0], spell);
      (if first.Some? then [first.value] else []) + Spellings(es[1..], spell)
  }

  /** Is a member or an element only taken of a path? */
  predicate OfPaths(es: seq<Expr>, spell: Expr -> string) {
    forall e :: e in es && (e.Access? || e.Index?) ==> Spelling(e, spell).Some?
  }

  lemma {:induction false} SpellingsJoin(a: seq<Expr>, b: seq<Expr>, spell: Expr -> string)
    ensures Spellings(a + b, spell) == Spellings(a, spell) + Spellings(b, spell)
  {
    hide Spelling;
    if a == [] {
      assert a + b == b;
    } else {
      assert (a + b)[0] == a[0] && (a + b)[1..] == a[1..] + b;
      SpellingsJoin(a[1..], b, spell);
    }
  }

  lemma {:induction false} PathIsSpelled(e: Expr, spell: Expr -> string)
    requires Spelling(e, spell).Some?
    ensures PathsIn(e, spell) == [Spelling(e, spell).value]
  {
    match e
    case NameRef(_) =>
    case Access(base, _) => PathIsSpelled(base, spell);
    case Index(base, _) => PathIsSpelled(base, spell);
  }

  /** Every path an expression applies anything to is listed as it was written, in order, as often as it
      stands there, and nothing else is. */
  lemma {:induction false} PathsListed(e: Expr, spell: Expr -> string)
    requires OfPaths(Operands(e), spell)
    ensures PathsIn(e, spell) == Spellings(Operands(e), spell)
    decreases e, 1
  {
    hide Spelling, OfPaths;
    match e
    case Binary(_, left, right) =>
      OfPathsSplit(Operands(left), Operands(right), spell);
      PathsListed(left, spell);
      PathsListed(right, spell);
      SpellingsJoin(Operands(left), Operands(right), spell);
    case Unary(_, operand) => PathsListed(operand, spell);
    case Call(_, args) => AllListed(args, spell);
    case _ => OneListed(e, spell);
  }

  lemma OneListed(e: Expr, spell: Expr -> string)
    requires OfPaths([e], spell) && !e.Binary? && !e.Unary? && !e.Call?
    ensures PathsIn(e, spell) == Spellings([e], spell)
  {
    assert e in [e] && [e][1..] == [];
    if Spelling(e, spell).Some? { PathIsSpelled(e, spell); }
  }

  lemma OfPathsSplit(a: seq<Expr>, b: seq<Expr>, spell: Expr -> string)
    requires OfPaths(a + b, spell)
    ensures OfPaths(a, spell) && OfPaths(b, spell)
  {
    assert forall e :: e in a || e in b ==> e in a + b;
  }

  lemma {:induction false} AllListed(es: seq<Expr>, spell: Expr -> string)
    requires OfPaths(OperandsOf(es), spell)
    ensures PathsInAll(es, spell) == Spellings(OperandsOf(es), spell)
    decreases es, 0
  {
    hide Spelling, OfPaths;
    if es != [] {
      OfPathsSplit(Operands(es[0]), OperandsOf(es[1..]), spell);
      PathsListed(es[0], spell);
      AllListed(es[1..], spell);
      SpellingsJoin(Operands(es[0]), OperandsOf(es[1..]), spell);
    }
  }

  /** `{path: by for path, by in terms.items() if by}` */
  function DropZeros(terms: Terms): Terms {
    if terms == [] then []
    else if terms[0].1 == 0 then DropZeros(terms[1..])
    else [terms[0]] + DropZeros(terms[1..])
  }

  /** `_linear`: an expression as a constant and a sum of paths, or why it is none. */
  function LinearForm(e: Expr, spell: Expr -> string): Result<Form, Why> {
    match e
    case IntLit(v, _) => Ok(Form(v, []))
    case NameRef(_) => Ok(Form(0, [(PathsIn(e, spell)[0], 1)]))
    case Access(_, _) => Ok(Form(0, [(PathsIn(e, spell)[0], 1)]))
    case Unary(op, operand) =>
      if op != Negate then Err(AppliesUnary)
      else
        var f :- LinearForm(operand, spell);
        Ok(Form(-f.constant, Scale(f.terms, -1)))
    case Binary(op, left, right) =>
      var l :- LinearForm(left, spell);
      var r :- LinearForm(right, spell);
      Combine(op, l, r)
    case Call(_, _) => Err(Calls)
    case _ => Err(NotArithmetic)
  }

  /** `_combine`: one operator on two linear forms, where the result is one. */
  function Combine(op: BinaryOp, l: Form, r: Form): Result<Form, Why> {
    match op
    case Add => Ok(Form(l.constant + r.constant, DropZeros(Merge(l.terms, r.terms, 1))))
    case Sub => Ok(Form(l.constant - r.constant, DropZeros(Merge(l.terms, r.terms, -1))))
    case Mul =>
      if r.terms != [] && l.terms != [] then Err(MultipliesFields)
      else if r.terms != [] then Times(r, l.constant)
      else Times(l, r.constant)
    case Shl =>
      if r.terms != [] then Err(ShiftsByField)
      else if r.constant < 0 then Err(NegativeShift)
      else Times(l, Pow2(r.constant))
    case Div => Err(Divides)
    case Mod => Err(Divides)
    case _ => Err(UsesOperator)
  }

  function Times(f: Form, n: int): Result<Form, Why> {
    if n == 0 then Err(MultipliesByZero) else Ok(Form(f.constant * n, Scale(f.terms, n)))
  }

  /** `invertible`: the field a length determines, and how. */
  function Invertible(e: Expr, spell: Expr -> string): Option<Linear> {
    match LinearForm(e, spell)
    case Err(_) => None
    case Ok(f) =>
      if |f.terms| != 1 || f.terms[0].1 <= 0 then None
      else Some(Linear(f.terms[0].0, f.terms[0].1, f.constant))
  }

  /** `inversion_refusal`. */
  function InversionRefusal(e: Expr, spell: Expr -> string): Why {
    match LinearForm(e, spell)
    case Err(why) => why
    case Ok(f) =>
      if f.terms == [] then NamesNoField
      else if |f.terms| > 1 then NamesSeveral
      else if f.terms[0].1 < 0 then Shrinks
      else DoesNotDetermine
  }

  // ----- what a size expression is worth

  /** The value of a size expression, given what each path holds; None where it has none. */
  function Size(e: Expr, spell: Expr -> string, fields: map<string, int>): Option<int> {
    match e
    case IntLit(v, _) => Some(v)
    case NameRef(_) => Some(At(fields, PathsIn(e, spell)[0]))
    case Access(_, _) => Some(At(fields, PathsIn(e, spell)[0]))
    case Unary(op, operand) =>
      (match Size(operand, spell, fields)
       case Some(v) => Some(ApplyUnary(op, v))
       case None => None)
    case Binary(op, left, right) =>
      (match (Size(left, spell, fields), Size(right, spell, fields))
       case (Some(l), Some(r)) => Apply(op, l, r)
       case _ => None)
    case _ => None
  }

  // ----- the form is exact, and has no zero in it

  predicate NoZeros(terms: Terms) {
    forall i :: 0 <= i < |terms| ==> terms[i].1 != 0
  }

  lemma {:induction false} DropZerosKeeps(terms: Terms, fields: map<string, int>)
    ensures Sum(DropZeros(terms), fields) == Sum(terms, fields)
    ensures NoZeros(DropZeros(terms)) && Keys(DropZeros(terms)) <= Keys(terms)
    ensures Distinct(terms) ==> Distinct(DropZeros(terms))
  {
    if terms != [] {
      DropZerosKeeps(terms[1..], fields);
    }
  }

  lemma {:induction false} ScaleNoZeros(terms: Terms, n: int)
    requires NoZeros(terms) && n != 0
    ensures NoZeros(Scale(terms, n)) && |Scale(terms, n)| == |terms|
  {
    if terms != [] {
      ScaleNoZeros(terms[1..], n);
    }
  }

  /** The linear form, where there is one: a dictionary without zeros whose sum is the size. */
  predicate ExactForm(e: Expr, spell: Expr -> string, fields: map<string, int>) {
    match LinearForm(e, spell)
    case Err(_) => true
    case Ok(f) =>
      Distinct(f.terms) && NoZeros(f.terms) && Size(e, spell, fields) == Some(f.constant + Sum(f.terms, fields))
  }

  lemma {:induction false} FormExact(e: Expr, spell: Expr -> string, fields: map<string, int>)
    ensures ExactForm(e, spell, fields)
  {
    match e {
      case NameRef(_) => SumOne(PathsIn(e, spell)[0], 1, fields);
      case Access(_, _) => SumOne(PathsIn(e, spell)[0], 1, fields);
      case Unary(_, operand) =>
        FormExact(operand, spell, fields);
        UnaryExact(e, spell, fields);
      case Binary(_, left, right) =>
        FormExact(left, spell, fields);
        FormExact(right, spell, fields);
        BinaryExact(e, spell, fields);
      case _ =>
    }
  }

  lemma {:induction false} UnaryExact(e: Expr, spell: Expr -> string, fields: map<string, int>)
    requires e.Unary? && ExactForm(e.operand, spell, fields)
    ensures ExactForm(e, spell, fields)
  {
    hide Sum, Scale, NoZeros, Distinct;
    if LinearForm(e, spell).Ok? {
      var f := LinearForm(e.operand, spell).value;
      ScaleKeys(f.terms, -1);
      ScaleNoZeros(f.terms, -1);
      SumScale(f.terms, -1, fields);
    }
  }

  lemma {:induction false} BinaryExact(e: Expr, spell: Expr -> string, fields: map<string, int>)
    requires e.Binary? && ExactForm(e.left, spell, fields) && ExactForm(e.right, spell, fields)
    ensures ExactForm(e, spell, fields)
  {
    hide Combine, Sum, Apply;
    if LinearForm(e, spell).Ok? {
      CombineExact(e.op, LinearForm(e.left, spell).value, LinearForm(e.right, spell).value, fields);
    }
  }

  lemma SumNone(fields: map<string, int>)
    ensures Sum([], fields) == 0
  {
  }

  lemma SumOne(path: string, n: int, fields: map<string, int>)
    ensures Sum([(path, n)], fields) == n * At(fields, path)
    ensures Distinct([(path, n)])
  {
    assert [(path, n)][1..] == [];
  }

  lemma {:induction false} CombineExact(op: BinaryOp, l: Form, r: Form, fields: map<string, int>)
    requires Distinct(l.terms) && NoZeros(l.terms) && Distinct(r.terms) && NoZeros(r.terms)
    requires Combine(op, l, r).Ok?
    ensures var f := Combine(op, l, r).value;
            && Distinct(f.terms) && NoZeros(f.terms)
            && Apply(op, l.constant + Sum(l.terms, fields), r.constant + Sum(r.terms, fields))
            == Some(f.constant + Sum(f.terms, fields))
  {
    hide DropZeros, Merge, Scale, Sum, Distinct, NoZeros;
    SumNone(fields);
    match op {
      case Add => MergeExact(l, r, 1, fields);
      case Sub => MergeExact(l, r, -1, fields);
      case Mul => if r.terms != [] { TimesExact(r, l.constant, fields); } else { TimesExact(l, r.constant, fields); }
      case Shl => TimesExact(l, Pow2(r.constant), fields);
    }
  }

  lemma {:induction false} MergeExact(l: Form, r: Form, sign: int, fields: map<string, int>)
    requires Distinct(l.terms)
    ensures var terms := DropZeros(Merge(l.terms, r.terms, sign));
            && Distinct(terms) && NoZeros(terms)
            && Sum(terms, fields) == Sum(l.terms, fields) + sign * Sum(r.terms, fields)
  {
    MergeKeys(l.terms, r.terms, sign);
    SumMerge(l.terms, r.terms, sign, fields);
    DropZerosKeeps(Merge(l.terms, r.terms, sign), fields);
  }

  lemma {:induction false} TimesExact(f: Form, n: int, fields: map<string, int>)
    requires Distinct(f.terms) && NoZeros(f.terms) && n != 0
    ensures Distinct(Scale(f.terms, n)) && NoZeros(Scale(f.terms, n))
    ensures f.constant * n + Sum(Scale(f.terms, n), fields) == (f.constant + Sum(f.terms, fields)) * n
    ensures f.constant * n + Sum(Scale(f.terms, n), fields) == n * (f.constant + Sum(f.terms, fields))
  {
    ScaleKeys(f.terms, n);
    ScaleNoZeros(f.terms, n);
    SumScale(f.terms, n, fields);
    MulDistributes(f.constant, Sum(f.terms, fields), n);
  }

  // ----- which expressions have a form

  /** Do some two messages give it different values? */
  ghost predicate Varies(e: Expr, spell: Expr -> string) {
    exists v, w :: Size(e, spell, v) != Size(e, spell, w)
  }

  /** A form names a field exactly where the value varies. */
  lemma {:induction false} TermsIff(e: Expr, spell: Expr -> string)
    requires LinearForm(e, spell).Ok?
    ensures LinearForm(e, spell).value.terms != [] <==> Varies(e, spell)
    ensures !Varies(e, spell) ==> forall v :: Size(e, spell, v) == Some(LinearForm(e, spell).value.constant)
  {
    var f := LinearForm(e, spell).value;
    if f.terms == [] {
      forall v ensures Size(e, spell, v) == Some(f.constant) { FormExact(e, spell, v); }
    } else {
      var v := map[f.terms[0].0 := 1];
      FormExact(e, spell, v);
      FormExact(e, spell, map[]);
      SumNothing(f.terms[1..], v);
      SumNothing(f.terms, map[]);
      assert Size(e, spell, v) != Size(e, spell, map[]);
    }
  }

  /** Of two expressions with forms: what an operator makes of them has one exactly where it adds or subtracts, or
      multiplies by a number that is not zero, or shifts left by a number that is not negative. */
  lemma {:induction false} CombinedIff(e: Expr, spell: Expr -> string)
    requires e.Binary? && LinearForm(e.left, spell).Ok? && LinearForm(e.right, spell).Ok?
    ensures var r, l, n := LinearForm(e, spell), LinearForm(e.left, spell).value.constant, LinearForm(e.right, spell).value.constant;
            && (e.op == Add || e.op == Sub ==> r.Ok?)
            && (e.op == Mul ==>
                  && (r == Err(MultipliesFields) <==> Varies(e.left, spell) && Varies(e.right, spell))
                  && (r == Err(MultipliesByZero) <==>
                      !(Varies(e.left, spell) && Varies(e.right, spell)) && (if Varies(e.right, spell) then l else n) == 0)
                  && (r.Ok? <==> r != Err(MultipliesFields) && r != Err(MultipliesByZero)))
            && (e.op == Shl ==>
                  && (r == Err(ShiftsByField) <==> Varies(e.right, spell))
                  && (r == Err(NegativeShift) <==> !Varies(e.right, spell) && n < 0)
                  && (r.Ok? <==> !Varies(e.right, spell) && n >= 0))
            && (r == Err(Divides) <==> e.op == Div || e.op == Mod)
            && (r == Err(UsesOperator) <==> e.op !in {Add, Sub, Mul, Shl, Div, Mod})
  {
    hide Varies, Scale, Merge, DropZeros, Pow2;
    TermsIff(e.left, spell);
    TermsIff(e.right, spell);
    assert e.op == Shl && LinearForm(e.right, spell).value.constant >= 0 ==> Pow2(LinearForm(e.right, spell).value.constant) != 0;
  }

  /** A part without a form refuses the whole with its own reason, the left one first; the rest has none only where it
      is a call, another unary operator or nothing to compute with. */
  lemma {:induction false} RefusedParts(e: Expr, spell: Expr -> string)
    ensures e.IntLit? || e.NameRef? || e.Access? ==> LinearForm(e, spell).Ok?
    ensures e.Call? <==> LinearForm(e, spell) == Err(Calls) && !e.Unary? && !e.Binary?
    ensures e.CharLit? || e.StrLit? || e.Index? || e.Remaining? ==> LinearForm(e, spell) == Err(NotArithmetic)
    ensures e.Unary? && e.uop != Negate ==> LinearForm(e, spell) == Err(AppliesUnary)
    ensures e.Unary? && e.uop == Negate ==>
            (LinearForm(e, spell).Ok? <==> LinearForm(e.operand, spell).Ok?) &&
            (LinearForm(e, spell).Err? ==> LinearForm(e, spell).error == LinearForm(e.operand, spell).error)
    ensures e.Binary? && LinearForm(e.left, spell).Err? ==>
            LinearForm(e, spell).Err? && LinearForm(e, spell).error == LinearForm(e.left, spell).error
    ensures e.Binary? && LinearForm(e.left, spell).Ok? && LinearForm(e.right, spell).Err? ==>
            LinearForm(e, spell).Err? && LinearForm(e, spell).error == LinearForm(e.right, spell).error
  {
  }

  // ----- inversion

  /** An invertible expression is `scale * path + offset` in every message, and `scale` is positive. */
  lemma {:induction false} InvertibleExact(e: Expr, spell: Expr -> string, fields: map<string, int>)
    requires Invertible(e, spell).Some?
    ensures var l := Invertible(e, spell).value;
            l.scale > 0 && Size(e, spell, fields) == Some(l.scale * At(fields, l.path) + l.offset)
  {
    FormExact(e, spell, fields);
    var f := LinearForm(e, spell).value;
    assert f.terms == [(f.terms[0].0, f.terms[0].1)];
    SumOne(f.terms[0].0, f.terms[0].1, fields);
  }

  /** `(length - offset) / scale` is the field of every message that has the length, and a length
      is had by some message exactly when that division leaves nothing. */
  lemma {:induction false} LengthInverts(e: Expr, spell: Expr -> string, length: int)
    requires Invertible(e, spell).Some?
    ensures var l := Invertible(e, spell).value;
            && (forall fields :: Size(e, spell, fields) == Some(length) ==>
                  At(fields, l.path) == (length - l.offset) / l.scale)
            && ((exists fields :: Size(e, spell, fields) == Some(length)) <==> (length - l.offset) % l.scale == 0)
  {
    hide Invertible, Size;
    var l := Invertible(e, spell).value;
    InvertibleExact(e, spell, map[]);
    var d := length - l.offset;
    forall fields | Size(e, spell, fields) == Some(length)
      ensures At(fields, l.path) == d / l.scale && d % l.scale == 0
    {
      InvertibleExact(e, spell, fields);
      ExactQuotient(l.scale, At(fields, l.path), d);
    }
    if d % l.scale == 0 {
      var fields := map[l.path := d / l.scale];
      InvertibleExact(e, spell, fields);
      ExactQuotient(l.scale, d / l.scale, d);
      assert Size(e, spell, fields) == Some(length);
    }
  }

  lemma ExactQuotient(s: int, x: int, d: int)
    requires s > 0
    ensures d == s * x <==> d % s == 0 && d / s == x
  {
    if d == s * x { DivUnique(d, s, x); }
  }

  lemma {:induction false} NeverTheLastSentence(e: Expr, spell: Expr -> string)
    ensures LinearForm(e, spell) != Err(DoesNotDetermine)
  {
    match e {
      case Unary(_, operand) => NeverTheLastSentence(operand, spell);
      case Binary(_, left, right) =>
        NeverTheLastSentence(left, spell);
        NeverTheLastSentence(right, spell);
      case _ =>
    }
  }

  /** Where there is no inverse the refusal is never the last sentence of all. */
  lemma {:induction false} RefusalIsSpecific(e: Expr, spell: Expr -> string)
    ensures Invertible(e, spell).None? <==> InversionRefusal(e, spell) != DoesNotDetermine
  {
    NeverTheLastSentence(e, spell);
    FormExact(e, spell, map[]);
  }

  /** Do two messages of one length agree on every field the form names? */
  ghost predicate Determines(e: Expr, spell: Expr -> string, terms: Terms) {
    forall v, w, i ::
      Size(e, spell, v) == Size(e, spell, w) && 0 <= i < |terms| ==> At(v, terms[i].0) == At(w, terms[i].0)
  }

  /** A length says what the fields of a linear size hold exactly when there is at most one. */
  lemma {:induction false} DeterminesIff(e: Expr, spell: Expr -> string)
    requires LinearForm(e, spell).Ok?
    ensures Determines(e, spell, LinearForm(e, spell).value.terms) <==> |LinearForm(e, spell).value.terms| <= 1
  {
    var f := LinearForm(e, spell).value;
    if |f.terms| <= 1 {
      forall v, w, i | Size(e, spell, v) == Size(e, spell, w) && 0 <= i < |f.terms|
        ensures At(v, f.terms[i].0) == At(w, f.terms[i].0)
      {
        FormExact(e, spell, v);
        FormExact(e, spell, w);
        var (path, n) := f.terms[0];
        assert f.terms == [(path, n)];
        SumOne(path, n, v);
        SumOne(path, n, w);
        CancelFactor(n, At(v, path), At(w, path));
      }
    } else {
      var (p, a) := f.terms[0];
      var (q, b) := f.terms[1];
      var v := map[p := b, q := -a];
      FormExact(e, spell, v);
      FormExact(e, spell, map[]);
      TradeOff(f.terms, v);
      assert At(v, f.terms[0].0) != At(map[], f.terms[0].0);
    }
  }

  lemma CancelFactor(n: int, x: int, y: int)
    requires n != 0 && n * x == n * y
    ensures x == y
  {
    MulDistributes(x, y, n);
  }

  lemma {:induction false} SumNothing(terms: Terms, fields: map<string, int>)
    requires forall k :: k in Keys(terms) ==> At(fields, k) == 0
    ensures Sum(terms, fields) == 0
  {
    if terms != [] { SumNothing(terms[1..], fields); }
  }

  /** Giving to one field what another takes, each by the other's coefficient, leaves the sum. */
  lemma {:induction false} TradeOff(terms: Terms, fields: map<string, int>)
    requires Distinct(terms) && |terms| >= 2
    requires fields == map[terms[0].0 := terms[1].1, terms[1].0 := -terms[0].1]
    ensures Sum(terms, fields) == Sum(terms, map[])
  {
    var rest := terms[2..];
    assert terms[1..][1..] == rest && terms[1..][0] == terms[1];
    SumNothing(rest, fields);
    SumNothing(terms, map[]);
    assert Sum(terms[1..], fields) == terms[1].1 * At(fields, terms[1].0) + Sum(rest, fields);
  }
}
