/** The test of a relation as C and C++ compute it, and when it answers as unbounded integers do. */
module RelationMachine {
  import opened Prelude
  import opened Ast
  import opened Bits
  import opened Intervals
  import opened Relations
  import opened RelationTheorems
  import opened RelationMeaning
  import opened RelationWidth
  import Solver

  // ----- the type of each part

  predicate Shifts(op: BinaryOp) {
    op == Shl || op == Shr
  }

  predicate Stops(op: BinaryOp) {
    op == LogicalAnd || op == LogicalOr
  }

  /** The type an operator's operands are brought to: a shift's is its left side's. */
  function Brought(op: BinaryOp, a: Ctype, b: Ctype): Ctype {
    if Shifts(op) then a else Common(a, b)
  }

  /** The type a part is computed in: only a read makes it a 64-bit one, and a flag is an `int` again. */
  function TypeOf(e: Expr, signed: bool): Ctype {
    match e
    case IntLit(v, _) => if InType(Int32, v) then Int32 else Int64
    case NameRef(_) => ReadType(signed)
    case Access(_, _) => ReadType(signed)
    case Unary(op, x) => if op == LogicalNot then Int32 else TypeOf(x, signed)
    case Binary(op, l, r) =>
      if Compares(op) || Stops(op) then Int32 else Brought(op, TypeOf(l, signed), TypeOf(r, signed))
    case _ => Int32
  }

  function OperandType(op: BinaryOp, l: Expr, r: Expr, signed: bool): Ctype {
    Brought(op, TypeOf(l, signed), TypeOf(r, signed))
  }

  lemma {:induction false} SignedTypes(e: Expr)
    ensures TypeOf(e, true) != Word64
  {
    match e
    case Unary(_, x) => SignedTypes(x);
    case Binary(_, l, r) => SignedTypes(l); SignedTypes(r);
    case _ =>
  }

  // ----- values kept in a type

  /** What an unsigned 64-bit value keeps of `v`. */
  function Wrap(v: int): int {
    v % Pow2(WORD)
  }

  /** A value brought to a type: an unsigned one wraps, and a signed one holds all it is given. */
  function Convert(t: Ctype, v: int): int {
    if t == Word64 then Wrap(v) else v
  }

  /** A result in a type, or None where a signed one overflows, which C leaves undefined. */
  function Kept(t: Ctype, v: int): Option<Node> {
    if t == Word64 then Some(Number(Wrap(v))) else if InType(t, v) then Some(Number(v)) else None
  }

  lemma {:induction false} WrapKeeps(v: int)
    requires InType(Word64, v)
    ensures Wrap(v) == v
  {
    hide Pow2;
    TypeEnds(Word64);
    DivUnique(v, Pow2(WORD), 0);
  }

  lemma WrapFits(v: int)
    ensures InType(Word64, Wrap(v))
  {
    hide Pow2;
    TypeEnds(Word64);
  }

  lemma ConvertKeeps(t: Ctype, v: int)
    requires InType(t, v)
    ensures Convert(t, v) == v && Kept(t, v) == Some(Number(v))
  {
    hide Wrap, Pow2;
    if t == Word64 { WrapKeeps(v); }
  }

  // ----- the generated test

  /** One operator, in the type its operands are brought to. A shift by the width or more has no agreed
      value. */
  function MachineOperate(op: BinaryOp, t: Ctype, l: Option<Node>, r: Option<Node>): Option<Node> {
    match (l, r)
    case (Some(Number(a)), Some(Number(b))) =>
      if Shifts(op) then (if 0 <= b < Width(t) then Kept(t, Apply(op, a, b).value) else None)
      else
        (match Apply(op, Convert(t, a), Convert(t, b))
         case None => None
         case Some(v) => if Compares(op) then Some(Number(v)) else Kept(t, v))
    case _ => None
  }

  /** The test as C and C++ run it, reads cast to the 64-bit type and literals bare. */
  function Machine(e: Expr, signed: bool, env: Env): Option<Node> {
    match e
    case IntLit(v, _) => Kept(TypeOf(e, signed), v)
    case NameRef(name) =>
      if name in env && env[name].Number? then Some(Number(Convert(ReadType(signed), env[name].value))) else None
    case Unary(op, x) =>
      (match Machine(x, signed, env)
       case Some(Number(v)) => Kept(TypeOf(e, signed), ApplyUnary(op, v))
       case _ => None)
    case Binary(LogicalAnd, l, r) =>
      (match Truth(Machine(l, signed, env))
       case None => None
       case Some(false) => Flag(false)
       case Some(true) => match Truth(Machine(r, signed, env)) case None => None case Some(b) => Flag(b))
    case Binary(LogicalOr, l, r) =>
      (match Truth(Machine(l, signed, env))
       case None => None
       case Some(true) => Flag(true)
       case Some(false) => match Truth(Machine(r, signed, env)) case None => None case Some(b) => Flag(b))
    case Binary(op, l, r) =>
      MachineOperate(op, OperandType(op, l, r, signed), Machine(l, signed, env), Machine(r, signed, env))
    case _ => None
  }

  // ----- what is known of the test's operands

  /** Is the amount a literal or a local, and 0 to 63? */
  predicate AmountFits(amount: Expr, env: Env) {
    match amount
    case IntLit(v, _) => 0 <= v < SHIFT_WIDTH
    case NameRef(name) => name in env && env[name].Number? && 0 <= env[name].value < SHIFT_WIDTH
    case _ => false
  }

  /** Locals hold values of the type reads are cast to, shifts are by 0 to 63, and nothing signed is divided. */
  predicate Fitting(test: Expr, signed: bool, env: Env) {
    match test
    case IntLit(_, _) => true
    case NameRef(name) => name in env && env[name].Number? && InWord(signed, env[name].value)
    case Unary(_, x) => Fitting(x, signed, env)
    case Binary(op, l, r) =>
      && Fitting(l, signed, env) && Fitting(r, signed, env)
      && (signed ==> op != Div && op != Mod)
      && (Shifts(op) ==> AmountFits(r, env))
    case _ => false
  }

  /** Each path's local is within what the shift rule took the path to be, and in the type. */
  ghost predicate InRanges(e: Expr, signed: bool, ranges: map<Path, Interval>, names: map<Path, string>, env: Env) {
    forall i :: 0 <= i < |PathsIn(e)| ==> RangedPath(PathsIn(e)[i], signed, ranges, names, env)
  }

  ghost predicate RangedPath(path: Path, signed: bool, ranges: map<Path, Interval>, names: map<Path, string>, env: Env) {
    && path in ranges && ranges[path].loKnown && path in names && names[path] in env && env[names[path]].Number?
    && InWord(signed, env[names[path]].value) && ranges[path].Contains(env[names[path]].value)
  }

  lemma {:induction false} RangedSplit(l: Expr, r: Expr, op: BinaryOp, signed: bool, ranges: map<Path, Interval>,
                                       names: map<Path, string>, env: Env)
    requires InRanges(Binary(op, l, r), signed, ranges, names, env)
    ensures InRanges(l, signed, ranges, names, env) && InRanges(r, signed, ranges, names, env)
  {
    hide RangedPath;
    var all := PathsIn(Binary(op, l, r));
    forall i | 0 <= i < |PathsIn(l)| ensures RangedPath(PathsIn(l)[i], signed, ranges, names, env) {
      assert all[i] == PathsIn(l)[i];
    }
    forall i | 0 <= i < |PathsIn(r)| ensures RangedPath(PathsIn(r)[i], signed, ranges, names, env) {
      assert all[|PathsIn(l)| + i] == PathsIn(r)[i];
    }
  }

  /** What a path is rendered as. */
  lemma {:induction false} PathTest(e: Expr, names: map<Path, string>)
    requires (e.NameRef? || e.Access?) && PathOf(e) in names
    ensures Render(e, names) == Some(NameRef(names[PathOf(e)]))
  {
  }

  /** A shift's amount is rendered as a literal or a local, and is 0 to 63 in every message that keeps
      to its bounds. */
  lemma {:induction false} ShiftIsBelow64(e: Expr, signed: bool, ranges: map<Path, Interval>,
                                           names: map<Path, string>, env: Env)
    requires e.Binary? && Shifts(e.op) && Check(e, signed, ranges).Ok?
    requires InRanges(e.right, signed, ranges, names, env)
    ensures Render(e.right, names).Some? && AmountFits(Render(e.right, names).value, env)
  {
    var amount := e.right;
    assert ProvablyBelow64(ShiftAmount(amount, ranges));
    if amount.NameRef? || amount.Access? {
      assert RangedPath(PathsIn(amount)[0], signed, ranges, names, env);
      assert PathsIn(amount) == [PathOf(amount)];
      PathTest(amount, names);
    }
  }

  /** The rendered test of an accepted constraint meets what the 64-bit operators ask for. */
  lemma {:induction false} RenderedFits(e: Expr, signed: bool, ranges: map<Path, Interval>, names: map<Path, string>, env: Env)
    requires Check(e, signed, ranges).Ok? && InRanges(e, signed, ranges, names, env)
    ensures Render(e, names).Some? && Fitting(Render(e, names).value, signed, env)
  {
    hide InWord, ShiftAmount, ProvablyBelow64, InRanges, PathsIn, AmountFits, RangedPath, RenderPath;
    match e
    case IntLit(_, _) =>
    case NameRef(_) =>
      LeafFits(e, signed, ranges, names, env);
    case Access(_, _) =>
      LeafFits(e, signed, ranges, names, env);
    case Unary(op, x) =>
      RangedInside(x, op, signed, ranges, names, env);
      RenderedFits(x, signed, ranges, names, env);
    case Binary(op, l, r) =>
      RangedSplit(l, r, op, signed, ranges, names, env);
      RenderedFits(l, signed, ranges, names, env);
      RenderedFits(r, signed, ranges, names, env);
      if Shifts(op) { ShiftIsBelow64(e, signed, ranges, names, env); }
  }

  lemma {:induction false} LeafFits(e: Expr, signed: bool, ranges: map<Path, Interval>, names: map<Path, string>, env: Env)
    requires (e.NameRef? || e.Access?) && InRanges(e, signed, ranges, names, env)
    ensures Render(e, names).Some? && Fitting(Render(e, names).value, signed, env)
  {
    hide InWord, Render;
    assert PathsIn(e) == [PathOf(e)];
    assert RangedPath(PathsIn(e)[0], signed, ranges, names, env);
    PathTest(e, names);
  }

  lemma {:induction false} RangedInside(x: Expr, op: UnaryOp, signed: bool, ranges: map<Path, Interval>,
                                        names: map<Path, string>, env: Env)
    requires InRanges(Unary(op, x), signed, ranges, names, env)
    ensures InRanges(x, signed, ranges, names, env)
  {
    hide RangedPath;
    assert PathsIn(Unary(op, x)) == PathsIn(x);
  }

  // ----- where every value is in its type

  /** Does `&&` or `||` leave its right side alone? */
  predicate Skips(op: BinaryOp, left: Option<Node>) {
    (op == LogicalAnd && Truth(left) == Some(false)) || (op == LogicalOr && Truth(left) == Some(true))
  }

  predicate ValueInside(t: Ctype, n: Option<Node>) {
    n.Some? && n.value.Number? ==> InType(t, n.value.value)
  }

  /** Are the operands ones the type holds, or, of a shift, is the amount below its width? */
  predicate OperandsInside(op: BinaryOp, t: Ctype, l: Option<Node>, r: Option<Node>) {
    if Stops(op) then true
    else if Shifts(op) then r.Some? && r.value.Number? ==> 0 <= r.value.value < Width(t)
    else ValueInside(t, l) && ValueInside(t, r)
  }

  /** Is every value on the way one of the type it is computed in, and of the type it is brought to? */
  predicate Inside(e: Expr, signed: bool, env: Env) {
    && ValueInside(TypeOf(e, signed), Evaluate(e, env))
    && match e
       case Unary(_, x) => Inside(x, signed, env)
       case Binary(op, l, r) =>
         && Inside(l, signed, env) && (Skips(op, Evaluate(l, env)) || Inside(r, signed, env))
         && OperandsInside(op, OperandType(op, l, r, signed), Evaluate(l, env), Evaluate(r, env))
       case _ => true
  }

  /** One step of both evaluations. */
  lemma {:induction false} OneStep(op: BinaryOp, l: Expr, r: Expr, signed: bool, env: Env)
    requires !Stops(op)
    ensures Evaluate(Binary(op, l, r), env) == Operate(op, Evaluate(l, env), Evaluate(r, env))
    ensures Machine(Binary(op, l, r), signed, env) ==
            MachineOperate(op, OperandType(op, l, r, signed), Machine(l, signed, env), Machine(r, signed, env))
  {
    hide Operate, MachineOperate, OperandType;
  }

  lemma {:induction false} UnaryStep(op: UnaryOp, x: Expr, signed: bool, env: Env)
    ensures Evaluate(Unary(op, x), env) == (match Evaluate(x, env)
                                            case Some(Number(v)) => Some(Number(ApplyUnary(op, v)))
                                            case _ => None)
    ensures Machine(Unary(op, x), signed, env) == (match Machine(x, signed, env)
                                                   case Some(Number(v)) => Kept(TypeOf(Unary(op, x), signed), ApplyUnary(op, v))
                                                   case _ => None)
  {
    hide ApplyUnary, Kept, TypeOf;
  }

  lemma {:induction false} StopStep(op: BinaryOp, l: Expr, r: Expr, signed: bool, env: Env)
    requires Stops(op) && Machine(l, signed, env) == Evaluate(l, env)
    requires Skips(op, Evaluate(l, env)) || Machine(r, signed, env) == Evaluate(r, env)
    ensures Machine(Binary(op, l, r), signed, env) == Evaluate(Binary(op, l, r), env)
  {
    hide Operate, MachineOperate, Truth;
    if op == LogicalAnd { AndStep(l, r, signed, env); } else { OrStep(l, r, signed, env); }
  }

  lemma AndStep(l: Expr, r: Expr, signed: bool, env: Env)
    requires Truth(Machine(l, signed, env)) == Truth(Evaluate(l, env))
    requires Truth(Evaluate(l, env)) == Some(false) || Truth(Machine(r, signed, env)) == Truth(Evaluate(r, env))
    ensures Machine(Binary(LogicalAnd, l, r), signed, env) == Evaluate(Binary(LogicalAnd, l, r), env)
  {
    hide Operate, MachineOperate, Truth, OperandType;
  }

  lemma OrStep(l: Expr, r: Expr, signed: bool, env: Env)
    requires Truth(Machine(l, signed, env)) == Truth(Evaluate(l, env))
    requires Truth(Evaluate(l, env)) == Some(true) || Truth(Machine(r, signed, env)) == Truth(Evaluate(r, env))
    ensures Machine(Binary(LogicalOr, l, r), signed, env) == Evaluate(Binary(LogicalOr, l, r), env)
  {
    hide Operate, MachineOperate, Truth, OperandType;
  }

  /** Two numbers under an operator, in a type that holds them and the result. */
  lemma {:induction false} OperatorAgrees(op: BinaryOp, t: Ctype, result: Ctype, l: Option<Node>, r: Option<Node>)
    requires !Stops(op) && OperandsInside(op, t, l, r) && (Compares(op) || result == t)
    requires l.Some? ==> l.value.Number?
    requires r.Some? ==> r.value.Number?
    requires ValueInside(result, Operate(op, l, r))
    ensures MachineOperate(op, t, l, r) == Operate(op, l, r)
  {
    hide Apply, Kept, Convert, InType;
    if l.Some? && r.Some? {
      var a, b := l.value.value, r.value.value;
      if Shifts(op) {
        ShiftDefined(op, a, b);
        ConvertKeeps(t, Apply(op, a, b).value);
      } else {
        ConvertKeeps(t, a);
        ConvertKeeps(t, b);
        if Apply(op, a, b).Some? && !Compares(op) { ConvertKeeps(t, Apply(op, a, b).value); }
      }
    }
  }

  lemma ShiftDefined(op: BinaryOp, a: int, b: nat)
    requires Shifts(op)
    ensures Apply(op, a, b).Some?
  {
  }

  /** The expression is a number wherever it is anything. */
  lemma {:induction false} Numeric(test: Expr, signed: bool, env: Env)
    requires Fitting(test, signed, env)
    ensures Evaluate(test, env).Some? ==> Evaluate(test, env).value.Number?
  {
    match test
    case Binary(_, l, r) => Numeric(l, signed, env); Numeric(r, signed, env);
    case _ =>
  }

  /** Where every value is in its type, the C test answers as unbounded integers do. */
  lemma {:induction false} MachineAgrees(test: Expr, signed: bool, env: Env)
    requires Fitting(test, signed, env) && Inside(test, signed, env)
    ensures Machine(test, signed, env) == Evaluate(test, env)
  {
    hide Operate, MachineOperate, ApplyUnary, Kept, Convert, InWord, InType, AmountFits, TypeOf, OperandType, OperandsInside;
    match test
    case IntLit(v, _) => ConvertKeeps(TypeOf(test, signed), v);
    case NameRef(name) => ReadKept(name, signed, env);
    case Unary(op, x) =>
      MachineAgrees(x, signed, env);
      UnaryAgrees(op, x, signed, env);
    case Binary(op, l, r) =>
      MachineAgrees(l, signed, env);
      if !Skips(op, Evaluate(l, env)) { MachineAgrees(r, signed, env); }
      Numeric(l, signed, env);
      Numeric(r, signed, env);
      BinaryAgrees(op, l, r, signed, env);
  }

  lemma ReadKept(name: string, signed: bool, env: Env)
    requires name in env && env[name].Number? && InWord(signed, env[name].value)
    ensures Machine(NameRef(name), signed, env) == Some(env[name])
  {
    hide Convert, InWord, InType;
    ReadTypeIsWord(signed, env[name].value);
    ConvertKeeps(ReadType(signed), env[name].value);
  }

  lemma {:induction false} UnaryAgrees(op: UnaryOp, x: Expr, signed: bool, env: Env)
    requires Machine(x, signed, env) == Evaluate(x, env)
    requires ValueInside(TypeOf(Unary(op, x), signed), Evaluate(Unary(op, x), env))
    ensures Machine(Unary(op, x), signed, env) == Evaluate(Unary(op, x), env)
  {
    hide Kept, Machine, Evaluate, InType, ApplyUnary, TypeOf, Convert;
    UnaryStep(op, x, signed, env);
    var v := Evaluate(x, env);
    if v.Some? && v.value.Number? { ConvertKeeps(TypeOf(Unary(op, x), signed), ApplyUnary(op, v.value.value)); }
  }

  lemma {:induction false} BinaryAgrees(op: BinaryOp, l: Expr, r: Expr, signed: bool, env: Env)
    requires Machine(l, signed, env) == Evaluate(l, env)
    requires Skips(op, Evaluate(l, env)) || Machine(r, signed, env) == Evaluate(r, env)
    requires Evaluate(l, env).Some? ==> Evaluate(l, env).value.Number?
    requires Evaluate(r, env).Some? ==> Evaluate(r, env).value.Number?
    requires ValueInside(TypeOf(Binary(op, l, r), signed), Evaluate(Binary(op, l, r), env))
    requires OperandsInside(op, OperandType(op, l, r, signed), Evaluate(l, env), Evaluate(r, env))
    ensures Machine(Binary(op, l, r), signed, env) == Evaluate(Binary(op, l, r), env)
  {
    hide Machine, Evaluate, InType, Operate, MachineOperate, OperandType, OperandsInside;
    if Stops(op) {
      StopStep(op, l, r, signed, env);
    } else {
      OneStep(op, l, r, signed, env);
      ResultType(op, l, r, signed);
      OperatorAgrees(op, OperandType(op, l, r, signed), TypeOf(Binary(op, l, r), signed), Evaluate(l, env), Evaluate(r, env));
    }
  }

  // ----- signed constraints

  lemma {:induction false} Total(test: Expr, env: Env)
    requires Fitting(test, true, env)
    ensures Evaluate(test, env).Some? && Evaluate(test, env).value.Number?
  {
    hide And, Or, Xor, Pow2, InWord;
    match test
    case Unary(_, x) => Total(x, env);
    case Binary(op, l, r) =>
      Total(l, env);
      Total(r, env);
      TotalStep(op, l, r, env);
    case _ =>
  }

  lemma {:induction false} TotalStep(op: BinaryOp, l: Expr, r: Expr, env: Env)
    requires Evaluate(l, env).Some? && Evaluate(l, env).value.Number? && Evaluate(r, env).Some? && Evaluate(r, env).value.Number?
    requires op != Div && op != Mod && (Shifts(op) ==> AmountFits(r, env))
    ensures Evaluate(Binary(op, l, r), env).Some? && Evaluate(Binary(op, l, r), env).value.Number?
  {
    hide Operate;
    if Shifts(op) { AmountValue(r, env); }
    if !Stops(op) {
      OneStep(op, l, r, true, env);
      NumbersGive(op, Evaluate(l, env).value.value, Evaluate(r, env).value.value);
    }
  }

  lemma NumbersGive(op: BinaryOp, a: int, b: int)
    requires op != Div && op != Mod && (Shifts(op) ==> b >= 0)
    ensures Operate(op, Some(Number(a)), Some(Number(b))).Some?
    ensures Operate(op, Some(Number(a)), Some(Number(b))).value.Number?
  {
    hide And, Or, Xor, Pow2;
  }

  lemma {:induction false} AmountValue(amount: Expr, env: Env)
    requires AmountFits(amount, env)
    ensures Evaluate(amount, env).Some? && Evaluate(amount, env).value.Number?
    ensures 0 <= Evaluate(amount, env).value.value < SHIFT_WIDTH
  {
  }

  /** Where operands are signed, the C test is defined exactly where every value is in its type, and then
      it answers as unbounded integers do. */
  lemma {:induction false} SignedIff(test: Expr, env: Env)
    requires Fitting(test, true, env)
    ensures Machine(test, true, env) == if Inside(test, true, env) then Evaluate(test, env) else None
  {
    hide Machine, Evaluate, TypeOf, InType, AmountFits, InWord, OperandsInside;
    if Inside(test, true, env) {
      MachineAgrees(test, true, env);
    } else {
      Total(test, env);
      SignedTypes(test);
      match test
      case IntLit(v, _) => LiteralRefused(test, env);
      case NameRef(name) => ReadInside(name, env);
      case Unary(op, x) =>
        SignedIff(x, env);
        Total(x, env);
        UnaryRefused(op, x, env);
      case Binary(op, l, r) =>
        SignedIff(l, env);
        SignedIff(r, env);
        Total(l, env);
        Total(r, env);
        if Stops(op) { StopRefused(op, l, r, env); } else { BinaryRefused(op, l, r, env); }
    }
  }

  lemma LiteralRefused(test: Expr, env: Env)
    requires test.IntLit? && !Inside(test, true, env)
    ensures Machine(test, true, env) == None
  {
    hide InType;
  }

  lemma ReadInside(name: string, env: Env)
    requires Fitting(NameRef(name), true, env)
    ensures Inside(NameRef(name), true, env)
  {
    hide InType, InWord;
    ReadTypeIsWord(true, env[name].value);
  }

  lemma UnaryRefused(op: UnaryOp, x: Expr, env: Env)
    requires !Inside(Unary(op, x), true, env) && Evaluate(x, env).Some? && Evaluate(x, env).value.Number?
    requires Machine(x, true, env) == if Inside(x, true, env) then Evaluate(x, env) else None
    requires TypeOf(Unary(op, x), true) != Word64
    ensures Machine(Unary(op, x), true, env) == None
  {
    hide InType, Machine, Evaluate, TypeOf, ApplyUnary;
    UnaryStep(op, x, true, env);
  }

  lemma {:induction false} StopRefused(op: BinaryOp, l: Expr, r: Expr, env: Env)
    requires Stops(op) && !Inside(Binary(op, l, r), true, env)
    requires Evaluate(l, env).Some? && Evaluate(l, env).value.Number? && Evaluate(r, env).Some? && Evaluate(r, env).value.Number?
    requires Machine(l, true, env) == if Inside(l, true, env) then Evaluate(l, env) else None
    requires Machine(r, true, env) == if Inside(r, true, env) then Evaluate(r, env) else None
    ensures Machine(Binary(op, l, r), true, env) == None
  {
    hide InType, OperandsInside, Operate, MachineOperate;
    SmallFits(Int32, 0);
    SmallFits(Int32, 1);
    assert OperandsInside(op, OperandType(op, l, r, true), Evaluate(l, env), Evaluate(r, env)) by { NothingAsked(op, l, r, env); }
    assert ValueInside(TypeOf(Binary(op, l, r), true), Evaluate(Binary(op, l, r), env)) by { hide Inside; }
  }

  lemma NothingAsked(op: BinaryOp, l: Expr, r: Expr, env: Env)
    requires Stops(op)
    ensures OperandsInside(op, OperandType(op, l, r, true), Evaluate(l, env), Evaluate(r, env))
  {
  }

  lemma {:induction false} BinaryRefused(op: BinaryOp, l: Expr, r: Expr, env: Env)
    requires !Stops(op) && !Inside(Binary(op, l, r), true, env)
    requires Evaluate(l, env).Some? && Evaluate(l, env).value.Number? && Evaluate(r, env).Some? && Evaluate(r, env).value.Number?
    requires Machine(l, true, env) == if Inside(l, true, env) then Evaluate(l, env) else None
    requires Machine(r, true, env) == if Inside(r, true, env) then Evaluate(r, env) else None
    ensures Machine(Binary(op, l, r), true, env) == None
  {
    hide InType, Machine, Evaluate, TypeOf, Operate, MachineOperate, OperandsInside;
    OneStep(op, l, r, true, env);
    var t, result := OperandType(op, l, r, true), TypeOf(Binary(op, l, r), true);
    if Inside(l, true, env) && Inside(r, true, env) {
      SignedTypes(l);
      SignedTypes(r);
      ResultType(op, l, r, true);
      BroughtHolds(TypeOf(l, true), TypeOf(r, true), Evaluate(l, env).value.value, Evaluate(r, env).value.value);
      OperatorRefused(op, t, result, Evaluate(l, env).value.value, Evaluate(r, env).value.value);
    } else {
      NoOperand(op, t, Machine(l, true, env), Machine(r, true, env));
    }
  }

  lemma ResultType(op: BinaryOp, l: Expr, r: Expr, signed: bool)
    requires !Stops(op)
    ensures TypeOf(Binary(op, l, r), signed) == if Compares(op) then Int32 else OperandType(op, l, r, signed)
  {
  }

  lemma BroughtHolds(a: Ctype, b: Ctype, x: int, y: int)
    requires a != Word64 && b != Word64 && InType(a, x) && InType(b, y)
    ensures InType(Common(a, b), x) && InType(Common(a, b), y)
  {
    hide InType;
    SignedHolds(a, b, x);
    SignedHolds(b, a, y);
  }

  lemma NoOperand(op: BinaryOp, t: Ctype, l: Option<Node>, r: Option<Node>)
    requires l.None? || r.None?
    ensures MachineOperate(op, t, l, r) == None
  {
  }

  /** In a signed type, an operator whose operands are held is refused a shift too far and a result too large. */
  lemma {:induction false} OperatorRefused(op: BinaryOp, t: Ctype, result: Ctype, a: int, b: int)
    requires !Stops(op) && t != Word64 && (if Compares(op) then result == Int32 else result == t)
    requires !Shifts(op) ==> InType(t, a) && InType(t, b)
    requires !(ValueInside(result, Operate(op, Some(Number(a)), Some(Number(b)))) &&
               OperandsInside(op, t, Some(Number(a)), Some(Number(b))))
    ensures MachineOperate(op, t, Some(Number(a)), Some(Number(b))) == None
  {
    hide InType, And, Or, Xor, Pow2, TruncDiv, TruncMod;
    if Compares(op) {
      SmallFits(Int32, 0);
      SmallFits(Int32, 1);
    }
    if Shifts(op) && 0 <= b < Width(t) { ShiftDefined(op, a, b); }
  }

  // ----- where unsigned values leave the type

  /** How many times around the type a value is. */
  function Turns(v: int): int {
    v / Pow2(WORD)
  }

  lemma TurnsIs(v: int)
    ensures v == Wrap(v) + Turns(v) * Pow2(WORD) && 0 <= Wrap(v) < Pow2(WORD)
  {
    hide Pow2;
    TypeEnds(Word64);
  }

  /** The value of the type that is whole turns away is the one kept. */
  lemma {:induction false} WrapUnique(v: int, w: int, k: int)
    requires 0 <= w < Pow2(WORD) && v == w + k * Pow2(WORD)
    ensures Wrap(v) == w && Turns(v) == k
  {
    hide Pow2;
    TypeEnds(Word64);
    DivUnique(v, Pow2(WORD), k);
  }

  lemma {:induction false} WrapTurned(v: int, k: int)
    ensures Wrap(v + k * Pow2(WORD)) == Wrap(v)
  {
    hide Wrap, Pow2, Turns;
    TurnsIs(v);
    var m := Pow2(WORD);
    MulDistributes(Turns(v), k, m);
    WrapUnique(v + k * m, Wrap(v), Turns(v) + k);
  }

  lemma TurnedProduct(a: int, b: int, j: int, k: int, m: int)
    ensures (a + j * m) * (b + k * m) == a * b + (a * k + j * b + j * k * m) * m
  {
    calc {
      (a + j * m) * (b + k * m);
      a * (b + k * m) + j * m * (b + k * m);
      a * b + a * (k * m) + (j * m * b + j * m * (k * m));
      { assert a * (k * m) == a * k * m && j * m * b == j * b * m && j * m * (k * m) == j * k * m * m; }
      a * b + (a * k * m + j * b * m + j * k * m * m);
      a * b + (a * k + j * b + j * k * m) * m;
    }
  }

  /** Sums, differences and products kept in the type are those of what is kept of the operands. */
  lemma {:induction false} RingStep(op: BinaryOp, a: int, b: int)
    requires op in {Add, Sub, Mul}
    ensures Wrap(Apply(op, Wrap(a), Wrap(b)).value) == Wrap(Apply(op, a, b).value)
  {
    hide Wrap, Pow2, Turns;
    TurnsIs(a);
    TurnsIs(b);
    var m, x, y, j, k := Pow2(WORD), Wrap(a), Wrap(b), Turns(a), Turns(b);
    match op {
      case Add =>
        MulDistributes(j, k, m);
        WrapTurned(x + y, j + k);
      case Sub =>
        MulDistributes(j - k, k, m);
        WrapTurned(x - y, j - k);
      case Mul =>
        TurnedProduct(x, y, j, k, m);
        WrapTurned(x * y, x * k + j * y + j * k * m);
    }
  }

  lemma {:induction false} ShiftStep(a: int, n: nat)
    ensures Wrap(Wrap(a) * Pow2(n)) == Wrap(a * Pow2(n))
  {
    hide Wrap, Pow2, Turns;
    TurnsIs(a);
    var m, x, j, p := Pow2(WORD), Wrap(a), Turns(a), Pow2(n);
    MulDistributes(x, j * m, p);
    MulAssociates(p, j, m);
    assert a * p == x * p + (p * j) * m;
    WrapTurned(x * p, p * j);
  }

  lemma {:induction false} SignStep(op: UnaryOp, a: int)
    requires op != LogicalNot
    ensures Wrap(ApplyUnary(op, Wrap(a))) == Wrap(ApplyUnary(op, a))
  {
    hide Wrap, Pow2, Turns;
    TurnsIs(a);
    var m, x, j := Pow2(WORD), Wrap(a), Turns(a);
    MulDistributes(-j, j, m);
    assert a == x + j * m && (-j) * m == -(j * m);
    WrapTurned(ApplyUnary(op, x), -j);
  }

  /** Parts that stay in their types, and trees of `+`, `-`, `*`, `<<` and `~` over them in unsigned 64 bits. */
  predicate Carried(e: Expr, signed: bool, env: Env) {
    || Inside(e, signed, env)
    || (&& TypeOf(e, signed) == Word64
        && match e
           case Unary(op, x) => op != LogicalNot && Carried(x, signed, env)
           case Binary(op, l, r) =>
             || ((op == Add || op == Sub || op == Mul) && Carried(l, signed, env) && Carried(r, signed, env))
             || (op == Shl && Carried(l, signed, env))
           case _ => false)
  }

  /** What a type makes of a value: unsigned, what it keeps. */
  function Cast(t: Ctype, n: Option<Node>): Option<Node> {
    match n
    case Some(Number(v)) => Some(Number(Convert(t, v)))
    case _ => n
  }

  lemma CastInside(t: Ctype, n: Option<Node>)
    requires ValueInside(t, n)
    ensures Cast(t, n) == n
  {
    hide Convert, InType;
    if n.Some? && n.value.Number? { ConvertKeeps(t, n.value.value); }
  }

  /** Such a tree wraps once: its C value is what its type makes of its unbounded value. */
  lemma {:induction false} RingWraps(test: Expr, signed: bool, env: Env)
    requires Fitting(test, signed, env) && Carried(test, signed, env)
    ensures Machine(test, signed, env) == Cast(TypeOf(test, signed), Evaluate(test, env))
  {
    hide Operate, MachineOperate, ApplyUnary, Kept, Convert, InWord, InType, AmountFits, Inside, TypeOf, OperandType, Machine, Evaluate,
         Cast;
    if Inside(test, signed, env) {
      MachineAgrees(test, signed, env);
      InsideValue(test, signed, env);
      CastInside(TypeOf(test, signed), Evaluate(test, env));
    } else {
      match test
      case Unary(op, x) =>
        RingWraps(x, signed, env);
        UnaryWraps(op, x, signed, env);
      case Binary(op, l, r) =>
        RingWraps(l, signed, env);
        if op == Shl {
          ShiftWraps(l, r, signed, env);
        } else {
          RingWraps(r, signed, env);
          BinaryWraps(op, l, r, signed, env);
        }
    }
  }

  lemma InsideValue(test: Expr, signed: bool, env: Env)
    requires Inside(test, signed, env)
    ensures ValueInside(TypeOf(test, signed), Evaluate(test, env))
  {
  }

  /** Brought to the unsigned type, what a type makes of a value is what that type keeps of it. */
  lemma WrapOfCast(t: Ctype, v: int)
    ensures Wrap(Convert(t, v)) == Wrap(v)
  {
    hide Wrap, Pow2;
    if t == Word64 {
      WrapFits(v);
      WrapKeeps(Wrap(v));
    }
  }

  lemma UnaryWraps(op: UnaryOp, x: Expr, signed: bool, env: Env)
    requires op != LogicalNot && TypeOf(Unary(op, x), signed) == Word64
    requires Machine(x, signed, env) == Cast(TypeOf(x, signed), Evaluate(x, env))
    ensures Machine(Unary(op, x), signed, env) == Cast(Word64, Evaluate(Unary(op, x), env))
  {
    hide Machine, Evaluate, Wrap, ApplyUnary;
    UnaryStep(op, x, signed, env);
    var v := Evaluate(x, env);
    if v.Some? && v.value.Number? { SignStep(op, v.value.value); }
  }

  lemma BinaryWraps(op: BinaryOp, l: Expr, r: Expr, signed: bool, env: Env)
    requires (op == Add || op == Sub || op == Mul) && TypeOf(Binary(op, l, r), signed) == Word64
    requires Machine(l, signed, env) == Cast(TypeOf(l, signed), Evaluate(l, env))
    requires Machine(r, signed, env) == Cast(TypeOf(r, signed), Evaluate(r, env))
    ensures Machine(Binary(op, l, r), signed, env) == Cast(Word64, Evaluate(Binary(op, l, r), env))
  {
    hide Machine, Evaluate, Wrap, TypeOf;
    OneStep(op, l, r, signed, env);
    ResultType(op, l, r, signed);
    var a, b := Evaluate(l, env), Evaluate(r, env);
    if a.Some? && a.value.Number? && b.Some? && b.value.Number? {
      RingStep(op, a.value.value, b.value.value);
      WrapOfCast(TypeOf(l, signed), a.value.value);
      WrapOfCast(TypeOf(r, signed), b.value.value);
    }
  }

  lemma ShiftWraps(l: Expr, r: Expr, signed: bool, env: Env)
    requires AmountFits(r, env) && TypeOf(Binary(Shl, l, r), signed) == Word64 && Fitting(r, signed, env)
    requires Machine(l, signed, env) == Cast(TypeOf(l, signed), Evaluate(l, env))
    ensures Machine(Binary(Shl, l, r), signed, env) == Cast(Word64, Evaluate(Binary(Shl, l, r), env))
  {
    hide Machine, Evaluate, Wrap, AmountFits, TypeOf, Pow2;
    OneStep(Shl, l, r, signed, env);
    ResultType(Shl, l, r, signed);
    AmountValue(r, env);
    AmountMachine(r, signed, env);
    var a := Evaluate(l, env);
    if a.Some? && a.value.Number? { ShiftStep(a.value.value, Evaluate(r, env).value.value); }
  }

  lemma {:induction false} AmountMachine(amount: Expr, signed: bool, env: Env)
    requires AmountFits(amount, env)
    ensures Machine(amount, signed, env) == Evaluate(amount, env)
  {
    hide InType, Wrap;
    AmountValue(amount, env);
    var v := Evaluate(amount, env).value.value;
    SmallFits(Int32, v);
    SmallFits(Int64, v);
    SmallFits(Word64, v);
    ConvertKeeps(ReadType(signed), v);
  }

  /** Do the two kept values compare as the whole ones? Sameness fails where different values are
      whole turns apart, order where the turns say one thing and what is kept says the other. */
  predicate ComparesAlike(op: BinaryOp, a: int, b: int) {
    if op == Eq || op == Ne then a == b || (a - b) % Pow2(WORD) != 0
    else Turns(a) == Turns(b) ||
         Apply(op, Wrap(a), Wrap(b)) == Apply(op, Turns(a), Turns(b))
  }

  lemma {:induction false} TurnsOrder(a: int, b: int)
    ensures Turns(a) == Turns(b) ==> a - b == Wrap(a) - Wrap(b)
    ensures Turns(a) < Turns(b) ==> a < b
  {
    hide Pow2, Wrap, Turns;
    TurnsIs(a);
    TurnsIs(b);
    TypeEnds(Word64);
    var m, j, k := Pow2(WORD), Turns(a), Turns(b);
    if j < k {
      MulLess(j + 1, k, m);
      MulDistributes(j, 1, m);
    }
  }

  lemma {:induction false} SameKept(a: int, b: int)
    ensures Wrap(a) == Wrap(b) <==> (a - b) % Pow2(WORD) == 0
  {
    hide Pow2, Wrap, Turns;
    TurnsIs(a);
    TurnsIs(b);
    var m, j, k := Pow2(WORD), Turns(a), Turns(b);
    if Wrap(a) == Wrap(b) {
      MulDistributes(j, k, m);
      Multiple(j - k, m);
    }
    if (a - b) % m == 0 {
      Quotient(a - b, m);
      WrapTurned(b, (a - b) / m);
    }
  }

  lemma Multiple(k: int, m: nat)
    requires m > 0
    ensures k * m % m == 0
  {
    DivUnique(k * m, m, k);
  }

  lemma Quotient(n: int, m: nat)
    requires m > 0 && n % m == 0
    ensures n == n / m * m
  {
  }

  /** A comparison of two values kept in the type answers as one of the whole values exactly so. */
  lemma {:induction false} AlikeIff(op: BinaryOp, a: int, b: int)
    requires Compares(op)
    ensures Apply(op, Wrap(a), Wrap(b)) == Apply(op, a, b) <==> ComparesAlike(op, a, b)
  {
    hide Pow2, Wrap, Turns;
    TurnsOrder(a, b);
    TurnsOrder(b, a);
    SameKept(a, b);
  }

  /** Comparing two such trees: the C comparison answers as the unbounded one exactly when they are not
      brought to the unsigned type, or the two values compare alike in it. */
  lemma {:induction false} ComparisonIff(op: BinaryOp, l: Expr, r: Expr, signed: bool, env: Env, a: int, b: int)
    requires Compares(op) && Fitting(Binary(op, l, r), signed, env) && Carried(l, signed, env) && Carried(r, signed, env)
    requires Evaluate(l, env) == Some(Number(a)) && Evaluate(r, env) == Some(Number(b))
    ensures Apply(op, a, b).Some? && Apply(op, a, b).value in {0, 1}
    ensures Evaluate(Binary(op, l, r), env) == Some(Number(Apply(op, a, b).value))
    ensures IsFlag(Machine(Binary(op, l, r), signed, env)) && IsFlag(Evaluate(Binary(op, l, r), env))
    ensures Machine(Binary(op, l, r), signed, env) == Evaluate(Binary(op, l, r), env) <==>
            (OperandType(op, l, r, signed) == Word64 ==> ComparesAlike(op, a, b))
  {
    hide Machine, Evaluate, Wrap, ComparesAlike, Apply, Carried, TypeOf, Kept;
    RingWraps(l, signed, env);
    RingWraps(r, signed, env);
    OneStep(op, l, r, signed, env);
    var t := OperandType(op, l, r, signed);
    WrapOfCast(TypeOf(l, signed), a);
    WrapOfCast(TypeOf(r, signed), b);
    FlagOf(op, a, b);
    FlagOf(op, Wrap(a), Wrap(b));
    if t == Word64 { AlikeIff(op, a, b); }
  }

  predicate IsFlag(n: Option<Node>) {
    n == Flag(false) || n == Flag(true)
  }

  lemma FlagOf(op: BinaryOp, a: int, b: int)
    requires Compares(op)
    ensures Apply(op, a, b).Some? && Apply(op, a, b).value in {0, 1}
  {
    hide Pow2, And, Or, Xor, TruncDiv, TruncMod;
  }

  /** `a == b + 1` over unsigned values of the type: only the last value before it turns is missed. */
  lemma {:induction false} CarryIff(a: int, b: int)
    requires InType(Word64, a) && InType(Word64, b)
    ensures ComparesAlike(Eq, a, b + 1) <==> !(a == 0 && b == Pow2(WORD) - 1)
  {
    hide Pow2, Wrap, Turns;
    TypeEnds(Word64);
    SameKept(a, b + 1);
    WrapUnique(a, a, 0);
    if b + 1 < Pow2(WORD) { WrapUnique(b + 1, b + 1, 0); } else { WrapUnique(b + 1, 0, 1); }
  }

  /** `a - b < n` over unsigned values of the type: a borrow is missed unless what is kept is still below `n`. */
  lemma {:induction false} BorrowIff(a: int, b: int, n: int)
    requires InType(Word64, a) && InType(Word64, b) && InType(Word64, n)
    ensures ComparesAlike(Lt, a - b, n) <==> a >= b || a - b + Pow2(WORD) < n
  {
    hide Pow2;
    var m := Pow2(WORD);
    WrapUnique(n, n, 0);
    if a >= b { WrapUnique(a - b, a - b, 0); } else { WrapUnique(a - b, a - b + m, -1); }
  }

  /** A literal shifted left is computed in an `int`: the test of `p == v << q` answers as unbounded integers
      do exactly when the shift is by less than 32 and its result fits one. */
  lemma {:induction false} LiteralShiftIff(p: string, v: int, text: string, q: string, signed: bool, env: Env, x: int, n: int)
    requires InType(Int32, v) && v >= 0 && 0 <= n < SHIFT_WIDTH && InWord(signed, x)
    requires p in env && env[p] == Number(x) && q in env && env[q] == Number(n)
    ensures var test := Binary(Eq, NameRef(p), Binary(Shl, IntLit(v, text), NameRef(q)));
            && Evaluate(test, env) == Flag(x == v * Pow2(n))
            && Machine(test, signed, env) == if n < 32 && InType(Int32, v * Pow2(n)) then Evaluate(test, env) else None
  {
    hide Pow2, Wrap, InType, Machine, Evaluate;
    var shift := Binary(Shl, IntLit(v, text), NameRef(q));
    LiteralShift(v, text, q, signed, env, n);
    ReadKept(p, signed, env);
    NameValue(p, env);
    OneStep(Eq, NameRef(p), shift, signed, env);
    if n < 32 && InType(Int32, v * Pow2(n)) {
      MulLess(0, v, Pow2(n));
      assert v * Pow2(n) >= 0;
      ReadTypeIsWord(signed, x);
      IntInWord(signed, v * Pow2(n));
      ConvertKeeps(ReadType(signed), x);
      ConvertKeeps(ReadType(signed), v * Pow2(n));
    }
  }

  lemma NameValue(p: string, env: Env)
    requires p in env
    ensures Evaluate(NameRef(p), env) == Some(env[p])
  {
  }

  /** An `int` that is not negative is held by either 64-bit type. */
  lemma IntInWord(signed: bool, v: int)
    requires InType(Int32, v) && v >= 0
    ensures InType(ReadType(signed), v)
  {
    hide Pow2;
    TypeEnds(Int32);
    TypeEnds(ReadType(signed));
  }

  lemma {:induction false} LiteralShift(v: int, text: string, q: string, signed: bool, env: Env, n: int)
    requires InType(Int32, v) && 0 <= n < SHIFT_WIDTH && q in env && env[q] == Number(n)
    ensures var shift := Binary(Shl, IntLit(v, text), NameRef(q));
            && TypeOf(shift, signed) == Int32 && Evaluate(shift, env) == Some(Number(v * Pow2(n)))
            && Machine(shift, signed, env) ==
               if n < 32 && InType(Int32, v * Pow2(n)) then Some(Number(v * Pow2(n))) else None
  {
    hide Pow2, Wrap, InType;
    AmountMachine(NameRef(q), signed, env);
    ConvertKeeps(Int32, v);
    OneStep(Shl, IntLit(v, text), NameRef(q), signed, env);
    hide Machine, Evaluate;
    assert TypeOf(IntLit(v, text), signed) == Int32;
  }
}
