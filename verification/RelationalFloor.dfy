/** `relational_floor` (situc/expr.py): a size proved non-negative from bounds one field
    states by another, and the array count that rests on it (situc/layout.py). */
module RelationalFloor {
  import opened Prelude
  import opened Ast
  import opened Bits
  import opened Intervals
  import opened Solver
  import opened Terms
  import opened ExactTheorems

  /** `sum(coefficient * field) + constant`. */
  datatype Form = Form(terms: Terms, constant: int)

  /** Field path to its stated bounds, each under "max", "min" or "must_eq". */
  type Relations = map<string, seq<(string, Expr)>>

  /** A dictionary whose keys are fields in scope. */
  predicate Keyed(terms: Terms, env: Env) {
    Keys(terms) <= env.fields.Keys && Distinct(terms)
  }

  // ----- the code

  /** `_linear`: an expression as a sum of fields and a constant, or None. */
  function Linear(e: Expr, env: Env): Option<Form> {
    match e
    case IntLit(v, _) => Some(Form([], v))
    case NameRef(_) => Leaf(e, env)
    case Access(_, _) => Leaf(e, env)
    case Unary(Negate, operand) =>
      (match Linear(operand, env)
       case None => None
       case Some(f) => Some(Form(Scale(f.terms, -1), -f.constant)))
    case Binary(op, left, right) =>
      (match (op in {Add, Sub, Mul}, Linear(left, env), Linear(right, env))
       case (true, Some(l), Some(r)) => Combine(op, l, r)
       case _ => None)
    case _ => None
  }

  /** A name that is no field folds to a constant, which `interval_of` answers as a point. */
  function Leaf(e: Expr, env: Env): Option<Form>
    requires e.NameRef? || e.Access?
  {
    var path := PathText(e);
    if path.Some? && path.value in env.fields then
      var held := env.fields[path.value];
      if held.IsPoint() then Some(Form([], held.lo)) else Some(Form([(path.value, 1)], 0))
    else
      match IntervalOf(e, env)
      case Ok(i) => Some(Form([], i.lo))
      case Err(_) => None
  }

  function Combine(op: BinaryOp, l: Form, r: Form): Option<Form> {
    if op == Mul then
      if l.terms != [] && r.terms != [] then None
      else if l.terms != [] then Some(Form(Scale(l.terms, r.constant), l.constant * r.constant))
      else Some(Form(Scale(r.terms, l.constant), l.constant * r.constant))
    else
      var sign := if op == Add then 1 else -1;
      Some(Form(Merge(l.terms, r.terms, sign), l.constant + sign * r.constant))
  }

  /** `_floor_of`: the least a sum can be, each field at its own worst, or None. */
  function FloorOf(f: Form, env: Env): Option<int>
    requires Keyed(f.terms, env)
    decreases |f.terms|
  {
    if f.terms == [] then Some(f.constant)
    else
      var (path, coeff) := f.terms[0];
      var held := env.fields[path];
      if coeff == 0 then FloorOf(Form(f.terms[1..], f.constant), env)
      else if !held.loKnown || (coeff < 0 && held.hi.None?) then None
      else
        FloorOf(Form(f.terms[1..], f.constant + coeff * (if coeff > 0 then held.lo else held.hi.value)), env)
  }

  /** The first bound stated under the wanted name, or as an equality. */
  function BoundUnder(bounds: seq<(string, Expr)>, wanted: string): Option<Expr> {
    if bounds == [] then None
    else if bounds[0].0 == wanted || bounds[0].0 == "must_eq" then Some(bounds[0].1)
    else BoundUnder(bounds[1..], wanted)
  }

  datatype Step = Step(path: string, coeff: int, bound: Expr)

  /** The first unspent term some relation bounds on the useful side. */
  function NextStep(terms: Terms, spent: set<string>, relations: Relations): Option<Step> {
    if terms == [] then None
    else
      var (path, coeff) := terms[0];
      if coeff != 0 && path !in spent && path in relations
         && BoundUnder(relations[path], if coeff < 0 then "max" else "min").Some?
      then Some(Step(path, coeff, BoundUnder(relations[path], if coeff < 0 then "max" else "min").value))
      else NextStep(terms[1..], spent, relations)
  }

  /** One substitution: the term goes, and its bound takes its place. */
  function Substitute(f: Form, step: Step, bound: Form): Form {
    Form(Merge(Delete(f.terms, step.path), bound.terms, step.coeff), f.constant + step.coeff * bound.constant)
  }

  /** `floor is not None and (best is None or floor > best)` */
  function Better(best: Option<int>, floor: Option<int>): Option<int> {
    if floor.Some? && (best.None? || floor.value > best.value) then floor else best
  }

  /** What the loop computes from here on. */
  function FloorFrom(f: Form, best: Option<int>, spent: set<string>, env: Env, relations: Relations): Option<int>
    requires Keyed(f.terms, env)
    decreases relations.Keys - spent
  {
    match NextStep(f.terms, spent, relations)
    case None => best
    case Some(step) =>
      NextStepRelated(f.terms, spent, relations);
      var spent' := spent + {step.path};
      match Linear(step.bound, env)
      case None => FloorFrom(f, best, spent', env, relations)
      case Some(bound) =>
        LinearKeyed(step.bound, env);
        SubstituteKeyed(f, step, bound, env);
        var f' := Substitute(f, step, bound);
        FloorFrom(f', Better(best, FloorOf(f', env)), spent', env, relations)
  }

  /** The least `e` can be, given bounds one field states by another. */
  function FloorSpec(e: Expr, env: Env, relations: Relations): Option<int> {
    match Linear(e, env)
    case None => None
    case Some(f) => LinearKeyed(e, env); FloorFrom(f, FloorOf(f, env), {}, env, relations)
  }

  /** `relational_floor`. */
  method RelationalFloor(e: Expr, env: Env, relations: Relations) returns (floor: Option<int>)
    ensures floor == FloorSpec(e, env, relations)
  {
    var linear := Linear(e, env);
    if linear.None? {
      return None;
    }
    LinearKeyed(e, env);
    var form := linear.value;
    var best := FloorOf(form, env);
    var spent: set<string> := {};
    while true
      invariant Keyed(form.terms, env)
      invariant FloorFrom(form, best, spent, env, relations) == FloorSpec(e, env, relations)
      decreases relations.Keys - spent
    {
      var step := NextStep(form.terms, spent, relations);
      if step.None? {
        return best;
      }
      NextStepRelated(form.terms, spent, relations);
      spent := spent + {step.value.path};
      var other := Linear(step.value.bound, env);
      if other.Some? {
        LinearKeyed(step.value.bound, env);
        SubstituteKeyed(form, step.value, other.value, env);
        form := Substitute(form, step.value, other.value);
        best := Better(best, FloorOf(form, env));
      }
    }
  }

  // ----- keys stay fields, and steps stay related

  lemma {:induction false} NextStepRelated(terms: Terms, spent: set<string>, relations: Relations)
    requires Distinct(terms)
    ensures NextStep(terms, spent, relations).Some? ==>
      var s := NextStep(terms, spent, relations).value;
      && s.path in relations && s.path !in spent && s.coeff != 0
      && BoundUnder(relations[s.path], if s.coeff < 0 then "max" else "min") == Some(s.bound)
      && s.path in Keys(terms) && Get(terms, s.path) == s.coeff
  {
    if terms != [] { NextStepRelated(terms[1..], spent, relations); }
  }

  lemma SubstituteKeyed(f: Form, step: Step, bound: Form, env: Env)
    requires Keyed(f.terms, env) && Keyed(bound.terms, env)
    ensures Keyed(Substitute(f, step, bound).terms, env)
  {
    DeleteKeys(f.terms, step.path);
    MergeKeys(Delete(f.terms, step.path), bound.terms, step.coeff);
  }

  lemma {:induction false} LinearKeyed(e: Expr, env: Env)
    ensures Linear(e, env).Some? ==> Keyed(Linear(e, env).value.terms, env)
  {
    match e {
      case Unary(Negate, operand) =>
        LinearKeyed(operand, env);
        if Linear(e, env).Some? { ScaleKeys(Linear(operand, env).value.terms, -1); }
      case Binary(op, left, right) =>
        LinearKeyed(left, env);
        LinearKeyed(right, env);
        if Linear(e, env).Some? {
          var l, r := Linear(left, env).value, Linear(right, env).value;
          ScaleKeys(l.terms, r.constant);
          ScaleKeys(r.terms, l.constant);
          MergeKeys(l.terms, r.terms, if op == Add then 1 else -1);
        }
      case _ =>
    }
  }

  // ----- exactness of the linear form

  lemma MulForms(l: int, lc: int, r: int, rc: int)
    ensures (lc + l) * rc == lc * rc + rc * l
    ensures lc * (rc + r) == lc * rc + lc * r
  {
  }

  predicate ExactAt(e: Expr, env: Env, m: Message) {
    match Linear(e, env)
    case None => true
    case Some(f) => Value(e, env, Some(m)) == Ok(f.constant + Sum(f.terms, m.fields))
  }

  /** Where the linear form exists, the expression has exactly its value in every message. */
  lemma {:induction false} LinearExact(e: Expr, env: Env, m: Message)
    requires InRange(env, m)
    ensures ExactAt(e, env, m)
  {
    match e {
      case Unary(_, operand) =>
        LinearExact(operand, env, m);
        UnaryExact(e, env, m);
      case Binary(_, left, right) =>
        LinearExact(left, env, m);
        LinearExact(right, env, m);
        BinaryExact(e, env, m);
      case NameRef(_) => if Linear(e, env).Some? { LeafExact(e, env, m); }
      case Access(_, _) => if Linear(e, env).Some? { LeafExact(e, env, m); }
      case _ =>
    }
  }

  lemma {:induction false} UnaryExact(e: Expr, env: Env, m: Message)
    requires e.Unary? && ExactAt(e.operand, env, m)
    ensures ExactAt(e, env, m)
  {
    if Linear(e, env).Some? { SumScale(Linear(e.operand, env).value.terms, -1, m.fields); }
  }

  lemma {:induction false} BinaryExact(e: Expr, env: Env, m: Message)
    requires e.Binary? && ExactAt(e.left, env, m) && ExactAt(e.right, env, m)
    ensures ExactAt(e, env, m)
  {
    hide Linear, Value, Fold, Combine, Sum;
    if Linear(e, env).Some? {
      BinaryParts(e, env, m);
      CombineExact(e.op, Linear(e.left, env).value, Linear(e.right, env).value, m);
    }
  }

  lemma BinaryParts(e: Expr, env: Env, m: Message)
    requires e.Binary? && Linear(e, env).Some?
    ensures e.op in {Add, Sub, Mul} && Linear(e.left, env).Some? && Linear(e.right, env).Some?
    ensures Linear(e, env) == Combine(e.op, Linear(e.left, env).value, Linear(e.right, env).value)
    ensures Value(e.left, env, Some(m)).Ok? && Value(e.right, env, Some(m)).Ok? ==>
              Value(e, env, Some(m)) == Fold(e.op, Value(e.left, env, Some(m)).value, Value(e.right, env, Some(m)).value)
  {
    hide Combine, Fold, Leaf, IntervalOf, Rule;
  }

  lemma {:induction false} LeafExact(e: Expr, env: Env, m: Message)
    requires InRange(env, m)
    requires (e.NameRef? || e.Access?) && Leaf(e, env).Some?
    ensures Value(e, env, Some(m)) == Ok(Leaf(e, env).value.constant + Sum(Leaf(e, env).value.terms, m.fields))
  {
    var path := PathText(e);
    if path.Some? && path.value in env.fields && !env.fields[path.value].IsPoint() {
      assert Sum([(path.value, 1)], m.fields) == At(m.fields, path.value);
    }
  }

  lemma CombineExact(op: BinaryOp, l: Form, r: Form, m: Message)
    requires op in {Add, Sub, Mul} && Combine(op, l, r).Some?
    ensures Fold(op, l.constant + Sum(l.terms, m.fields), r.constant + Sum(r.terms, m.fields))
         == Ok(Combine(op, l, r).value.constant + Sum(Combine(op, l, r).value.terms, m.fields))
  {
    if op == Mul {
      SumScale(l.terms, r.constant, m.fields);
      SumScale(r.terms, l.constant, m.fields);
      MulForms(Sum(l.terms, m.fields), l.constant, Sum(r.terms, m.fields), r.constant);
    } else {
      SumMerge(l.terms, r.terms, if op == Add then 1 else -1, m.fields);
    }
  }

  // ----- the floor is a lower bound

  lemma {:induction false} FloorOfSound(f: Form, env: Env, m: Message)
    requires Keyed(f.terms, env) && InRange(env, m) && FloorOf(f, env).Some?
    ensures FloorOf(f, env).value <= f.constant + Sum(f.terms, m.fields)
    decreases |f.terms|
  {
    if f.terms != [] {
      var (path, coeff) := f.terms[0];
      var held := env.fields[path];
      if coeff == 0 {
        FloorOfSound(Form(f.terms[1..], f.constant), env, m);
      } else {
        var worst := if coeff > 0 then held.lo else held.hi.value;
        FloorOfSound(Form(f.terms[1..], f.constant + coeff * worst), env, m);
        if coeff > 0 { MulLess(worst, m.fields[path], coeff); } else { MulLess(m.fields[path], worst, -coeff); }
      }
    }
  }

  /** What `validate` checks of one bound of one field. A bound without a value says nothing. */
  predicate Holds(path: string, stated: (string, Expr), env: Env, m: Message) {
    match Value(stated.1, env, Some(m))
    case Err(_) => true
    case Ok(b) =>
      && (stated.0 == "max" ==> At(m.fields, path) <= b)
      && (stated.0 == "min" ==> At(m.fields, path) >= b)
      && (stated.0 == "must_eq" ==> At(m.fields, path) == b)
  }

  predicate Satisfies(env: Env, relations: Relations, m: Message) {
    forall path :: path in relations ==>
      forall i :: 0 <= i < |relations[path]| ==> Holds(path, relations[path][i], env, m)
  }

  lemma {:induction false} BoundHolds(path: string, bounds: seq<(string, Expr)>, wanted: string, env: Env, m: Message)
    requires forall i :: 0 <= i < |bounds| ==> Holds(path, bounds[i], env, m)
    requires BoundUnder(bounds, wanted).Some?
    ensures Holds(path, (wanted, BoundUnder(bounds, wanted).value), env, m)
         || Holds(path, ("must_eq", BoundUnder(bounds, wanted).value), env, m)
  {
    assert Holds(path, bounds[0], env, m);
    if bounds[0].0 == wanted || bounds[0].0 == "must_eq" {
      assert bounds[0] == (bounds[0].0, bounds[0].1);
    } else {
      BoundHolds(path, bounds[1..], wanted, env, m);
    }
  }

  /** The bound a step substitutes is on the useful side of its field. */
  lemma {:induction false} StepBounds(step: Step, bound: Form, env: Env, relations: Relations, m: Message)
    requires InRange(env, m) && Satisfies(env, relations, m)
    requires step.path in relations
    requires BoundUnder(relations[step.path], if step.coeff < 0 then "max" else "min") == Some(step.bound)
    requires Linear(step.bound, env) == Some(bound)
    ensures step.coeff < 0 ==> At(m.fields, step.path) <= bound.constant + Sum(bound.terms, m.fields)
    ensures step.coeff >= 0 ==> At(m.fields, step.path) >= bound.constant + Sum(bound.terms, m.fields)
  {
    LinearExact(step.bound, env, m);
    BoundHolds(step.path, relations[step.path], if step.coeff < 0 then "max" else "min", env, m);
  }

  lemma Trade(n: int, held: int, b: int)
    requires if n < 0 then held <= b else b <= held
    ensures n * b <= n * held
  {
    if n < 0 { MulLess(held, b, -n); } else { MulLess(b, held, n); }
  }

  /** Each substitution can only lower the sum. */
  lemma SubstituteLowers(f: Form, step: Step, bound: Form, env: Env, relations: Relations, m: Message)
    requires InRange(env, m) && Satisfies(env, relations, m)
    requires step.path in relations && Get(f.terms, step.path) == step.coeff
    requires BoundUnder(relations[step.path], if step.coeff < 0 then "max" else "min") == Some(step.bound)
    requires Linear(step.bound, env) == Some(bound)
    ensures Substitute(f, step, bound).constant + Sum(Substitute(f, step, bound).terms, m.fields)
         <= f.constant + Sum(f.terms, m.fields)
  {
    StepBounds(step, bound, env, relations, m);
    SubstituteSum(f, step, bound, m);
    Trade(step.coeff, At(m.fields, step.path), bound.constant + Sum(bound.terms, m.fields));
  }

  /** A substitution trades `coeff` times the field for `coeff` times its bound. */
  lemma SubstituteSum(f: Form, step: Step, bound: Form, m: Message)
    requires Get(f.terms, step.path) == step.coeff
    ensures var f' := Substitute(f, step, bound);
            f'.constant + Sum(f'.terms, m.fields) ==
            f.constant + Sum(f.terms, m.fields) - step.coeff * At(m.fields, step.path)
            + step.coeff * (bound.constant + Sum(bound.terms, m.fields))
  {
    SumDelete(f.terms, step.path, m.fields);
    SumMerge(Delete(f.terms, step.path), bound.terms, step.coeff, m.fields);
    MulDistributes(bound.constant, Sum(bound.terms, m.fields), step.coeff);
  }

  lemma {:induction false} FloorFromSound(
    f: Form, best: Option<int>, spent: set<string>, env: Env, relations: Relations, m: Message, v: int)
    requires InRange(env, m) && Satisfies(env, relations, m)
    requires Keyed(f.terms, env) && f.constant + Sum(f.terms, m.fields) <= v && (best.Some? ==> best.value <= v)
    ensures FloorFrom(f, best, spent, env, relations).Some? ==> FloorFrom(f, best, spent, env, relations).value <= v
    decreases relations.Keys - spent
  {
    var step := NextStep(f.terms, spent, relations);
    if step.Some? {
      NextStepRelated(f.terms, spent, relations);
      var spent' := spent + {step.value.path};
      var bound := Linear(step.value.bound, env);
      if bound.None? {
        FloorFromSound(f, best, spent', env, relations, m, v);
      } else {
        LinearKeyed(step.value.bound, env);
        SubstituteKeyed(f, step.value, bound.value, env);
        SubstituteLowers(f, step.value, bound.value, env, relations, m);
        var f' := Substitute(f, step.value, bound.value);
        if FloorOf(f', env).Some? { FloorOfSound(f', env, m); }
        FloorFromSound(f', Better(best, FloorOf(f', env)), spent', env, relations, m, v);
      }
    }
  }

  /** The floor is at most the expression's value in every message that is in range and
      meets every bound its fields state. */
  lemma FloorSound(e: Expr, env: Env, relations: Relations, m: Message)
    requires InRange(env, m) && Satisfies(env, relations, m)
    requires FloorSpec(e, env, relations).Some?
    ensures Value(e, env, Some(m)).Ok? && FloorSpec(e, env, relations).value <= Value(e, env, Some(m)).value
  {
    LinearExact(e, env, m);
    LinearKeyed(e, env);
    var f := Linear(e, env).value;
    if FloorOf(f, env).Some? { FloorOfSound(f, env, m); }
    FloorFromSound(f, FloorOf(f, env), {}, env, relations, m, Value(e, env, Some(m)).value);
  }

  // ----- which field is replaced, and by what

  /** A bound that makes a sum smaller: the field's own, a larger one where it is subtracted, a smaller one where it
      is added. */
  predicate Useful(name: string, coeff: int) {
    coeff != 0 && (name == "must_eq" || name == if coeff < 0 then "max" else "min")
  }

  predicate NoneUseful(relations: Relations, path: string, coeff: int) {
    path in relations ==> forall i :: 0 <= i < |relations[path]| ==> !Useful(relations[path][i].0, coeff)
  }

  /** The first of a field's stated bounds that is. */
  predicate FirstUseful(relations: Relations, path: string, coeff: int, bound: Expr) {
    path in relations && exists i :: 0 <= i < |relations[path]| && UsefulAt(relations[path], i, coeff, bound)
  }

  predicate UsefulAt(bounds: seq<(string, Expr)>, i: nat, coeff: int, bound: Expr)
    requires i < |bounds|
  {
    bounds[i].1 == bound && Useful(bounds[i].0, coeff) && forall j :: 0 <= j < i ==> !Useful(bounds[j].0, coeff)
  }

  lemma {:induction false} BoundUnderIff(bounds: seq<(string, Expr)>, coeff: int)
    requires coeff != 0
    ensures var found := BoundUnder(bounds, if coeff < 0 then "max" else "min");
            && (found.None? <==> forall i :: 0 <= i < |bounds| ==> !Useful(bounds[i].0, coeff))
            && (found.Some? ==> exists i :: 0 <= i < |bounds| && UsefulAt(bounds, i, coeff, found.value))
  {
    if bounds != [] {
      var rest, wanted := bounds[1..], if coeff < 0 then "max" else "min";
      BoundUnderIff(rest, coeff);
      if Useful(bounds[0].0, coeff) {
        assert BoundUnder(bounds, wanted) == Some(bounds[0].1) && UsefulAt(bounds, 0, coeff, bounds[0].1);
      } else {
        assert BoundUnder(bounds, wanted) == BoundUnder(rest, wanted);
        assert forall i :: 0 < i < |bounds| ==> bounds[i] == rest[i - 1];
        if BoundUnder(rest, wanted).Some? {
          var bound := BoundUnder(rest, wanted).value;
          var i :| 0 <= i < |rest| && UsefulAt(rest, i, coeff, bound);
          assert UsefulAt(bounds, i + 1, coeff, bound);
        }
      }
    }
  }

  lemma UsefulUnique(bounds: seq<(string, Expr)>, i: nat, j: nat, coeff: int, b: Expr, c: Expr)
    requires i < |bounds| && j < |bounds| && UsefulAt(bounds, i, coeff, b) && UsefulAt(bounds, j, coeff, c)
    ensures b == c
  {
  }

  /** Has the field, added or subtracted, not been replaced yet, and does a bound of it say how it can be? */
  predicate Replaceable(term: (string, int), spent: set<string>, relations: Relations) {
    term.0 !in spent && !NoneUseful(relations, term.0, term.1)
  }

  /** The loop stops exactly where no term can be replaced, and otherwise replaces the first that can by the first
      of its field's bounds that is useful. */
  lemma {:induction false} NextStepIff(terms: Terms, spent: set<string>, relations: Relations)
    ensures NextStep(terms, spent, relations).None? <==> forall k :: 0 <= k < |terms| ==> !Replaceable(terms[k], spent, relations)
    ensures NextStep(terms, spent, relations).Some? ==>
            var step := NextStep(terms, spent, relations).value;
            && FirstUseful(relations, step.path, step.coeff, step.bound)
            && exists k :: 0 <= k < |terms| && terms[k] == (step.path, step.coeff) && Replaceable(terms[k], spent, relations)
                           && forall j :: 0 <= j < k ==> !Replaceable(terms[j], spent, relations)
  {
    hide FirstUseful, NoneUseful, Replaceable;
    if terms != [] {
      var (path, coeff) := terms[0];
      HeadIff(terms, spent, relations);
      if !Replaceable(terms[0], spent, relations) {
        NextStepIff(terms[1..], spent, relations);
        assert forall k :: 0 < k < |terms| ==> terms[k] == terms[1..][k - 1];
        if NextStep(terms[1..], spent, relations).Some? {
          var step := NextStep(terms[1..], spent, relations).value;
          var k :| 0 <= k < |terms[1..]| && terms[1..][k] == (step.path, step.coeff) && Replaceable(terms[1..][k], spent, relations)
                   && forall j :: 0 <= j < k ==> !Replaceable(terms[1..][j], spent, relations);
          assert terms[k + 1] == (step.path, step.coeff);
        }
      }
    }
  }

  lemma {:induction false} HeadIff(terms: Terms, spent: set<string>, relations: Relations)
    requires terms != []
    ensures var (path, coeff) := terms[0];
            if Replaceable(terms[0], spent, relations)
            then NextStep(terms, spent, relations).Some? &&
                 var step := NextStep(terms, spent, relations).value;
                 step.path == path && step.coeff == coeff && FirstUseful(relations, path, coeff, step.bound)
            else NextStep(terms, spent, relations) == NextStep(terms[1..], spent, relations)
  {
    var (path, coeff) := terms[0];
    if coeff != 0 && path in relations { BoundUnderIff(relations[path], coeff); }
  }

  /** The step at the first term that can be replaced. */
  lemma {:induction false} NextStepIs(terms: Terms, spent: set<string>, relations: Relations, k: nat, bound: Expr)
    requires k < |terms| && terms[k].0 !in spent && FirstUseful(relations, terms[k].0, terms[k].1, bound)
    requires forall j :: 0 <= j < k ==> !Replaceable(terms[j], spent, relations)
    ensures NextStep(terms, spent, relations) == Some(Step(terms[k].0, terms[k].1, bound))
  {
    hide NextStep, BoundUnder;
    NextStepIff(terms, spent, relations);
    assert Replaceable(terms[k], spent, relations);
    var step := NextStep(terms, spent, relations).value;
    var n :| 0 <= n < |terms| && terms[n] == (step.path, step.coeff) && Replaceable(terms[n], spent, relations)
             && forall j :: 0 <= j < n ==> !Replaceable(terms[j], spent, relations);
    assert n == k;
    var bounds := relations[step.path];
    var i :| 0 <= i < |bounds| && UsefulAt(bounds, i, step.coeff, step.bound);
    var j :| 0 <= j < |bounds| && UsefulAt(bounds, j, step.coeff, bound);
    UsefulUnique(bounds, i, j, step.coeff, step.bound, bound);
  }

  // ----- which expressions are sums, and how low a sum can be

  /** Does the expression name a field that can hold more than one value? */
  predicate Varies(e: Expr, env: Env) {
    match e
    case NameRef(_) => PathText(e).value in env.fields && !env.fields[PathText(e).value].IsPoint()
    case Access(_, _) => PathText(e).Some? && PathText(e).value in env.fields && !env.fields[PathText(e).value].IsPoint()
    case Unary(_, x) => Varies(x, env)
    case Binary(_, l, r) => Varies(l, env) || Varies(r, env)
    case _ => false
  }

  /** Is it a sum of fields, each times a number, and a number? */
  predicate Affine(e: Expr, env: Env) {
    match e
    case IntLit(_, _) => true
    case NameRef(_) => IntervalOf(e, env).Ok?
    case Access(_, _) => IntervalOf(e, env).Ok?
    case Unary(op, x) => op == Negate && Affine(x, env)
    case Binary(op, l, r) =>
      Affine(l, env) && Affine(r, env) && (op == Add || op == Sub || (op == Mul && !(Varies(l, env) && Varies(r, env))))
    case _ => false
  }

  /** Exactly those have a form, and it has a term exactly where something varies. */
  lemma {:induction false} LinearIff(e: Expr, env: Env)
    ensures Linear(e, env).Some? <==> Affine(e, env)
    ensures Linear(e, env).Some? ==> (Linear(e, env).value.terms != [] <==> Varies(e, env))
  {
    hide Merge, Scale, Keys;
    match e
    case NameRef(_) =>
    case Access(_, _) =>
    case Unary(_, x) =>
      LinearIff(x, env);
      if Linear(x, env).Some? { SomeKeys(Linear(x, env).value.terms, -1); }
    case Binary(_, l, r) =>
      LinearIff(l, env);
      LinearIff(r, env);
      if Linear(l, env).Some? && Linear(r, env).Some? {
        var a, b := Linear(l, env).value, Linear(r, env).value;
        SomeKeys(a.terms, b.constant);
        SomeKeys(b.terms, a.constant);
        MergedKeys(a.terms, b.terms, 1);
        MergedKeys(a.terms, b.terms, -1);
      }
    case _ =>
  }

  lemma SomeKeys(terms: Terms, coeff: int)
    ensures Scale(terms, coeff) == [] <==> terms == []
  {
  }

  lemma MergedKeys(terms: Terms, other: Terms, coeff: int)
    ensures Merge(terms, other, coeff) == [] <==> terms == [] && other == []
  {
    hide Merge;
    MergeKeys(terms, other, coeff);
    assert forall ts: Terms :: Keys(ts) == {} <==> ts == [];
  }

  /** Does the field have the end its coefficient asks for? The lower one is asked for in any case. */
  predicate HasEnd(term: (string, int), env: Env) {
    term.1 != 0 ==>
      term.0 in env.fields && env.fields[term.0].loKnown && (term.1 < 0 ==> env.fields[term.0].hi.Some?)
  }

  /** A floor is found exactly where every field that counts has the end it needs. */
  lemma {:induction false} FloorOfIff(f: Form, env: Env)
    requires Keyed(f.terms, env)
    ensures FloorOf(f, env).Some? <==>
            forall k :: 0 <= k < |f.terms| ==> HasEnd(f.terms[k], env)
    decreases |f.terms|
  {
    KeyedAll(f.terms);
    if f.terms != [] {
      var (path, coeff) := f.terms[0];
      var held := env.fields[path];
      assert forall k :: 0 < k < |f.terms| ==> f.terms[k] == f.terms[1..][k - 1];
      if coeff == 0 {
        FloorOfIff(Form(f.terms[1..], f.constant), env);
      } else if held.loKnown && (coeff < 0 ==> held.hi.Some?) {
        FloorOfIff(Form(f.terms[1..], f.constant + coeff * (if coeff > 0 then held.lo else held.hi.value)), env);
      }
    }
  }

  lemma {:induction false} KeyedAll(terms: Terms)
    ensures forall k :: 0 <= k < |terms| ==> terms[k].0 in Keys(terms)
  {
    if terms != [] {
      KeyedAll(terms[1..]);
      assert forall k :: 0 < k < |terms| ==> terms[k] == terms[1..][k - 1];
    }
  }

  /** Some value of the range. */
  function SomeOf(r: Interval): int {
    if r.loKnown || r.hi.None? then r.lo else r.hi.value
  }

  /** And then it is the least the sum is: in the message this hands back. */
  lemma {:induction false} FloorOfReached(f: Form, env: Env) returns (m: Message)
    requires Keyed(f.terms, env) && FloorOf(f, env).Some?
    requires forall p :: p in env.fields ==> env.fields[p].Inhabited()
    ensures InRange(env, m) && f.constant + Sum(f.terms, m.fields) == FloorOf(f, env).value
    decreases |f.terms|
  {
    if f.terms == [] {
      m := Message(map p | p in env.fields :: SomeOf(env.fields[p]), 0, map[]);
    } else {
      var (path, coeff) := f.terms[0];
      var held := env.fields[path];
      var worst := if coeff < 0 then held.hi.value else if coeff > 0 then held.lo else SomeOf(held);
      m := FloorOfReached(Form(f.terms[1..], f.constant + coeff * worst), env);
      SumElsewhere(f.terms[1..], path, worst, m.fields);
      m := m.(fields := m.fields[path := worst]);
    }
  }

  lemma {:induction false} SumElsewhere(terms: Terms, path: string, v: int, fields: map<string, int>)
    requires path !in Keys(terms)
    ensures Sum(terms, fields[path := v]) == Sum(terms, fields)
  {
    if terms != [] { SumElsewhere(terms[1..], path, v, fields); }
  }

  // ----- and it is worth having

  /** No step gives up a floor already found. */
  lemma {:induction false} FloorFromAtLeast(
    f: Form, best: Option<int>, spent: set<string>, env: Env, relations: Relations)
    requires Keyed(f.terms, env) && best.Some?
    ensures FloorFrom(f, best, spent, env, relations).Some?
    ensures FloorFrom(f, best, spent, env, relations).value >= best.value
    decreases relations.Keys - spent
  {
    var step := NextStep(f.terms, spent, relations);
    if step.Some? {
      NextStepRelated(f.terms, spent, relations);
      var spent' := spent + {step.value.path};
      var bound := Linear(step.value.bound, env);
      if bound.None? {
        FloorFromAtLeast(f, best, spent', env, relations);
      } else {
        LinearKeyed(step.value.bound, env);
        SubstituteKeyed(f, step.value, bound.value, env);
        var f' := Substitute(f, step.value, bound.value);
        FloorFromAtLeast(f', Better(best, FloorOf(f', env)), spent', env, relations);
      }
    }
  }

  /** Every floor a substitution uncovers is reached. */
  lemma {:induction false} StepAtLeast(
    f: Form, best: Option<int>, spent: set<string>, step: Step, bound: Form, env: Env, relations: Relations)
    requires Keyed(f.terms, env) && Keyed(bound.terms, env)
    requires NextStep(f.terms, spent, relations) == Some(step) && Linear(step.bound, env) == Some(bound)
    requires Keyed(Substitute(f, step, bound).terms, env) && FloorOf(Substitute(f, step, bound), env).Some?
    ensures FloorFrom(f, best, spent, env, relations).Some?
    ensures FloorFrom(f, best, spent, env, relations).value >= FloorOf(Substitute(f, step, bound), env).value
  {
    NextStepRelated(f.terms, spent, relations);
    var f' := Substitute(f, step, bound);
    FloorFromAtLeast(f', Better(best, FloorOf(f', env)), spent + {step.path}, env, relations);
  }

  /** `f`, or `f` more or less a number. */
  function Offset(f: string, k: int): Expr {
    if k == 0 then NameRef(f)
    else if k > 0 then Binary(Add, NameRef(f), IntLit(k, ""))
    else Binary(Sub, NameRef(f), IntLit(-k, ""))
  }

  /** `a - b`, or that less a number. */
  function Difference(a: string, b: string, c: int): Expr {
    if c == 0 then Binary(Sub, NameRef(a), NameRef(b)) else Binary(Sub, Binary(Sub, NameRef(a), NameRef(b)), IntLit(c, ""))
  }

  lemma {:induction false} OffsetForm(f: string, k: int, env: Env)
    requires f in env.fields && !env.fields[f].IsPoint()
    ensures Linear(Offset(f, k), env) == Some(Form([(f, 1)], k))
  {
    hide Merge;
    assert Linear(NameRef(f), env) == Some(Form([(f, 1)], 0));
    MergeNone([(f, 1)], 1);
    MergeNone([(f, 1)], -1);
  }

  lemma {:induction false} DifferenceForm(a: string, b: string, c: int, env: Env)
    requires a != b && a in env.fields && b in env.fields
    requires !env.fields[a].IsPoint() && !env.fields[b].IsPoint()
    ensures Linear(Difference(a, b, c), env) == Some(Form([(a, 1), (b, -1)], -c))
  {
    hide Merge;
    assert Linear(NameRef(a), env) == Some(Form([(a, 1)], 0));
    assert Linear(NameRef(b), env) == Some(Form([(b, 1)], 0));
    MergeOne([(a, 1)], b, 1, -1);
    assert Put([(a, 1)], b, -1) == [(a, 1), (b, -1)];
    MergeNone([(a, 1), (b, -1)], -1);
    assert Linear(Binary(Sub, NameRef(a), NameRef(b)), env) == Some(Form([(a, 1), (b, -1)], 0));
  }

  lemma MergeNone(terms: Terms, coeff: int)
    ensures Merge(terms, [], coeff) == terms
  {
  }

  lemma SubstituteIs(f: Form, step: Step, bound: Form)
    ensures Substitute(f, step, bound)
         == Form(Merge(Delete(f.terms, step.path), bound.terms, step.coeff), f.constant + step.coeff * bound.constant)
  {
  }

  /** One substitution that leaves a constant shows the constant. */
  lemma {:induction false} StepLeaves(e: Expr, f: Form, step: Step, bound: Form, field: string, k: int, env: Env, relations: Relations)
    requires Linear(e, env) == Some(f) && NextStep(f.terms, {}, relations) == Some(step) && Linear(step.bound, env) == Some(bound)
    requires Keyed(f.terms, env) && Keyed(bound.terms, env) && field in env.fields
    requires Substitute(f, step, bound) == Form([(field, 0)], k)
    ensures FloorSpec(e, env, relations).Some? && FloorSpec(e, env, relations).value >= k
  {
    hide Linear, Substitute, FloorFrom, NextStep;
    SubstituteKeyed(f, step, bound, env);
    var f' := Form([(field, 0)], k);
    assert FloorOf(f', env) == FloorOf(Form([], k), env) by { assert f'.terms[1..] == []; }
    StepAtLeast(f, FloorOf(f, env), {}, step, bound, env, relations);
  }

  /** `a - b - c` with `b` declared at most `a - k`, or exactly that, is at least `k - c`, whatever the ranges of
      the two fields: the case an interval, which holds one field at a time, cannot see. */
  lemma {:induction false} RelationSeen(a: string, b: string, k: int, c: int, env: Env, relations: Relations)
    requires a != b && a in env.fields && b in env.fields
    requires !env.fields[a].IsPoint() && !env.fields[b].IsPoint()
    requires NoneUseful(relations, a, 1) && FirstUseful(relations, b, -1, Offset(a, -k))
    ensures FloorSpec(Difference(a, b, c), env, relations).Some?
    ensures FloorSpec(Difference(a, b, c), env, relations).value >= k - c
  {
    hide Linear, Substitute, FloorFrom, NextStep, Offset, Difference;
    DifferenceForm(a, b, c, env);
    OffsetForm(a, -k, env);
    var f, step, other := Form([(a, 1), (b, -1)], -c), Step(b, -1, Offset(a, -k)), Form([(a, 1)], -k);
    NextStepIs(f.terms, {}, relations, 1, Offset(a, -k));
    assert Delete(f.terms, b) == [(a, 1)] by { assert f.terms[1..] == [(b, -1)]; }
    MergeOne([(a, 1)], a, 1, -1);
    assert Form([(a, 0)], k - c) == Substitute(f, step, other) by { SubstituteIs(f, step, other); }
    LinearKeyed(Difference(a, b, c), env);
    LinearKeyed(Offset(a, -k), env);
    StepLeaves(Difference(a, b, c), f, step, other, a, k - c, env, relations);
  }

  /** And so is it with `a` declared at least `b + k`, or exactly that. */
  lemma {:induction false} RelationSeenBelow(a: string, b: string, k: int, c: int, env: Env, relations: Relations)
    requires a != b && a in env.fields && b in env.fields
    requires !env.fields[a].IsPoint() && !env.fields[b].IsPoint()
    requires FirstUseful(relations, a, 1, Offset(b, k))
    ensures FloorSpec(Difference(a, b, c), env, relations).Some?
    ensures FloorSpec(Difference(a, b, c), env, relations).value >= k - c
  {
    hide Linear, Substitute, FloorFrom, NextStep, Offset, Difference;
    DifferenceForm(a, b, c, env);
    OffsetForm(b, k, env);
    var f, step, other := Form([(a, 1), (b, -1)], -c), Step(a, 1, Offset(b, k)), Form([(b, 1)], k);
    NextStepIs(f.terms, {}, relations, 0, Offset(b, k));
    assert Delete(f.terms, a) == [(b, -1)] by { assert f.terms[1..] == [(b, -1)]; }
    MergeOne([(b, -1)], b, 1, 1);
    assert Form([(b, 0)], k - c) == Substitute(f, step, other) by { SubstituteIs(f, step, other); }
    LinearKeyed(Difference(a, b, c), env);
    LinearKeyed(Offset(b, k), env);
    StepLeaves(Difference(a, b, c), f, step, other, b, k - c, env, relations);
  }

  // ----- the count of an array

  /** Why a size expression cannot count an array. */
  datatype CountRefusal = Unusable(why: Refusal) | NoLowerBound | MayBeBelowZero | ZeroLength

  /** `count` of an array sized by an expression: its range, lifted by the relational floor
      where that shows it is not negative. */
  method ArrayCount(e: Expr, env: Env, relations: Relations) returns (r: Result<Interval, CountRefusal>)
    ensures r == CountSpec(e, env, relations)
  {
    var found := IntervalOf(e, env);
    if found.Err? {
      return Err(Unusable(found.error));
    }
    var count := found.value;
    if count.loKnown && count.lo < 0 {
      var floor := RelationalFloor(e, env, relations);
      if floor.Some? && floor.value >= 0 {
        count := Interval(floor.value, count.hi, true);
      }
    }
    if !count.loKnown { return Err(NoLowerBound); }
    if count.lo < 0 { return Err(MayBeBelowZero); }
    if count == Point(0) { return Err(ZeroLength); }
    return Ok(count);
  }

  function CountSpec(e: Expr, env: Env, relations: Relations): Result<Interval, CountRefusal> {
    match IntervalOf(e, env)
    case Err(why) => Err(Unusable(why))
    case Ok(i) =>
      var floor := FloorSpec(e, env, relations);
      var count := if i.loKnown && i.lo < 0 && floor.Some? && floor.value >= 0
                   then Interval(floor.value, i.hi, true) else i;
      if !count.loKnown then Err(NoLowerBound)
      else if count.lo < 0 then Err(MayBeBelowZero)
      else if count == Point(0) then Err(ZeroLength)
      else Ok(count)
  }

  /** An accepted array length is never negative, and never outside the range the layout is
      solved with, in any message that is in range and meets the bounds its fields state. */
  lemma {:induction false} AcceptedCountIsNonNegative(e: Expr, env: Env, relations: Relations, m: Message)
    requires NamesAgree(env)
    requires InRange(env, m) && Satisfies(env, relations, m)
    requires CountSpec(e, env, relations).Ok? && Value(e, env, Some(m)).Ok?
    ensures CountSpec(e, env, relations).value.lo >= 0
    ensures CountSpec(e, env, relations).value.Contains(Value(e, env, Some(m)).value)
    ensures Value(e, env, Some(m)).value >= 0
  {
    IntervalSound(e, env, Some(m));
    if FloorSpec(e, env, relations).Some? { FloorSound(e, env, relations, m); }
  }

  /** A count is accepted exactly where its range or the floor shows that it is never negative, and its range allows
      more than zero; then its lower end is the one that shows it. */
  lemma {:induction false} CountAcceptedIff(e: Expr, env: Env, relations: Relations)
    ensures var r, i, floor := CountSpec(e, env, relations), IntervalOf(e, env), FloorSpec(e, env, relations);
            && (r.Ok? <==>
                && i.Ok? && i.value.loKnown && (i.value.NonNegative() || (floor.Some? && floor.value >= 0))
                && !(i.value.hi == Some(0) && (i.value.lo == 0 || (i.value.lo < 0 && floor == Some(0)))))
            && (r.Ok? ==> r.value.hi == i.value.hi && r.value.loKnown &&
                          r.value.lo == if i.value.NonNegative() then i.value.lo else floor.value)
            && (r == Err(NoLowerBound) <==> i.Ok? && !i.value.loKnown)
            && (r == Err(MayBeBelowZero) <==>
                i.Ok? && i.value.loKnown && !i.value.NonNegative() && (floor.None? || floor.value < 0))
  {
    hide FloorSpec;
  }

  /** One that names each field once, over fields that state no bounds by others, is refused as negative only where
      some message in range makes it so. */
  lemma {:induction false} RefusedCountIsNegative(e: Expr, env: Env, relations: Relations) returns (m: Message)
    requires NamesAgree(env) && Declared(env) && ReadOnce(e, env) && CountSpec(e, env, relations) == Err(MayBeBelowZero)
    ensures InRange(env, m) && Value(e, env, Some(m)).Ok? && Value(e, env, Some(m)).value < 0
  {
    hide FloorSpec, ReadOnce, IntervalOf, Value;
    CountAcceptedIff(e, env, relations);
    m := EndsAttained(e, env, false);
  }
}
