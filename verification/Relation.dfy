/** Relation planning (situc/relation.py): a `must` over two views compiled to ordered bindings and
    a test over the locals they bind. */
module Relations {
  import opened Prelude
  import opened Ast
  import opened Intervals

  datatype Kind = UInt | SInt | Float | BitField | SFixed | UFixed | Bcd

  datatype Scalar = Scalar(kind: Kind, signed: bool, bits: nat)

  /** A bound attribute whose value is a literal. */
  datatype Limit = MaxIs(value: int) | MinIs(value: int) | MustEqual(value: int)

  /** How many elements a member has: one, a count the layout knows, or as many as the message says or
      its own bytes end. Only the second has an `array_count`. */
  datatype Extent = Single | Counted(count: nat) | RunTime

  datatype Placement = Placement(scalar: Option<Scalar>, typeName: string, extent: Extent, bounds: seq<Limit>)

  /** The resolved structs: each one's own members by name. */
  type Layouts = map<string, map<string, Placement>>

  /** A dotted path by its components. */
  type Path = seq<string>

  datatype Binding =
    | SubView(owner: string, member: string, into: string, source: string, target: string)
    | Read(owner: string, member: string, source: string, target: string)
    | ReadBytes(owner: string, member: string, source: string, target: string, length: int)

  datatype BytesEqual = BytesEqual(left: string, right: string, length: int, negated: bool)

  datatype Constraint = Constraint(
    bindings: seq<Binding>, locals: map<Path, string>, expr: Expr, signed: bool, bytesEqual: Option<BytesEqual>)

  datatype PlanRefusal =
    | NoLayout | NoPlacement | NotAStruct | NamesNoMember
    | NotScalar | FloatingPoint | IsArray | UnevenElements
    | OrdersArrays | LengthsDiffer | KindsDiffer
    | NoCommonType | DividesSigned | ShiftNotBounded | AsksLayout | NotEmittable
    | PythonError

  // ----- names

  function Decimal(n: nat): string {
    if n < 10 then [('0' as int + n) as char] else Decimal(n / 10) + [('0' as int + n % 10) as char]
  }

  /** `f"_{index}"` */
  function Local(n: nat): string {
    "_" + Decimal(n)
  }

  // ----- paths

  /** `paths_in` */
  function PathsIn(e: Expr): seq<Path> {
    match e
    case Access(base, member) =>
      (var found := PathsIn(base);
       if found == [] then [[member]] else [found[0] + [member]])
    case NameRef(name) => [[name]]
    case Binary(_, l, r) => PathsIn(l) + PathsIn(r)
    case Unary(_, x) => PathsIn(x)
    case _ => []
  }

  /** `dict.fromkeys`: each path once, where it first stood. */
  function Once(paths: seq<Path>): seq<Path> {
    if paths == [] then []
    else
      var before := Once(paths[..|paths| - 1]);
      var last := paths[|paths| - 1];
      if last in before then before else before + [last]
  }

  lemma {:induction false} OnceKeeps(paths: seq<Path>)
    ensures forall p :: p in Once(paths) <==> p in paths
  {
    if paths != [] {
      OnceKeeps(paths[..|paths| - 1]);
      assert paths == paths[..|paths| - 1] + [paths[|paths| - 1]];
    }
  }

  // ----- leaves

  /** `_leaf` */
  function Leaf(p: Placement): Result<Scalar, PlanRefusal> {
    if p.scalar.None? then Err(NotScalar)
    else if p.extent.Counted? then Err(IsArray)
    else if p.scalar.value.kind == Float then Err(FloatingPoint)
    else Ok(p.scalar.value)
  }

  /** `_array_bytes`; the source asserts that there is a count. */
  function ArrayBytes(p: Placement): Result<int, PlanRefusal> {
    if p.scalar.None? then Err(NotScalar)
    else if p.scalar.value.kind == Float then Err(FloatingPoint)
    else if p.scalar.value.bits % 8 != 0 then Err(UnevenElements)
    else if !p.extent.Counted? then Err(PythonError)
    else Ok(p.extent.count * (p.scalar.value.bits / 8))
  }

  /** What `layouts` says of one step into a struct. */
  function Member(layouts: Layouts, owner: string, member: string): Result<Placement, PlanRefusal>
    requires owner in layouts
  {
    if member in layouts[owner] then Ok(layouts[owner][member]) else Err(NoPlacement)
  }

  /** `_leaf_placement`, after the parameter. */
  function LeafOf(layouts: Layouts, owner: string, components: Path): Result<Placement, PlanRefusal>
    requires owner in layouts && components != []
    decreases |components|
  {
    var p :- Member(layouts, owner, components[0]);
    if |components| == 1 then Ok(p)
    else if p.typeName !in layouts then Err(NotAStruct)
    else LeafOf(layouts, p.typeName, components[1..])
  }

  /** The struct a path's parameter is a view of. */
  function Root(layouts: Layouts, params: map<string, string>, path: Path): (r: Result<string, PlanRefusal>)
    requires path != []
    ensures r.Ok? ==> r.value in layouts && path[0] in params && params[path[0]] == r.value
  {
    if path[0] !in params then Err(PythonError)
    else if params[path[0]] !in layouts then Err(NoLayout)
    else Ok(params[path[0]])
  }

  function LeafPlacement(layouts: Layouts, params: map<string, string>, path: Path): Result<Placement, PlanRefusal>
    requires path != []
  {
    var owner :- Root(layouts, params, path);
    if |path| == 1 then Err(NamesNoMember) else LeafOf(layouts, owner, path[1..])
  }

  // ----- the two shapes of a constraint

  datatype ArrayTest = ArrayTest(left: Path, right: Path, length: int, negated: bool)

  predicate Compares(op: BinaryOp) {
    op in {Eq, Ne, Lt, Le, Gt, Ge}
  }

  /** The last lines of `_array_equality`: two placements, both of them arrays. */
  function ArraysEqual(e: Expr, left: Path, right: Path, l: Placement, r: Placement): Result<Option<ArrayTest>, PlanRefusal>
    requires e.Binary?
  {
    if e.op != Eq && e.op != Ne then Err(OrdersArrays)
    else
      var lw :- ArrayBytes(l);
      var rw :- ArrayBytes(r);
      if lw != rw then Err(LengthsDiffer)
      else if l.scalar != None && r.scalar != None && l.scalar.value.kind != r.scalar.value.kind then Err(KindsDiffer)
      else Ok(Some(ArrayTest(left, right, lw, e.op == Ne)))
  }

  lemma {:induction false} PathsNonEmpty(e: Expr)
    ensures forall p :: p in PathsIn(e) ==> p != []
  {
    match e
    case Binary(_, l, r) => PathsNonEmpty(l); PathsNonEmpty(r);
    case Unary(_, x) => PathsNonEmpty(x);
    case Access(base, _) => PathsNonEmpty(base);
    case _ =>
  }

  /** `_array_equality` */
  function ArrayEquality(e: Expr, layouts: Layouts, params: map<string, string>): Result<Option<ArrayTest>, PlanRefusal> {
    if !e.Binary? || !Compares(e.op) then Ok(None)
    else if |PathsIn(e.left)| != 1 || |PathsIn(e.right)| != 1 then Ok(None)
    else
      var left, right := PathsIn(e.left)[0], PathsIn(e.right)[0];
      PathsNonEmpty(e.left);
      PathsNonEmpty(e.right);
      assert left in PathsIn(e.left) && right in PathsIn(e.right);
      var l :- LeafPlacement(layouts, params, left);
      var r :- LeafPlacement(layouts, params, right);
      if !l.extent.Counted? || !r.extent.Counted? then Ok(None)
      else ArraysEqual(e, left, right, l, r)
  }

  /** `_widen` */
  function Widen(operands: seq<Scalar>): Result<bool, PlanRefusal> {
    if !exists s :: s in operands && s.signed then Ok(false)
    else if exists s :: s in operands && !s.signed && s.bits >= 64 then Err(NoCommonType)
    else Ok(true)
  }

  /** `_amount_range`'s loop over the attributes. */
  function Narrow(r: Interval, bounds: seq<Limit>): Interval
    decreases |bounds|
  {
    if bounds == [] then r
    else
      match bounds[0]
      case MustEqual(v) => Point(v)
      case MaxIs(v) => Narrow(r.(hi := Some(if r.hi.None? then v else Min(r.hi.value, v))), bounds[1..])
      case MinIs(v) => Narrow(r.(lo := Max(r.lo, v)), bounds[1..])
  }

  function AmountRange(p: Placement): Interval {
    if p.scalar.None? then Interval(0, None, true)
    else if p.scalar.value.signed && p.scalar.value.bits == 0 then Interval(0, None, true)
    else Narrow(ScalarInterval(p.scalar.value.bits, p.scalar.value.signed), p.bounds)
  }

  /** `_shift_amount` */
  function ShiftAmount(e: Expr, ranges: map<Path, Interval>): Interval {
    if e.IntLit? then Point(e.value)
    else if (e.Access? || e.NameRef?) && |PathsIn(e)| == 1 && PathsIn(e)[0] in ranges then ranges[PathsIn(e)[0]]
    else Interval(0, None, true)
  }

  predicate ProvablyBelow64(r: Interval) {
    r.lo >= 0 && r.hi.Some? && r.hi.value < SHIFT_WIDTH
  }

  /** `_check`. Every operator the grammar has is one a relation may hold. */
  function Check(e: Expr, signed: bool, ranges: map<Path, Interval>): Result<(), PlanRefusal> {
    match e
    case IntLit(_, _) => Ok(())
    case Access(_, _) => Ok(())
    case NameRef(_) => Ok(())
    case Binary(op, l, r) =>
      if signed && (op == Div || op == Mod) then Err(DividesSigned)
      else if (op == Shl || op == Shr) && !ProvablyBelow64(ShiftAmount(r, ranges)) then Err(ShiftNotBounded)
      else
        var _ :- Check(l, signed, ranges);
        Check(r, signed, ranges)
    case Unary(_, x) => Check(x, signed, ranges)
    case Call(_, _) => Err(AsksLayout)
    case _ => Err(NotEmittable)
  }

  // ----- binding

  datatype Walked = Walked(bindings: seq<Binding>, leaf: Placement)

  /** The binding a path ends in. */
  function Last(p: Placement, owner: string, member: string, source: string, target: string,
                arrays: bool): Result<Binding, PlanRefusal> {
    if arrays then
      var length :- ArrayBytes(p);
      Ok(ReadBytes(owner, member, source, target, length))
    else
      var _ :- Leaf(p);
      Ok(Read(owner, member, source, target))
  }

  /** The bindings of one path, after its parameter. */
  function Walk(layouts: Layouts, owner: string, components: Path, source: string, index: nat, arrays: bool)
      : (w: Result<Walked, PlanRefusal>)
    requires owner in layouts && components != []
    ensures w.Ok? ==> |w.value.bindings| == |components|
    ensures w.Ok? ==> forall k :: 0 <= k < |components| ==> w.value.bindings[k].target == Local(index + k)
    ensures w.Ok? ==> LeafOf(layouts, owner, components) == Ok(w.value.leaf)
    decreases |components|
  {
    var p :- Member(layouts, owner, components[0]);
    if |components| == 1 then
      var b :- Last(p, owner, components[0], source, Local(index), arrays);
      Ok(Walked([b], p))
    else if p.typeName !in layouts then Err(NotAStruct)
    else
      var rest :- Walk(layouts, p.typeName, components[1..], Local(index), index + 1, arrays);
      Ok(Walked([SubView(owner, components[0], p.typeName, source, Local(index))] + rest.bindings, rest.leaf))
  }

  /** What the loop over paths has collected. */
  datatype Collected = Collected(
    bindings: seq<Binding>, locals: map<Path, string>, operands: seq<Scalar>, ranges: map<Path, Interval>)

  const NOTHING := Collected([], map[], [], map[])

  /** One turn of the loop over paths. */
  function BindPath(layouts: Layouts, params: map<string, string>, c: Collected, path: Path, index: nat, arrays: bool)
      : Result<Collected, PlanRefusal>
    requires path != []
  {
    var owner :- Root(layouts, params, path);
    if |path| == 1 then Ok(c)
    else
      var at := index + |c.bindings|;
      var w :- Walk(layouts, owner, path[1..], path[0], at, arrays);
      var locals := c.locals[path := Local(at + |path| - 2)];
      if arrays then Ok(Collected(c.bindings + w.bindings, locals, c.operands, c.ranges))
      else
        var s :- Leaf(w.leaf);
        Ok(Collected(c.bindings + w.bindings, locals, c.operands + [s], c.ranges[path := AmountRange(w.leaf)]))
  }

  predicate NonEmptyPaths(paths: seq<Path>) {
    forall i :: 0 <= i < |paths| ==> paths[i] != []
  }

  function BindPaths(layouts: Layouts, params: map<string, string>, paths: seq<Path>, index: nat, arrays: bool)
      : Result<Collected, PlanRefusal>
    requires NonEmptyPaths(paths)
  {
    if paths == [] then Ok(NOTHING)
    else
      var before :- BindPaths(layouts, params, paths[..|paths| - 1], index, arrays);
      BindPath(layouts, params, before, paths[|paths| - 1], index, arrays)
  }

  /** The paths of a constraint in the order they are bound. */
  function Named(e: Expr): (paths: seq<Path>)
    ensures NonEmptyPaths(paths)
  {
    PathsNonEmpty(e);
    OnceKeeps(PathsIn(e));
    assert forall i :: 0 <= i < |Once(PathsIn(e))| ==> Once(PathsIn(e))[i] in Once(PathsIn(e));
    Once(PathsIn(e))
  }

  /** What follows the bindings of one constraint. */
  function Finish(e: Expr, arrays: Option<ArrayTest>, c: Collected): Result<Constraint, PlanRefusal> {
    match arrays
    case Some(t) =>
      if t.left in c.locals && t.right in c.locals then
        Ok(Constraint(c.bindings, c.locals, e, false,
                      Some(BytesEqual(c.locals[t.left], c.locals[t.right], t.length, t.negated))))
      else Err(PythonError)
    case None =>
      var signed :- Widen(c.operands);
      var _ :- Check(e, signed, c.ranges);
      Ok(Constraint(c.bindings, c.locals, e, signed, None))
  }

  /** One turn of `plan`'s outer loop. */
  function PlanOne(layouts: Layouts, params: map<string, string>, e: Expr, index: nat): Result<Constraint, PlanRefusal> {
    var arrays :- ArrayEquality(e, layouts, params);
    var c :- BindPaths(layouts, params, Named(e), index, arrays.Some?);
    Finish(e, arrays, c)
  }

  /** Every binding of a plan, constraint after constraint. */
  function AllBindings(plans: seq<Constraint>): seq<Binding> {
    if plans == [] then [] else AllBindings(plans[..|plans| - 1]) + plans[|plans| - 1].bindings
  }

  function PlanAll(layouts: Layouts, params: map<string, string>, body: seq<Expr>): Result<seq<Constraint>, PlanRefusal> {
    if body == [] then Ok([])
    else
      var before :- PlanAll(layouts, params, body[..|body| - 1]);
      var c :- PlanOne(layouts, params, body[|body| - 1], |AllBindings(before)|);
      Ok(before + [c])
  }

  // ----- the loops

  /** The innermost loop: one path's components. */
  method WalkPath(layouts: Layouts, owner: string, components: Path, source: string, index: nat, arrays: bool)
      returns (w: Result<Walked, PlanRefusal>)
    requires owner in layouts && components != []
    ensures w == Walk(layouts, owner, components, source, index, arrays)
  {
    var bindings: seq<Binding> := [];
    var struct, from, position := owner, source, 0;
    assert components[0..] == components;
    NothingBefore(Walk(layouts, owner, components, source, index, arrays));
    while true
      invariant 0 <= position < |components| && struct in layouts && |bindings| == position
      invariant Walk(layouts, owner, components, source, index, arrays) ==
                Before(bindings, Walk(layouts, struct, components[position..], from, index + position, arrays))
      decreases |components| - position
    {
      assert components[position..][0] == components[position] && components[position..][1..] == components[position + 1..];
      var p :- Member(layouts, struct, components[position]);
      var target := Local(index + position);
      if position == |components| - 1 {
        var b :- Last(p, struct, components[position], from, target, arrays);
        return Ok(Walked(bindings + [b], p));
      }
      if p.typeName !in layouts { return Err(NotAStruct); }
      Regrouped(bindings, SubView(struct, components[position], p.typeName, from, target),
                Walk(layouts, p.typeName, components[position + 1..], target, index + position + 1, arrays));
      bindings := bindings + [SubView(struct, components[position], p.typeName, from, target)];
      struct, from, position := p.typeName, target, position + 1;
    }
  }

  /** Bindings made before the rest of a walk. */
  function Before(bindings: seq<Binding>, rest: Result<Walked, PlanRefusal>): Result<Walked, PlanRefusal> {
    match rest
    case Err(r) => Err(r)
    case Ok(w) => Ok(Walked(bindings + w.bindings, w.leaf))
  }

  lemma NothingBefore(rest: Result<Walked, PlanRefusal>)
    ensures Before([], rest) == rest
  {
    if rest.Ok? { assert [] + rest.value.bindings == rest.value.bindings; }
  }

  lemma Regrouped(a: seq<Binding>, b: Binding, rest: Result<Walked, PlanRefusal>)
    ensures Before(a, Before([b], rest)) == Before(a + [b], rest)
  {
    if rest.Ok? { assert a + ([b] + rest.value.bindings) == (a + [b]) + rest.value.bindings; }
  }

  /** The body of the loop over paths. */
  method BindOne(layouts: Layouts, params: map<string, string>, c: Collected, path: Path, index: nat, arrays: bool)
      returns (r: Result<Collected, PlanRefusal>)
    requires path != []
    ensures r == BindPath(layouts, params, c, path, index, arrays)
  {
    var owner :- Root(layouts, params, path);
    if |path| == 1 { return Ok(c); }
    var at := index + |c.bindings|;
    var walked := WalkPath(layouts, owner, path[1..], path[0], at, arrays);
    var w :- walked;
    var locals := c.locals[path := Local(at + |path| - 2)];
    if arrays { return Ok(Collected(c.bindings + w.bindings, locals, c.operands, c.ranges)); }
    var s :- Leaf(w.leaf);
    return Ok(Collected(c.bindings + w.bindings, locals, c.operands + [s], c.ranges[path := AmountRange(w.leaf)]));
  }

  /** A path that is refused refuses the paths after it too. */
  lemma {:induction false} PrefixRefused(layouts: Layouts, params: map<string, string>, paths: seq<Path>, k: nat,
                                         index: nat, arrays: bool)
    requires NonEmptyPaths(paths) && k <= |paths|
    requires BindPaths(layouts, params, paths[..k], index, arrays).Err?
    ensures BindPaths(layouts, params, paths, index, arrays) == BindPaths(layouts, params, paths[..k], index, arrays)
  {
    if k == |paths| {
      assert paths[..k] == paths;
    } else {
      var init := paths[..|paths| - 1];
      assert init[..k] == paths[..k];
      PrefixRefused(layouts, params, init, k, index, arrays);
    }
  }

  /** One `must`. */
  method PlanMust(layouts: Layouts, params: map<string, string>, e: Expr, index: nat)
      returns (r: Result<Constraint, PlanRefusal>)
    ensures r == PlanOne(layouts, params, e, index)
  {
    hide BindPath;
    var arrays :- ArrayEquality(e, layouts, params);
    var paths := Named(e);
    var c := NOTHING;
    for i := 0 to |paths|
      invariant BindPaths(layouts, params, paths[..i], index, arrays.Some?) == Ok(c)
    {
      assert paths[..i + 1][..i] == paths[..i] && paths[..i + 1][i] == paths[i];
      var bound := BindOne(layouts, params, c, paths[i], index, arrays.Some?);
      if bound.Err? {
        PrefixRefused(layouts, params, paths, i + 1, index, arrays.Some?);
        return Err(bound.error);
      }
      c := bound.value;
    }
    assert paths[..|paths|] == paths;
    return Finish(e, arrays, c);
  }

  lemma {:induction false} BodyRefused(layouts: Layouts, params: map<string, string>, body: seq<Expr>, k: nat)
    requires k <= |body| && PlanAll(layouts, params, body[..k]).Err?
    ensures PlanAll(layouts, params, body) == PlanAll(layouts, params, body[..k])
  {
    if k == |body| {
      assert body[..k] == body;
    } else {
      assert body[..|body| - 1][..k] == body[..k];
      BodyRefused(layouts, params, body[..|body| - 1], k);
    }
  }

  /** `plan` */
  method Plan(layouts: Layouts, params: map<string, string>, body: seq<Expr>)
      returns (r: Result<seq<Constraint>, PlanRefusal>)
    ensures r == PlanAll(layouts, params, body)
  {
    hide PlanOne;
    var plans: seq<Constraint> := [];
    var index := 0;
    for i := 0 to |body|
      invariant PlanAll(layouts, params, body[..i]) == Ok(plans) && index == |AllBindings(plans)|
    {
      assert body[..i + 1][..i] == body[..i] && body[..i + 1][i] == body[i];
      var planned := PlanMust(layouts, params, body[i], index);
      if planned.Err? {
        BodyRefused(layouts, params, body, i + 1);
        return Err(planned.error);
      }
      index := index + |planned.value.bindings|;
      assert (plans + [planned.value])[..|plans|] == plans;
      plans := plans + [planned.value];
    }
    assert body[..|body|] == body;
    return Ok(plans);
  }
}
