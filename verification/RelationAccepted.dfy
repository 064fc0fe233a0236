/** Which constraints a relation may hold, from the layouts of the two messages alone. */
module RelationAccepted {
  import opened Prelude
  import opened Ast
  import opened Intervals
  import opened Relations
  import opened RelationTheorems

  // ----- arrays

  /** Do two arrays hold the same number of whole bytes of one kind of element, and not of floats? */
  predicate Comparable(l: Placement, r: Placement) {
    && l.extent.Counted? && r.extent.Counted? && l.scalar.Some? && r.scalar.Some?
    && l.scalar.value.kind == r.scalar.value.kind != Float
    && l.scalar.value.bits % 8 == 0 && r.scalar.value.bits % 8 == 0
    && l.extent.count * (l.scalar.value.bits / 8) == r.extent.count * (r.scalar.value.bits / 8)
  }

  /** Two arrays are compared exactly when they are asked to be the same or not and are comparable; then it is
      the bytes of both, every one. */
  lemma ArraysAcceptedIff(e: Expr, left: Path, right: Path, l: Placement, r: Placement)
    requires e.Binary? && l.extent.Counted? && r.extent.Counted?
    ensures ArraysEqual(e, left, right, l, r).Ok? <==> (e.op == Eq || e.op == Ne) && Comparable(l, r)
    ensures ArraysEqual(e, left, right, l, r).Ok? ==>
            ArraysEqual(e, left, right, l, r).value ==
            Some(ArrayTest(left, right, l.extent.count * (l.scalar.value.bits / 8), e.op == Ne))
  {
  }

  /** Does the constraint compare the members two paths end at? */
  predicate ComparesTwo(e: Expr) {
    e.Binary? && Compares(e.op) && |PathsIn(e.left)| == 1 && |PathsIn(e.right)| == 1
  }

  function Side(e: Expr): (path: Path)
    requires |PathsIn(e)| == 1
    ensures path != [] && PathsIn(e) == [path]
  {
    PathsNonEmpty(e);
    assert PathsIn(e)[0] in PathsIn(e);
    PathsIn(e)[0]
  }

  /** Do both paths end at members? */
  predicate BothEnd(e: Expr, layouts: Layouts, params: map<string, string>)
    requires ComparesTwo(e)
  {
    LeafPlacement(layouts, params, Side(e.left)).Ok? && LeafPlacement(layouts, params, Side(e.right)).Ok?
  }

  /** Are both of them arrays the layout can count? */
  predicate BothArrays(e: Expr, layouts: Layouts, params: map<string, string>) {
    && ComparesTwo(e) && BothEnd(e, layouts, params)
    && LeafPlacement(layouts, params, Side(e.left)).value.extent.Counted?
    && LeafPlacement(layouts, params, Side(e.right)).value.extent.Counted?
  }

  lemma ShapeIff(e: Expr, layouts: Layouts, params: map<string, string>)
    ensures ArrayEquality(e, layouts, params).Ok? <==>
            if BothArrays(e, layouts, params)
            then (e.op == Eq || e.op == Ne) &&
                 Comparable(LeafPlacement(layouts, params, Side(e.left)).value, LeafPlacement(layouts, params, Side(e.right)).value)
            else ComparesTwo(e) ==> BothEnd(e, layouts, params)
    ensures ArrayEquality(e, layouts, params).Ok? ==>
            (ArrayEquality(e, layouts, params).value.Some? <==> BothArrays(e, layouts, params))
    ensures ArrayEquality(e, layouts, params).Ok? && BothArrays(e, layouts, params) ==>
            var t := ArrayEquality(e, layouts, params).value.value; t.left == Side(e.left) && t.right == Side(e.right)
  {
    hide LeafPlacement, PathsIn, ArraysEqual, Comparable;
    if BothArrays(e, layouts, params) {
      ArraysAcceptedIff(e, Side(e.left), Side(e.right), LeafPlacement(layouts, params, Side(e.left)).value,
                        LeafPlacement(layouts, params, Side(e.right)).value);
    }
  }

  // ----- paths

  /** One scalar, and not a float. Only a count the layout knows makes it an array here. */
  predicate OneValue(p: Placement) {
    p.scalar.Some? && p.scalar.value.kind != Float && !p.extent.Counted?
  }

  /** So many scalars of whole bytes, and not floats. */
  predicate WholeBytes(p: Placement) {
    p.scalar.Some? && p.scalar.value.kind != Float && p.scalar.value.bits % 8 == 0 && p.extent.Counted?
  }

  lemma EndIff(p: Placement)
    ensures Leaf(p).Ok? <==> OneValue(p)
    ensures Leaf(p).Ok? ==> Some(Leaf(p).value) == p.scalar
    ensures ArrayBytes(p).Ok? <==> WholeBytes(p)
  {
  }

  /** Does the path end at something its binding can read? A path of a bare parameter binds nothing. */
  predicate Reads(layouts: Layouts, params: map<string, string>, path: Path, arrays: bool)
    requires path != []
  {
    && Root(layouts, params, path).Ok?
    && (|path| > 1 ==>
          && LeafPlacement(layouts, params, path).Ok?
          && var p := LeafPlacement(layouts, params, path).value;
             if arrays then WholeBytes(p) else OneValue(p))
  }

  lemma {:induction false} WalkIff(layouts: Layouts, owner: string, components: Path, source: string, index: nat, arrays: bool)
    requires owner in layouts && components != []
    ensures Walk(layouts, owner, components, source, index, arrays).Ok? <==>
            && LeafOf(layouts, owner, components).Ok?
            && var p := LeafOf(layouts, owner, components).value; if arrays then WholeBytes(p) else OneValue(p)
    decreases |components|
  {
    hide Local, ArrayBytes, Leaf, OneValue, WholeBytes;
    if components[0] in layouts[owner] { EndIff(layouts[owner][components[0]]); }
    if |components| > 1 && components[0] in layouts[owner] && layouts[owner][components[0]].typeName in layouts {
      WalkIff(layouts, layouts[owner][components[0]].typeName, components[1..], Local(index), index + 1, arrays);
    }
  }

  lemma {:induction false} BindIff(layouts: Layouts, params: map<string, string>, c: Collected, path: Path, index: nat, arrays: bool)
    requires path != []
    ensures BindPath(layouts, params, c, path, index, arrays).Ok? <==> Reads(layouts, params, path, arrays)
  {
    hide Local, Walk, LeafOf, ArrayBytes, Leaf, OneValue, WholeBytes;
    if LeafPlacement(layouts, params, path).Ok? { EndIff(LeafPlacement(layouts, params, path).value); }
    if |path| > 1 && Root(layouts, params, path).Ok? {
      WalkIff(layouts, params[path[0]], path[1..], path[0], index + |c.bindings|, arrays);
    }
  }

  /** What a path adds to the operands and the ranges. */
  function ScalarAt(layouts: Layouts, params: map<string, string>, path: Path): Option<Scalar>
    requires path != []
  {
    if |path| > 1 && LeafPlacement(layouts, params, path).Ok? then LeafPlacement(layouts, params, path).value.scalar else None
  }

  predicate Operand(layouts: Layouts, params: map<string, string>, paths: seq<Path>, s: Scalar)
    requires NonEmptyPaths(paths)
  {
    exists i :: 0 <= i < |paths| && ScalarAt(layouts, params, paths[i]) == Some(s)
  }

  /** The range the shift rule takes a path to have. */
  function RangeAt(layouts: Layouts, params: map<string, string>, path: Path): Option<Interval>
    requires path != []
  {
    if |path| > 1 && LeafPlacement(layouts, params, path).Ok? then Some(AmountRange(LeafPlacement(layouts, params, path).value))
    else None
  }

  /** What the loop over the paths collects: the paths' scalars and their ranges, and nothing else. */
  ghost predicate Gathers(layouts: Layouts, params: map<string, string>, paths: seq<Path>, c: Collected)
    requires NonEmptyPaths(paths)
  {
    && (forall s :: s in c.operands <==> Operand(layouts, params, paths, s))
    && (forall path :: path in c.ranges <==> path in paths && |path| > 1)
    && forall path :: path in c.ranges && path != [] ==> Some(c.ranges[path]) == RangeAt(layouts, params, path)
  }

  /** The loop is refused exactly when some path is. */
  lemma {:induction false} PathsIff(layouts: Layouts, params: map<string, string>, paths: seq<Path>, index: nat, arrays: bool)
    requires NonEmptyPaths(paths)
    ensures BindPaths(layouts, params, paths, index, arrays).Ok? <==>
            forall i :: 0 <= i < |paths| ==> Reads(layouts, params, paths[i], arrays)
    ensures BindPaths(layouts, params, paths, index, arrays).Ok? && !arrays ==>
            Gathers(layouts, params, paths, BindPaths(layouts, params, paths, index, arrays).value)
    decreases |paths|
  {
    hide BindPath, Reads, Gathers;
    if paths == [] {
      GathersNothing(layouts, params);
    } else {
      var init, path := paths[..|paths| - 1], paths[|paths| - 1];
      PathsIff(layouts, params, init, index, arrays);
      assert forall i :: 0 <= i < |init| ==> paths[i] == init[i];
      if BindPaths(layouts, params, init, index, arrays).Ok? {
        var c := BindPaths(layouts, params, init, index, arrays).value;
        BindIff(layouts, params, c, path, index, arrays);
        if Reads(layouts, params, path, arrays) && !arrays {
          GathersMore(layouts, params, init, path, c, index);
          assert paths == init + [path];
        }
      }
    }
  }

  lemma GathersNothing(layouts: Layouts, params: map<string, string>)
    ensures Gathers(layouts, params, [], NOTHING)
  {
  }

  lemma {:induction false} GathersMore(layouts: Layouts, params: map<string, string>, init: seq<Path>, path: Path, c: Collected,
                                       index: nat)
    requires NonEmptyPaths(init) && path != [] && Gathers(layouts, params, init, c)
    requires BindPath(layouts, params, c, path, index, false).Ok?
    ensures NonEmptyPaths(init + [path])
    ensures Gathers(layouts, params, init + [path], BindPath(layouts, params, c, path, index, false).value)
  {
    hide Local, AmountRange, LeafOf;
    var paths, c' := init + [path], BindPath(layouts, params, c, path, index, false).value;
    forall s ensures Operand(layouts, params, paths, s) <==> Operand(layouts, params, init, s) || ScalarAt(layouts, params, path) == Some(s) {
      OperandJoin(layouts, params, init, path, s);
    }
    if |path| > 1 {
      var p := LeafPlacement(layouts, params, path).value;
      assert c'.operands == c.operands + [p.scalar.value];
      assert c'.ranges == c.ranges[path := AmountRange(p)];
    }
  }

  lemma OperandJoin(layouts: Layouts, params: map<string, string>, init: seq<Path>, path: Path, s: Scalar)
    requires NonEmptyPaths(init) && path != []
    ensures NonEmptyPaths(init + [path])
    ensures Operand(layouts, params, init + [path], s) <==>
            Operand(layouts, params, init, s) || ScalarAt(layouts, params, path) == Some(s)
  {
    hide LeafPlacement;
    var paths := init + [path];
    assert paths[|init|] == path && forall i :: 0 <= i < |init| ==> paths[i] == init[i];
  }

  /** Does the value keep to a literal bound? */
  predicate Meets(v: int, limit: Limit) {
    match limit
    case MaxIs(most) => v <= most
    case MinIs(least) => v >= least
    case MustEqual(only) => v == only
  }

  /** A field's range for the shift rule holds exactly the values of its type that keep to its literal bounds; one
      it must equal stands whatever its type. */
  lemma {:induction false} AmountIs(r: Interval, limits: seq<Limit>, v: int)
    requires r.loKnown
    ensures if exists i :: 0 <= i < |limits| && limits[i].MustEqual?
            then exists i :: 0 <= i < |limits| && limits[i].MustEqual? && Narrow(r, limits) == Point(limits[i].value) &&
                             forall j :: 0 <= j < i ==> !limits[j].MustEqual?
            else Narrow(r, limits).Contains(v) <==> r.Contains(v) && forall i :: 0 <= i < |limits| ==> Meets(v, limits[i])
    decreases |limits|
  {
    if limits != [] && !limits[0].MustEqual? {
      var next := match limits[0] case MaxIs(m) => r.(hi := Some(if r.hi.None? then m else Min(r.hi.value, m)))
                                  case MinIs(m) => r.(lo := Max(r.lo, m))
                                  case MustEqual(_) => r;
      AmountIs(next, limits[1..], v);
      assert Narrow(r, limits) == Narrow(next, limits[1..]);
      assert next.Contains(v) <==> r.Contains(v) && Meets(v, limits[0]);
      assert forall i :: 0 < i < |limits| ==> limits[i] == limits[1..][i - 1];
      assert forall i :: 0 <= i < |limits| - 1 ==> limits[1..][i] == limits[i + 1];
      if exists i :: 0 <= i < |limits| && limits[i].MustEqual? {
        var k :| 0 <= k < |limits| && limits[k].MustEqual?;
        assert limits[1..][k - 1].MustEqual?;
        var i :| 0 <= i < |limits[1..]| && limits[1..][i].MustEqual? && Narrow(next, limits[1..]) == Point(limits[1..][i].value) &&
                 forall j :: 0 <= j < i ==> !limits[1..][j].MustEqual?;
        assert limits[i + 1].MustEqual? && forall j :: 0 <= j < i + 1 ==> !limits[j].MustEqual?;
      }
    }
  }

  /** The range the shift rule takes a field to have: its type's, as far as its literal bounds leave it. */
  lemma {:induction false} AmountRangeIs(p: Placement, v: int)
    requires p.scalar.Some? && (p.scalar.value.signed ==> p.scalar.value.bits > 0)
    ensures if exists i :: 0 <= i < |p.bounds| && p.bounds[i].MustEqual?
            then exists i :: 0 <= i < |p.bounds| && p.bounds[i].MustEqual? && AmountRange(p) == Point(p.bounds[i].value) &&
                             forall j :: 0 <= j < i ==> !p.bounds[j].MustEqual?
            else AmountRange(p).Contains(v) <==>
                 && ScalarInterval(p.scalar.value.bits, p.scalar.value.signed).Contains(v)
                 && forall i :: 0 <= i < |p.bounds| ==> Meets(v, p.bounds[i])
  {
    hide Narrow;
    AmountIs(ScalarInterval(p.scalar.value.bits, p.scalar.value.signed), p.bounds, v);
  }

  // ----- operators

  /** Every part of an expression, itself among them. */
  function Parts(e: Expr): set<Expr> {
    {e} + match e
          case Unary(_, x) => Parts(x)
          case Binary(_, l, r) => Parts(l) + Parts(r)
          case _ => {}
  }

  /** Is the amount a literal, or a path whose field's type and literal bounds keep it, from 0 to 63? */
  predicate AmountBounded(amount: Expr, ranges: map<Path, Interval>) {
    if amount.IntLit? then 0 <= amount.value < SHIFT_WIDTH
    else
      && (amount.NameRef? || amount.Access?) && |PathsIn(amount)| == 1 && PathsIn(amount)[0] in ranges
      && var r := ranges[PathsIn(amount)[0]]; r.lo >= 0 && r.hi.Some? && r.hi.value < SHIFT_WIDTH
  }

  /** Can this part, on its own, be emitted? */
  predicate Emittable(x: Expr, signed: bool, ranges: map<Path, Interval>) {
    match x
    case Call(_, _) => false
    case Unary(_, _) => true
    case Binary(op, _, r) => !(signed && (op == Div || op == Mod)) && (op == Shl || op == Shr ==> AmountBounded(r, ranges))
    case _ => x.IntLit? || x.NameRef? || x.Access?
  }

  /** A test is emitted exactly when each of its parts can be. */
  lemma {:induction false} CheckIff(e: Expr, signed: bool, ranges: map<Path, Interval>)
    ensures Check(e, signed, ranges).Ok? <==> forall x :: x in Parts(e) ==> Emittable(x, signed, ranges)
    ensures Check(e, signed, ranges) == Err(AsksLayout) ==> exists x :: x in Parts(e) && x.Call?
    ensures Check(e, signed, ranges) == Err(NotEmittable) ==> exists x :: x in Parts(e) && !x.Call? && !Emittable(x, signed, ranges)
  {
    hide Emittable, ShiftAmount, ProvablyBelow64;
    match e
    case Binary(op, l, r) =>
      CheckIff(l, signed, ranges);
      CheckIff(r, signed, ranges);
      assert Parts(e) == {e} + Parts(l) + Parts(r);
      BinaryIff(op, l, r, signed, ranges);
      assert e in Parts(e);
    case Unary(_, x) =>
      CheckIff(x, signed, ranges);
      assert Parts(e) == {e} + Parts(x);
      LeafIff(e, signed, ranges);
    case _ =>
      assert Parts(e) == {e};
      LeafIff(e, signed, ranges);
  }

  lemma BinaryIff(op: BinaryOp, l: Expr, r: Expr, signed: bool, ranges: map<Path, Interval>)
    ensures Emittable(Binary(op, l, r), signed, ranges) <==>
            !(signed && (op == Div || op == Mod)) && (op == Shl || op == Shr ==> ProvablyBelow64(ShiftAmount(r, ranges)))
  {
  }

  lemma LeafIff(e: Expr, signed: bool, ranges: map<Path, Interval>)
    requires !e.Binary?
    ensures Emittable(e, signed, ranges) <==> e.Unary? || e.IntLit? || e.NameRef? || e.Access?
  {
  }

  // ----- whole constraints

  /** Does a 64-bit type hold all the scalars? */
  predicate OneType(layouts: Layouts, params: map<string, string>, paths: seq<Path>)
    requires NonEmptyPaths(paths)
  {
    !((exists i :: 0 <= i < |paths| && SignedAt(layouts, params, paths[i])) &&
      (exists i :: 0 <= i < |paths| && WideAt(layouts, params, paths[i])))
  }

  predicate SignedAt(layouts: Layouts, params: map<string, string>, path: Path)
    requires path != []
  {
    ScalarAt(layouts, params, path).Some? && ScalarAt(layouts, params, path).value.signed
  }

  predicate WideAt(layouts: Layouts, params: map<string, string>, path: Path)
    requires path != []
  {
    var s := ScalarAt(layouts, params, path); s.Some? && !s.value.signed && s.value.bits >= 64
  }

  predicate AnySigned(layouts: Layouts, params: map<string, string>, paths: seq<Path>)
    requires NonEmptyPaths(paths)
  {
    exists i :: 0 <= i < |paths| && SignedAt(layouts, params, paths[i])
  }

  /** The ranges of a constraint's paths. */
  function RangesAt(layouts: Layouts, params: map<string, string>, paths: seq<Path>): map<Path, Interval>
    requires NonEmptyPaths(paths)
  {
    map path | path in paths && path != [] && RangeAt(layouts, params, path).Some? :: RangeAt(layouts, params, path).value
  }

  /** A constraint that compares no arrays is planned exactly when a comparison of two members finds both,
      every path ends at a scalar that is not a float or an array, one 64-bit type holds all of them, and every
      part can be emitted. */
  predicate ScalarAccepted(layouts: Layouts, params: map<string, string>, e: Expr) {
    && (ComparesTwo(e) ==> BothEnd(e, layouts, params))
    && (forall i :: 0 <= i < |Named(e)| ==> Reads(layouts, params, Named(e)[i], false))
    && OneType(layouts, params, Named(e))
    && forall x :: x in Parts(e) ==> Emittable(x, AnySigned(layouts, params, Named(e)), RangesAt(layouts, params, Named(e)))
  }

  predicate Accepted(layouts: Layouts, params: map<string, string>, e: Expr) {
    if BothArrays(e, layouts, params) then
      (e.op == Eq || e.op == Ne) &&
      Comparable(LeafPlacement(layouts, params, Side(e.left)).value, LeafPlacement(layouts, params, Side(e.right)).value)
    else ScalarAccepted(layouts, params, e)
  }

  /** Exactly these constraints are planned, wherever in a relation they stand. */
  lemma {:induction false} PlannedIff(layouts: Layouts, params: map<string, string>, e: Expr, index: nat)
    ensures PlanOne(layouts, params, e, index).Ok? <==> Accepted(layouts, params, e)
    ensures PlanOne(layouts, params, e, index).Ok? ==>
            var c := PlanOne(layouts, params, e, index).value;
            && (c.bytesEqual.Some? <==> BothArrays(e, layouts, params))
            && (c.signed <==> !BothArrays(e, layouts, params) && AnySigned(layouts, params, Named(e)))
  {
    hide BindPaths, ArrayEquality, Named, Check, Widen, BothArrays, Comparable, Emittable, Reads, Parts, LeafPlacement;
    ShapeIff(e, layouts, params);
    if BothArrays(e, layouts, params) {
      if ArrayEquality(e, layouts, params).Ok? { ArraysPlan(layouts, params, e, index); }
    } else {
      PathsIff(layouts, params, Named(e), index, false);
      if BindPaths(layouts, params, Named(e), index, false).Ok? {
        var c := BindPaths(layouts, params, Named(e), index, false).value;
        GatheredIs(layouts, params, Named(e), c);
        WidenedIs(layouts, params, Named(e), c);
        if Widen(c.operands).Ok? { CheckIff(e, Widen(c.operands).value, c.ranges); }
      }
    }
  }

  lemma {:induction false} ArraysPlan(layouts: Layouts, params: map<string, string>, e: Expr, index: nat)
    requires BothArrays(e, layouts, params) && ArrayEquality(e, layouts, params).Ok?
    requires Comparable(LeafPlacement(layouts, params, Side(e.left)).value, LeafPlacement(layouts, params, Side(e.right)).value)
    ensures PlanOne(layouts, params, e, index).Ok?
    ensures PlanOne(layouts, params, e, index).value.bytesEqual.Some? && !PlanOne(layouts, params, e, index).value.signed
  {
    hide BindPaths, ArrayEquality, LeafPlacement, Local;
    ShapeIff(e, layouts, params);
    var l, r := Side(e.left), Side(e.right);
    assert PathsIn(e) == [l, r];
    OnceKeeps(PathsIn(e));
    forall i | 0 <= i < |Named(e)| ensures Reads(layouts, params, Named(e)[i], true) {
      assert Named(e)[i] in PathsIn(e);
      assert Named(e)[i] == l || Named(e)[i] == r;
      ArrayReads(layouts, params, Named(e)[i]);
    }
    PathsIff(layouts, params, Named(e), index, true);
    LocalsOf(layouts, params, Named(e), index, true);
    assert l in PathsIn(e) && r in PathsIn(e);
    Longer2(layouts, params, l);
    Longer2(layouts, params, r);
  }

  lemma Longer2(layouts: Layouts, params: map<string, string>, path: Path)
    requires path != [] && LeafPlacement(layouts, params, path).Ok?
    ensures |path| > 1
  {
  }

  lemma ArrayReads(layouts: Layouts, params: map<string, string>, path: Path)
    requires path != [] && LeafPlacement(layouts, params, path).Ok?
    requires var p := LeafPlacement(layouts, params, path).value;
             p.extent.Counted? && p.scalar.Some? && p.scalar.value.kind != Float && p.scalar.value.bits % 8 == 0
    ensures Reads(layouts, params, path, true)
  {
    hide LeafOf;
  }

  lemma {:induction false} LocalsOf(layouts: Layouts, params: map<string, string>, paths: seq<Path>, index: nat, arrays: bool)
    requires NonEmptyPaths(paths) && BindPaths(layouts, params, paths, index, arrays).Ok?
    ensures forall i :: 0 <= i < |paths| && |paths[i]| > 1 ==> paths[i] in BindPaths(layouts, params, paths, index, arrays).value.locals
    decreases |paths|
  {
    hide Walk, Local, AmountRange, Leaf;
    if paths != [] { LocalsOf(layouts, params, paths[..|paths| - 1], index, arrays); }
  }

  lemma {:induction false} GatheredIs(layouts: Layouts, params: map<string, string>, paths: seq<Path>, c: Collected)
    requires NonEmptyPaths(paths) && Gathers(layouts, params, paths, c)
    requires forall i :: 0 <= i < |paths| ==> Reads(layouts, params, paths[i], false)
    ensures c.ranges == RangesAt(layouts, params, paths)
  {
    hide AmountRange, LeafPlacement, Leaf;
    forall path ensures path in c.ranges <==> path in RangesAt(layouts, params, paths) {
      if path in paths && |path| > 1 {
        var i :| 0 <= i < |paths| && paths[i] == path;
        assert Reads(layouts, params, paths[i], false);
      }
    }
  }

  lemma {:induction false} SignedIs(layouts: Layouts, params: map<string, string>, paths: seq<Path>, c: Collected)
    requires NonEmptyPaths(paths) && Gathers(layouts, params, paths, c)
    ensures (exists s :: s in c.operands && s.signed) <==> AnySigned(layouts, params, paths)
  {
    hide ScalarAt, RangeAt;
    if s :| s in c.operands && s.signed {
      assert Operand(layouts, params, paths, s);
      var i :| 0 <= i < |paths| && ScalarAt(layouts, params, paths[i]) == Some(s);
      assert SignedAt(layouts, params, paths[i]);
    }
    if i :| 0 <= i < |paths| && SignedAt(layouts, params, paths[i]) {
      assert Operand(layouts, params, paths, ScalarAt(layouts, params, paths[i]).value);
    }
  }

  lemma {:induction false} WideIs(layouts: Layouts, params: map<string, string>, paths: seq<Path>, c: Collected)
    requires NonEmptyPaths(paths) && Gathers(layouts, params, paths, c)
    ensures (exists s :: s in c.operands && !s.signed && s.bits >= 64) <==>
            exists i :: 0 <= i < |paths| && WideAt(layouts, params, paths[i])
  {
    hide ScalarAt, RangeAt;
    if s :| s in c.operands && !s.signed && s.bits >= 64 {
      assert Operand(layouts, params, paths, s);
      var i :| 0 <= i < |paths| && ScalarAt(layouts, params, paths[i]) == Some(s);
      assert WideAt(layouts, params, paths[i]);
    }
    if i :| 0 <= i < |paths| && WideAt(layouts, params, paths[i]) {
      assert Operand(layouts, params, paths, ScalarAt(layouts, params, paths[i]).value);
    }
  }

  lemma {:induction false} WidenedIs(layouts: Layouts, params: map<string, string>, paths: seq<Path>, c: Collected)
    requires NonEmptyPaths(paths) && Gathers(layouts, params, paths, c)
    ensures Widen(c.operands).Ok? <==> OneType(layouts, params, paths)
    ensures Widen(c.operands).Ok? ==> (Widen(c.operands).value <==> AnySigned(layouts, params, paths))
  {
    hide Gathers, SignedAt, WideAt;
    SignedIs(layouts, params, paths, c);
    WideIs(layouts, params, paths, c);
  }
}
