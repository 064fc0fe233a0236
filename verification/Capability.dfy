/** The capability lattice (situc/capability.py): axes, values, weakening order and meet. */
module Capability {
  import opened Prelude

  datatype Axis =
    | Size | Offset | Access | Mutate | Address | Align | Repr
    | Atomic | Canonical | Stage | Auth | Secrecy | Effect

  const AXES: seq<Axis> :=
    [Size, Offset, Access, Mutate, Address, Align, Repr, Atomic, Canonical, Stage, Auth, Secrecy, Effect]

  /** A value's parameter by how its text reads: `12`, `12bit` or anything else. */
  datatype Param = Plain(n: nat) | Bits(n: nat) | Word(text: string)

  datatype Value = Value(base: string, params: seq<Param>)

  /** `DOMAINS`, strongest first. */
  function Domain(axis: Axis): (d: seq<string>)
    ensures d != []
  {
    match axis
    case Size => ["Fixed", "Bounded", "Unbounded"]
    case Offset => ["AbsoluteStatic", "FrameStatic", "MessageStatic", "Dynamic", "DataPlaced", "Scanned"]
    case Access => ["Random", "Sequential"]
    case Mutate => ["InPlaceFixed", "InPlaceSlack", "Shifting", "RewriteRequired", "Immutable"]
    case Address => ["Stable", "FrameStable", "Unstable"]
    case Align => ["Aligned", "Unaligned"]
    case Repr => ["MemoryIdentical", "ValueConverted", "TextConverted", "ConditionallyConverted"]
    case Atomic => ["AtomicWord", "NonAtomic"]
    case Canonical => ["Canonical", "CanonicalGiven", "NonCanonical"]
    case Stage => ["CompileTime", "ParseTime", "TransformTime", "VerifyGated"]
    case Auth => ["Uncovered", "Covered"]
    case Secrecy => ["Public", "Secret"]
    case Effect => ["Pure", "EffectOnRead", "EffectOnWrite", "EffectBoth"]
  }

  /** `tuple.index` */
  function IndexOf(s: seq<string>, x: string): (k: nat)
    requires x in s
    ensures k < |s| && s[k] == x
    decreases |s|
  {
    if s[0] == x then 0 else 1 + IndexOf(s[1..], x)
  }

  /** A value the compiler can make: its base is one of the axis's, an alignment's strength is a number,
      and the strongest value of either parameterised axis but alignment's first carries none. */
  predicate Valid(axis: Axis, v: Value) {
    && v.base in Domain(axis)
    && (axis == Align && v.params != [] ==> v.params[0].Plain? && v.base == Domain(Align)[0])
    && (axis == Auth && v.params != [] ==> v.base != Domain(Auth)[0])
  }

  function Rank(axis: Axis, v: Value): nat
    requires Valid(axis, v)
  {
    IndexOf(Domain(axis), v.base)
  }

  predicate IsAtLeast(axis: Axis, actual: Value, required: Value)
    requires Valid(axis, actual) && Valid(axis, required)
  {
    if Rank(axis, actual) != Rank(axis, required) then Rank(axis, actual) < Rank(axis, required)
    else if axis == Align && actual.params != [] && required.params != [] then actual.params[0].n >= required.params[0].n
    else true
  }

  /** `dict.fromkeys` */
  function Once(ps: seq<Param>): (r: seq<Param>)
    ensures forall p :: p in r <==> p in ps
  {
    if ps == [] then []
    else
      assert ps == ps[..|ps| - 1] + [ps[|ps| - 1]];
      var before := Once(ps[..|ps| - 1]);
      if ps[|ps| - 1] in before then before else before + [ps[|ps| - 1]]
  }

  /** No tag twice. */
  lemma {:induction false} OnceDistinct(ps: seq<Param>)
    ensures forall i, j :: 0 <= i < j < |Once(ps)| ==> Once(ps)[i] != Once(ps)[j]
  {
    if ps != [] { OnceDistinct(ps[..|ps| - 1]); }
  }

  function MeetValues(axis: Axis, left: Value, right: Value): (m: Value)
    requires Valid(axis, left) && Valid(axis, right)
    ensures Valid(axis, m)
  {
    if Rank(axis, left) != Rank(axis, right) then
      if Rank(axis, left) > Rank(axis, right) then left else right
    else if axis == Align && left.params != [] && right.params != [] then
      if left.params[0].n <= right.params[0].n then left else right
    else if axis == Auth && (left.params != [] || right.params != []) then
      Value(left.base, Once(left.params + right.params))
    else left
  }

  /** `meet_values` is a greatest lower bound under `is_at_least`, on every axis. */
  lemma {:induction false} MeetIsGreatest(axis: Axis, left: Value, right: Value, bound: Value)
    requires Valid(axis, left) && Valid(axis, right) && Valid(axis, bound)
    ensures var m := MeetValues(axis, left, right);
            && IsAtLeast(axis, left, m) && IsAtLeast(axis, right, m)
            && (IsAtLeast(axis, left, bound) && IsAtLeast(axis, right, bound) ==> IsAtLeast(axis, m, bound))
  {
    hide Domain;
  }

  /** It is one of the two, the left one where they are equally strong, but for the tags of two that are covered. */
  lemma {:induction false} MeetIsOne(axis: Axis, left: Value, right: Value)
    requires Valid(axis, left) && Valid(axis, right)
    ensures var m := MeetValues(axis, left, right);
            && (axis != Auth || Rank(axis, left) != Rank(axis, right) ==> m == left || m == right)
            && (axis != Auth && IsAtLeast(axis, left, right) && IsAtLeast(axis, right, left) ==> m == left)
            && m.base in {left.base, right.base}
            && (axis == Auth && Rank(axis, left) == Rank(axis, right) ==>
                  && (forall tag :: tag in m.params <==> tag in left.params || tag in right.params)
                  && (left.params != [] || right.params != [] ==> forall i, j :: 0 <= i < j < |m.params| ==> m.params[i] != m.params[j]))
  {
    hide Domain;
    OnceDistinct(left.params + right.params);
  }

  /** Either order gives values that are each at least the other. */
  lemma {:induction false} MeetCommutes(axis: Axis, left: Value, right: Value)
    requires Valid(axis, left) && Valid(axis, right)
    ensures var a, b := MeetValues(axis, left, right), MeetValues(axis, right, left);
            IsAtLeast(axis, a, b) && IsAtLeast(axis, b, a)
  {
    hide Domain;
  }

  /** Strength passes through a middle value exactly when it is not an alignment that has lost its
      number between two that keep theirs. */
  lemma {:induction false} TransitiveIff(axis: Axis, mid: Value)
    requires Valid(axis, mid)
    ensures (forall a, c :: Valid(axis, a) && Valid(axis, c) && IsAtLeast(axis, a, mid) && IsAtLeast(axis, mid, c) ==>
               IsAtLeast(axis, a, c))
            <==> !(axis == Align && mid.base == Domain(Align)[0] && mid.params == [])
  {
    if axis == Align && mid.base == Domain(Align)[0] && mid.params == [] {
      var weak, strong := Value(mid.base, [Plain(2)]), Value(mid.base, [Plain(8)]);
      assert Valid(axis, weak) && Valid(axis, strong);
      assert IsAtLeast(axis, weak, mid) && IsAtLeast(axis, mid, strong) && !IsAtLeast(axis, weak, strong);
    } else {
      if axis == Align { AlignEnds(mid); }
      hide Domain;
    }
  }

  lemma AlignEnds(v: Value)
    requires Valid(Align, v)
    ensures v.base != Domain(Align)[0] ==> Rank(Align, v) == 1 && v.params == []
    ensures v.base == Domain(Align)[0] ==> Rank(Align, v) == 0
  {
  }

  // ----- vectors

  type Held = seq<(Axis, Value)>

  /** The axes a vector weakens, each once; the rest are at their strongest. */
  datatype Vector = Vector(values: Held)
  {
    predicate Ok() {
      forall i :: 0 <= i < |values| ==> Valid(values[i].0, values[i].1)
    }

    function Get(axis: Axis): Value {
      Find(values, axis)
    }
  }

  function Strongest(axis: Axis): (v: Value)
    ensures Valid(axis, v) && Rank(axis, v) == 0 && v.params == []
  {
    Value(Domain(axis)[0], [])
  }

  function Find(values: Held, axis: Axis): Value {
    if values == [] then Strongest(axis)
    else if values[0].0 == axis then values[0].1
    else Find(values[1..], axis)
  }

  lemma {:induction false} GetValid(v: Vector, axis: Axis)
    requires v.Ok()
    ensures Valid(axis, v.Get(axis))
    decreases |v.values|
  {
    hide Domain;
    if v.values != [] && v.values[0].0 != axis { GetValid(Vector(v.values[1..]), axis); }
  }

  function Without(values: Held, axis: Axis): Held {
    if values == [] then []
    else if values[0].0 == axis then Without(values[1..], axis)
    else [values[0]] + Without(values[1..], axis)
  }

  lemma FindFirst(head: (Axis, Value), rest: Held, axis: Axis)
    ensures Find([head] + rest, axis) == if head.0 == axis then head.1 else Find(rest, axis)
  {
    assert ([head] + rest)[1..] == rest;
  }

  lemma {:induction false} FindAfter(values: Held, axis: Axis, v: Value, other: Axis)
    ensures Find(Without(values, axis) + [(axis, v)], other) == if other == axis then v else Find(values, other)
    decreases |values|
  {
    hide Strongest, Domain, Find;
    if values == [] {
      assert Without(values, axis) + [(axis, v)] == [(axis, v)] + [];
      FindFirst((axis, v), [], other);
    } else {
      var rest := Without(values[1..], axis) + [(axis, v)];
      FindAfter(values[1..], axis, v, other);
      assert values == [values[0]] + values[1..];
      FindFirst(values[0], values[1..], other);
      if values[0].0 != axis {
        assert Without(values, axis) + [(axis, v)] == [values[0]] + rest;
        FindFirst(values[0], rest, other);
      }
    }
  }

  lemma {:induction false} WithoutOk(values: Held, axis: Axis)
    requires Vector(values).Ok()
    ensures Vector(Without(values, axis)).Ok()
    decreases |values|
  {
    hide Valid;
    if values != [] { WithoutOk(values[1..], axis); }
  }

  /** `with_value`; the refusal is a Python exception. */
  function WithValue(v: Vector, axis: Axis, value: Value): Option<Vector>
    requires v.Ok() && Valid(axis, value)
  {
    GetValid(v, axis);
    if Rank(axis, value) < Rank(axis, v.Get(axis)) then None
    else Some(Vector(Without(v.values, axis) + [(axis, value)]))
  }

  /** A value set is the value got, and no other axis moves. Setting is refused exactly to strengthen. */
  lemma {:induction false} SetThenGet(v: Vector, axis: Axis, value: Value, other: Axis)
    requires v.Ok() && Valid(axis, value)
    ensures Valid(axis, v.Get(axis))
    ensures WithValue(v, axis, value).None? <==> !(Rank(axis, v.Get(axis)) <= Rank(axis, value))
    ensures var w := WithValue(v, axis, value);
            w.Some? ==> w.value.Ok() && w.value.Get(other) == (if other == axis then value else v.Get(other))
  {
    hide Domain, Rank, Without, Find, Valid;
    GetValid(v, axis);
    FindAfter(v.values, axis, value, other);
    WithoutOk(v.values, axis);
  }

  /** `Vector.meet`: axis by axis, never refused. */
  method Meet(left: Vector, right: Vector) returns (m: Vector)
    requires left.Ok() && right.Ok()
    ensures m.Ok()
    ensures forall axis :: IsMeet(left, right, m, axis)
  {
    hide Valid, Rank, MeetValues, Strongest, Domain;
    m := Vector([]);
    for i := 0 to |AXES|
      invariant m.Ok()
      invariant forall k :: 0 <= k < i ==> IsMeet(left, right, m, AXES[k])
      invariant forall k :: i <= k < |AXES| ==> m.Get(AXES[k]) == Strongest(AXES[k])
    {
      var axis := AXES[i];
      GetValid(left, axis);
      GetValid(right, axis);
      var value := MeetValues(axis, left.Get(axis), right.Get(axis));
      var next := WithValue(m, axis, value);
      forall other { SetThenGet(m, axis, value, other); }
      m := next.value;
    }
    forall axis ensures IsMeet(left, right, m, axis) { Listed(axis); }
  }

  lemma Listed(axis: Axis)
    ensures exists k :: 0 <= k < |AXES| && AXES[k] == axis
  {
    assert AXES[0] == Size && AXES[1] == Offset && AXES[2] == Access && AXES[3] == Mutate && AXES[4] == Address
        && AXES[5] == Align && AXES[6] == Repr && AXES[7] == Atomic && AXES[8] == Canonical && AXES[9] == Stage
        && AXES[10] == Auth && AXES[11] == Secrecy && AXES[12] == Effect;
  }

  predicate IsMeet(left: Vector, right: Vector, m: Vector, axis: Axis)
    requires left.Ok() && right.Ok()
  {
    GetValid(left, axis);
    GetValid(right, axis);
    m.Get(axis) == MeetValues(axis, left.Get(axis), right.Get(axis))
  }

  /** What one axis of `meet_all` is. */
  function MeetAxis(vectors: seq<Vector>, axis: Axis): (v: Value)
    requires forall i :: 0 <= i < |vectors| ==> vectors[i].Ok()
    ensures Valid(axis, v)
  {
    if vectors == [] then Strongest(axis)
    else
      GetValid(vectors[|vectors| - 1], axis);
      MeetValues(axis, MeetAxis(vectors[..|vectors| - 1], axis), vectors[|vectors| - 1].Get(axis))
  }

  /** `meet_all` */
  method MeetAll(vectors: seq<Vector>) returns (m: Vector)
    requires forall i :: 0 <= i < |vectors| ==> vectors[i].Ok()
    ensures m.Ok() && forall axis :: m.Get(axis) == MeetAxis(vectors, axis)
  {
    hide Valid, MeetValues, Strongest, Domain;
    m := Vector([]);
    for i := 0 to |vectors|
      invariant m.Ok() && forall axis :: m.Get(axis) == MeetAxis(vectors[..i], axis)
    {
      assert vectors[..i + 1][..i] == vectors[..i];
      var next := Meet(m, vectors[i]);
      forall axis ensures next.Get(axis) == MeetAxis(vectors[..i + 1], axis) {
        assert IsMeet(m, vectors[i], next, axis);
      }
      m := next;
    }
    assert vectors[..|vectors|] == vectors;
  }

  // ----- what a struct's meet promises of its members

  /** The fold starts from an alignment with no number, and never gains one. */
  lemma {:induction false} NumberForgotten(vectors: seq<Vector>)
    requires forall i :: 0 <= i < |vectors| ==> vectors[i].Ok()
    ensures MeetAxis(vectors, Align).params == []
  {
    if vectors != [] {
      NumberForgotten(vectors[..|vectors| - 1]);
      var before, last := MeetAxis(vectors[..|vectors| - 1], Align), vectors[|vectors| - 1];
      GetValid(last, Align);
      AlignEnds(before);
      AlignEnds(last.Get(Align));
    }
  }

  lemma {:induction false} MeetRank(axis: Axis, left: Value, right: Value)
    requires Valid(axis, left) && Valid(axis, right)
    ensures Rank(axis, MeetValues(axis, left, right)) == Max(Rank(axis, left), Rank(axis, right))
  {
    hide Domain;
  }

  lemma {:induction false} AllStrongEnough(vectors: seq<Vector>, axis: Axis, required: Value)
    requires Valid(axis, required) && forall i :: 0 <= i < |vectors| ==> vectors[i].Ok()
    ensures Rank(axis, MeetAxis(vectors, axis)) <= Rank(axis, required) <==> forall v :: v in vectors ==> StrongEnough(v, axis, required)
  {
    hide Domain, Rank, MeetValues, Valid;
    if vectors != [] {
      var init, last := vectors[..|vectors| - 1], vectors[|vectors| - 1];
      assert vectors == init + [last] && last in vectors;
      AllStrongEnough(init, axis, required);
      GetValid(last, axis);
      MeetRank(axis, MeetAxis(init, axis), last.Get(axis));
      assert forall v :: v in vectors <==> v in init || v == last;
    }
  }

  /** A requirement holds of a meet exactly when each member's base is strong enough for it. */
  lemma {:induction false} MeetMeetsIff(vectors: seq<Vector>, axis: Axis, required: Value)
    requires Valid(axis, required) && forall i :: 0 <= i < |vectors| ==> vectors[i].Ok()
    ensures IsAtLeast(axis, MeetAxis(vectors, axis), required) <==> forall v :: v in vectors ==> StrongEnough(v, axis, required)
  {
    hide Domain, Rank, MeetAxis;
    AllStrongEnough(vectors, axis, required);
    if axis == Align { NumberForgotten(vectors); }
  }

  predicate StrongEnough(v: Vector, axis: Axis, required: Value)
    requires Valid(axis, required)
  {
    v.Ok() && (GetValid(v, axis); Rank(axis, v.Get(axis)) <= Rank(axis, required))
  }

  predicate MemberMeets(v: Vector, axis: Axis, required: Value)
    requires Valid(axis, required)
  {
    v.Ok() && (GetValid(v, axis); IsAtLeast(axis, v.Get(axis), required))
  }

  /** On every axis but alignment, a requirement holds of a struct exactly when it holds of all of its
      members. A numbered alignment holds of the struct and not of a member exactly when a member's
      own number is too small. */
  lemma {:induction false} RequirementTransfers(vectors: seq<Vector>, axis: Axis, required: Value)
    requires Valid(axis, required) && forall i :: 0 <= i < |vectors| ==> vectors[i].Ok()
    ensures axis != Align ==>
              (IsAtLeast(axis, MeetAxis(vectors, axis), required) <==> forall v :: v in vectors ==> MemberMeets(v, axis, required))
    ensures IsAtLeast(axis, MeetAxis(vectors, axis), required) ==>
              ((forall v :: v in vectors ==> MemberMeets(v, axis, required)) <==>
               !exists v :: v in vectors && axis == Align && SmallerNumber(v, required))
  {
    hide Domain, MeetAxis;
    MeetMeetsIff(vectors, axis, required);
    forall v | v in vectors
      ensures axis != Align ==> (MemberMeets(v, axis, required) <==> StrongEnough(v, axis, required))
      ensures StrongEnough(v, axis, required) ==>
                (MemberMeets(v, axis, required) <==> !(axis == Align && SmallerNumber(v, required)))
    {
      GetValid(v, axis);
      if axis == Align {
        AlignEnds(v.Get(axis));
        AlignEnds(required);
      }
    }
  }

  predicate SmallerNumber(v: Vector, required: Value) {
    var held := v.Get(Align);
    held.params != [] && required.params != [] && held.params[0].Plain? && required.params[0].Plain? &&
    held.params[0].n < required.params[0].n
  }

  /** A struct is covered by exactly the tags its members are. */
  lemma {:induction false} TagsUnion(vectors: seq<Vector>, tag: Param)
    requires forall i :: 0 <= i < |vectors| ==> vectors[i].Ok()
    ensures tag in MeetAxis(vectors, Auth).params <==> exists v :: v in vectors && tag in v.Get(Auth).params
  {
    hide Domain, IndexOf;
    if vectors != [] {
      var init, last := vectors[..|vectors| - 1], vectors[|vectors| - 1];
      assert vectors == init + [last];
      TagsUnion(init, tag);
      GetValid(last, Auth);
      AuthEnds(MeetAxis(init, Auth));
      AuthEnds(last.Get(Auth));
      assert last in vectors;
    }
  }

  lemma AuthEnds(v: Value)
    requires Valid(Auth, v)
    ensures Rank(Auth, v) == 0 ==> v.params == []
    ensures Rank(Auth, v) <= 1
  {
  }
}
