/** Codec pipelines (situc/kernels.py): the signature a pipeline is given from its stages', and
    when the length it promises is one the stages keep to (situc/layout.py, `_expand`). */
module Pipeline {
  import opened Prelude
  import opened Bits

  datatype Expansion = Preserving | FixedAdd | RatioExact | RatioPadded | RatioBounded | Unbounded

  datatype Seekable = SeekLinear | Permuted | Blockwise | NotSeekable

  datatype Granularity = BitUnit | SymbolUnit | ByteUnit | BlockUnit | StreamUnit

  /** The properties of a codec a pipeline composes. Lengths are in bits. */
  datatype Codec = Codec(
    expansion: Expansion, add: nat, ratio: Option<(nat, nat)>,
    seekable: Seekable, granularity: Granularity,
    systematic: bool, invertible: bool, deterministic: bool, errorPropagating: bool, authenticated: bool)

  datatype Refusal = NoStages | UnrankedStage

  predicate IsRatio(e: Expansion) {
    e == RatioExact || e == RatioPadded || e == RatioBounded
  }

  /** What the parser and the kernels guarantee: a ratio form has two positive terms, and no
      other form has a ratio. */
  predicate WellFormed(c: Codec) {
    && (c.ratio.Some? <==> IsRatio(c.expansion))
    && (c.ratio.Some? ==> c.ratio.value.0 > 0 && c.ratio.value.1 > 0)
  }

  predicate AllWellFormed(stages: seq<Codec>) {
    forall c :: c in stages ==> WellFormed(c)
  }

  /** Is there a stage that promises no length? */
  predicate HasUnbounded(stages: seq<Codec>) {
    exists c :: c in stages && c.expansion == Unbounded
  }

  /** `-(-x // d)` */
  function CeilDiv(x: int, d: int): int
    requires d > 0
  {
    -((-x) / d)
  }

  // ----- composition

  /** The accumulators of `_compose_expansion`. */
  datatype Totals = Totals(numerator: nat, denominator: nat, added: nat, exact: bool, bounded: bool)

  const NOTHING := Totals(1, 1, 0, false, false)

  predicate Positive(t: Totals) {
    t.numerator > 0 && t.denominator > 0
  }

  /** One turn of the loop. */
  function Step(t: Totals, c: Codec): (t': Totals)
    requires WellFormed(c) && Positive(t)
    ensures Positive(t')
  {
    if c.expansion == FixedAdd then t.(added := t.added + c.add)
    else if c.ratio.None? then t
    else
      var (a, b) := c.ratio.value;
      CeilNonNegative(t.added * a, b);
      ProductPositive(t.numerator, a);
      ProductPositive(t.denominator, b);
      Totals(t.numerator * a, t.denominator * b, CeilDiv(t.added * a, b),
             t.exact || c.expansion == RatioExact, t.bounded || c.expansion == RatioBounded)
  }

  lemma ProductPositive(a: int, b: int)
    requires a > 0 && b > 0
    ensures a * b > 0
  {
  }

  /** All turns of the loop, the last stage's last. */
  function Total(stages: seq<Codec>): (t: Totals)
    requires AllWellFormed(stages)
    ensures Positive(t)
  {
    if stages == [] then NOTHING else Step(Total(stages[..|stages| - 1]), stages[|stages| - 1])
  }

  function Gcd(a: nat, b: nat): nat
    decreases b
  {
    if b == 0 then a else Gcd(b, a % b)
  }

  lemma QuotientNat(n: nat, d: nat)
    requires d > 0
    ensures n / d >= 0
  {
    if n / d < 0 { MulLess(n / d, -1, d); }
  }

  datatype Extent = Extent(expansion: Expansion, ratio: Option<(nat, nat)>, add: nat)

  /** `_reduce` */
  function Reduce(numerator: nat, denominator: nat): (nat, nat) {
    var divisor := Gcd(numerator, denominator);
    if divisor == 0 then (numerator, denominator)
    else
      QuotientNat(numerator, divisor);
      QuotientNat(denominator, divisor);
      (numerator / divisor, denominator / divisor)
  }

  /** A length can be computed from these figures. */
  predicate Figured(e: Extent) {
    IsRatio(e.expansion) ==> e.ratio.Some? && e.ratio.value.0 > 0 && e.ratio.value.1 > 0
  }

  /** The form and figures the totals stand for. */
  function ExtentOf(t: Totals): (e: Extent)
    requires Positive(t)
    ensures Figured(e)
  {
    if !t.exact && !t.bounded then Extent(if t.added > 0 then FixedAdd else Preserving, None, t.added)
    else
      ReducePositive(t.numerator, t.denominator);
      Extent(if t.bounded then RatioBounded else RatioExact, Some(Reduce(t.numerator, t.denominator)), t.added)
  }

  function ComposedExtent(stages: seq<Codec>): (e: Extent)
    requires AllWellFormed(stages)
    ensures Figured(e)
  {
    if HasUnbounded(stages) then Extent(Unbounded, None, 0) else ExtentOf(Total(stages))
  }

  /** `_compose_expansion` */
  method ComposeExpansion(stages: seq<Codec>) returns (e: Extent)
    requires AllWellFormed(stages)
    ensures e == ComposedExtent(stages)
  {
    if HasUnbounded(stages) { return Extent(Unbounded, None, 0); }
    var t := NOTHING;
    for i := 0 to |stages|
      invariant Positive(t) && t == Total(stages[..i])
    {
      assert stages[..i + 1][..i] == stages[..i];
      t := Step(t, stages[i]);
    }
    assert stages[..|stages|] == stages;
    return ExtentOf(t);
  }

  // ----- what lengths do

  /** A group of input bits: whole bytes and whole symbols at once. */
  function Group(b: nat): int {
    if Gcd(8, b) == 0 then 0 else 8 / Gcd(8, b) * b
  }

  /** The output a group of input comes out as. */
  function GroupOut(ratio: (nat, nat)): int
    requires ratio.1 > 0
  {
    Group(ratio.1) / ratio.1 * ratio.0
  }

  /** `_expand` at its upper end: the longest output for `n` bits of input, or None. */
  function Longest(expansion: Expansion, ratio: Option<(nat, nat)>, add: nat, n: nat): Option<int>
    requires IsRatio(expansion) ==> ratio.Some? && ratio.value.1 > 0
  {
    match expansion
    case Preserving => Some(n)
    case FixedAdd => Some(n + add)
    case Unbounded => None
    case RatioPadded =>
      var (a, b) := ratio.value;
      if Group(b) <= 0 then None else Some(CeilDiv(n, Group(b)) * GroupOut(ratio.value) + add)
    case _ =>
      var (a, b) := ratio.value;
      Some(CeilDiv(n * a, b) + add)
  }

  /** The longest output of a run through every stage, each taking the longest of the last. */
  function Run(stages: seq<Codec>, n: nat): Option<int>
    requires AllWellFormed(stages)
  {
    if stages == [] then Some(n)
    else
      var last := stages[|stages| - 1];
      assert last in stages;
      match Run(stages[..|stages| - 1], n)
      case None => None
      case Some(x) => if x < 0 then None else Longest(last.expansion, last.ratio, last.add, x)
  }

  /** The longest output the pipeline's composed signature promises. */
  function Promised(stages: seq<Codec>, n: nat): Option<int>
    requires AllWellFormed(stages)
  {
    var e := ComposedExtent(stages);
    Longest(e.expansion, e.ratio, e.add, n)
  }

  /** The forms whose figures composition keeps: no padded ratio, and no addend beside a ratio. */
  predicate Kept(c: Codec) {
    c.expansion != RatioPadded && (IsRatio(c.expansion) ==> c.add == 0)
  }

  predicate AllKept(stages: seq<Codec>) {
    forall c :: c in stages ==> Kept(c)
  }

  // ----- arithmetic of ceilings

  lemma CeilIs(x: int, d: int, c: int)
    requires d > 0
    ensures CeilDiv(x, d) == c <==> (c - 1) * d < x <= c * d
  {
    if (c - 1) * d < x <= c * d {
      MulDistributes(c, -1, d);
      DivUnique(-x, d, -c);
    }
    if CeilDiv(x, d) == c {
      var q := (-x) / d;
      assert q * d <= -x < q * d + d;
    }
  }

  lemma CeilCovers(x: int, d: int)
    requires d > 0
    ensures x <= CeilDiv(x, d) * d
  {
    CeilIs(x, d, CeilDiv(x, d));
  }

  lemma CeilNonNegative(x: int, d: int)
    requires d > 0 && x >= 0
    ensures CeilDiv(x, d) >= 0
  {
    CeilCovers(x, d);
    if CeilDiv(x, d) < 0 { MulLess(CeilDiv(x, d), -1, d); }
  }

  /** The ceiling is the least multiple that covers. */
  lemma CeilLeast(x: int, d: int, c: int)
    requires d > 0 && x <= c * d
    ensures CeilDiv(x, d) <= c
  {
    var k := CeilDiv(x, d);
    CeilIs(x, d, k);
    if k > c { MulLess(c, k - 1, d); }
  }

  /** Reducing a fraction leaves the ceiling of what it scales. */
  lemma CeilReduced(n: nat, p: nat, q: nat, g: nat)
    requires q > 0 && g > 0 && q * g > 0
    ensures CeilDiv(n * (p * g), q * g) == CeilDiv(n * p, q)
  {
    var c := CeilDiv(n * p, q);
    CeilIs(n * p, q, c);
    MulAssociates(n, p, g);
    MulAssociates(c, q, g);
    MulAssociates(c - 1, q, g);
    Scaled((c - 1) * q, n * p, g);
    MulLess(n * p, c * q, g);
    CeilIs(n * (p * g), q * g, c);
  }

  lemma Scaled(a: int, b: int, g: int)
    requires a < b && g > 0
    ensures a * g < b * g
  {
    MulLess(a + 1, b, g);
    MulDistributes(a, 1, g);
  }

  // ----- reduction

  lemma {:induction false} GcdDivides(a: nat, b: nat) returns (p: nat, q: nat)
    requires a > 0 || b > 0
    ensures Gcd(a, b) > 0 && a == p * Gcd(a, b) && b == q * Gcd(a, b)
    decreases b
  {
    if b == 0 {
      p, q := 1, 0;
    } else {
      var k, r := a / b, a % b;
      QuotientNat(a, b);
      var x, y := GcdDivides(b, r);
      var g := Gcd(b, r);
      Combined(k, x, y, g);
      assert a == k * b + r;
      p, q := k * x + y, x;
    }
  }

  lemma Combined(k: nat, x: nat, y: nat, g: nat)
    ensures k * (x * g) + y * g == (k * x + y) * g
    ensures k * x >= 0
  {
    MulAssociates(k, x, g);
    MulDistributes(k * x, y, g);
  }

  lemma FactorPositive(q: nat, g: nat)
    requires q * g > 0
    ensures q > 0
  {
  }

  lemma {:induction false} ReduceExact(n: nat, d: nat) returns (g: nat)
    requires n > 0 && d > 0
    ensures g > 0 && n == Reduce(n, d).0 * g && d == Reduce(n, d).1 * g
  {
    var p, q := GcdDivides(n, d);
    g := Gcd(n, d);
    DivUnique(n, g, p);
    DivUnique(d, g, q);
  }

  lemma {:induction false} ReducePositive(n: nat, d: nat)
    requires n > 0 && d > 0
    ensures Reduce(n, d).0 > 0 && Reduce(n, d).1 > 0
  {
    var g := ReduceExact(n, d);
    FactorPositive(Reduce(n, d).0, g);
    FactorPositive(Reduce(n, d).1, g);
  }

  // ----- the composed figures are the totals

  /** The length the totals promise for `n` bits of input. */
  function Bound(t: Totals, n: nat): int
    requires Positive(t)
  {
    CeilDiv(n * t.numerator, t.denominator) + t.added
  }

  lemma {:induction false} NoRatioTotals(stages: seq<Codec>)
    requires AllWellFormed(stages) && AllKept(stages)
    ensures var t := Total(stages); !t.exact && !t.bounded ==> t.numerator == t.denominator == 1
  {
    if stages != [] {
      var init, last := stages[..|stages| - 1], stages[|stages| - 1];
      assert last in stages;
      NoRatioTotals(init);
    }
  }

  /** Reading the figures back gives the totals' length: reducing the ratio changes nothing. */
  lemma {:induction false} ExtentPromises(t: Totals, n: nat)
    requires Positive(t) && (t.exact || t.bounded || t.numerator == t.denominator == 1)
    ensures var e := ExtentOf(t); Longest(e.expansion, e.ratio, e.add, n) == Some(Bound(t, n))
  {
    hide CeilDiv, Gcd, Reduce, Group, GroupOut;
    if t.exact || t.bounded {
      var g := ReduceExact(t.numerator, t.denominator);
      ReducePositive(t.numerator, t.denominator);
      var (p, q) := Reduce(t.numerator, t.denominator);
      CeilReduced(n, p, q, g);
    } else {
      CeilIs(n, 1, n);
    }
  }

  lemma {:induction false} ComposedIsBound(stages: seq<Codec>, n: nat)
    requires AllWellFormed(stages) && AllKept(stages)
    requires !HasUnbounded(stages)
    ensures Promised(stages, n) == Some(Bound(Total(stages), n))
  {
    hide Total, ExtentOf, Longest, Bound;
    NoRatioTotals(stages);
    ExtentPromises(Total(stages), n);
  }

  // ----- the bound holds where nothing is rounded twice

  /** A ratio applied to what an earlier ratio may have rounded up does not multiply it. */
  predicate RoundsOnce(stages: seq<Codec>)
    requires AllWellFormed(stages)
  {
    stages == [] ||
    (var init, last := stages[..|stages| - 1], stages[|stages| - 1];
     RoundsOnce(init)
     && (last.ratio.Some? ==> Total(init).denominator == 1 || last.ratio.value.0 == 1))
  }

  /** What one ratio stage does to the data's share and to the addend's. */
  lemma {:induction false} RatioStep(n: nat, num: nat, den: nat, added: nat, a: nat, b: nat, x: nat)
    requires num > 0 && den > 0 && a > 0 && b > 0 && den * b > 0
    requires x <= CeilDiv(n * num, den) + added
    requires den == 1 || a == 1
    ensures CeilDiv(x * a, b) <= CeilDiv(n * (num * a), den * b) + CeilDiv(added * a, b)
  {
    var y := CeilDiv(n * num, den);
    var u, v := CeilDiv(added * a, b), CeilDiv(n * (num * a), den * b);
    CeilCovers(added * a, b);
    CeilCovers(n * (num * a), den * b);
    DataStep(n, num, den, a, b, v);
    MulLess(x, y + added, a);
    MulDistributes(y, added, a);
    MulDistributes(v, u, b);
    CeilLeast(x * a, b, v + u);
  }

  lemma {:induction false} DataStep(n: nat, num: nat, den: nat, a: nat, b: nat, v: int)
    requires num > 0 && den > 0 && a > 0 && b > 0 && (den == 1 || a == 1)
    requires n * (num * a) <= v * (den * b)
    ensures CeilDiv(n * num, den) * a <= v * b
  {
    if den == 1 {
      CeilIs(n * num, 1, n * num);
      MulAssociates(n, num, a);
    } else {
      assert v * (den * b) == (v * b) * den by { MulAssociates(v, b, den); }
      CeilLeast(n * num, den, v * b);
    }
  }

  lemma {:induction false} StepBound(t: Totals, c: Codec, n: nat, x: nat)
    requires Positive(t) && WellFormed(c) && Kept(c) && c.expansion != Unbounded
    requires x <= Bound(t, n) && (c.ratio.Some? ==> t.denominator == 1 || c.ratio.value.0 == 1)
    ensures Longest(c.expansion, c.ratio, c.add, x).Some?
    ensures 0 <= Longest(c.expansion, c.ratio, c.add, x).value <= Bound(Step(t, c), n)
  {
    if c.ratio.Some? {
      var (a, b) := c.ratio.value;
      ProductPositive(t.denominator, b);
      RatioStep(n, t.numerator, t.denominator, t.added, a, b, x);
      CeilNonNegative(x * a, b);
    }
  }

  /** A run through every stage is never longer than the composed signature promises, for every
      length of input, where the figures are kept and nothing is rounded twice. */
  lemma {:induction false} PipelineBound(stages: seq<Codec>, n: nat)
    requires AllWellFormed(stages) && AllKept(stages)
    requires !HasUnbounded(stages) && RoundsOnce(stages)
    ensures Run(stages, n).Some? && 0 <= Run(stages, n).value <= Bound(Total(stages), n)
    ensures Promised(stages, n) == Some(Bound(Total(stages), n))
  {
    ComposedIsBound(stages, n);
    if stages == [] {
      CeilIs(n, 1, n);
    } else {
      var init, last := stages[..|stages| - 1], stages[|stages| - 1];
      assert last in stages && forall c :: c in init ==> c in stages;
      PipelineBound(init, n);
      StepBound(Total(init), last, n, Run(init, n).value);
    }
  }

  /** A stage that is not unbounded gives every length a longest output. */
  lemma {:induction false} LongestSome(c: Codec, x: nat)
    requires WellFormed(c) && c.expansion != Unbounded
    ensures Longest(c.expansion, c.ratio, c.add, x).Some? && Longest(c.expansion, c.ratio, c.add, x).value >= 0
  {
    hide CeilDiv, Gcd, Group, GroupOut;
    if c.ratio.Some? {
      var (a, b) := c.ratio.value;
      GroupPositive(a, b);
      CeilNonNegative(x * a, b);
      CeilNonNegative(x, Group(b));
      if c.expansion == RatioPadded { MulLess(0, CeilDiv(x, Group(b)), GroupOut((a, b))); }
    }
  }

  lemma {:induction false} RunSome(stages: seq<Codec>, n: nat)
    requires AllWellFormed(stages) && !HasUnbounded(stages)
    ensures Run(stages, n).Some? && Run(stages, n).value >= 0
  {
    hide Longest;
    if stages != [] {
      var init, last := stages[..|stages| - 1], stages[|stages| - 1];
      assert last in stages && forall c :: c in init ==> c in stages;
      RunSome(init, n);
      LongestSome(last, Run(init, n).value);
    }
  }

  lemma {:induction false} RunNone(stages: seq<Codec>, n: nat)
    requires AllWellFormed(stages) && HasUnbounded(stages)
    ensures Run(stages, n).None?
  {
    var init, last := stages[..|stages| - 1], stages[|stages| - 1];
    if last.expansion != Unbounded {
      var c :| c in stages && c.expansion == Unbounded;
      assert stages == init + [last] && c in init;
      RunNone(init, n);
    }
  }

  /** No length is promised exactly when some stage promises none, and exactly when a run may take any
      length: whatever the forms of the other stages, and for every length of input. */
  lemma {:induction false} UnboundedIff(stages: seq<Codec>, n: nat)
    requires AllWellFormed(stages)
    ensures Promised(stages, n).None? <==> HasUnbounded(stages)
    ensures Run(stages, n).None? <==> HasUnbounded(stages)
  {
    hide Total, Run, CeilDiv, Reduce;
    if HasUnbounded(stages) { RunNone(stages, n); } else { RunSome(stages, n); }
  }

  // ----- lengths that are not rounded at every stage

  /** Does a stage that is given `x` bits keep to its signature with `y`, no rounding allowed? */
  predicate Keeps(c: Codec, x: nat, y: nat) {
    match c.expansion
    case Preserving => y <= x
    case FixedAdd => y <= x + c.add
    case Unbounded => true
    case _ => c.ratio.Some? && y * c.ratio.value.1 <= x * c.ratio.value.0
  }

  /** The lengths between the stages, the input's first and the output's last. */
  predicate Trace(stages: seq<Codec>, lengths: seq<nat>) {
    |lengths| == |stages| + 1 && forall i :: 0 <= i < |stages| ==> Keeps(stages[i], lengths[i], lengths[i + 1])
  }

  lemma {:induction false} UnroundedStep(n: nat, num: nat, den: nat, added: nat, a: nat, b: nat, x: nat, y: nat)
    requires num > 0 && den > 0 && a > 0 && b > 0 && den * b > 0
    requires x * den <= n * num + added * den && y * b <= x * a
    ensures y * (den * b) <= n * (num * a) + CeilDiv(added * a, b) * (den * b)
  {
    var u := CeilDiv(added * a, b);
    CeilCovers(added * a, b);
    assert y * (den * b) == (y * b) * den by { MulAssociates(y, b, den); }
    MulLess(y * b, x * a, den);
    assert (x * a) * den == (x * den) * a by { MulAssociates(x, a, den); MulAssociates(x, den, a); }
    MulLess(x * den, n * num + added * den, a);
    MulDistributes(n * num, added * den, a);
    MulAssociates(n, num, a);
    assert (added * den) * a == (added * a) * den by { MulAssociates(added, den, a); MulAssociates(added, a, den); }
    MulLess(added * a, u * b, den);
    assert (u * b) * den == u * (den * b) by { MulAssociates(u, b, den); }
  }

  lemma {:induction false} UnroundedKept(t: Totals, c: Codec, n: nat, x: nat, y: nat)
    requires Positive(t) && WellFormed(c) && Kept(c) && c.expansion != Unbounded
    requires x * t.denominator <= n * t.numerator + t.added * t.denominator && Keeps(c, x, y)
    ensures var t' := Step(t, c); y * t'.denominator <= n * t'.numerator + t'.added * t'.denominator
  {
    if c.ratio.Some? {
      var (a, b) := c.ratio.value;
      ProductPositive(t.denominator, b);
      UnroundedStep(n, t.numerator, t.denominator, t.added, a, b, x, y);
    } else {
      var more := if c.expansion == FixedAdd then c.add else 0;
      MulLess(y, x + more, t.denominator);
      MulDistributes(x, more, t.denominator);
      MulDistributes(t.added, more, t.denominator);
    }
  }

  /** Whatever the stages do within their ratios, the output is never longer than the composed
      `numerator / denominator * n + added`. The addend covers what each later ratio made of it. */
  lemma {:induction false} UnroundedBound(stages: seq<Codec>, lengths: seq<nat>)
    requires AllWellFormed(stages) && AllKept(stages) && !HasUnbounded(stages) && Trace(stages, lengths)
    ensures var t := Total(stages);
            && lengths[|stages|] * t.denominator <= lengths[0] * t.numerator + t.added * t.denominator
            && lengths[|stages|] <= Bound(t, lengths[0])
  {
    var t := Total(stages);
    if stages != [] {
      var k := |stages| - 1;
      assert stages[k] in stages && forall c :: c in stages[..k] ==> c in stages;
      assert Trace(stages[..k], lengths[..k + 1]);
      UnroundedBound(stages[..k], lengths[..k + 1]);
      UnroundedKept(Total(stages[..k]), stages[k], lengths[0], lengths[k], lengths[k + 1]);
    }
    UnroundedWithin(lengths[0], t, lengths[|stages|]);
  }

  lemma {:induction false} UnroundedWithin(n: nat, t: Totals, m: nat)
    requires Positive(t) && m * t.denominator <= n * t.numerator + t.added * t.denominator
    ensures m <= Bound(t, n)
  {
    var y := CeilDiv(n * t.numerator, t.denominator);
    CeilCovers(n * t.numerator, t.denominator);
    MulDistributes(y, t.added, t.denominator);
    if m > y + t.added { Scaled(y + t.added, m, t.denominator); }
  }

  // ----- where the bound is lost

  /** Does the composed signature promise at least what a run can take, for every input? */
  ghost predicate Covers(stages: seq<Codec>)
    requires AllWellFormed(stages)
  {
    forall n: nat :: CoversAt(stages, n)
  }

  predicate CoversAt(stages: seq<Codec>, n: nat)
    requires AllWellFormed(stages)
  {
    Promised(stages, n).None? ||
    (Run(stages, n).Some? && Run(stages, n).value <= Promised(stages, n).value)
  }

  // ----- any number of dividing ratios

  lemma CeilTurned(x: int, q: int, d: int)
    requires d > 0
    ensures CeilDiv(x + q * d, d) == CeilDiv(x, d) + q
  {
    var c := CeilDiv(x, d);
    CeilIs(x, d, c);
    MulDistributes(c, q, d);
    MulDistributes(c - 1, q, d);
    CeilIs(x + q * d, d, c + q);
  }

  /** A whole number of groups more comes out as a whole number of groups more. */
  lemma {:induction false} LongestTurned(c: Codec, x: nat, y: nat)
    requires WellFormed(c) && Kept(c) && c.expansion != Unbounded
    ensures var (a, b) := if c.ratio.Some? then c.ratio.value else (1, 1);
            && Longest(c.expansion, c.ratio, c.add, x).Some? && Longest(c.expansion, c.ratio, c.add, x).value >= 0
            && Longest(c.expansion, c.ratio, c.add, x + y * b) == Some(Longest(c.expansion, c.ratio, c.add, x).value + y * a)
  {
    hide CeilDiv, Gcd, Group, GroupOut;
    LongestSome(c, x);
    if c.ratio.Some? {
      var (a, b) := c.ratio.value;
      MulDistributes(x, y * b, a);
      assert (y * b) * a == (y * a) * b by { MulAssociates(y, b, a); MulAssociates(y, a, b); }
      CeilTurned(x * a, y * a, b);
    }
  }

  /** So it is through any stages: the ratio of their totals is how a run grows. */
  lemma {:induction false} RunTurned(stages: seq<Codec>, n: nat, k: nat)
    requires AllWellFormed(stages) && AllKept(stages) && !HasUnbounded(stages)
    ensures var t := Total(stages);
            && Run(stages, n).Some? && Run(stages, n).value >= 0 && k * t.denominator >= 0
            && Run(stages, n + k * t.denominator) == Some(Run(stages, n).value + k * t.numerator)
  {
    hide Longest, WellFormed, Kept, Step;
    RunSome(stages, n);
    MulLess(0, Total(stages).denominator, k);
    if stages == [] {
      NothingRun(n);
      NothingRun(n + k);
    } else {
      var init, last := stages[..|stages| - 1], stages[|stages| - 1];
      assert last in stages && forall c :: c in init ==> c in stages;
      var t := Total(init);
      var (a, b) := if last.ratio.Some? then last.ratio.value else (1, 1);
      StepTurned(t, last);
      MulLess(0, b, k);
      RunTurned(init, n, k * b);
      var x := Run(init, n).value;
      assert n + (k * b) * t.denominator == n + k * (t.denominator * b) by { MulAssociates(k, b, t.denominator); }
      MulLess(0, t.numerator, k);
      assert (k * b) * t.numerator == (k * t.numerator) * b by { MulAssociates(k, b, t.numerator); MulAssociates(k, t.numerator, b); }
      LongestTurned(last, x, k * t.numerator);
      MulAssociates(k, t.numerator, a);
    }
  }

  lemma StepTurned(t: Totals, c: Codec)
    requires Positive(t) && WellFormed(c)
    ensures var (a, b) := if c.ratio.Some? then c.ratio.value else (1, 1);
            a > 0 && b > 0 && Step(t, c).numerator == t.numerator * a && Step(t, c).denominator == t.denominator * b
  {
    hide CeilDiv;
  }

  /** Whatever kept stages a pipeline has, the composed length covers every run exactly when it covers
      those of inputs shorter than the composed denominator. */
  lemma {:induction false} ResiduesIff(stages: seq<Codec>)
    requires AllWellFormed(stages) && AllKept(stages) && !HasUnbounded(stages)
    ensures Covers(stages) <==> forall n: nat :: n < Total(stages).denominator ==> CoversAt(stages, n)
  {
    hide CoversAt, Total;
    var d := Total(stages).denominator;
    if forall n: nat :: n < d ==> CoversAt(stages, n) {
      forall n: nat ensures CoversAt(stages, n) { CoversTurned(stages, n % d, n); }
    }
  }

  lemma {:induction false} CoversTurned(stages: seq<Codec>, r: nat, n: nat)
    requires AllWellFormed(stages) && AllKept(stages) && !HasUnbounded(stages)
    requires r == n % Total(stages).denominator
    ensures CoversAt(stages, n) <==> CoversAt(stages, r)
  {
    hide Run, Total, Promised, CeilDiv;
    var t := Total(stages);
    var k := n / t.denominator;
    QuotientNat(n, t.denominator);
    assert n == r + k * t.denominator;
    RunTurned(stages, r, k);
    ComposedIsBound(stages, n);
    ComposedIsBound(stages, r);
    MulDistributes(r, k * t.denominator, t.numerator);
    assert (k * t.denominator) * t.numerator == (k * t.numerator) * t.denominator by {
      MulAssociates(k, t.denominator, t.numerator);
      MulAssociates(k, t.numerator, t.denominator);
    }
    CeilTurned(r * t.numerator, k * t.numerator, t.denominator);
  }

  // ----- the shortest output

  /** `_expand` at its lower end: the shortest output for `n` bits of input. */
  function Shortest(expansion: Expansion, ratio: Option<(nat, nat)>, add: nat, n: nat): int
    requires IsRatio(expansion) ==> ratio.Some? && ratio.value.0 > 0 && ratio.value.1 > 0
  {
    match expansion
    case RatioBounded => n
    case Unbounded => n
    case Preserving => n
    case FixedAdd => n + add
    case RatioExact =>
      var (a, b) := ratio.value;
      CeilDiv(n * a, b) + add
    case RatioPadded =>
      var (a, b) := ratio.value;
      GroupPositive(a, b);
      CeilDiv(n, Group(b)) * GroupOut(ratio.value) + add
  }

  /** A stage that is neither bounded nor unbounded makes one length of each. */
  lemma {:induction false} OneLengthEach(c: Codec, n: nat)
    requires WellFormed(c) && c.expansion != RatioBounded && c.expansion != Unbounded
    ensures Longest(c.expansion, c.ratio, c.add, n) == Some(Shortest(c.expansion, c.ratio, c.add, n))
  {
    if c.ratio.Some? { GroupPositive(c.ratio.value.0, c.ratio.value.1); }
  }

  /** The shortest output of a run through every stage, each making the shortest of the last. */
  function ShortRun(stages: seq<Codec>, n: nat): int
    requires AllWellFormed(stages)
  {
    if stages == [] then n
    else
      var last := stages[|stages| - 1];
      assert last in stages;
      var x := ShortRun(stages[..|stages| - 1], n);
      if x < 0 then x else Shortest(last.expansion, last.ratio, last.add, x)
  }

  /** The shortest output the composed signature promises. */
  function PromisedShort(stages: seq<Codec>, n: nat): int
    requires AllWellFormed(stages)
  {
    var e := ComposedExtent(stages);
    Shortest(e.expansion, e.ratio, e.add, n)
  }

  /** Is what the composed signature promises at least at most what a run makes at least? */
  predicate FloorsAt(stages: seq<Codec>, n: nat)
    requires AllWellFormed(stages)
  {
    PromisedShort(stages, n) <= ShortRun(stages, n)
  }

  /** The stage that makes exactly the shortest output. */
  function Least(c: Codec): Codec {
    if c.expansion == RatioBounded || c.expansion == Unbounded then c.(expansion := Preserving, ratio := None, add := 0) else c
  }

  function AllLeast(stages: seq<Codec>): (r: seq<Codec>)
    requires AllWellFormed(stages) && AllKept(stages)
    ensures |r| == |stages| && AllWellFormed(r) && AllKept(r) && !HasUnbounded(r)
  {
    if stages == [] then []
    else
      var init, last := stages[..|stages| - 1], stages[|stages| - 1];
      assert last in stages && forall c :: c in init ==> c in stages;
      AllLeast(init) + [Least(last)]
  }

  lemma {:induction false} LeastIsShortest(c: Codec, x: nat)
    requires WellFormed(c) && Kept(c)
    ensures Longest(Least(c).expansion, Least(c).ratio, Least(c).add, x) == Some(Shortest(c.expansion, c.ratio, c.add, x))
  {
    hide CeilDiv, Gcd, Group, GroupOut;
  }

  lemma {:induction false} ShortRunIs(stages: seq<Codec>, n: nat)
    requires AllWellFormed(stages) && AllKept(stages)
    ensures Run(AllLeast(stages), n) == Some(ShortRun(stages, n)) && ShortRun(stages, n) >= 0
  {
    hide Longest, Shortest, Least;
    RunSome(AllLeast(stages), n);
    if stages != [] {
      var init, last := stages[..|stages| - 1], stages[|stages| - 1];
      assert last in stages && forall c :: c in init ==> c in stages;
      ShortRunIs(init, n);
      LeastIsShortest(last, ShortRun(init, n));
      assert (AllLeast(init) + [Least(last)])[..|init|] == AllLeast(init);
    }
  }

  /** Does the composed form promise no more than the input's length? */
  predicate Loose(stages: seq<Codec>)
    requires AllWellFormed(stages)
  {
    ComposedExtent(stages).expansion == RatioBounded || ComposedExtent(stages).expansion == Unbounded
  }

  /** Without a bounded or unbounded stage the shortest output is the longest one. */
  lemma {:induction false} OneLength(stages: seq<Codec>)
    requires AllWellFormed(stages) && AllKept(stages) && !Loose(stages)
    ensures AllLeast(stages) == stages && !HasUnbounded(stages)
    ensures forall n: nat :: Promised(stages, n) == Some(PromisedShort(stages, n))
  {
    hide CeilDiv, Gcd, Reduce, Group, GroupOut;
    NoRatioTotals(stages);
    NothingLoose(stages);
  }

  lemma {:induction false} NothingLoose(stages: seq<Codec>)
    requires AllWellFormed(stages) && AllKept(stages) && !HasUnbounded(stages) && !Total(stages).bounded
    ensures AllLeast(stages) == stages
  {
    hide CeilDiv;
    if stages != [] {
      var init, last := stages[..|stages| - 1], stages[|stages| - 1];
      assert last in stages && forall c :: c in init ==> c in stages;
      NothingLoose(init);
      assert stages == init + [last];
    }
  }

  /** The composed lower end is below every run exactly when it is below those of the inputs shorter than
      what the exact ratios divide by and, where the form promises no more than the input, those ratios
      together do not shrink it. */
  lemma {:induction false} ShortestIff(stages: seq<Codec>)
    requires AllWellFormed(stages) && AllKept(stages)
    ensures var t := Total(AllLeast(stages));
            (forall n: nat :: FloorsAt(stages, n)) <==>
            && (Loose(stages) ==> t.denominator <= t.numerator)
            && forall n: nat :: n < t.denominator ==> FloorsAt(stages, n)
  {
    hide FloorsAt, Total, Loose;
    var t := Total(AllLeast(stages));
    if (Loose(stages) ==> t.denominator <= t.numerator) && forall n: nat :: n < t.denominator ==> FloorsAt(stages, n) {
      forall n: nat ensures FloorsAt(stages, n) { FloorsTurned(stages, n % t.denominator, n); }
    }
    if Loose(stages) && t.denominator > t.numerator { var n := Shrinks(stages); }
  }

  lemma {:induction false} FloorsTurned(stages: seq<Codec>, r: nat, n: nat)
    requires AllWellFormed(stages) && AllKept(stages) && FloorsAt(stages, r)
    requires var t := Total(AllLeast(stages)); r == n % t.denominator && (Loose(stages) ==> t.denominator <= t.numerator)
    ensures FloorsAt(stages, n)
  {
    hide Run, Longest, Total, CeilDiv, Gcd, Reduce, ShortRun, ComposedExtent;
    var t := Total(AllLeast(stages));
    var k := n / t.denominator;
    QuotientNat(n, t.denominator);
    assert n == r + k * t.denominator;
    ShortRunIs(stages, r);
    ShortRunIs(stages, n);
    RunTurned(AllLeast(stages), r, k);
    if Loose(stages) {
      MulLess(t.denominator, t.numerator, k);
    } else {
      OneLength(stages);
      PromiseTurned(stages, r, k);
    }
  }

  lemma {:induction false} PromiseTurned(stages: seq<Codec>, r: nat, k: nat)
    requires AllWellFormed(stages) && AllKept(stages) && !HasUnbounded(stages)
    ensures var t := Total(stages);
            k * t.denominator >= 0 && Promised(stages, r).Some? &&
            Promised(stages, r + k * t.denominator) == Some(Promised(stages, r).value + k * t.numerator)
  {
    hide Total, CeilDiv;
    var t := Total(stages);
    MulLess(0, t.denominator, k);
    ComposedIsBound(stages, r);
    ComposedIsBound(stages, r + k * t.denominator);
    MulDistributes(r, k * t.denominator, t.numerator);
    assert (k * t.denominator) * t.numerator == (k * t.numerator) * t.denominator by {
      MulAssociates(k, t.denominator, t.numerator);
      MulAssociates(k, t.numerator, t.denominator);
    }
    CeilTurned(r * t.numerator, k * t.numerator, t.denominator);
  }

  /** A run whose exact ratios shrink comes out shorter than its input, for inputs long enough. */
  lemma {:induction false} Shrinks(stages: seq<Codec>) returns (n: nat)
    requires AllWellFormed(stages) && AllKept(stages) && Loose(stages)
    requires Total(AllLeast(stages)).denominator > Total(AllLeast(stages)).numerator
    ensures !FloorsAt(stages, n)
  {
    hide Run, Longest, Total, CeilDiv, Gcd, Reduce, ShortRun, ComposedExtent;
    var t := Total(AllLeast(stages));
    ShortRunIs(stages, 0);
    var k := ShortRun(stages, 0) + 1;
    RunTurned(AllLeast(stages), 0, k);
    n := 0 + k * t.denominator;
    ShortRunIs(stages, n);
    MulLess(t.numerator + 1, t.denominator, k);
    MulDistributes(t.numerator, 1, k);
  }

  // ----- one dividing ratio

  /** A stage that divides nothing: it keeps lengths, adds to them or multiplies them. */
  predicate Whole(c: Codec) {
    WellFormed(c) && Kept(c) && c.expansion != Unbounded && (c.ratio.Some? ==> c.ratio.value.1 == 1)
  }

  predicate AllWhole(stages: seq<Codec>) {
    forall c :: c in stages ==> Whole(c)
  }

  lemma WholeIsFormed(stages: seq<Codec>)
    requires AllWhole(stages)
    ensures AllWellFormed(stages) && AllKept(stages) && !HasUnbounded(stages)
  {
  }

  /** Whole stages multiply and add, and so do their totals. */
  lemma {:induction false} WholeStep(t: Totals, c: Codec, x: nat)
    requires Positive(t) && Whole(c)
    ensures Step(t, c).denominator == t.denominator
    ensures var m := if c.ratio.Some? then c.ratio.value.0 else 1;
            var d := if c.expansion == FixedAdd then c.add else 0;
            && Step(t, c).numerator == t.numerator * m && Step(t, c).added == t.added * m + d
            && Longest(c.expansion, c.ratio, c.add, x) == Some(x * m + d)
  {
    if c.ratio.Some? {
      CeilIs(t.added * c.ratio.value.0, 1, t.added * c.ratio.value.0);
      CeilIs(x * c.ratio.value.0, 1, x * c.ratio.value.0);
    }
  }

  /** What whole stages do to a length, and to the totals of what stands before them. */
  lemma {:induction false} WholeAfter(before: seq<Codec>, after: seq<Codec>, n: nat)
    requires AllWellFormed(before) && Run(before, n).Some? && Run(before, n).value >= 0 && AllWhole(after)
    ensures AllWellFormed(before + after) && AllWellFormed(after)
    ensures var t, u, all := Total(before), Total(after), Total(before + after);
            && u.denominator == 1 && all.denominator == t.denominator
            && all.numerator == t.numerator * u.numerator && all.added == t.added * u.numerator + u.added
            && Run(before + after, n) == Some(Run(before, n).value * u.numerator + u.added)
    decreases |after|
  {
    hide Step, Longest, Whole, WellFormed, Total, Run;
    WholeIsFormed(after);
    FormedTogether(before, after);
    if after == [] {
      assert before + after == before;
      NothingRun(n);
    } else {
      var init, last := after[..|after| - 1], after[|after| - 1];
      assert last in after && forall c :: c in init ==> c in after;
      WholeAfter(before, init, n);
      assert before + after == (before + init) + [last];
      LastWhole(before + init, last, n);
      LastWhole(init, last, 0);
      assert init + [last] == after;
      var t, u, x := Total(before), Total(init), Run(before, n).value;
      var m := if last.ratio.Some? then last.ratio.value.0 else 1;
      MulAssociates(t.numerator, u.numerator, m);
      TwiceOver(t.added, u.numerator, u.added, m);
      TwiceOver(x, u.numerator, u.added, m);
    }
  }

  lemma FormedTogether(before: seq<Codec>, after: seq<Codec>)
    requires AllWellFormed(before) && AllWellFormed(after)
    ensures AllWellFormed(before + after)
  {
  }

  lemma TwiceOver(x: int, c: int, d: int, m: int)
    ensures (x * c + d) * m == x * (c * m) + d * m
  {
    MulDistributes(x * c, d, m);
    MulAssociates(x, c, m);
  }

  lemma {:induction false} LastWhole(init: seq<Codec>, last: Codec, n: nat)
    requires AllWellFormed(init) && Whole(last)
    ensures AllWellFormed(init + [last])
    ensures var t, all := Total(init), Total(init + [last]);
            var m := if last.ratio.Some? then last.ratio.value.0 else 1;
            var d := if last.expansion == FixedAdd then last.add else 0;
            && all.denominator == t.denominator && all.numerator == t.numerator * m && all.added == t.added * m + d
            && (Run(init, n).Some? && Run(init, n).value >= 0 ==>
                  Run(init + [last], n) == Some(Run(init, n).value * m + d))
  {
    hide Step, Longest;
    assert (init + [last])[..|init|] == init && (init + [last])[|init|] == last;
    WholeStep(Total(init), last, if Run(init, n).Some? && Run(init, n).value >= 0 then Run(init, n).value else 0);
  }

  /** A pipeline with one dividing ratio: whole stages, it, and whole stages again. */
  predicate OneDivides(before: seq<Codec>, mid: Codec, after: seq<Codec>) {
    AllWhole(before) && AllWhole(after) && WellFormed(mid) && Kept(mid) && mid.ratio.Some?
  }

  lemma {:induction false} OneFormed(before: seq<Codec>, mid: Codec, after: seq<Codec>)
    requires OneDivides(before, mid, after)
    ensures var stages := before + [mid] + after;
            AllWellFormed(stages) && AllKept(stages) && !HasUnbounded(stages)
    ensures AllWellFormed(before) && AllWellFormed(after) && AllWellFormed(before + [mid])
  {
    WholeIsFormed(before);
    WholeIsFormed(after);
    assert forall c :: c in before + [mid] + after ==> c in before || c == mid || c in after;
  }

  /** What a run takes and what the totals promise, by the figures of the three parts. */
  lemma {:induction false} OneRun(before: seq<Codec>, mid: Codec, after: seq<Codec>, n: nat)
    requires OneDivides(before, mid, after)
    ensures AllWellFormed(before) && AllWellFormed(after) && AllWellFormed(before + [mid] + after)
    ensures var t, u := Total(before), Total(after);
            var (a, b) := mid.ratio.value;
            var p, q, c := t.numerator * a, t.added * a, u.numerator;
            && Run(before + [mid] + after, n) == Some(CeilDiv(n * p + q, b) * c + u.added)
            && Promised(before + [mid] + after, n) == Some(CeilDiv(n * (p * c), b) + CeilDiv(q, b) * c + u.added)
  {
    hide CeilDiv, Gcd, Longest, Step, Promised, Run, Total, Whole, WellFormed, Kept, ComposedExtent;
    OneFormed(before, mid, after);
    NothingRun(n);
    WholeAfter([], before, n);
    assert [] + before == before;
    var t := Total(before);
    var (a, b) := mid.ratio.value;
    MidRun(before, mid, n);
    WholeAfter(before + [mid], after, n);
    ComposedIsBound(before + [mid] + after, n);
    MulDistributes(n * t.numerator, t.added, a);
    MulAssociates(n, t.numerator, a);
  }

  lemma NothingRun(n: nat)
    ensures Run([], n) == Some(n) && Total([]) == NOTHING
  {
  }

  lemma {:induction false} MidRun(before: seq<Codec>, mid: Codec, n: nat)
    requires AllWellFormed(before) && AllWellFormed(before + [mid]) && WellFormed(mid) && Kept(mid) && mid.ratio.Some?
    requires Run(before, n).Some? && Run(before, n).value >= 0 && Total(before).denominator == 1
    ensures var t, t' := Total(before), Total(before + [mid]);
            var (a, b) := mid.ratio.value;
            && t'.numerator == t.numerator * a && t'.denominator == b && t'.added == CeilDiv(t.added * a, b)
            && Run(before + [mid], n) == Some(CeilDiv(Run(before, n).value * a, b))
            && CeilDiv(Run(before, n).value * a, b) >= 0
  {
    hide CeilDiv, Gcd, Group, GroupOut;
    var (a, b) := mid.ratio.value;
    assert (before + [mid])[..|before|] == before && (before + [mid])[|before|] == mid;
    CeilNonNegative(Run(before, n).value * a, b);
  }

  // ----- when it covers

  /** How far the addend's share is from a whole output bit. */
  function Slack(q: nat, b: nat): int
    requires b > 0
  {
    CeilDiv(q, b) * b - q
  }

  /** The least share of the data that is past the slack. */
  function Past(p: nat, q: nat, b: nat): int
    requires b > 0 && Gcd(p, b) > 0
  {
    (Slack(q, b) / Gcd(p, b) + 1) * Gcd(p, b)
  }

  /** Does the data's share at this length stay inside the slack, or round up all the way once multiplied? */
  predicate ShareFits(n: nat, p: nat, q: nat, b: nat, c: nat)
    requires b > 0
  {
    var r := (n * p) % b;
    r <= Slack(q, b) || r * c > (c - 1) * b
  }

  /** At one length: the rounded share of the data, `r`, is inside the slack, or multiplied by `c` it
      rounds up all the way. */
  lemma {:induction false} HoldsAtIff(n: nat, p: nat, q: nat, b: nat, c: nat)
    requires p > 0 && b > 0 && c > 0
    ensures CeilDiv(n * p + q, b) * c <= CeilDiv(n * (p * c), b) + CeilDiv(q, b) * c <==> ShareFits(n, p, q, b, c)
  {
    hide CeilDiv;
    var k, r, s, y := n * p / b, (n * p) % b, Slack(q, b), CeilDiv(q, b);
    CeilIs(q, b, y);
    MulDistributes(y, -1, b);
    assert 0 <= s < b && n * p == k * b + r;
    Rounded(k, r, y, s, b);
    assert n * p + q == (k + y) * b + (r - s) by { MulDistributes(k, y, b); }
    var up := if r > s then 1 else 0;
    assert CeilDiv(n * p + q, b) == k + y + up;
    Multiplied(n, p, k, r, b, c);
    MulDistributes(k + y, up, c);
    MulDistributes(k, y, c);
    AllTheWay(r, b, c);
  }

  lemma {:induction false} Rounded(k: int, r: int, y: int, s: int, b: nat)
    requires b > 0 && 0 <= r < b && 0 <= s < b
    ensures CeilDiv((k + y) * b + (r - s), b) == k + y + (if r > s then 1 else 0)
  {
    var c := k + y + (if r > s then 1 else 0);
    MulDistributes(k + y, 1, b);
    MulDistributes(k + y, -1, b);
    CeilIs((k + y) * b + (r - s), b, c);
  }

  lemma {:induction false} Multiplied(n: nat, p: nat, k: int, r: int, b: nat, c: nat)
    requires b > 0 && n * p == k * b + r
    ensures CeilDiv(n * (p * c), b) == k * c + CeilDiv(r * c, b)
  {
    var y := CeilDiv(r * c, b);
    CeilIs(r * c, b, y);
    MulAssociates(n, p, c);
    MulDistributes(k * b, r, c);
    assert (k * b) * c == (k * c) * b by { MulAssociates(k, b, c); MulAssociates(k, c, b); }
    MulDistributes(k * c, y, b);
    MulDistributes(k * c, y - 1, b);
    CeilIs(n * (p * c), b, k * c + y);
  }

  lemma {:induction false} AllTheWay(r: nat, b: nat, c: nat)
    requires r < b && c > 0
    ensures c <= CeilDiv(r * c, b) <==> r * c > (c - 1) * b
    ensures CeilDiv(r * c, b) >= 0
  {
    var y := CeilDiv(r * c, b);
    CeilIs(r * c, b, y);
    CeilNonNegative(r * c, b);
    if c <= y { MulLess(c - 1, y - 1, b); }
    if y < c { MulLess(y, c - 1, b); }
  }

  /** Bezout's identity. */
  lemma {:induction false} Bezout(a: nat, b: nat) returns (x: int, y: int)
    requires a > 0 || b > 0
    ensures x * a + y * b == Gcd(a, b)
    decreases b
  {
    if b == 0 {
      x, y := 1, 0;
    } else {
      var k, r := a / b, a % b;
      var u, v := Bezout(b, r);
      assert a == k * b + r;
      x, y := v, u - v * k;
      MulDistributes(k * b, r, v);
      MulDistributes(u, v * k, b);
      MulAssociates(v, k, b);
    }
  }

  /** Some length's share of the data is any given multiple of the divisor both figures have. */
  lemma {:induction false} Reached(p: nat, b: nat, j: nat) returns (n: nat)
    requires p > 0 && b > 0 && 0 <= j * Gcd(p, b) < b
    ensures (n * p) % b == j * Gcd(p, b)
  {
    hide Gcd;
    var x, y := Bezout(p, b);
    var g, z := Gcd(p, b), j * x;
    // z * p + (j * y) * b == j * g, and z is made non-negative by whole turns of b
    MulDistributes(x * p, y * b, j);
    MulAssociates(j, x, p);
    MulAssociates(j, y, b);
    var turns := if z < 0 then -z else 0;
    MulLess(1, b, turns);
    n := z + turns * b;
    MulDistributes(z, turns * b, p);
    assert (turns * b) * p == (turns * p) * b by { MulAssociates(turns, b, p); MulAssociates(turns, p, b); }
    MulDistributes(turns * p, j * y, b);
    RemainderIs(n * p, b, turns * p - j * y, j * g);
  }

  lemma RemainderIs(n: int, b: nat, k: int, r: int)
    requires b > 0 && 0 <= r < b && n == k * b + r
    ensures n % b == r
  {
    DivUnique(n, b, k);
  }

  /** Every share of the data is a multiple of the divisor both figures have. */
  lemma {:induction false} ShareIsMultiple(n: nat, p: nat, b: nat) returns (j: int)
    requires p > 0 && b > 0
    ensures (n * p) % b == j * Gcd(p, b)
  {
    var x, y := GcdDivides(p, b);
    var g, k := Gcd(p, b), n * p / b;
    j := n * x - k * y;
    MulAssociates(n, x, g);
    MulAssociates(k, y, g);
    MulDistributes(n * x, k * y, g);
  }

  lemma PastIsPast(p: nat, q: nat, b: nat)
    requires b > 0 && Gcd(p, b) > 0
    ensures Slack(q, b) >= 0 && Slack(q, b) / Gcd(p, b) >= 0 && Slack(q, b) < Past(p, q, b)
  {
    var s, g := Slack(q, b), Gcd(p, b);
    CeilCovers(q, b);
    QuotientNat(s, g);
    MulDistributes(s / g, 1, g);
  }

  /** Every length is covered exactly when the least share past the slack is. */
  lemma {:induction false} PastDecides(p: nat, q: nat, b: nat, c: nat)
    requires p > 0 && b > 0 && c > 0
    ensures Gcd(p, b) > 0
    ensures (forall n: nat :: ShareFits(n, p, q, b, c)) <==> Past(p, q, b) * c > (c - 1) * b
  {
    var x, y := GcdDivides(p, b);
    var g, s, least := Gcd(p, b), Slack(q, b), Past(p, q, b);
    PastIsPast(p, q, b);
    if least * c > (c - 1) * b {
      forall n: nat ensures ShareFits(n, p, q, b, c) {
        var j := ShareIsMultiple(n, p, b);
        if (n * p) % b > s {
          BeyondSlack(s, g, j);
          MulLess(least, (n * p) % b, c);
        }
      }
    } else {
      LeastIsShare(least, b, c);
      var n := Reached(p, b, s / g + 1);
      assert !ShareFits(n, p, q, b, c);
    }
  }

  lemma BeyondSlack(s: nat, g: nat, j: int)
    requires g > 0 && j * g > s
    ensures (s / g + 1) * g <= j * g
  {
    var k := s / g;
    assert k * g <= s;
    assert j > k by {
      if j <= k { MulLess(j, k, g); }
    }
    MulLess(k + 1, j, g);
  }

  lemma LeastIsShare(least: nat, b: nat, c: nat)
    requires b > 0 && c > 0 && least * c <= (c - 1) * b
    ensures least < b
  {
    MulDistributes(c, 1, b);
    if least >= b { MulLess(b, least, c); }
  }

  /** One dividing ratio among whole stages: the composed length covers every run exactly when the
      least share of the data past the addend's slack, multiplied by what follows, still rounds up all
      the way. */
  lemma {:induction false} CoversIff(before: seq<Codec>, mid: Codec, after: seq<Codec>)
    requires OneDivides(before, mid, after)
    ensures AllWellFormed(before) && AllWellFormed(after) && AllWellFormed(before + [mid] + after)
    ensures var (a, b) := mid.ratio.value;
            var c := Total(after).numerator;
            var p, q := Total(before).numerator * a, Total(before).added * a;
            Gcd(p, b) > 0 && (Covers(before + [mid] + after) <==> Past(p, q, b) * c > (c - 1) * b)
  {
    hide Run, Promised, CeilDiv, Gcd, ShareFits, Past, Total;
    OneFormed(before, mid, after);
    var stages, t, c := before + [mid] + after, Total(before), Total(after).numerator;
    var (a, b) := mid.ratio.value;
    ProductPositive(t.numerator, a);
    var p, q := t.numerator * a, t.added * a;
    PastDecides(p, q, b, c);
    forall n: nat ensures CoversAt(stages, n) <==> ShareFits(n, p, q, b, c) {
      OneRun(before, mid, after, n);
      HoldsAtIff(n, p, q, b, c);
    }
  }

  /** With nothing appended before the division, that is where nothing follows that multiplies, or the
      division never rounds. */
  lemma {:induction false} PlainCoversIff(before: seq<Codec>, mid: Codec, after: seq<Codec>)
    requires OneDivides(before, mid, after) && (forall s :: s in before ==> s.expansion != FixedAdd || s.add == 0)
    ensures AllWellFormed(before) && AllWellFormed(after) && AllWellFormed(before + [mid] + after)
    ensures Covers(before + [mid] + after) <==>
            Total(after).numerator == 1 || (Total(before).numerator * mid.ratio.value.0) % mid.ratio.value.1 == 0
  {
    hide Covers, Total, Past, Gcd;
    CoversIff(before, mid, after);
    NothingAdded(before);
    ProductPositive(Total(before).numerator, mid.ratio.value.0);
    NoSlackIff(Total(before).numerator * mid.ratio.value.0, mid.ratio.value.1, Total(after).numerator);
  }

  lemma {:induction false} NothingAdded(stages: seq<Codec>)
    requires AllWhole(stages) && forall s :: s in stages ==> s.expansion != FixedAdd || s.add == 0
    ensures AllWellFormed(stages) && Total(stages).added == 0
  {
    hide Step, Whole, WellFormed, Longest, Run;
    WholeIsFormed(stages);
    if stages != [] {
      var init, last := stages[..|stages| - 1], stages[|stages| - 1];
      assert last in stages && forall c :: c in init ==> c in stages;
      NothingAdded(init);
      LastWhole(init, last, 0);
      assert init + [last] == stages;
    }
  }

  lemma {:induction false} NoSlackIff(p: nat, b: nat, c: nat)
    requires p > 0 && b > 0 && c > 0
    ensures Gcd(p, b) > 0
    ensures Past(p, 0, b) * c > (c - 1) * b <==> c == 1 || p % b == 0
  {
    hide Gcd, CeilDiv;
    var x, y := GcdDivides(p, b);
    var u, v := Bezout(p, b);
    var g := Gcd(p, b);
    CeilIs(0, b, 0);
    assert Past(p, 0, b) == g;
    WholeDivisor(p, b, g, x, y, u, v);
    if p % b == 0 {
      MulDistributes(c, 1, b);
    } else if c > 1 {
      MulLess(2, y, g);
      MulLess(2 * g, b, c);
      MulLess(2, c, b);
      assert 2 * ((c - 1) * b) == c * b + (c * b - 2 * b) by { MulDistributes(c, 1, b); }
      assert (2 * g) * c == 2 * (g * c);
    }
  }

  /** The common divisor is `b` itself exactly when `b` divides `p`. */
  lemma {:induction false} WholeDivisor(p: nat, b: nat, g: nat, x: nat, y: nat, u: int, v: int)
    requires p > 0 && b > 0 && g > 0 && p == x * g && b == y * g && u * p + v * b == g
    ensures p % b == 0 ==> g == b
    ensures p % b != 0 ==> y >= 2
  {
    if p % b == 0 {
      var k := p / b;
      assert p == k * b;
      MulAssociates(u, k, b);
      MulDistributes(u * k, v, b);
      assert (u * k + v) * b == g;
      if u * k + v <= 0 { MulLess(u * k + v, 0, b); }
      MulLess(1, u * k + v, b);
      FactorPositive(y, g);
      MulLess(1, y, g);
    } else {
      FactorPositive(y, g);
      if y == 1 { DivUnique(p, b, x); }
    }
  }

  lemma {:induction false} GroupPositive(a: nat, b: nat)
    requires a > 0 && b > 0
    ensures Group(b) > 0 && GroupOut((a, b)) > 0
  {
    var p, q := GcdDivides(8, b);
    DivUnique(8, Gcd(8, b), p);
    FactorPositive(p, Gcd(8, b));
    ProductPositive(p, b);
    DivUnique(p * b, b, p);
    ProductPositive(p, a);
  }

  lemma {:induction false} SinglePadded(c: Codec, n: nat)
    requires WellFormed(c) && c.expansion == RatioPadded
    ensures AllWellFormed([c]) && Group(c.ratio.value.1) > 0 && GroupOut(c.ratio.value) > 0
    ensures Promised([c], n) == Some(n)
    ensures Run([c], n) == Some(CeilDiv(n, Group(c.ratio.value.1)) * GroupOut(c.ratio.value) + c.add)
  {
    var (a, b) := c.ratio.value;
    GroupPositive(a, b);
    assert [c][..0] == [] && Total([c]) == Step(NOTHING, c);
    CeilIs(0, b, 0);
  }

  /** A pipeline of one stage promises what the stage does exactly when the stage is of a form
      whose figures composition keeps, or pads to groups that come out as a single bit. */
  lemma {:induction false} SingleCoversIff(c: Codec)
    requires WellFormed(c)
    ensures AllWellFormed([c])
    ensures Covers([c]) <==> Kept(c) || (c.expansion == RatioPadded && c.add == 0 && GroupOut(c.ratio.value) == 1)
  {
    hide Run, Promised;
    assert c in [c];
    if c.expansion == RatioPadded {
      PaddedCoversIff(c);
    } else {
      UnpaddedCoversIff(c);
    }
  }

  lemma {:induction false} PaddedCoversIff(c: Codec)
    requires WellFormed(c) && c.expansion == RatioPadded
    ensures AllWellFormed([c])
    ensures Covers([c]) <==> c.add == 0 && GroupOut(c.ratio.value) == 1
  {
    hide Run, Promised;
    SinglePadded(c, 0);
    SinglePadded(c, 1);
    var (g, o) := (Group(c.ratio.value.1), GroupOut(c.ratio.value));
    CeilIs(0, g, 0);
    CeilIs(1, g, 1);
    if Covers([c]) {
      assert CoversAt([c], 0) && CoversAt([c], 1);
    }
    if c.add == 0 && o == 1 {
      forall n: nat ensures CoversAt([c], n) {
        SinglePadded(c, n);
        MulLess(1, g, n);
        CeilLeast(n, g, n);
      }
    }
  }

  /** An addend beside a ratio is not read. */
  lemma {:induction false} AddendDropped(c: Codec)
    requires WellFormed(c) && c.expansion != RatioPadded && IsRatio(c.expansion)
    ensures AllWellFormed([c]) && Promised([c], 0) == Some(0) && Run([c], 0) == Some(c.add)
  {
    hide CeilDiv, Gcd, Reduce;
    var (a, b) := c.ratio.value;
    assert [c][..0] == [] && Total([c]) == Step(NOTHING, c);
    CeilIs(0, b, 0);
    var e := ComposedExtent([c]);
    CeilIs(0, e.ratio.value.1, 0);
  }

  lemma {:induction false} UnpaddedCoversIff(c: Codec)
    requires WellFormed(c) && c.expansion != RatioPadded
    ensures AllWellFormed([c])
    ensures Covers([c]) <==> Kept(c)
  {
    hide Run, CeilDiv, Gcd, Reduce;
    if !Kept(c) {
      AddendDropped(c);
      assert !CoversAt([c], 0);
    } else if c.expansion == Unbounded {
      assert c in [c] && HasUnbounded([c]);
    } else {
      assert RoundsOnce([c]) by {
        assert [c][..0] == [] && RoundsOnce([]) && Total([]) == NOTHING;
      }
      forall n: nat ensures CoversAt([c], n) { PipelineBound([c], n); }
    }
  }

  // ----- the whole signature

  function SeekRank(s: Seekable): nat {
    match s case SeekLinear => 0 case Permuted => 1 case NotSeekable => 2 case Blockwise => 3
  }

  function GranularityRank(g: Granularity): nat {
    match g case BitUnit => 0 case SymbolUnit => 1 case ByteUnit => 2 case BlockUnit => 3 case StreamUnit => 4
  }

  function WeakestSeekable(stages: seq<Codec>): (s: Seekable)
    requires stages != []
    ensures exists i :: 0 <= i < |stages| && stages[i].seekable == s
    ensures forall i :: 0 <= i < |stages| ==> SeekRank(stages[i].seekable) <= SeekRank(s)
  {
    var k := |stages| - 1;
    if k == 0 then stages[0].seekable
    else
      var before := WeakestSeekable(stages[..k]);
      assert forall i :: 0 <= i < k ==> stages[..k][i] == stages[i];
      if SeekRank(stages[k].seekable) > SeekRank(before) then stages[k].seekable else before
  }

  function CoarsestGranularity(stages: seq<Codec>): (g: Granularity)
    requires stages != []
    ensures exists i :: 0 <= i < |stages| && stages[i].granularity == g
    ensures forall i :: 0 <= i < |stages| ==> GranularityRank(stages[i].granularity) <= GranularityRank(g)
  {
    var k := |stages| - 1;
    if k == 0 then stages[0].granularity
    else
      var before := CoarsestGranularity(stages[..k]);
      assert forall i :: 0 <= i < k ==> stages[..k][i] == stages[i];
      if GranularityRank(stages[k].granularity) > GranularityRank(before) then stages[k].granularity else before
  }

  /** `compose` */
  function Compose(stages: seq<Codec>): Result<Codec, Refusal>
    requires AllWellFormed(stages)
  {
    if stages == [] then Err(NoStages)
    else if exists c :: c in stages && c.seekable == Blockwise then Err(UnrankedStage)
    else
      var e := ComposedExtent(stages);
      Ok(Codec(e.expansion, e.add, e.ratio, WeakestSeekable(stages), CoarsestGranularity(stages),
               forall c :: c in stages ==> c.systematic,
               forall c :: c in stages ==> c.invertible,
               forall c :: c in stages ==> c.deterministic,
               exists c :: c in stages && c.errorPropagating,
               exists c :: c in stages && c.authenticated))
  }

  /** How much a form leaves open. Composition gives a padded ratio no form of its own. */
  function FormRank(c: Codec): nat {
    match c.expansion
    case Preserving => 0
    case RatioPadded => 0
    case FixedAdd => if c.add > 0 then 1 else 0
    case RatioExact => 2
    case RatioBounded => 3
    case Unbounded => 4
  }

  predicate Has(stages: seq<Codec>, expansion: Expansion) {
    exists c :: c in stages && c.expansion == expansion
  }

  predicate Appends(c: Codec) {
    c.expansion == FixedAdd && c.add > 0
  }

  lemma {:induction false} TotalForms(stages: seq<Codec>)
    requires AllWellFormed(stages)
    ensures var t := Total(stages);
            && (t.bounded <==> Has(stages, RatioBounded)) && (t.exact <==> Has(stages, RatioExact))
            && (t.added > 0 <==> exists c :: c in stages && Appends(c))
  {
    if stages != [] {
      var init, last := stages[..|stages| - 1], stages[|stages| - 1];
      assert last in stages && forall c :: c in stages <==> c in init || c == last;
      TotalForms(init);
      StepForms(Total(init), last);
    }
  }

  lemma StepForms(t: Totals, c: Codec)
    requires Positive(t) && WellFormed(c)
    ensures var t' := Step(t, c);
            && (t'.bounded <==> t.bounded || c.expansion == RatioBounded)
            && (t'.exact <==> t.exact || c.expansion == RatioExact)
            && (t'.added > 0 <==> t.added > 0 || Appends(c))
  {
    if c.ratio.Some? {
      var (a, b) := c.ratio.value;
      CeilIs(t.added * a, b, CeilDiv(t.added * a, b));
      CeilIs(0, b, 0);
      if t.added > 0 { ProductPositive(t.added, a); }
    }
  }

  /** The form is the one that leaves most open among the stages': unbounded, then bounded, then exact, then
      appending. */
  lemma {:induction false} ComposedFormIff(stages: seq<Codec>)
    requires AllWellFormed(stages)
    ensures var form := ComposedExtent(stages).expansion;
            && (form == Unbounded <==> Has(stages, Unbounded))
            && (form == RatioBounded <==> !Has(stages, Unbounded) && Has(stages, RatioBounded))
            && (form == RatioExact <==> !Has(stages, Unbounded) && !Has(stages, RatioBounded) && Has(stages, RatioExact))
            && (form == FixedAdd <==>
                && !Has(stages, Unbounded) && !Has(stages, RatioBounded) && !Has(stages, RatioExact)
                && exists c :: c in stages && Appends(c))
            && form != RatioPadded
  {
    hide Total, Reduce;
    TotalForms(stages);
  }

  /** Does `c` promise no more than `d`? (An order over everything but the lengths.) */
  predicate NoStronger(c: Codec, d: Codec) {
    && SeekRank(c.seekable) >= SeekRank(d.seekable)
    && GranularityRank(c.granularity) >= GranularityRank(d.granularity)
    && (c.systematic ==> d.systematic) && (c.invertible ==> d.invertible)
    && (c.deterministic ==> d.deterministic)
    && (d.errorPropagating ==> c.errorPropagating) && (d.authenticated ==> c.authenticated)
    && FormRank(c) >= FormRank(d)
  }

  /** A pipeline is refused exactly when it is empty or holds a blockwise stage. Accepted, it is
      again a well-formed codec and no stronger than any stage. */
  lemma {:induction false} ComposedIsWeakest(stages: seq<Codec>)
    requires AllWellFormed(stages)
    ensures Compose(stages).Err? <==> stages == [] || exists c :: c in stages && c.seekable == Blockwise
    ensures Compose(stages).Ok? ==> WellFormed(Compose(stages).value)
    ensures Compose(stages).Ok? ==> forall d :: d in stages ==> NoStronger(Compose(stages).value, d)
  {
    if Compose(stages).Ok? {
      ComposedRank(stages);
      forall d | d in stages ensures FormRank(Compose(stages).value) >= FormRank(d) {}
    }
  }

  /** The composed form leaves open what some stage does, and no stage leaves open more. */
  lemma {:induction false} ComposedRank(stages: seq<Codec>)
    requires AllWellFormed(stages) && Compose(stages).Ok?
    ensures forall d :: d in stages ==> FormRank(Compose(stages).value) >= FormRank(d)
    ensures exists d :: d in stages && FormRank(Compose(stages).value) <= FormRank(d)
  {
    hide Total, Reduce, ComposedExtent, WeakestSeekable, CoarsestGranularity;
    ComposedFormIff(stages);
    AddedIff(stages);
    var c := Compose(stages).value;
    if c.expansion == Preserving { assert stages[0] in stages; }
    forall d | d in stages ensures FormRank(c) >= FormRank(d) {
      assert d.expansion == Unbounded ==> Has(stages, Unbounded);
      assert d.expansion == RatioBounded ==> Has(stages, RatioBounded);
      assert d.expansion == RatioExact ==> Has(stages, RatioExact);
      assert FormRank(d) == 1 ==> Appends(d);
    }
  }

  lemma {:induction false} AddedIff(stages: seq<Codec>)
    requires AllWellFormed(stages)
    ensures ComposedExtent(stages).expansion == FixedAdd ==> ComposedExtent(stages).add > 0
  {
    hide Total, Reduce;
  }

  /** No codec no stronger than every stage is stronger than the composition. */
  lemma {:induction false} ComposedIsGreatest(stages: seq<Codec>, bound: Codec)
    requires AllWellFormed(stages) && Compose(stages).Ok?
    requires forall d :: d in stages ==> NoStronger(bound, d)
    ensures NoStronger(bound, Compose(stages).value)
  {
    hide FormRank;
    var i :| 0 <= i < |stages| && stages[i].seekable == WeakestSeekable(stages);
    var j :| 0 <= j < |stages| && stages[j].granularity == CoarsestGranularity(stages);
    assert stages[i] in stages && stages[j] in stages;
    ComposedRank(stages);
  }
}
