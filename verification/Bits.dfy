/** Python's operators on unbounded integers: truncating division, shifts, and
    bitwise operators as arithmetic on infinite two's complement. */
module Bits {
  import opened Prelude

  function Pow2(n: nat): (p: nat)
    ensures p >= 1
  {
    if n == 0 then 1 else 2 * Pow2(n - 1)
  }

  /** `abs(a) // abs(b) * (1 if (a < 0) == (b < 0) else -1)`: C's division. */
  function TruncDiv(a: int, b: int): int
    requires b != 0
  {
    (Abs(a) / Abs(b)) * (if (a < 0) == (b < 0) then 1 else -1)
  }

  function TruncMod(a: int, b: int): int
    requires b != 0
  {
    a - TruncDiv(a, b) * b
  }

  /** Python's `//`. */
  function FloorDiv(a: int, b: int): int
    requires b != 0
  {
    if b > 0 then a / b else (-a) / (-b)
  }

  /** `_round_up`, for the positive alignments every caller checks for first. */
  function RoundUp(value: int, alignment: int): int
    requires alignment > 0
  {
    ((value + alignment - 1) / alignment) * alignment
  }

  function And(a: int, b: int): int
    decreases Abs(a) + Abs(b)
  {
    if a == 0 || b == 0 then 0
    else if a == -1 then b
    else if b == -1 then a
    else 2 * And(a / 2, b / 2) + (if a % 2 == 1 && b % 2 == 1 then 1 else 0)
  }

  function Or(a: int, b: int): int
    decreases Abs(a) + Abs(b)
  {
    if a == -1 || b == -1 then -1
    else if a == 0 then b
    else if b == 0 then a
    else 2 * Or(a / 2, b / 2) + (if a % 2 == 1 || b % 2 == 1 then 1 else 0)
  }

  function Xor(a: int, b: int): int
    decreases Abs(a) + Abs(b)
  {
    if a == 0 then b
    else if b == 0 then a
    else if a == -1 then -b - 1
    else if b == -1 then -a - 1
    else 2 * Xor(a / 2, b / 2) + (if a % 2 != b % 2 then 1 else 0)
  }

  /** `int.bit_length`, which ignores the sign. */
  function BitLength(v: int): nat
    decreases Abs(v)
  {
    if v == 0 then 0 else 1 + BitLength(Abs(v) / 2)
  }

  /** `int.bit_count`, which ignores the sign. */
  function BitCount(v: int): nat
    decreases Abs(v)
  {
    if v == 0 then 0 else Abs(v) % 2 + BitCount(Abs(v) / 2)
  }

  /** `_mask`: the largest integer with no more bits than `v` has. */
  function Mask(v: int): nat {
    Pow2(BitLength(v)) - 1
  }

  // ----- the operators are what their names say, bit by bit

  /** Bit `k` of `v` in two's complement. */
  predicate Bit(v: int, k: nat)
    decreases k
  {
    if k == 0 then v % 2 == 1 else Bit(v / 2, k - 1)
  }

  lemma {:induction false} ConstantBits(k: nat)
    ensures !Bit(0, k) && Bit(-1, k)
  {
    if k > 0 { ConstantBits(k - 1); }
  }

  lemma {:induction false} ComplementBit(v: int, k: nat)
    ensures Bit(-v - 1, k) == !Bit(v, k)
    decreases k
  {
    if k > 0 {
      assert (-v - 1) / 2 == -(v / 2) - 1;
      ComplementBit(v / 2, k - 1);
    }
  }

  lemma {:induction false} AndBit(a: int, b: int, k: nat)
    ensures Bit(And(a, b), k) == (Bit(a, k) && Bit(b, k))
    decreases k
  {
    ConstantBits(k);
    if k > 0 && a != 0 && b != 0 && a != -1 && b != -1 {
      assert And(a, b) / 2 == And(a / 2, b / 2);
      AndBit(a / 2, b / 2, k - 1);
    }
  }

  lemma {:induction false} OrBit(a: int, b: int, k: nat)
    ensures Bit(Or(a, b), k) == (Bit(a, k) || Bit(b, k))
    decreases k
  {
    ConstantBits(k);
    if k > 0 && a != 0 && b != 0 && a != -1 && b != -1 {
      assert Or(a, b) / 2 == Or(a / 2, b / 2);
      OrBit(a / 2, b / 2, k - 1);
    }
  }

  lemma {:induction false} XorBit(a: int, b: int, k: nat)
    ensures Bit(Xor(a, b), k) == (Bit(a, k) != Bit(b, k))
    decreases k
  {
    ConstantBits(k);
    ComplementBit(a, k);
    ComplementBit(b, k);
    if k > 0 && a != 0 && b != 0 && a != -1 && b != -1 {
      assert Xor(a, b) / 2 == Xor(a / 2, b / 2);
      XorBit(a / 2, b / 2, k - 1);
    }
  }

  // ----- division, rounding and counting are what their names say

  /** C's division and remainder: the remainder is short of the divisor and has the dividend's sign. */
  lemma TruncDivIs(a: int, b: int)
    requires b != 0
    ensures a == TruncDiv(a, b) * b + TruncMod(a, b)
    ensures Abs(TruncMod(a, b)) < Abs(b) && (TruncMod(a, b) != 0 ==> (TruncMod(a, b) < 0 <==> a < 0))
  {
    var p, q, r := Abs(a), Abs(b), Abs(a) / Abs(b);
    assert p == r * q + p % q;
    assert (r * -1) * b == -(r * b) && (-r) * -b == r * b;
  }

  /** Python's: the remainder has the divisor's sign. */
  lemma FloorDivIs(a: int, b: int)
    requires b != 0
    ensures var r := a - FloorDiv(a, b) * b; if b > 0 then 0 <= r < b else b < r <= 0
  {
    var q := (-a) / (-b);
    if b < 0 { assert -a == q * -b + (-a) % (-b) && q * -b == -(q * b); }
  }

  /** The least multiple of the alignment that is not below the value. */
  lemma RoundUpIs(value: int, alignment: int)
    requires alignment > 0
    ensures RoundUp(value, alignment) % alignment == 0 && value <= RoundUp(value, alignment) < value + alignment
  {
    var q := (value + alignment - 1) / alignment;
    DivUnique(q * alignment, alignment, q);
    RoundUpClose(value, alignment);
  }

  /** As many bits as it takes. */
  lemma {:induction false} BitLengthIs(v: nat)
    ensures v < Pow2(BitLength(v)) && (v > 0 ==> BitLength(v) > 0 && Pow2(BitLength(v) - 1) <= v)
  {
    if v > 1 { BitLengthIs(v / 2); }
  }

  /** How many of the lowest `n` bits are set. */
  function Ones(v: int, n: nat): nat {
    if n == 0 then 0 else (if Bit(v, n - 1) then 1 else 0) + Ones(v, n - 1)
  }

  lemma {:induction false} OnesAbove(v: int, n: nat)
    ensures Ones(v, n + 1) == v % 2 + Ones(v / 2, n)
  {
    if n > 0 { OnesAbove(v, n - 1); }
  }

  lemma {:induction false} BitCountIs(v: nat)
    ensures BitCount(v) == Ones(v, BitLength(v))
  {
    if v > 0 {
      BitCountIs(v / 2);
      OnesAbove(v, BitLength(v / 2));
    }
  }

  /** A number and a higher power of two have no bit in common. */
  lemma {:induction false} HighBit(k: nat, y: nat)
    requires y < Pow2(k)
    ensures Or(Pow2(k), y) == Xor(Pow2(k), y) == Pow2(k) + y
  {
    if k > 0 && y > 0 {
      assert Pow2(k) / 2 == Pow2(k - 1) && Pow2(k) % 2 == 0;
      HighBit(k - 1, y / 2);
    }
  }

  lemma {:induction false} Itself(v: nat)
    ensures And(v, v) == v && Or(v, v) == v && Xor(v, v) == 0
  {
    if v > 0 { Itself(v / 2); }
  }

  lemma {:induction false} AllOnes(n: nat)
    ensures BitLength(Pow2(n) - 1) == n && BitCount(Pow2(n) - 1) == n
  {
    if n > 0 {
      assert (Pow2(n) - 1) / 2 == Pow2(n - 1) - 1 && (Pow2(n) - 1) % 2 == 1;
      AllOnes(n - 1);
    }
  }

  // ----- bounds

  lemma {:induction false} AndBound(a: nat, b: nat)
    ensures 0 <= And(a, b) <= Min(a, b)
  {
    if a != 0 && b != 0 { AndBound(a / 2, b / 2); }
  }

  lemma {:induction false} OrBound(a: nat, b: nat, k: nat)
    requires a < Pow2(k) && b < Pow2(k)
    ensures Max(a, b) <= Or(a, b) < Pow2(k)
  {
    if a != 0 && b != 0 { OrBound(a / 2, b / 2, k - 1); }
  }

  lemma {:induction false} XorBound(a: nat, b: nat, k: nat)
    requires a < Pow2(k) && b < Pow2(k)
    ensures 0 <= Xor(a, b) < Pow2(k)
  {
    if a != 0 && b != 0 { XorBound(a / 2, b / 2, k - 1); }
  }

  lemma {:induction false} BitLengthBound(v: nat)
    ensures v < Pow2(BitLength(v))
  {
    if v != 0 { BitLengthBound(v / 2); }
  }

  lemma {:induction false} BitLengthMonotone(v: nat, w: nat)
    requires v <= w
    ensures BitLength(v) <= BitLength(w)
  {
    if v != 0 { BitLengthMonotone(v / 2, w / 2); }
  }

  lemma {:induction false} BitCountBound(v: nat)
    ensures BitCount(v) <= BitLength(v)
    ensures v > 0 ==> BitCount(v) > 0
  {
    if v != 0 { BitCountBound(v / 2); }
  }

  lemma {:induction false} Pow2Monotone(m: nat, n: nat)
    requires m <= n
    ensures Pow2(m) <= Pow2(n)
  {
    if m < n { Pow2Monotone(m, n - 1); }
  }

  // ----- monotonicity of the operators corner enumeration is used for

  /** Is `v` between `p` and `q`, whichever way round they are? */
  predicate Between(v: int, p: int, q: int) {
    Min(p, q) <= v <= Max(p, q)
  }

  lemma MulMonotone(x: int, lo: int, hi: int, y: int)
    requires lo <= x <= hi
    ensures Between(x * y, lo * y, hi * y)
  {
    if y >= 0 {
      assert (x - lo) * y >= 0 && (hi - x) * y >= 0;
    } else {
      assert (x - lo) * -y >= 0 && (hi - x) * -y >= 0;
    }
  }

  lemma MulLess(a: int, b: int, y: int)
    requires a <= b && y >= 0
    ensures a * y <= b * y
  {
    assert (b - a) * y >= 0;
  }

  lemma MulDistributes(a: int, b: int, f: int)
    ensures (a + b) * f == a * f + b * f && f * (a + b) == f * a + f * b
    ensures (a - b) * f == a * f - b * f
  {
  }

  lemma MulAssociates(a: int, b: int, c: int)
    ensures (a * b) * c == a * (b * c)
  {
  }

  lemma DivUnique(n: int, d: int, q: int)
    requires d > 0 && q * d <= n < q * d + d
    ensures n / d == q
  {
    var p := n / d;
    if p < q { MulLess(p + 1, q, d); }
    if p > q { MulLess(q + 1, p, d); }
  }

  lemma QuotientLess(n: int, d: int)
    requires n > 0 && d >= 2
    ensures 0 <= n / d < n
  {
    MulLess(2, d, n);
    if n / d >= n { MulLess(n, n / d, d); }
  }

  lemma DivMonotone(x: int, y: int, d: int)
    requires x <= y && d > 0
    ensures x / d <= y / d
  {
    if x / d > y / d {
      MulLess(y / d + 1, x / d, d);
    }
  }

  lemma DivisorAntitone(x: int, d: int, e: int)
    requires 0 < d <= e
    ensures x >= 0 ==> 0 <= x / e <= x / d
    ensures x < 0 ==> x / d <= x / e
  {
    var p, q := x / d, x / e;
    if x >= 0 {
      if q > p {
        MulLess(p + 1, q, d);
        MulLess(d, e, q);
      }
    } else if p > q {
      MulLess(q + 1, p, d);
      MulLess(d, e, -(q + 1));
    }
  }

  lemma RoundUpMonotone(x: int, y: int, k: int)
    requires x <= y && k > 0
    ensures RoundUp(x, k) <= RoundUp(y, k)
  {
    DivMonotone(x + k - 1, y + k - 1, k);
    MulLess((x + k - 1) / k, (y + k - 1) / k, k);
  }

  lemma RoundUpClose(x: int, k: int)
    requires k > 0
    ensures 0 <= RoundUp(x, k) - x < k
  {
  }
}
