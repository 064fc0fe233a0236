/** Variable-length integers: the limits a declaration computes (situc/ast.py) and the readers and
    writers they are handed to (runtime/python/situ_runtime.py). */
module Varint {
  import opened Prelude
  import opened Bits

  datatype Encoding = Leb128 | Be128 | Quic | Der | CompactSize | LenEnc | Cbor | Hpack | BerTag

  type Bytes = seq<int>

  /** A value and how many bytes it took. */
  type Read = Option<(nat, nat)>

  // ----- limits

  /** One table of a marked integer: below `direct` a first byte is the value, and marker `first + i`
      says `widths[i]` bytes follow. `mask` bits of the first byte are the number's. */
  datatype Form = Form(direct: nat, first: nat, widths: seq<nat>, big: bool, modulus: nat)

  predicate IsMarked(e: Encoding) {
    e in {Der, CompactSize, LenEnc, Cbor}
  }

  /** `MARKED` */
  function Table(e: Encoding): Form
    requires IsMarked(e)
  {
    match e
    case Der => Form(0x80, 0x81, [1, 2, 3, 4, 5, 6, 7, 8], true, 256)
    case CompactSize => Form(0xFD, 0xFD, [2, 4, 8], false, 256)
    case LenEnc => Form(0xFB, 0xFC, [2, 3, 8], false, 256)
    case _ => Form(24, 24, [1, 2, 4, 8], true, 32)
  }

  datatype Decl = Decl(encoding: Encoding, maxBits: nat, declaredMaxBytes: Option<nat>, prefix: nat)

  /** The narrowest of `widths`, in order, that holds `bits`. */
  function Narrowest(widths: seq<nat>, bits: nat): (k: nat)
    requires exists i :: 0 <= i < |widths| && widths[i] * 8 >= bits
    ensures k < |widths| && widths[k] * 8 >= bits && forall i :: 0 <= i < k ==> widths[i] * 8 < bits
  {
    if widths[0] * 8 >= bits then 0
    else
      assert exists i :: 0 <= i < |widths[1..]| && widths[1..][i] * 8 >= bits by {
        var i :| 0 <= i < |widths| && widths[i] * 8 >= bits;
        assert widths[1..][i - 1] == widths[i];
      }
      1 + Narrowest(widths[1..], bits)
  }

  /** `max_bytes` */
  function MaxBytes(d: Decl): nat
    requires d.maxBits <= 64
  {
    if d.encoding == Quic then (d.maxBits + 2) / 8
    else if IsMarked(d.encoding) then
      EightHolds(d.encoding, d.maxBits);
      1 + Table(d.encoding).widths[Narrowest(Table(d.encoding).widths, d.maxBits)]
    else if d.encoding == Hpack || d.encoding == BerTag then 1 + (d.maxBits + 6) / 7
    else if d.declaredMaxBytes.Some? then d.declaredMaxBytes.value
    else (d.maxBits + 6) / 7
  }

  lemma EightHolds(e: Encoding, bits: nat)
    requires IsMarked(e) && bits <= 64
    ensures exists i :: 0 <= i < |Table(e).widths| && Table(e).widths[i] * 8 >= bits
  {
    var w := Table(e).widths;
    assert w[|w| - 1] * 8 >= bits;
  }

  /** `terminal_bits`, of the encodings made of seven-bit groups. */
  function TerminalBits(d: Decl): int
    requires d.maxBits <= 64
  {
    d.maxBits - 7 * (MaxBytes(d) - 1)
  }

  /** What the parser lets a declaration be. */
  predicate Permitted(d: Decl) {
    && 1 <= d.maxBits <= 64
    && (d.encoding == Hpack ==> 1 <= d.prefix <= 8)
    && (d.encoding == BerTag ==> d.prefix == 5 && d.maxBits % 7 == 0)
    && (d.encoding == Quic ==> d.maxBits in {6, 14, 30, 62})
    && (d.declaredMaxBytes.Some? ==> (d.encoding == Leb128 || d.encoding == Be128) && 1 <= TerminalBits(d) <= 8
                                     && 1 <= d.declaredMaxBytes.value <= 10)
  }

  // ----- base-128 groups

  /** `varint_put`: low group first. */
  function PutLow(v: nat): Bytes {
    if v < 128 then [v] else
      Shrinks(v, 128);
      [v % 128 + 128] + PutLow(v / 128)
  }

  lemma Shrinks(v: nat, d: nat)
    requires v > 0 && d >= 2
    ensures 0 <= v / d < v && v == v / d * d + v % d && 0 <= v % d < d
  {
    QuotientLess(v, d);
  }

  /** `varint_get` */
  function GetLow(data: Bytes, max: nat): Read {
    if max == 0 || data == [] then None
    else if data[0] % 256 < 128 then Some((data[0] % 128, 1))
    else match GetLow(data[1..], max - 1)
      case None => None
      case Some((v, n)) => Some((data[0] % 128 + 128 * v, n + 1))
  }

  /** `varint_len` */
  function Length(v: nat): (n: nat)
    ensures n > 0
  {
    if v < 128 then 1 else
      Shrinks(v, 128);
      1 + Length(v / 128)
  }

  /** The `k` groups before the last, high one first. */
  function PutInit(v: nat, k: nat): (b: Bytes)
    ensures |b| == k
  {
    if k == 0 then [] else PutInit(v / 128, k - 1) + [v % 128 + 128]
  }

  /** `varint_be_put`, or None for a value too wide: the last byte has eight bits where it is the last
      one permitted and `whole`. */
  function PutHigh(v: nat, max: nat, whole: bool): Option<Bytes> {
    var n := if whole && Length(v) > max then max else Length(v);
    if n > max || n == 0 then None
    else if whole && n == max then
      if v / 256 >= Groups(n - 1) then None else Some(PutInit(v / 256, n - 1) + [v % 256])
    else Some(PutInit(v / 128, n - 1) + [v % 128])
  }

  /** `varint_be_get`, from the `i`-th byte on. */
  function GetHigh(data: Bytes, i: nat, max: nat, whole: bool, acc: nat): Read
    decreases max - i
  {
    if i >= max || i >= |data| then None
    else if whole && i + 1 == max then Some((acc * 256 + data[i] % 256, i + 1))
    else if data[i] % 256 < 128 then Some((acc * 128 + data[i] % 128, i + 1))
    else GetHigh(data, i + 1, max, whole, acc * 128 + data[i] % 128)
  }

  /** `2 ** (7 * k)` */
  function Groups(k: nat): (g: nat)
    ensures g == Pow2(7 * k) && g > 0
  {
    if k == 0 then 1
    else
      assert Pow2(7 * k) == 2 * Pow2(7 * k - 1) == 4 * Pow2(7 * k - 2) == 8 * Pow2(7 * k - 3) == 16 * Pow2(7 * k - 4);
      assert Pow2(7 * k - 4) == 2 * Pow2(7 * k - 5) == 4 * Pow2(7 * k - 6) == 8 * Pow2(7 * k - 7);
      128 * Groups(k - 1)
  }

  lemma Quotient128(v: nat, n: nat)
    requires n > 0
    ensures v < Groups(n) <==> v / 128 < Groups(n - 1)
    ensures v >= 128 ==> (v < Groups(n) ==> n > 1)
  {
    hide Pow2;
    assert Groups(n) == 128 * Groups(n - 1);
  }

  /** One group, and what reading the rest adds to it. */
  lemma LowStep(v: nat, rest: Bytes, max: nat)
    requires v >= 128 && max > 0
    ensures PutLow(v) == [v % 128 + 128] + PutLow(v / 128)
    ensures GetLow(PutLow(v) + rest, max) == (match GetLow(PutLow(v / 128) + rest, max - 1)
                                             case None => None
                                             case Some((u, n)) => Some((v % 128 + 128 * u, n + 1)))
  {
    assert (PutLow(v) + rest)[1..] == PutLow(v / 128) + rest;
  }

  lemma {:induction false} LowReturns(v: nat, k: nat, rest: Bytes)
    requires k > 0 && v < Groups(k)
    ensures 1 <= |PutLow(v)| <= k && GetLow(PutLow(v) + rest, k) == Some((v, |PutLow(v)|))
    decreases k
  {
    hide Groups, Pow2;
    if v >= 128 {
      hide PutLow, GetLow;
      Quotient128(v, k);
      LowReturns(v / 128, k - 1, rest);
      LowStep(v, rest, k);
    }
  }

  /** No shorter limit holds what takes `k + 1` groups. */
  lemma {:induction false} LowTooLong(v: nat, k: nat, rest: Bytes)
    requires v >= Groups(k)
    ensures |PutLow(v)| > k && GetLow(PutLow(v) + rest, k) == None
    decreases k
  {
    hide Pow2;
    if k > 0 {
      assert v >= 128;
      Quotient128(v, k);
      LowTooLong(v / 128, k - 1, rest);
      LowStep(v, rest, k);
    }
  }

  lemma {:induction false} LengthIff(v: nat, k: nat)
    requires k > 0
    ensures Length(v) <= k <==> v < Groups(k)
    decreases k
  {
    if v >= 128 {
      Shrinks(v, 128);
      if k > 1 { LengthIff(v / 128, k - 1); }
    }
  }

  /** Reading the groups before the last gives their value. */
  lemma {:induction false} InitRead(v: nat, k: nat, data: Bytes, max: nat, whole: bool)
    requires PutInit(v, k) <= data && k < max && v < Groups(k)
    ensures GetHigh(data, 0, max, whole, 0) == GetHigh(data, k, max, whole, v)
  {
    if k > 0 {
      hide Groups, Pow2;
      Quotient128(v, k);
      InitRead(v / 128, k - 1, data, max, whole);
      assert data[k - 1] == v % 128 + 128;
    }
  }

  /** A number of groups and one more byte, read whole or as the group that ends them. */
  lemma {:induction false} EndRead(v: nat, n: nat, last: int, max: nat, whole: bool, rest: Bytes)
    requires 0 < n <= max && v < Groups(n - 1) && 0 <= last < 256 && ((whole && n == max) || last < 128)
    ensures GetHigh(PutInit(v, n - 1) + [last] + rest, 0, max, whole, 0) ==
            Some((if whole && n == max then v * 256 + last else v * 128 + last, n))
  {
    var data := PutInit(v, n - 1) + [last] + rest;
    InitRead(v, n - 1, data, max, whole);
    assert data[n - 1] == last;
  }

  /** High groups come back, and take no more than `max` bytes, of which the last may be whole. */
  lemma {:induction false} HighReturns(v: nat, max: nat, whole: bool, rest: Bytes)
    requires max > 0 && v < (if whole then Groups(max - 1) * 256 else Groups(max))
    ensures PutHigh(v, max, whole).Some? && |PutHigh(v, max, whole).value| <= max
    ensures var put := PutHigh(v, max, whole).value; GetHigh(put + rest, 0, max, whole, 0) == Some((v, |put|))
  {
    hide Groups, GetHigh, PutInit;
    LengthIff(v, max);
    var n := if whole && Length(v) > max then max else Length(v);
    if whole && n == max {
      EndRead(v / 256, n, v % 256, max, whole, rest);
    } else {
      LengthIff(v, n);
      Quotient128(v, n);
      EndRead(v / 128, n, v % 128, max, whole, rest);
    }
  }

  // ----- whole bytes

  /** `int.to_bytes(n, "little")` */
  function ToLittle(v: nat, n: nat): (b: Bytes)
    ensures |b| == n
  {
    if n == 0 then [] else [v % 256] + ToLittle(v / 256, n - 1)
  }

  function FromLittle(b: Bytes): nat {
    if b == [] then 0 else b[0] % 256 + 256 * FromLittle(b[1..])
  }

  function Reverse(b: Bytes): (r: Bytes)
    ensures |r| == |b|
  {
    if b == [] then [] else Reverse(b[1..]) + [b[0]]
  }

  function ToBytes(v: nat, n: nat, big: bool): (b: Bytes)
    ensures |b| == n
  {
    if big then Reverse(ToLittle(v, n)) else ToLittle(v, n)
  }

  function FromBytes(b: Bytes, big: bool): nat {
    if big then FromLittle(Reverse(b)) else FromLittle(b)
  }

  lemma {:induction false} ReverseJoin(a: Bytes, b: Bytes)
    ensures Reverse(a + b) == Reverse(b) + Reverse(a)
  {
    if a == [] {
      assert a + b == b;
    } else {
      assert (a + b)[1..] == a[1..] + b;
      ReverseJoin(a[1..], b);
    }
  }

  lemma {:induction false} ReverseTwice(b: Bytes)
    ensures Reverse(Reverse(b)) == b
  {
    if b != [] {
      ReverseJoin(Reverse(b[1..]), [b[0]]);
      assert [b[0]][1..] == [];
      ReverseTwice(b[1..]);
    }
  }

  lemma {:induction false} LittleReturns(v: nat, n: nat)
    requires v < Pow2(8 * n)
    ensures FromLittle(ToLittle(v, n)) == v
    decreases n
  {
    if n > 0 {
      if v > 0 { Shrinks(v, 256); }
      Bytewise(n);
      LittleReturns(v / 256, n - 1);
    }
  }

  lemma Bytewise(n: nat)
    requires n > 0
    ensures Pow2(8 * n) == 256 * Pow2(8 * (n - 1))
  {
    EightFewer(8 * (n - 1));
  }

  lemma Double(k: nat)
    ensures Pow2(k + 1) == 2 * Pow2(k)
  {
  }

  lemma {:induction false} BytesReturn(v: nat, n: nat, big: bool)
    requires v < Pow2(8 * n)
    ensures FromBytes(ToBytes(v, n, big), big) == v
  {
    LittleReturns(v, n);
    ReverseTwice(ToLittle(v, n));
  }

  // ----- marked integers

  /** `_marked_put`, over a first byte whose other bits are `held`; None past the widest. */
  function PutMarked(form: Form, held: nat, v: nat): Option<Bytes> {
    if v < form.direct then Some([held * form.modulus + v])
    else if !exists i :: 0 <= i < |form.widths| && v < Pow2(8 * form.widths[i]) then None
    else
      var k := Width(form.widths, v);
      Some([held * form.modulus + form.first + k] + ToBytes(v, form.widths[k], form.big))
  }

  /** The first width that holds the value. */
  function Width(widths: seq<nat>, v: nat): (k: nat)
    requires exists i :: 0 <= i < |widths| && v < Pow2(8 * widths[i])
    ensures k < |widths| && v < Pow2(8 * widths[k]) && forall i :: 0 <= i < k ==> v >= Pow2(8 * widths[i])
  {
    if v < Pow2(8 * widths[0]) then 0
    else
      assert exists i :: 0 <= i < |widths[1..]| && v < Pow2(8 * widths[1..][i]) by {
        var i :| 0 <= i < |widths| && v < Pow2(8 * widths[i]);
        assert widths[1..][i - 1] == widths[i];
      }
      1 + Width(widths[1..], v)
  }

  /** `_marked_get` */
  function GetMarked(form: Form, data: Bytes, max: nat): Read
    requires form.modulus > 0
  {
    if data == [] then None
    else
      var b := data[0] % form.modulus;
      if b < form.direct then Some((b, 1))
      else if !(0 <= b - form.first < |form.widths|) then None
      else
        var n := form.widths[b - form.first];
        if n + 1 > max || 1 + n > |data| then None else Some((FromBytes(data[1..1 + n], form.big), n + 1))
  }

  /** A table's direct values and its markers are apart, its markers fit the first byte, and its widths
      go up to eight bytes. */
  predicate Sound(form: Form) {
    && form.direct <= form.first && form.first + |form.widths| <= form.modulus
    && form.widths != [] && form.widths[|form.widths| - 1] == 8
    && forall i, j :: 0 <= i < j < |form.widths| ==> form.widths[i] < form.widths[j]
  }

  lemma TablesSound(e: Encoding)
    requires IsMarked(e)
    ensures Sound(Table(e))
  {
  }

  lemma {:induction false} HeldApart(held: nat, modulus: nat, v: nat)
    requires v < modulus
    ensures (held * modulus + v) % modulus == v && (held * modulus + v) / modulus == held
  {
    DivUnique(held * modulus + v, modulus, held);
  }

  lemma {:induction false} MarkedReturns(form: Form, held: nat, v: nat, bits: nat, k: nat, rest: Bytes)
    requires Sound(form) && v < Pow2(bits) && k < |form.widths| && form.widths[k] * 8 >= bits
    ensures PutMarked(form, held, v).Some? && 1 <= |PutMarked(form, held, v).value| <= 1 + form.widths[k]
    ensures var put := PutMarked(form, held, v).value;
            && put[0] / form.modulus == held
            && GetMarked(form, put + rest, 1 + form.widths[k]) == Some((v, |put|))
  {
    hide Pow2, FromBytes, ToBytes;
    if v < form.direct {
      HeldApart(held, form.modulus, v);
    } else {
      Pow2Monotone(bits, 8 * form.widths[k]);
      var i := Width(form.widths, v);
      assert i <= k;
      var n := form.widths[i];
      var put := PutMarked(form, held, v).value;
      HeldApart(held, form.modulus, form.first + i);
      BytesReturn(v, n, form.big);
      assert (put + rest)[1..1 + n] == ToBytes(v, n, form.big);
    }
  }

  // ----- a prefix, and groups past it

  /** `_prefixed_put`: a value below the prefix's mask, or the mask and then groups, which under `big`
      hold the value and otherwise what is left of it. */
  function PutPrefixed(prefix: nat, big: bool, held: nat, v: nat): Bytes {
    var mask := Pow2(prefix) - 1;
    if v < mask then [held * Pow2(prefix) + v]
    else
      [held * Pow2(prefix) + mask] + PutPast(prefix, big, v)
  }

  const WORD: nat := 64

  /** `_prefixed_get` */
  function GetPrefixed(prefix: nat, big: bool, data: Bytes, max: nat): Read {
    var mask := Pow2(prefix) - 1;
    if data == [] then None
    else if data[0] % Pow2(prefix) != mask then Some((data[0] % Pow2(prefix), 1))
    else
      match (if big then GetHigh(data[1..], 0, Max(max - 1, 0), false, 0) else GetLow(data[1..], Max(max - 1, 0)))
      case None => None
      case Some((acc, n)) =>
        var v := if big then acc else acc + mask;
        if v >= Pow2(WORD) then None else Some((v, n + 1))
  }

  /** What is written past a full prefix. */
  function PutPast(prefix: nat, big: bool, v: nat): Bytes
    requires v >= Pow2(prefix) - 1
  {
    if big then PutInit(v / 128, Length(v) - 1) + [v % 128] else PutLow(v - (Pow2(prefix) - 1))
  }

  lemma {:induction false} PastReturns(prefix: nat, big: bool, v: nat, k: nat, rest: Bytes)
    requires k > 0 && v < Groups(k) && v >= Pow2(prefix) - 1
    ensures var past := PutPast(prefix, big, v);
            && 1 <= |past| <= k
            && (if big then GetHigh(past + rest, 0, k, false, 0) == Some((v, |past|))
                else GetLow(past + rest, k) == Some((v - (Pow2(prefix) - 1), |past|)))
  {
    hide GetHigh, GetLow, PutInit, PutLow, Groups, Pow2;
    if big {
      var n := Length(v);
      LengthIff(v, k);
      LengthIff(v, n);
      Quotient128(v, n);
      EndRead(v / 128, n, v % 128, k, false, rest);
    } else {
      LowReturns(v - (Pow2(prefix) - 1), k, rest);
    }
  }

  lemma {:induction false} PrefixedReturns(prefix: nat, big: bool, held: nat, v: nat, k: nat, rest: Bytes)
    requires prefix > 0 && k > 0 && v < Groups(k) && v < Pow2(WORD)
    ensures var put := PutPrefixed(prefix, big, held, v);
            && 1 <= |put| <= 1 + k && put[0] / Pow2(prefix) == held
            && GetPrefixed(prefix, big, put + rest, 1 + k) == Some((v, |put|))
  {
    hide GetHigh, GetLow, PutInit, PutLow, PutPast, Groups, Pow2, Length;
    var mask := Pow2(prefix) - 1;
    if v < mask {
      HeldApart(held, Pow2(prefix), v);
    } else {
      HeldApart(held, Pow2(prefix), mask);
      PastReturns(prefix, big, v, k, rest);
      var past := PutPast(prefix, big, v);
      assert ([held * Pow2(prefix) + mask] + past + rest)[1..] == past + rest;
    }
  }

  // ----- QUIC

  /** `varint_quic_put`: the code of the length is the top two bits of the first byte. */
  function PutQuic(v: nat): Option<Bytes> {
    if v >= Pow2(62) then None
    else
      var code := QuicCode(v);
      var b := ToBytes(v, QuicWidth(code), true);
      Some([b[0] % 64 + 64 * code] + b[1..])
  }

  function QuicCode(v: nat): nat {
    if v < Pow2(6) then 0 else if v < Pow2(14) then 1 else if v < Pow2(30) then 2 else 3
  }

  function QuicWidth(code: nat): (n: nat)
    ensures n > 0
  {
    if code == 0 then 1 else if code == 1 then 2 else if code == 2 then 4 else 8
  }

  /** `varint_quic_get` */
  function GetQuic(data: Bytes, max: nat): Read {
    if data == [] then None
    else
      var n := QuicWidth(data[0] % 256 / 64);
      if n > max || n > |data| then None else Some((FromBytes([data[0] % 64] + data[1..n], true), n))
  }

  /** The first byte of a value that leaves its top two bits free. */
  lemma {:induction false} TopFree(v: nat, n: nat)
    requires n > 0 && v < Pow2(8 * n - 2)
    ensures 0 <= ToBytes(v, n, true)[0] < 64
  {
    LittleTop(v, n);
    ReverseEnds(ToLittle(v, n));
  }

  lemma {:induction false} ReverseEnds(b: Bytes)
    requires b != []
    ensures Reverse(b)[0] == b[|b| - 1]
  {
    if |b| > 1 { ReverseEnds(b[1..]); }
  }

  lemma {:induction false} LittleTop(v: nat, n: nat)
    requires n > 0 && v < Pow2(8 * n - 2)
    ensures 0 <= ToLittle(v, n)[n - 1] < 64
    decreases n
  {
    if n == 1 {
      assert Pow2(6) == 64;
    } else {
      EightFewer(8 * n - 10);
      LittleTop(v / 256, n - 1);
      assert ToLittle(v, n)[n - 1] == ToLittle(v / 256, n - 1)[n - 2];
    }
  }

  lemma EightFewer(k: nat)
    ensures Pow2(k + 8) == 256 * Pow2(k)
  {
    hide Pow2;
    Double(k);
    Double(k + 1);
    Double(k + 2);
    Double(k + 3);
    Double(k + 4);
    Double(k + 5);
    Double(k + 6);
    Double(k + 7);
  }

  lemma {:induction false} QuicReturns(v: nat, code: nat, rest: Bytes)
    requires code <= 3 && v < Pow2(8 * QuicWidth(code) - 2)
    ensures PutQuic(v).Some? && 1 <= |PutQuic(v).value| <= QuicWidth(code)
    ensures var put := PutQuic(v).value; GetQuic(put + rest, QuicWidth(code)) == Some((v, |put|))
  {
    hide Pow2, FromBytes, ToBytes;
    Pow2Monotone(8 * QuicWidth(code) - 2, 62);
    if code < 2 { Pow2Monotone(8 * QuicWidth(code) - 2, 30); }
    if code < 1 { Pow2Monotone(8 * QuicWidth(code) - 2, 14); }
    var c := QuicCode(v);
    assert c <= code;
    var n := QuicWidth(c);
    TopFree(v, n);
    Pow2Monotone(8 * n - 2, 8 * n);
    BytesReturn(v, n, true);
    var b, put := ToBytes(v, n, true), PutQuic(v).value;
    assert put[0] % 64 == b[0] && put[0] % 256 / 64 == c;
    assert [(put + rest)[0] % 64] + (put + rest)[1..n] == b;
  }

  // ----- every encoding

  /** `shared_bits`: how many bits of the first byte are the fields' before it. */
  function SharedBits(d: Decl): nat
    requires Permitted(d)
  {
    if d.encoding == Hpack then 8 - d.prefix else if d.encoding == Cbor || d.encoding == BerTag then 3 else 0
  }

  predicate IsWhole(d: Decl)
    requires Permitted(d)
  {
    TerminalBits(d) == 8
  }

  /** The writer the encoding calls, with the limits the declaration computes. */
  function Put(d: Decl, held: nat, v: nat): Option<Bytes>
    requires Permitted(d)
  {
    match d.encoding
    case Leb128 => Some(PutLow(v))
    case Be128 => PutHigh(v, MaxBytes(d), IsWhole(d))
    case Quic => PutQuic(v)
    case Hpack => Some(PutPrefixed(d.prefix, false, held, v))
    case BerTag => Some(PutPrefixed(d.prefix, true, held, v))
    case _ => PutMarked(Table(d.encoding), held, v)
  }

  /** The reader the encoding calls, with the limits the declaration computes. */
  function Get(d: Decl, data: Bytes): Read
    requires Permitted(d)
  {
    match d.encoding
    case Leb128 => GetLow(data, MaxBytes(d))
    case Be128 => GetHigh(data, 0, MaxBytes(d), IsWhole(d), 0)
    case Quic => GetQuic(data, MaxBytes(d))
    case Hpack => GetPrefixed(d.prefix, false, data, MaxBytes(d))
    case BerTag => GetPrefixed(d.prefix, true, data, MaxBytes(d))
    case _ => GetMarked(Table(d.encoding), data, MaxBytes(d))
  }

  /** Written in the declared number of bytes and read back, whatever follows, with the bits it shares a
      byte with as they were. */
  ghost predicate Returns(d: Decl, held: nat, v: nat, rest: Bytes)
    requires Permitted(d)
  {
    var put := Put(d, held, v);
    && put.Some? && 1 <= |put.value| <= MaxBytes(d) && Get(d, put.value + rest) == Some((v, |put.value|))
    && (SharedBits(d) > 0 ==> put.value[0] / Pow2(8 - SharedBits(d)) == held)
  }

  /** The groups of a permitted declaration hold its bits. */
  lemma {:induction false} GroupsHold(d: Decl, v: nat)
    requires Permitted(d) && v < Pow2(d.maxBits) && d.encoding in {Leb128, Be128, Hpack, BerTag}
    ensures d.encoding in {Hpack, BerTag} ==> MaxBytes(d) >= 2 && v < Groups(MaxBytes(d) - 1)
    ensures d.encoding in {Leb128, Be128} ==>
              && MaxBytes(d) >= 1 && 1 <= TerminalBits(d) <= 8
              && v < if IsWhole(d) then Groups(MaxBytes(d) - 1) * 256 else Groups(MaxBytes(d))
  {
    hide Pow2;
    var max := MaxBytes(d);
    if d.encoding in {Hpack, BerTag} {
      Pow2Monotone(d.maxBits, 7 * (max - 1));
    } else if IsWhole(d) {
      EightFewer(7 * (max - 1));
    } else {
      Pow2Monotone(d.maxBits, 7 * max);
    }
  }

  lemma {:induction false} MarkedFits(d: Decl, held: nat, v: nat, rest: Bytes)
    requires Permitted(d) && IsMarked(d.encoding) && v < Pow2(d.maxBits)
    ensures Returns(d, held, v, rest)
  {
    hide Pow2, PutMarked, GetMarked, Sound;
    var form := Table(d.encoding);
    TablesSound(d.encoding);
    EightHolds(d.encoding, d.maxBits);
    MarkedReturns(form, held, v, d.maxBits, Narrowest(form.widths, d.maxBits), rest);
    ThreeBits();
  }

  lemma ThreeBits()
    ensures Pow2(5) == 32 && Pow2(3) == 8
  {
  }

  lemma {:induction false} QuicFits(d: Decl, held: nat, v: nat, rest: Bytes)
    requires Permitted(d) && d.encoding == Quic && v < Pow2(d.maxBits)
    ensures Returns(d, held, v, rest)
  {
    hide Pow2, PutQuic, GetQuic;
    var code := if d.maxBits == 6 then 0 else if d.maxBits == 14 then 1 else if d.maxBits == 30 then 2 else 3;
    QuicReturns(v, code, rest);
  }

  /** Every value a declaration permits is written in at most `max_bytes` and read back, unless the
      encoding is leb128 and its last byte would have to be whole. */
  lemma {:induction false} ValueReturns(d: Decl, held: nat, v: nat, rest: Bytes)
    requires Permitted(d) && v < Pow2(d.maxBits) && !(d.encoding == Leb128 && IsWhole(d))
    ensures Returns(d, held, v, rest)
  {
    hide Pow2, PutLow, GetLow, PutHigh, GetHigh, PutPrefixed, GetPrefixed, Groups;
    match d.encoding
    case Leb128 =>
      GroupsHold(d, v);
      LowReturns(v, MaxBytes(d), rest);
    case Be128 =>
      GroupsHold(d, v);
      HighReturns(v, MaxBytes(d), IsWhole(d), rest);
      NotEmpty(v, MaxBytes(d), IsWhole(d));
    case Quic => QuicFits(d, held, v, rest);
    case Hpack =>
      GroupsHold(d, v);
      Pow2Monotone(d.maxBits, WORD);
      PrefixedReturns(d.prefix, false, held, v, MaxBytes(d) - 1, rest);
    case BerTag =>
      GroupsHold(d, v);
      Pow2Monotone(d.maxBits, WORD);
      PrefixedReturns(d.prefix, true, held, v, MaxBytes(d) - 1, rest);
    case _ => MarkedFits(d, held, v, rest);
  }

  lemma NotEmpty(v: nat, max: nat, whole: bool)
    ensures PutHigh(v, max, whole).Some? ==> |PutHigh(v, max, whole).value| >= 1
  {
  }

  /** A declaration keeps every value it permits exactly when it is not leb128 with a whole last byte,
      which its reader does not know. */
  lemma {:induction false} DeclarationReturnsIff(d: Decl)
    requires Permitted(d)
    ensures (forall held: nat, v: nat, rest: Bytes :: v < Pow2(d.maxBits) ==> Returns(d, held, v, rest)) <==>
            !(d.encoding == Leb128 && IsWhole(d))
  {
    hide Returns;
    if d.encoding == Leb128 && IsWhole(d) {
      var v := Groups(MaxBytes(d));
      assert d.maxBits == 7 * MaxBytes(d) + 1;
      Double(7 * MaxBytes(d));
      WholeLost(d, v);
      assert !Returns(d, 0, v, []);
    } else {
      forall held: nat, v: nat, rest: Bytes | v < Pow2(d.maxBits) ensures Returns(d, held, v, rest) {
        ValueReturns(d, held, v, rest);
      }
    }
  }

  lemma {:induction false} WholeLost(d: Decl, v: nat)
    requires Permitted(d) && d.encoding == Leb128 && v >= Groups(MaxBytes(d))
    ensures !Returns(d, 0, v, [])
  {
    LowTooLong(v, MaxBytes(d), []);
  }
}
