/** What the variable-length integers are as bytes: each encoding's own layout, which values it can hold,
    and what a reading that is held to be minimal amounts to (runtime/python/situ_runtime.py,
    situc/ast.py). */
module VarintWire {
  import opened Prelude
  import opened Bits
  import opened Varint

  ghost predicate AreBytes(data: Bytes) {
    forall i :: 0 <= i < |data| ==> 0 <= data[i] < 256
  }

  // ----- places in a number

  lemma {:induction false} DivTwice(v: nat, a: nat, b: nat)
    requires a > 0 && b > 0
    ensures a * b > 0 && v / a / b == v / (a * b)
  {
    var q := v / a;
    var r := q / b;
    Nested(v, a, b, q, r);
    DivUnique(v, a * b, r);
  }

  lemma {:induction false} Nested(v: nat, a: nat, b: nat, q: nat, r: nat)
    requires q * a <= v < q * a + a && r * b <= q < r * b + b
    ensures r * (a * b) <= v < r * (a * b) + a * b
  {
    MulMono(r * b, q, a);
    MulMono(q + 1, r * b + b, a);
    assert r * b * a == r * (a * b);
  }

  lemma MulMono(x: int, y: int, a: nat)
    requires x <= y
    ensures x * a <= y * a
  {
  }

  /** Byte `i` of a fixed-width number counts 256 to the `i` under little-endian order, and from the
      other end under big-endian. */
  lemma {:induction false} BytesAt(v: nat, n: nat, big: bool, i: nat)
    requires i < n
    ensures ToBytes(v, n, big)[i] == v / Pow2(8 * (if big then n - 1 - i else i)) % 256
  {
    hide Pow2;
    if big {
      ReverseAt(ToLittle(v, n), i);
      LittleAt(v, n, n - 1 - i);
    } else {
      LittleAt(v, n, i);
    }
  }

  lemma {:induction false} LittleAt(v: nat, n: nat, i: nat)
    requires i < n
    ensures ToLittle(v, n)[i] == v / Pow2(8 * i) % 256
    decreases n
  {
    if i == 0 {
      assert Pow2(0) == 1;
    } else {
      Bytewise(i);
      hide Pow2;
      LittleAt(v / 256, n - 1, i - 1);
      DivTwice(v, 256, Pow2(8 * (i - 1)));
    }
  }

  lemma {:induction false} ReverseAt(b: Bytes, i: nat)
    requires i < |b|
    ensures Reverse(b)[i] == b[|b| - 1 - i]
  {
    if i < |b| - 1 { ReverseAt(b[1..], i); }
  }

  /** A number read from bytes is written back as them. */
  lemma {:induction false} BytesBack(b: Bytes, big: bool)
    requires AreBytes(b)
    ensures FromBytes(b, big) < Pow2(8 * |b|) && ToBytes(FromBytes(b, big), |b|, big) == b
  {
    hide Pow2;
    if big {
      forall i | 0 <= i < |b| ensures Reverse(b)[i] == b[|b| - 1 - i] { ReverseAt(b, i); }
      LittleBack(Reverse(b));
      ReverseTwice(b);
    } else {
      LittleBack(b);
    }
  }

  lemma {:induction false} LittleBack(b: Bytes)
    requires AreBytes(b)
    ensures FromLittle(b) < Pow2(8 * |b|) && ToLittle(FromLittle(b), |b|) == b
  {
    if b == [] {
      assert Pow2(0) == 1;
    } else {
      hide Pow2, FromLittle, ToLittle;
      LittleBack(b[1..]);
      Bytewise(|b|);
      LittleStep(b[0], b[1..]);
      assert b == [b[0]] + b[1..];
    }
  }

  lemma {:induction false} LittleStep(h: int, t: Bytes)
    requires 0 <= h < 256
    ensures var v := FromLittle([h] + t);
            v == h + 256 * FromLittle(t) && ToLittle(v, 1 + |t|) == [h] + ToLittle(FromLittle(t), |t|)
  {
    var v, rest := FromLittle([h] + t), FromLittle(t);
    assert ([h] + t)[1..] == t;
    assert v == h + 256 * rest;
    hide FromLittle;
    assert v % 256 == h && v / 256 == rest;
  }

  /** Group `i` of a number counts 128 to the `i`, and every group but the last says another follows. */
  lemma {:induction false} LowAt(v: nat, i: nat)
    requires i < |PutLow(v)|
    ensures PutLow(v)[i] == v / Groups(i) % 128 + (if i + 1 < |PutLow(v)| then 128 else 0)
    decreases i
  {
    if i > 0 {
      Shrinks(v, 128);
      LowAt(v / 128, i - 1);
      hide Pow2, PutLow;
      DivTwice(v, 128, Groups(i - 1));
    }
  }

  /** The groups before the last, high one first. */
  lemma {:induction false} InitAt(v: nat, k: nat, i: nat)
    requires i < k
    ensures PutInit(v, k)[i] == v / Groups(k - 1 - i) % 128 + 128
    decreases k
  {
    if i < k - 1 {
      hide Pow2;
      InitAt(v / 128, k - 1, i);
      DivTwice(v, 128, Groups(k - 2 - i));
    }
  }

  /** `varint_put` takes the fewest groups that hold the value, and `varint_len` is how many. */
  lemma {:induction false} LowLengthIff(v: nat, k: nat)
    ensures |PutLow(v)| == Length(v)
    ensures |PutLow(v)| <= k <==> k > 0 && v < Groups(k)
    decreases v
  {
    LowLength(v);
    if k > 0 { LengthIff(v, k); }
  }

  lemma {:induction false} LowLength(v: nat)
    ensures |PutLow(v)| == Length(v)
    decreases v
  {
    if v >= 128 {
      Shrinks(v, 128);
      LowLength(v / 128);
    }
  }

  /** `varint_be_put` writes exactly the values the permitted bytes hold, in the fewest groups but for a
      last byte that is read whole: each byte is the number's at its place. */
  lemma {:induction false} HighIs(v: nat, max: nat, whole: bool)
    ensures PutHigh(v, max, whole).Some? <==> max > 0 && v < if whole then Groups(max - 1) * 256 else Groups(max)
    ensures PutHigh(v, max, whole).Some? ==>
              var put := PutHigh(v, max, whole).value;
              var low := if whole && |put| == max then 256 else 128;
              && (forall k :: 0 < k < max ==> (|put| <= k <==> v < Groups(k)))
              && 0 < |put| <= max && put[|put| - 1] == v % low
              && forall i :: 0 <= i < |put| - 1 ==> put[i] == v / low / Groups(|put| - 2 - i) % 128 + 128
  {
    hide Pow2, Groups, PutInit;
    if max > 0 {
      LengthIff(v, max);
      forall k | 0 < k < max ensures Length(v) <= k <==> v < Groups(k) { LengthIff(v, k); }
      var n := if whole && Length(v) > max then max else Length(v);
      var seven, eight := PutInit(v / 128, n - 1), PutInit(v / 256, n - 1);
      forall i | 0 <= i < n - 1 ensures seven[i] == v / 128 / Groups(n - 2 - i) % 128 + 128 { InitAt(v / 128, n - 1, i); }
      forall i | 0 <= i < n - 1 ensures eight[i] == v / 256 / Groups(n - 2 - i) % 128 + 128 { InitAt(v / 256, n - 1, i); }
      if whole { WholeFits(v, max, n); }
    }
  }

  /** A last byte read whole has room for what the groups before it leave. */
  lemma {:induction false} WholeFits(v: nat, max: nat, n: nat)
    requires 0 < n <= max && (n < max ==> v < Groups(n))
    ensures v / 256 < Groups(max - 1) <==> v < Groups(max - 1) * 256
    ensures n < max ==> v < Groups(max - 1) * 256
  {
    if n < max {
      Pow2Monotone(7 * n, 7 * (max - 1));
    }
  }

  // ----- marked integers, encoding by encoding

  /** The first width that holds the value is the one before which none does. */
  lemma {:induction false} WidthIs(widths: seq<nat>, v: nat, k: nat)
    requires k < |widths| && v < Pow2(8 * widths[k]) && forall i :: 0 <= i < k ==> v >= Pow2(8 * widths[i])
    ensures Width(widths, v) == k
  {
  }

  /** X.690, 8.1.3: a length below 128 is itself, and otherwise 128 and the number of bytes, as few as
      hold it, high byte first. */
  lemma {:induction false} DerIs(v: nat, n: nat)
    requires 1 <= n <= 8
    ensures v < 128 ==> PutMarked(Table(Der), 0, v) == Some([v])
    ensures 128 <= v < Pow2(8 * n) && (n > 1 ==> v >= Pow2(8 * (n - 1))) ==>
              PutMarked(Table(Der), 0, v) == Some([128 + n] + ToBytes(v, n, true))
    ensures v >= Pow2(64) ==> PutMarked(Table(Der), 0, v) == None
  {
    hide Pow2, ToBytes;
    if v >= Pow2(64) {
      Pow2Of();
      Wide(Der, v);
      Pow2Monotone(8 * n, 64);
    } else if 128 <= v < Pow2(8 * n) && (n > 1 ==> v >= Pow2(8 * (n - 1))) {
      DerWide(v, n);
    }
  }

  lemma {:induction false} DerWide(v: nat, n: nat)
    requires 1 <= n <= 8 && 128 <= v < Pow2(8 * n) && (n > 1 ==> v >= Pow2(8 * (n - 1)))
    ensures PutMarked(Table(Der), 0, v) == Some([128 + n] + ToBytes(v, n, true))
  {
    hide Pow2, ToBytes, Width;
    var widths := Table(Der).widths;
    assert forall i :: 0 <= i < 8 ==> widths[i] == i + 1;
    forall i | 0 <= i < n - 1 ensures v >= Pow2(8 * widths[i]) { Pow2Monotone(8 * (i + 1), 8 * (n - 1)); }
    WidthIs(widths, v, n - 1);
  }

  /** Bitcoin's CompactSize: below 253 a value is itself, and 253, 254 and 255 say two, four and eight
      bytes, low byte first. */
  lemma {:induction false} CompactSizeIs(v: nat)
    ensures var put := PutMarked(Table(CompactSize), 0, v);
            put == if v < 253 then Some([v])
                   else if v < Pow2(16) then Some([253] + ToBytes(v, 2, false))
                   else if v < Pow2(32) then Some([254] + ToBytes(v, 4, false))
                   else if v < Pow2(64) then Some([255] + ToBytes(v, 8, false))
                   else None
  {
    hide Pow2, ToBytes, Width;
    Pow2Of();
    var widths := Table(CompactSize).widths;
    if v >= Pow2(64) {
      Wide(CompactSize, v);
    } else {
      WidthIs(widths, v, if v < Pow2(16) then 0 else if v < Pow2(32) then 1 else 2);
    }
  }

  /** MySQL's length-encoded integer: below 251 a value is itself, and 252, 253 and 254 say two, three
      and eight bytes, low byte first. */
  lemma {:induction false} LenEncIs(v: nat)
    ensures var put := PutMarked(Table(LenEnc), 0, v);
            put == if v < 251 then Some([v])
                   else if v < Pow2(16) then Some([252] + ToBytes(v, 2, false))
                   else if v < Pow2(24) then Some([253] + ToBytes(v, 3, false))
                   else if v < Pow2(64) then Some([254] + ToBytes(v, 8, false))
                   else None
  {
    hide Pow2, ToBytes, Width;
    Pow2Of();
    var widths := Table(LenEnc).widths;
    if v >= Pow2(64) {
      Wide(LenEnc, v);
    } else {
      WidthIs(widths, v, if v < Pow2(16) then 0 else if v < Pow2(24) then 1 else 2);
    }
  }

  /** RFC 8949, section 3: the low five bits of the head are a value below 24, or 24 to 27 for one, two,
      four and eight bytes, high byte first; the three above them are the major type. */
  lemma {:induction false} CborIs(held: nat, v: nat)
    ensures var put := PutMarked(Table(Cbor), held, v);
            put == if v < 24 then Some([held * 32 + v])
                   else if v < Pow2(8) then Some([held * 32 + 24] + ToBytes(v, 1, true))
                   else if v < Pow2(16) then Some([held * 32 + 25] + ToBytes(v, 2, true))
                   else if v < Pow2(32) then Some([held * 32 + 26] + ToBytes(v, 4, true))
                   else if v < Pow2(64) then Some([held * 32 + 27] + ToBytes(v, 8, true))
                   else None
  {
    hide Pow2, ToBytes, Width;
    Pow2Of();
    var widths := Table(Cbor).widths;
    if v >= Pow2(64) {
      Wide(Cbor, v);
    } else {
      WidthIs(widths, v, if v < Pow2(8) then 0 else if v < Pow2(16) then 1 else if v < Pow2(32) then 2 else 3);
    }
  }

  lemma Pow2Of()
    ensures Pow2(8) == 256 <= Pow2(16) <= Pow2(24) <= Pow2(32) <= Pow2(64)
    ensures Pow2(0) == 1
  {
    hide Pow2;
    PowNone();
    EightFewer(0);
    Pow2Monotone(8, 16);
    Pow2Monotone(16, 24);
    Pow2Monotone(24, 32);
    Pow2Monotone(32, 64);
  }

  lemma PowNone()
    ensures Pow2(0) == 1
  {
  }

  /** No table holds what takes more than eight bytes. */
  lemma {:induction false} Wide(e: Encoding, v: nat)
    requires IsMarked(e) && v >= Pow2(64)
    ensures PutMarked(Table(e), 0, v) == None && forall held :: PutMarked(Table(e), held, v) == None
  {
    hide Pow2;
    Pow2Of();
    var widths := Table(e).widths;
    forall i | 0 <= i < |widths| ensures v >= Pow2(8 * widths[i]) { Pow2Monotone(8 * widths[i], 64); }
  }

  // ----- QUIC

  /** The first of big-endian bytes counts most. */
  lemma {:induction false} BigHead(h: int, t: Bytes)
    requires 0 <= h < 256
    ensures FromBytes([h] + t, true) == h * Pow2(8 * |t|) + FromBytes(t, true)
  {
    assert ([h] + t)[1..] == t;
    LittleLast(Reverse(t), h);
  }

  lemma {:induction false} LittleLast(b: Bytes, h: int)
    requires 0 <= h < 256
    ensures FromLittle(b + [h]) == FromLittle(b) + h * Pow2(8 * |b|)
  {
    if b == [] {
      assert [h][1..] == [];
    } else {
      assert (b + [h])[1..] == b[1..] + [h];
      LittleLast(b[1..], h);
      Bytewise(|b|);
      hide Pow2;
      Spread(h, Pow2(8 * (|b| - 1)));
    }
  }

  lemma Spread(h: int, p: int)
    ensures 256 * (h * p) == h * (256 * p)
  {
  }

  /** RFC 9000, section 16: a value below 2 to the 62 is one, two, four or eight bytes, the fewest that
      leave two bits above it, and as one number, high byte first, they hold which in those two. */
  lemma {:induction false} QuicIs(v: nat, code: nat)
    requires code <= 3
    ensures PutQuic(v).Some? <==> v < Pow2(62)
    ensures v < Pow2(8 * Pow2(code) - 2) && (code > 0 ==> v >= Pow2(4 * Pow2(code) - 2)) ==>
              && PutQuic(v).Some? && |PutQuic(v).value| == Pow2(code)
              && FromBytes(PutQuic(v).value, true) == code * Pow2(8 * Pow2(code) - 2) + v
  {
    hide Pow2, ToBytes, FromBytes;
    Codes(code);
    var n := QuicWidth(code);
    if v < Pow2(8 * n - 2) && (code > 0 ==> v >= Pow2(4 * n - 2)) { QuicBytes(v, code, n); }
  }

  lemma Codes(code: nat)
    requires code <= 3
    ensures Pow2(code) == QuicWidth(code)
  {
    assert Pow2(0) == 1 && Pow2(1) == 2 && Pow2(2) == 4 && Pow2(3) == 8;
  }

  lemma {:induction false} QuicBytes(v: nat, code: nat, n: nat)
    requires code <= 3 && n == QuicWidth(code) && v < Pow2(8 * n - 2) && (code > 0 ==> v >= Pow2(4 * n - 2))
    ensures PutQuic(v).Some? && |PutQuic(v).value| == n
    ensures FromBytes(PutQuic(v).value, true) == code * Pow2(8 * n - 2) + v
  {
    hide Pow2, FromBytes, ToBytes;
    Pow2Monotone(6, 14);
    Pow2Monotone(14, 30);
    Pow2Monotone(30, 62);
    assert QuicCode(v) == code;
    var b, put := ToBytes(v, n, true), PutQuic(v).value;
    TopFree(v, n);
    Pow2Monotone(8 * n - 2, 8 * n);
    BytesReturn(v, n, true);
    assert b == [b[0]] + b[1..] && put == [b[0] + 64 * code] + b[1..];
    BigHead(b[0], b[1..]);
    BigHead(b[0] + 64 * code, b[1..]);
    SixMore(8 * (n - 1));
    Gather(b[0], code, Pow2(8 * (n - 1)));
  }

  lemma SixMore(k: nat)
    ensures Pow2(k + 6) == 64 * Pow2(k)
  {
    hide Pow2;
    Double(k);
    Double(k + 1);
    Double(k + 2);
    Double(k + 3);
    Double(k + 4);
    Double(k + 5);
  }

  lemma Gather(h: int, code: int, p: int)
    ensures (h + 64 * code) * p == h * p + code * (64 * p)
  {
  }

  // ----- what a minimal reading is

  /** What was read of `n` bytes is written in no more, and in as many exactly where they are the writer's. */
  ghost predicate Tight(n: nat, data: Bytes, put: Option<Bytes>) {
    && 1 <= n <= |data| && put.Some? && |put.value| <= n
    && (|put.value| == n <==> put.value == data[..n])
  }

  /** The groups a reading of high groups takes, as one number. */
  function Gathered(b: Bytes): nat {
    if b == [] then 0 else Gathered(b[..|b| - 1]) * 128 + b[|b| - 1] % 128
  }

  /** Bytes which each say another follows are the groups of the number they make. */
  lemma {:induction false} InitBack(b: Bytes)
    requires forall i :: 0 <= i < |b| ==> 128 <= b[i] < 256
    ensures Gathered(b) < Groups(|b|) && PutInit(Gathered(b), |b|) == b
  {
    hide Pow2;
    if b != [] {
      var init := b[..|b| - 1];
      InitBack(init);
      assert Gathered(b) / 128 == Gathered(init) && Gathered(b) % 128 + 128 == b[|b| - 1];
      assert b == init + [b[|b| - 1]];
    }
  }

  /** A reading of high groups, from the `i`-th on, ends at the first byte that says so or is read whole. */
  lemma {:induction false} HighRead(data: Bytes, i: nat, max: nat, whole: bool)
    requires AreBytes(data) && i <= |data| && forall j :: 0 <= j < i ==> data[j] >= 128
    requires GetHigh(data, i, max, whole, Gathered(data[..i])).Some?
    ensures var (v, n) := GetHigh(data, i, max, whole, Gathered(data[..i])).value;
            && i < n <= max && n <= |data| && (forall j :: 0 <= j < n - 1 ==> data[j] >= 128)
            && (if whole && n == max then v == Gathered(data[..n - 1]) * 256 + data[n - 1]
                else v == Gathered(data[..n - 1]) * 128 + data[n - 1] && data[n - 1] < 128)
    decreases max - i
  {
    if i < max && i < |data| && !(whole && i + 1 == max) && data[i] >= 128 {
      HighStep(data, i, max, whole);
      hide GetHigh, Gathered;
      HighRead(data, i + 1, max, whole);
    }
  }

  lemma {:induction false} HighStep(data: Bytes, i: nat, max: nat, whole: bool)
    requires i < max && i < |data| && 128 <= data[i] < 256 && !(whole && i + 1 == max)
    ensures GetHigh(data, i, max, whole, Gathered(data[..i])) ==
            GetHigh(data, i + 1, max, whole, Gathered(data[..i + 1]))
  {
    assert data[..i + 1][..i] == data[..i];
  }

  /** What is read of high groups is the writer's value, and as long as what it writes exactly when it is
      that. */
  lemma {:induction false} HighMinimalIff(data: Bytes, max: nat, whole: bool)
    requires AreBytes(data) && GetHigh(data, 0, max, whole, 0).Some?
    ensures var (v, n) := GetHigh(data, 0, max, whole, 0).value; var put := PutHigh(v, max, whole);
            n <= max && (!(whole && n == max) ==> v < Groups(n)) && Tight(n, data, put)
  {
    hide Pow2, Groups, PutInit, GetHigh, Gathered;
    Started(data);
    HighRead(data, 0, max, whole);
    var (v, n) := GetHigh(data, 0, max, whole, 0).value;
    var init := data[..n - 1];
    InitBack(init);
    GroupsStep(n);
    LengthIff(v, n);
    if whole { WholeFits(v, max, n); }
    assert data[..n] == init + [data[n - 1]];
    if whole && n == max { Parts(Gathered(init), 256, data[n - 1]); } else { Parts(Gathered(init), 128, data[n - 1]); }
  }

  lemma Started(data: Bytes)
    ensures Gathered(data[..0]) == 0
  {
  }

  lemma GroupsStep(n: nat)
    requires n > 0
    ensures Groups(n) == 128 * Groups(n - 1)
  {
  }

  lemma {:induction false} Parts(q: nat, d: nat, r: int)
    requires 0 <= r < d
    ensures (q * d + r) / d == q && (q * d + r) % d == r
  {
    DivUnique(q * d + r, d, q);
  }

  /** The same of low groups. */
  lemma {:induction false} LowMinimalIff(data: Bytes, max: nat)
    requires AreBytes(data) && GetLow(data, max).Some?
    ensures var (v, n) := GetLow(data, max).value;
            n <= max && Tight(n, data, Some(PutLow(v)))
    decreases max
  {
    if data[0] >= 128 {
      LowMinimalIff(data[1..], max - 1);
      var (u, m) := GetLow(data[1..], max - 1).value;
      assert data[..m + 1] == [data[0]] + data[1..][..m];
      hide GetLow;
      LowJoin(data[0], u);
    }
  }

  lemma {:induction false} LowJoin(b: int, u: nat)
    requires 128 <= b < 256
    ensures var v := b % 128 + 128 * u; PutLow(v) == if u == 0 then [b - 128] else [b] + PutLow(u)
  {
    var v := b % 128 + 128 * u;
    assert v / 128 == u && v % 128 == b - 128;
  }

  /** A number read from as many bytes as a marker says is written in no more. */
  lemma {:induction false} WideMinimalIff(form: Form, held: nat, k: nat, b: Bytes)
    requires Sound(form) && form.widths[0] > 0 && AreBytes(b) && k < |form.widths| && |b| == form.widths[k]
    ensures var v := FromBytes(b, form.big); var put := PutMarked(form, held, v);
            && put.Some? && |put.value| <= 1 + |b|
            && (|put.value| == 1 + |b| <==> put.value == [held * form.modulus + form.first + k] + b)
  {
    hide Pow2, FromBytes, ToBytes;
    BytesBack(b, form.big);
    var v := FromBytes(b, form.big);
    if v >= form.direct {
      var i := Width(form.widths, v);
      assert i <= k;
      if i < k { assert form.widths[i] < form.widths[k]; }
    }
  }

  /** The same of a table's integers. */
  lemma {:induction false} MarkedMinimalIff(form: Form, data: Bytes, max: nat)
    requires Sound(form) && form.widths[0] > 0 && AreBytes(data) && GetMarked(form, data, max).Some?
    ensures var (v, n) := GetMarked(form, data, max).value; var put := PutMarked(form, data[0] / form.modulus, v);
            (n > 1 ==> n <= max) && Tight(n, data, put)
  {
    hide Pow2, FromBytes, ToBytes;
    var held, b := data[0] / form.modulus, data[0] % form.modulus;
    assert data[0] == held * form.modulus + b;
    if b < form.direct {
      assert data[..1] == [data[0]];
    } else {
      var k := b - form.first;
      var n := 1 + form.widths[k];
      assert GetMarked(form, data, max) == Some((FromBytes(data[1..n], form.big), n));
      hide PutMarked, GetMarked, Sound;
      assert data[..n] == [data[0]] + data[1..n];
      WideMinimalIff(form, held, k, data[1..n]);
    }
  }

  /** The same of what follows a full prefix. */
  lemma {:induction false} PastMinimalIff(prefix: nat, big: bool, data: Bytes, max: nat)
    requires AreBytes(data)
    ensures var read := if big then GetHigh(data, 0, max, false, 0) else GetLow(data, max);
            read.Some? ==>
              var (acc, m) := read.value;
              var v := if big then acc else acc + (Pow2(prefix) - 1);
              && 1 <= m <= |data| && m <= max
              && (v >= Pow2(prefix) - 1 ==>
                    |PutPast(prefix, big, v)| <= m && (|PutPast(prefix, big, v)| == m <==> PutPast(prefix, big, v) == data[..m]))
  {
    hide GetHigh, GetLow, PutInit, PutLow, Groups, Pow2, Length;
    if big {
      if GetHigh(data, 0, max, false, 0).Some? { HighMinimalIff(data, max, false); }
    } else {
      if GetLow(data, max).Some? { LowMinimalIff(data, max); }
    }
  }

  /** A full prefix, and what follows it. */
  lemma {:induction false} FullMinimalIff(prefix: nat, big: bool, held: nat, data: Bytes, max: nat)
    requires prefix > 0 && data != [] && AreBytes(data[1..]) && GetPrefixed(prefix, big, data, max).Some?
    requires data[0] == held * Pow2(prefix) + (Pow2(prefix) - 1) && data[0] % Pow2(prefix) == Pow2(prefix) - 1
    ensures var (v, n) := GetPrefixed(prefix, big, data, max).value;
            1 < n <= max && Tight(n, data, Some(PutPrefixed(prefix, big, held, v)))
  {
    hide GetHigh, GetLow, PutPast, Pow2;
    PastMinimalIff(prefix, big, data[1..], Max(max - 1, 0));
    var n := GetPrefixed(prefix, big, data, max).value.1;
    assert data[..n] == [data[0]] + data[1..][..n - 1];
  }

  /** The first byte's bits above its low ones. */
  function Above(b: nat, low: nat): nat {
    Over(b, Pow2(low))
  }

  function Over(b: nat, d: nat): nat
    requires d > 0
  {
    b / d
  }

  lemma FirstByte(b: nat, low: nat)
    ensures b == Above(b, low) * Pow2(low) + b % Pow2(low) && 0 <= b % Pow2(low) < Pow2(low)
  {
    hide Pow2;
  }

  /** The same of a prefixed integer. */
  lemma {:induction false} PrefixedMinimalIff(prefix: nat, big: bool, data: Bytes, max: nat)
    requires prefix > 0 && AreBytes(data) && GetPrefixed(prefix, big, data, max).Some?
    ensures var (v, n) := GetPrefixed(prefix, big, data, max).value;
            var put := PutPrefixed(prefix, big, Above(data[0], prefix), v);
            (n > 1 ==> n <= max) && Tight(n, data, Some(put))
  {
    hide Above, Pow2;
    FirstByte(data[0], prefix);
    if data[0] % Pow2(prefix) != Pow2(prefix) - 1 {
      hide GetHigh, GetLow, PutPast;
      assert data[..1] == [data[0]];
    } else {
      hide GetPrefixed, PutPrefixed;
      FullMinimalIff(prefix, big, Above(data[0], prefix), data, max);
    }
  }

  /** The same of QUIC's. */
  lemma {:induction false} QuicMinimalIff(data: Bytes, max: nat)
    requires AreBytes(data) && GetQuic(data, max).Some?
    ensures var (v, n) := GetQuic(data, max).value; var put := PutQuic(v);
            n <= max && Tight(n, data, put)
  {
    hide Pow2, FromBytes, ToBytes;
    var (v, n) := GetQuic(data, max).value;
    var code := data[0] / 64;
    var b := [data[0] % 64] + data[1..n];
    BytesBack(b, true);
    QuicRoom(b);
    Pow2Monotone(6, 14);
    Pow2Monotone(14, 30);
    Pow2Monotone(30, 62);
    assert data[..n] == [data[0]] + data[1..n];
    assert QuicCode(v) <= code;
    if QuicCode(v) == code { assert b[1..] == data[1..n]; }
  }

  /** Bytes whose first leaves its top two bits free hold less than two bits fewer do. */
  lemma {:induction false} QuicRoom(b: Bytes)
    requires b != [] && AreBytes(b) && b[0] < 64
    ensures FromBytes(b, true) < Pow2(8 * |b| - 2)
  {
    hide Pow2, FromBytes;
    var t := b[1..];
    assert b == [b[0]] + t;
    BigHead(b[0], t);
    BytesBack(t, true);
    SixMore(8 * |t|);
    MulMono(b[0], 63, Pow2(8 * |t|));
  }

  lemma {:induction false} GroupsMinimal(d: Decl, data: Bytes)
    requires Permitted(d) && AreBytes(data) && d.encoding in {Leb128, Be128, Quic} && Get(d, data).Some?
    ensures var (v, n) := Get(d, data).value; n <= MaxBytes(d) && Tight(n, data, Put(d, 0, v))
  {
    hide GetLow, PutLow, GetHigh, PutHigh, GetQuic, PutQuic, Pow2;
    if d.encoding == Leb128 {
      LowMinimalIff(data, MaxBytes(d));
    } else if d.encoding == Be128 {
      HighMinimalIff(data, MaxBytes(d), IsWhole(d));
    } else {
      QuicMinimalIff(data, MaxBytes(d));
    }
  }

  /** Whatever a declaration's reader accepts, its writer writes in no more bytes, and in as many exactly
      where the bytes are the writer's: holding a length to `varint_len` holds a value to one spelling. */
  lemma {:induction false} MinimalIff(d: Decl, data: Bytes)
    requires Permitted(d) && data != [] && AreBytes(data) && Get(d, data).Some?
    ensures var (v, n) := Get(d, data).value;
            n <= MaxBytes(d) && Tight(n, data, Put(d, Above(data[0], 8 - SharedBits(d)), v))
  {
    hide GetLow, PutLow, GetHigh, PutHigh, GetQuic, PutQuic, GetPrefixed, PutPrefixed, GetMarked, PutMarked, Pow2, Above;
    if d.encoding in {Leb128, Be128, Quic} {
      GroupsMinimal(d, data);
    } else if d.encoding == Hpack {
      PrefixedMinimalIff(d.prefix, false, data, MaxBytes(d));
    } else if d.encoding == BerTag {
      PrefixedMinimalIff(d.prefix, true, data, MaxBytes(d));
    } else {
      MarkedMinimal(d, data);
    }
  }

  lemma {:induction false} MarkedMinimal(d: Decl, data: Bytes)
    requires Permitted(d) && IsMarked(d.encoding) && data != [] && AreBytes(data) && Get(d, data).Some?
    ensures var (v, n) := Get(d, data).value;
            n <= MaxBytes(d) && Tight(n, data, Put(d, Above(data[0], 8 - SharedBits(d)), v))
  {
    hide GetMarked, PutMarked, Pow2, Sound;
    TablesSound(d.encoding);
    Pow2Of();
    ThreeBits();
    MarkedMinimalIff(Table(d.encoding), data, MaxBytes(d));
  }

  // ----- what is read at all

  /** The first `n` bytes are groups of which only the last says nothing follows. */
  ghost predicate Ends(data: Bytes, n: nat) {
    0 < n <= |data| && data[n - 1] % 256 < 128 && forall i :: 0 <= i < n - 1 ==> data[i] % 256 >= 128
  }

  /** leb128 reads groups that end inside the limit and the data, and nothing else. */
  lemma {:induction false} LowReadIff(data: Bytes, max: nat)
    ensures GetLow(data, max).Some? <==> exists n: nat :: n <= max && Ends(data, n)
    ensures GetLow(data, max).Some? ==> Ends(data, GetLow(data, max).value.1)
    decreases max
  {
    if max > 0 && data != [] {
      if data[0] % 256 < 128 {
        assert Ends(data, 1);
      } else {
        LowReadIff(data[1..], max - 1);
        forall n: nat | 0 < n < max ensures Ends(data[1..], n) <==> Ends(data, n + 1) { EndsLater(data, n); }
        forall n: nat | n <= max && Ends(data, n) ensures n > 1 && Ends(data[1..], n - 1) { EndsLater(data, n - 1); }
      }
    }
  }

  lemma EndsLater(data: Bytes, n: nat)
    requires data != [] && data[0] % 256 >= 128
    ensures Ends(data[1..], n) <==> n > 0 && Ends(data, n + 1)
  {
    if n > 0 && Ends(data, n + 1) {
      forall i | 0 <= i < n - 1 ensures data[1..][i] % 256 >= 128 { assert data[i + 1] % 256 >= 128; }
    }
    if Ends(data[1..], n) {
      forall i | 0 <= i < n ensures data[i] % 256 >= 128 { assert i > 0 ==> data[1..][i - 1] % 256 >= 128; }
      assert data[n] == data[1..][n - 1];
    }
  }

  /** The first `n` bytes are as many as are permitted, the last of them read whole. */
  ghost predicate EndsWhole(data: Bytes, n: nat, max: nat) {
    0 < n == max <= |data| && forall i :: 0 <= i < n - 1 ==> data[i] % 256 >= 128
  }

  /** be128 reads those too, and where its last byte is whole whatever fills the limit. */
  lemma {:induction false} HighReadIff(data: Bytes, max: nat, whole: bool)
    requires AreBytes(data)
    ensures GetHigh(data, 0, max, whole, 0).Some? <==>
            (exists n: nat :: n <= max && Ends(data, n)) || (whole && EndsWhole(data, max, max))
  {
    hide GetHigh, Gathered;
    Started(data);
    if GetHigh(data, 0, max, whole, 0).Some? {
      HighRead(data, 0, max, whole);
      var n := GetHigh(data, 0, max, whole, 0).value.1;
      assert Ends(data, n) || (whole && EndsWhole(data, n, max));
    }
    forall n: nat | n <= max && (Ends(data, n) || (whole && EndsWhole(data, n, max)))
      ensures GetHigh(data, 0, max, whole, 0).Some?
    {
      HighGoes(data, 0, n, max, whole, 0);
    }
  }

  lemma {:induction false} HighGoes(data: Bytes, i: nat, n: nat, max: nat, whole: bool, acc: nat)
    requires i < n <= max && (Ends(data, n) || (whole && EndsWhole(data, n, max)))
    ensures GetHigh(data, i, max, whole, acc).Some?
    decreases n - i
  {
    if i + 1 < n { HighGoes(data, i + 1, n, max, whole, acc * 128 + data[i] % 128); }
  }

  /** A prefixed integer is read where its prefix is not full, or groups that end follow it and the value
      has no more than 64 bits. */
  lemma {:induction false} PrefixedReadIff(prefix: nat, big: bool, data: Bytes, max: nat)
    requires prefix > 0 && max > 0 && data != [] && AreBytes(data)
    ensures var past := if big then GetHigh(data[1..], 0, max - 1, false, 0) else GetLow(data[1..], max - 1);
            && (past.Some? <==> exists n: nat :: n < max && Ends(data[1..], n))
            && (GetPrefixed(prefix, big, data, max).Some? <==>
                data[0] % Pow2(prefix) == Pow2(prefix) - 1 ==>
                  past.Some? && past.value.0 + (if big then 0 else Pow2(prefix) - 1) < Pow2(64))
  {
    hide GetHigh, GetLow, Pow2, Ends;
    HighReadIff(data[1..], max - 1, false);
    LowReadIff(data[1..], max - 1);
  }

  // ----- the longest a declaration is written

  /** A limit of one's own holds every bit, would not without its last byte, and is read whole exactly where
      seven bits a byte leave one over; with none declared it is the fewest bytes of seven bits. */
  lemma {:induction false} LimitIs(d: Decl)
    requires d.encoding in {Leb128, Be128} && 1 <= d.maxBits <= 64
    ensures d.declaredMaxBytes == None ==>
              && Permitted(d) && !IsWhole(d)
              && 7 * (MaxBytes(d) - 1) < d.maxBits <= 7 * MaxBytes(d)
    ensures forall n :: d.declaredMaxBytes == Some(n) ==>
              && (Permitted(d) <==> 1 <= n <= 10 && 7 * (n - 1) < d.maxBits <= 7 * n + 1)
              && (Permitted(d) ==> MaxBytes(d) == n && (IsWhole(d) <==> d.maxBits == 7 * n + 1))
  {
  }

  /** Some value of the declared width takes all of `max_bytes`. */
  ghost predicate IsFilled(d: Decl)
    requires Permitted(d)
  {
    exists v: nat :: v < Pow2(d.maxBits) && Put(d, 0, v).Some? && |Put(d, 0, v).value| == MaxBytes(d)
  }

  lemma {:induction false} Fills(d: Decl, v: nat)
    requires Permitted(d) && v < Pow2(d.maxBits) && Put(d, 0, v).Some? && |Put(d, 0, v).value| == MaxBytes(d)
    ensures IsFilled(d)
  {
  }

  /** A width's highest power is under its widest value. */
  lemma {:induction false} PowUnder(k: nat, bits: nat)
    requires k < bits
    ensures 2 * Pow2(k) <= Pow2(bits) && Pow2(k) <= Pow2(bits) - 1
  {
    Double(k);
    Pow2Monotone(k + 1, bits);
  }

  lemma {:induction false} GroupsFilled(d: Decl)
    requires Permitted(d) && d.encoding in {Leb128, Be128}
    ensures IsFilled(d)
  {
    hide Pow2, Groups, PutLow, PutHigh, IsFilled;
    var max := MaxBytes(d);
    GroupsHold(d, 0);
    var v := Groups(max - 1);
    PowUnder(7 * (max - 1), d.maxBits);
    PowUnder(7 * (max - 1), 7 * max);
    LowLengthIff(v, max);
    LowLengthIff(v, max - 1);
    HighIs(v, max, IsWhole(d));
    Fills(d, v);
  }

  lemma {:induction false} TagFilled(d: Decl)
    requires Permitted(d) && d.encoding == BerTag
    ensures IsFilled(d)
  {
    hide Pow2, Groups, PutInit, Length, IsFilled;
    var v, k := Pow2(d.maxBits) - 1, d.maxBits / 7;
    ThreeBits();
    Pow2Monotone(6, d.maxBits);
    PowUnder(5, 6);
    PowUnder(7 * (k - 1), d.maxBits);
    LengthIff(v, k);
    if k > 1 { LengthIff(v, k - 1); }
    Fills(d, v);
  }

  lemma {:induction false} QuicFilled(d: Decl)
    requires Permitted(d) && d.encoding == Quic
    ensures IsFilled(d)
  {
    hide Pow2, PutQuic, IsFilled;
    var v := Pow2(d.maxBits) - 1;
    var code := if d.maxBits == 6 then 0 else if d.maxBits == 14 then 1 else if d.maxBits == 30 then 2 else 3;
    var n := QuicWidth(code);
    PowUnder(4 * n - 2, 8 * n - 2);
    QuicBytes(v, code, n);
    Fills(d, v);
  }

  lemma {:induction false} MarkedFilledIff(d: Decl)
    requires Permitted(d) && IsMarked(d.encoding)
    ensures IsFilled(d) <==> Table(d.encoding).direct < Pow2(d.maxBits)
  {
    hide Pow2, ToBytes;
    var form := Table(d.encoding);
    EightHolds(d.encoding, d.maxBits);
    var k := Narrowest(form.widths, d.maxBits);
    if form.direct < Pow2(d.maxBits) {
      hide IsFilled;
      var v := Pow2(d.maxBits) - 1;
      Pow2Monotone(d.maxBits, 8 * form.widths[k]);
      forall i | 0 <= i < k ensures v >= Pow2(8 * form.widths[i]) { PowUnder(8 * form.widths[i], d.maxBits); }
      WidthIs(form.widths, v, k);
      Fills(d, v);
    } else {
      assert form.widths[k] > 0;
    }
  }

  lemma {:induction false} HpackFilledIff(d: Decl)
    requires Permitted(d) && d.encoding == Hpack
    ensures IsFilled(d) <==> d.prefix <= d.maxBits && !(d.prefix == 8 && d.maxBits == 8)
  {
    hide Pow2, Groups, PutLow;
    var top, mask, k := Pow2(d.maxBits) - 1, Pow2(d.prefix) - 1, (d.maxBits + 6) / 7;
    if d.prefix > d.maxBits {
      PowUnder(d.maxBits, d.prefix);
    } else if d.prefix == 8 && d.maxBits == 8 {
      assert k == 2;
      LowLengthIff(0, 1);
    } else {
      hide IsFilled;
      Pow2Monotone(d.prefix, d.maxBits);
      Pow2Monotone(d.maxBits, 7 * k);
      LowLengthIff(top - mask, k);
      LowLengthIff(top - mask, k - 1);
      if d.prefix < d.maxBits {
        PowUnder(d.prefix, d.maxBits);
        PowUnder(7 * (k - 1), d.maxBits);
      }
      Fills(d, top);
    }
  }

  /** `max_bytes` is reached but for a table none of whose markers the width needs, and an hpack prefix
      that is wider than the value, or as wide at eight bits. */
  lemma {:induction false} FilledIff(d: Decl)
    requires Permitted(d)
    ensures IsFilled(d) <==>
            && (IsMarked(d.encoding) ==> Table(d.encoding).direct < Pow2(d.maxBits))
            && (d.encoding == Hpack ==> d.prefix <= d.maxBits && !(d.prefix == 8 && d.maxBits == 8))
  {
    hide Pow2, IsFilled, Put;
    if IsMarked(d.encoding) {
      MarkedFilledIff(d);
    } else if d.encoding == Hpack {
      HpackFilledIff(d);
    } else if d.encoding == BerTag {
      TagFilled(d);
    } else if d.encoding == Quic {
      QuicFilled(d);
    } else {
      GroupsFilled(d);
    }
  }

}
