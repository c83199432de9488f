/**
 Register bytes and integers (internal/engine/converter/mapper.go, and encodeIntBytes of value.go).
 64-bit words are naturals below 2^64 and int64 values are integers, with every wrap written out.
*/
module Mapper {
  import opened Bits
  import opened Pdu
  import opened Props

  datatype MapError = InvalidByteOrder | InsufficientBytes

  datatype Mapped<+T> = Good(value: T) | Bad(error: MapError)

  /** `uint64(1) << uint(k)`: zero when the count, read as unsigned, reaches the width. */
  function One64(k: int): nat { if 0 <= k < 64 then Pow2(k) else 0 }

  function Shr64(u: nat, k: nat): nat { if k < 64 then Shr(u, k) else 0 }

  // ---- byte order

  function SwapPairs(b: seq<byte>): seq<byte>
    requires |b| % 2 == 0
  {
    seq(|b|, i requires 0 <= i < |b| => b[if i % 2 == 0 then i + 1 else i - 1])
  }

  function SwapHalves(b: seq<byte>): seq<byte> { b[|b| / 2..] + b[..|b| / 2] }

  function Reversed(b: seq<byte>): seq<byte> { seq(|b|, i requires 0 <= i < |b| => b[|b| - 1 - i]) }

  /** `applyByteOrder`, for reading and, through `applyByteOrderForWrite`, for writing. */
  function ApplyByteOrder(raw: seq<byte>, order: ByteOrder): Mapped<seq<byte>> {
    if |raw| <= 1 then Good(raw)
    else if |raw| == 2 then
      if order in {Unset, AB, ABCD} then Good(raw)
      else if order in {BA, DCBA} then Good(Reversed(raw))
      else Bad(InvalidByteOrder)
    else if |raw| == 4 then
      if order in {Unset, ABCD} then Good(raw)
      else if order == CDAB then Good(SwapHalves(raw))
      else if order == BADC then Good(SwapPairs(raw))
      else if order in {DCBA, BA} then Good(Reversed(raw))
      else Bad(InvalidByteOrder)
    else if |raw| == 8 then
      if order in {Unset, ABCD, ABCDEFGH} then Good(raw)
      else if order in {DCBA, HGFEDCBA} then Good(Reversed(raw))
      else if order in {CDAB, EFGHABCD} then Good(SwapHalves(raw))
      else if order in {BADC, BADCFEHG} then Good(SwapPairs(raw))
      else Bad(InvalidByteOrder)
    else Good(raw)
  }

  /** One function serves both directions because each reordering undoes itself. */
  lemma ByteOrderUndoesItself(raw: seq<byte>, order: ByteOrder)
    requires ApplyByteOrder(raw, order).Good?
    ensures |ApplyByteOrder(raw, order).value| == |raw|
    ensures ApplyByteOrder(ApplyByteOrder(raw, order).value, order) == Good(raw)
  {
    if |raw| % 2 == 0 {
      EachTwice(raw);
    }
  }

  lemma EachTwice(raw: seq<byte>)
    requires |raw| % 2 == 0
    ensures |Reversed(raw)| == |SwapPairs(raw)| == |SwapHalves(raw)| == |raw|
    ensures Reversed(Reversed(raw)) == raw && SwapPairs(SwapPairs(raw)) == raw && SwapHalves(SwapHalves(raw)) == raw
  {
    assert Reversed(Reversed(raw)) == raw;
    assert SwapPairs(SwapPairs(raw)) == raw;
    assert SwapHalves(SwapHalves(raw)) == raw;
  }

  /** An order's name spelled out. */
  function Spelling(order: ByteOrder): string {
    match order
    case Unset => ""
    case AB => "AB"
    case BA => "BA"
    case ABCD => "ABCD"
    case CDAB => "CDAB"
    case BADC => "BADC"
    case DCBA => "DCBA"
    case ABCDEFGH => "ABCDEFGH"
    case HGFEDCBA => "HGFEDCBA"
    case EFGHABCD => "EFGHABCD"
    case BADCFEHG => "BADCFEHG"
    case UnknownOrder => "?"
  }

  /** An order with a letter for every byte is accepted, and its letters say which byte comes where. */
  lemma OrderSpellsPlaces(raw: seq<byte>, order: ByteOrder, k: nat)
    requires ValidByteOrder(order) && |Spelling(order)| == |raw| && k < |raw|
    ensures ApplyByteOrder(raw, order).Good?
    ensures var letter := Spelling(order)[k];
            'A' <= letter < 'A' + |raw| as char
                && ApplyByteOrder(raw, order).value[k] == raw[letter as int - 'A' as int]
  {
    assert k == 0 || k == 1 || k == 2 || k == 3 || k == 4 || k == 5 || k == 6 || k == 7;
  }

  /** The order a name stands for at a length: short names cover wider values, and DCBA narrower ones. */
  function FullOrder(order: ByteOrder, length: nat): ByteOrder {
    match length
    case 2 => if order == ABCD then AB else if order == DCBA then BA else order
    case 4 => if order == BA then DCBA else order
    case 8 =>
      if order == ABCD then ABCDEFGH else if order == DCBA then HGFEDCBA
      else if order == CDAB then EFGHABCD else if order == BADC then BADCFEHG else order
    case _ => order
  }

  /**
   A known order maps exactly when it spells out every byte, or stands for one that does, or when
   nothing is reordered at that length.
  */
  lemma OrderMapsIff(raw: seq<byte>, order: ByteOrder)
    requires ValidByteOrder(order)
    ensures ApplyByteOrder(raw, order).Good? <==>
              order.Unset? || |raw| !in {2, 4, 8} || |Spelling(FullOrder(order, |raw|))| == |raw|
    ensures ApplyByteOrder(raw, FullOrder(order, |raw|)) == ApplyByteOrder(raw, order)
  {
  }

  /** The check at save time ignores the length: a known order can still be refused at read time. */
  lemma ValidOrderMayNotMap(raw: seq<byte>)
    requires |raw| == 4
    ensures ValidByteOrder(AB) && ApplyByteOrder(raw, AB) == Bad(InvalidByteOrder)
  {
  }

  // ---- integers out of bytes

  function BigEndian(b: seq<byte>): nat {
    if b == [] then 0 else var n := |b| - 1; 256 * BigEndian(b[..n]) + b[n]
  }

  lemma {:induction false} BigEndianBound(b: seq<byte>)
    ensures BigEndian(b) < Pow2(8 * |b|)
  {
    if b != [] {
      var n := |b| - 1;
      BigEndianBound(b[..n]);
      Pow2Add(8 * n, 8);
      assert Pow2(8) == 256;
    }
  }

  predicate SignedOrAuto(signed: Option<bool>, width: int, startBit: int, endBit: int) {
    if signed.Some? then signed.value else startBit == 0 && endBit == width - 1
  }

  /**
   The field of `span` bits of a word from bit s, as arithmetic: shift down, cut off, sign. Ranges
   below bit 0, which validation refuses, leave a negative span and cut nothing off.
  */
  function Field(u: nat, s: nat, span: int, signed: bool): int {
    if span >= 64 then ToInt64(u)
    else if span == 0 then 0
    else if span < 0 then ToInt64(Shr(u, s))
    else
      var f := Shr(u, s) % Pow2(span);
      if signed && f >= Pow2(span - 1) then f - Pow2(span) else f
  }

  /** What `interpretInt` means: the configured bit range, clamped to the data. */
  function FieldOf(b: seq<byte>, startBit: int, endBit: int, signed: Option<bool>): int {
    var width := 8 * |b|;
    var e0 := if endBit < startBit then startBit else endBit;
    var e := if e0 >= width then width - 1 else e0;
    var s := if startBit < 0 then 0 else startBit;
    Field(BigEndian(b) % TWO64, s, e - s + 1, SignedOrAuto(signed, width, s, e))
  }

  /** `interpretInt` on bytes already in big-endian order. */
  method InterpretInt(reordered: seq<byte>, startBit: int, endBit: int, signed: Option<bool>) returns (v: int)
    ensures v == FieldOf(reordered, startBit, endBit, signed)
    ensures IsInt64(v)
  {
    var width := |reordered| * 8;
    var u := ReadWord(reordered);
    var s, e := startBit, endBit;
    if e < s { e := s; }
    if e >= width { e := width - 1; }
    if s < 0 { s := 0; }
    var span := e - s + 1;
    v := CutField(u, s, span, SignedOrAuto(signed, width, s, e));
  }

  /** The shifts, the mask and the sign test of `interpretInt`. */
  method CutField(u: nat, s: nat, span: int, signed: bool) returns (v: int)
    requires u < TWO64
    ensures v == Field(u, s, span, signed) && IsInt64(v)
  {
    if span >= 64 {
      return ToInt64(u);
    }
    FieldMask(u, s, span);
    var mask := (One64(span) - 1) % TWO64;
    var f := And(Shr64(u, s), mask);
    v := ToInt64(f);
    if signed && And(f, One64(span - 1)) != 0 {
      v := Wrap64(v - ToInt64(One64(span)));
    }
  }

  /** Big-endian bytes to a 64-bit word; beyond eight bytes the high ones fall out. */
  method ReadWord(b: seq<byte>) returns (u: nat)
    ensures u == BigEndian(b) % TWO64
  {
    u := 0;
    for i := 0 to |b|
      invariant u == BigEndian(b[..i]) % TWO64
    {
      assert b[..i + 1][..i] == b[..i];
      OrLowByte(u * 256 % TWO64, b[i]);
      ShiftIn(BigEndian(b[..i]), b[i]);
      u := Or(u * 256 % TWO64, b[i]);
    }
    assert b[..|b|] == b;
  }

  lemma TopPowers()
    ensures Pow2(64) == TWO64 && Pow2(63) == TWO63
  {
    assert Pow2(16) == 0x1_0000 by { Pow2Add(8, 8); assert Pow2(8) == 256; }
    Pow2Add(16, 16);
    Pow2Add(32, 32);
    assert Pow2(64) == 2 * Pow2(63);
  }

  lemma ShiftIn(x: nat, b: byte)
    ensures x % TWO64 * 256 % TWO64 + b == (256 * x + b) % TWO64
    ensures (x % TWO64 * 256 % TWO64) % 256 == 0
  {
    var m: nat := TWO64 / 256;
    assert TWO64 == 256 * m;
    ShiftInAny(x, b, m);
  }

  /** A byte shifted in from below, in a register of 256 * m values. */
  lemma ShiftInAny(x: nat, b: byte, m: nat)
    requires m > 0
    ensures var w := 256 * m; x % w * 256 % w + b == (256 * x + b) % w && (x % w * 256 % w) % 256 == 0
  {
    var w := 256 * m;
    var r := x % w;
    var q, s := r / m, r % m;
    assert r == m * q + s;
    assert r * 256 == w * q + 256 * s by {
      assert 256 * (m * q) == (256 * m) * q;
    }
    DivModUnique(r * 256, w, q, 256 * s);
    var p := x / w;
    assert x == w * p + r;
    assert 256 * x + b == w * (256 * p + q) + (256 * s + b) by {
      assert 256 * (w * p) == w * (256 * p);
      assert w * (256 * p) + w * q == w * (256 * p + q);
    }
    DivModUnique(256 * x + b, w, 256 * p + q, 256 * s + b);
  }

  lemma OrLowByte(x: nat, b: byte)
    requires x % 256 == 0
    ensures Or(x, b) == x + b
  {
    var k: nat := 8;
    Pow2Eight(k);
    ShlIsProduct(x / 256, k);
    OrDisjoint(x / 256, b, k);
  }

  lemma Pow2Eight(k: nat)
    requires k == 8
    ensures Pow2(k) == 256
  {
    assert Pow2(8) == 256;
  }

  lemma {:induction false} OrDisjoint(y: nat, b: nat, k: nat)
    requires b < Pow2(k)
    ensures Or(Shl(y, k), b) == Shl(y, k) + b
  {
    if k == 0 {
      OrZero(y);
    } else {
      OrDisjoint(y, b / 2, k - 1);
    }
  }

  /** Powers below 2^64, without unfolding any of them. */
  lemma SpanPowers(span: int)
    requires 0 < span < 64
    ensures 2 <= Pow2(span) == 2 * Pow2(span - 1) <= TWO63 < TWO64
    ensures One64(span) == Pow2(span) && One64(span - 1) == Pow2(span - 1)
    ensures (One64(span) - 1) % TWO64 == Pow2(span) - 1
    ensures ToInt64(One64(span)) == if Pow2(span) == TWO63 then -TWO63 else Pow2(span)
  {
    TopPowers();
    Pow2Mono(span, 63);
  }

  /** Why masking and sign-testing a shifted word is the arithmetic field, 63 bits included. */
  lemma FieldMask(u: nat, s: nat, span: int)
    requires u < TWO64 && span < 64
    ensures var f := And(Shr64(u, s), (One64(span) - 1) % TWO64);
            && f < TWO64
            && Field(u, s, span, false) == ToInt64(f)
            && Field(u, s, span, true) ==
                 if And(f, One64(span - 1)) != 0 then Wrap64(ToInt64(f) - ToInt64(One64(span))) else ToInt64(f)
  {
    ShiftedOut(u, s);
    var w := Shr(u, s);
    if span < 0 {
      FullMask(w);
    } else if span == 0 {
      assert One64(0) == 1;
    } else {
      SpanPowers(span);
      AndMask(w, span);
      SignTest(w % Pow2(span), span);
    }
  }

  lemma FullMask(w: nat)
    requires w < TWO64
    ensures And(w, TWO64 - 1) == w
  {
    TopPowers();
    AndMask(w, 64);
    DivModUnique(w, TWO64, 0, w);
  }

  /** Subtracting 2^span in 64-bit arithmetic, where 2^63 itself wraps to its negative. */
  lemma SignTest(f: nat, span: int)
    requires 0 < span < 64 && f < Pow2(span)
    ensures And(f, One64(span - 1)) != 0 <==> f >= Pow2(span - 1)
    ensures f >= Pow2(span - 1) ==> Wrap64(f - ToInt64(One64(span))) == f - Pow2(span)
  {
    SpanPowers(span);
    AndBit(f, span - 1);
    BitTop(f, span - 1);
    WrapDifference(f, Pow2(span));
  }

  lemma WrapDifference(f: nat, p: nat)
    requires f < p <= TWO63
    ensures Wrap64(f - ToInt64(p)) == f - p
  {
    var x := f - ToInt64(p);
    if p == TWO63 {
      DivModUnique(x, TWO64, 0, f + TWO63);
    } else {
      DivModUnique(x, TWO64, -1, f - p + TWO64);
    }
  }

  lemma ShiftedOut(u: nat, s: nat)
    requires u < TWO64
    ensures Shr64(u, s) == Shr(u, s) <= u
  {
    ShrBound(u, s);
    if s >= 64 {
      TopPowers();
      Pow2Mono(64, s);
    }
  }

  /** For a range that validation accepts, nothing is clamped. */
  lemma AcceptedField(b: seq<byte>, startBit: int, endBit: int, signed: Option<bool>)
    requires 0 <= startBit <= endBit < 8 * |b|
    ensures FieldOf(b, startBit, endBit, signed) ==
            Field(BigEndian(b) % TWO64, startBit, endBit - startBit + 1,
                  SignedOrAuto(signed, 8 * |b|, startBit, endBit))
    ensures 8 * |b| <= 64 ==> BigEndian(b) % TWO64 == BigEndian(b)
  {
    if 8 * |b| <= 64 {
      WordFits(b);
    }
  }

  lemma WordFits(b: seq<byte>)
    requires 8 * |b| <= 64
    ensures BigEndian(b) % TWO64 == BigEndian(b)
  {
    BigEndianBound(b);
    TopPowers();
    Pow2Mono(8 * |b|, 64);
    DivModUnique(BigEndian(b), TWO64, 0, BigEndian(b));
  }

  /** Reordering and interpreting the bytes of an integer property. */
  function ReadInt(raw: seq<byte>, order: ByteOrder, startBit: int, endBit: int, signed: Option<bool>): Mapped<int> {
    match ApplyByteOrder(raw, order)
    case Bad(e) => Bad(e)
    case Good(b) => Good(FieldOf(b, startBit, endBit, signed))
  }

  // ---- bytes out of integers

  /** The low `n` bytes of an integer, two's complement, high byte first. */
  function IntBytes(v: int, n: nat): (b: seq<byte>)
    ensures |b| == n
    decreases n
  {
    if n == 0 then [] else IntBytes(v / 256, n - 1) + [v % 256]
  }

  /** `encodeIntBytes`: the loop fills from the last byte, shifting v arithmetically. */
  method EncodeIntBytes(v: int, regCount: nat, order: ByteOrder) returns (r: Mapped<seq<byte>>)
    requires IsInt64(v) && regCount >= 1
    ensures r == ApplyByteOrder(IntBytes(v, 2 * regCount), order)
  {
    var width := regCount * 2;
    var ordered := new byte[width];
    var rest := v;
    var i := width - 1;
    while i >= 0
      invariant -1 <= i < width
      invariant IntBytes(v, width) == IntBytes(rest, i + 1) + ordered[i + 1..]
    {
      var tail := ordered[i + 1..];
      assert IntBytes(rest, i + 1) == IntBytes(rest / 256, i) + [rest % 256];
      ordered[i] := rest % 256;
      assert ordered[i + 1..] == tail;
      assert ordered[i..] == [rest % 256] + tail;
      rest := rest / 256;
      i := i - 1;
    }
    assert ordered[i + 1..] == ordered[..] && i + 1 == 0;
    assert IntBytes(v, width) == [] + ordered[..] == ordered[..];
    r := ApplyByteOrder(ordered[..], order);
  }

  lemma {:induction false} IntBytesValue(v: int, n: nat)
    ensures BigEndian(IntBytes(v, n)) == v % Pow2(8 * n)
    decreases n
  {
    if n == 0 {
    } else {
      IntBytesValue(v / 256, n - 1);
      var b := IntBytes(v / 256, n - 1);
      assert IntBytes(v, n)[..n - 1] == b;
      Pow2Add(8 * (n - 1), 8);
      assert Pow2(8) == 256;
      ModSplit(v, Pow2(8 * (n - 1)));
    }
  }

  lemma ModSplit(v: int, p: nat)
    requires p > 0
    ensures v % (p * 256) == 256 * (v / 256 % p) + v % 256
  {
    var q, r := v / 256 / p, v / 256 % p;
    assert v / 256 == p * q + r;
    assert v == (p * 256) * q + (256 * r + v % 256) by {
      assert 256 * (p * q) == (p * 256) * q;
    }
    DivModUnique(v, p * 256, q, 256 * r + v % 256);
  }

  /** Whether `n` bytes hold v as a signed number. */
  predicate FitsSigned(v: int, n: nat)
    requires n > 0
  {
    0 - Pow2(8 * n - 1) <= v < Pow2(8 * n - 1)
  }

  /**
   Encoding and interpreting the full width as signed are inverse, for every register count, every
   byte order accepted at that length, and every int64 that fits.
  */
  lemma IntRoundTrip(v: int, regCount: nat, order: ByteOrder, signed: Option<bool>, stored: seq<byte>)
    requires regCount >= 1 && IsInt64(v) && FitsSigned(v, 2 * regCount)
    requires signed == None || signed == Some(true)
    requires ApplyByteOrder(IntBytes(v, 2 * regCount), order) == Good(stored)
    ensures ReadInt(stored, order, 0, 16 * regCount - 1, signed) == Good(v)
  {
    ByteOrderUndoesItself(IntBytes(v, 2 * regCount), order);
    FullWidth(v, 2 * regCount, signed);
  }

  /** Reading all the bits of v's bytes gives v. */
  lemma FullWidth(v: int, n: nat, signed: Option<bool>)
    requires n >= 2 && n % 2 == 0 && IsInt64(v) && FitsSigned(v, n)
    requires signed == None || signed == Some(true)
    ensures FieldOf(IntBytes(v, n), 0, 8 * n - 1, signed) == v
  {
    IntBytesValue(v, n);
    if n < 8 {
      SpanPowers(8 * n);
      FieldAll(v, 8 * n);
      var u := v % Pow2(8 * n);
      DivModUnique(u, TWO64, 0, u);
    } else {
      WordOfInt(v, 8 * n);
    }
  }

  lemma FieldAll(v: int, w: nat)
    requires 0 < w < 64 && 0 - Pow2(w - 1) <= v < Pow2(w - 1)
    ensures Field(v % Pow2(w), 0, w, true) == v
  {
    var p := Pow2(w);
    assert p == 2 * Pow2(w - 1);
    if v >= 0 {
      DivModUnique(v, p, 0, v);
    } else {
      DivModUnique(v, p, -1, v + p);
    }
    var f := v % p;
    DivModUnique(f, p, 0, f);
  }

  lemma WordOfInt(v: int, w: nat)
    requires w >= 64 && IsInt64(v)
    ensures ToInt64(v % Pow2(w) % TWO64) == v
  {
    TopPowers();
    Pow2Add(64, w - 64);
    var m := CutMultiple(v, TWO64, Pow2(w - 64));
    var t := if v >= 0 then 0 else 1;
    DivModUnique(v % Pow2(w), TWO64, -m - t, v + t * TWO64);
  }

  /** Reducing modulo a multiple of `a` takes away a multiple of `a`. */
  lemma CutMultiple(v: int, a: nat, k: nat) returns (m: int)
    requires a * k > 0
    ensures v % (a * k) == v - a * m
  {
    m := k * (v / (a * k));
    assert (a * k) * (v / (a * k)) == a * m;
  }

  // ---- bits

  datatype BitValue = BoolValue(on: bool) | IntValue(v: int)

  /** The meaning of a run of bits, lowest first: at most 64 count, and fewer can carry a sign. */
  function IntOfBits(bits: seq<bool>, signed: bool): int {
    if |bits| >= 64 then ToInt64(Value(bits[..64]))
    else if signed && bits != [] && bits[|bits| - 1] then Value(bits) - Pow2(|bits|)
    else Value(bits)
  }

  function BitsMeaning(p: PropMeta, bits: seq<bool>): BitValue {
    if p.dataType.BoolType? && bits != [] then BoolValue(bits[0]) else IntValue(IntOfBits(bits, p.signed == Some(true)))
  }

  function BitsFrom(raw: seq<byte>, first: int, span: nat): seq<bool> {
    seq(span, i requires i >= 0 => BitAt(raw, first + i))
  }

  /** `mapBits`. */
  method MapBits(raw: seq<byte>, p: PropMeta, bitInChunk: int) returns (r: Mapped<BitValue>)
    ensures r == MapBitsResult(raw, p, bitInChunk)
  {
    var span := p.BitSpan();
    if span <= 0 { span := 1; }
    var first := if bitInChunk < 0 then 0 else bitInChunk;
    if |raw| * 8 < first + span { return Bad(InsufficientBytes); }
    if p.dataType.BoolType? { return Good(BoolValue(BitAt(raw, first))); }
    var u := GatherBits(raw, first, span);
    ghost var bits := BitsFrom(raw, first, span);
    assert bits[..span] == bits;
    var v := SignBits(u, span, p.signed == Some(true), bits);
    r := Good(IntValue(v));
  }

  /** The sign extension of `mapBits`, for spans that leave room for one. */
  method SignBits(u: nat, span: int, signed: bool, ghost bits: seq<bool>) returns (v: int)
    requires span == |bits| > 0 && u == Value(bits[..if span < 64 then span else 64]) && bits[..span] == bits
    ensures v == IntOfBits(bits, signed)
  {
    v := ToInt64(u);
    if signed && span > 0 && span < 64 {
      SignBit(bits);
      if And(u, One64(span - 1)) != 0 {
        v := Wrap64(v - ToInt64(One64(span)));
      }
    }
    if span < 64 {
      SpanPowers(span);
      ValueBound(bits);
    }
  }

  /** The accumulating loop: bits beyond the sixty-fourth are shifted out of the word. */
  method GatherBits(raw: seq<byte>, first: int, span: nat) returns (u: nat)
    ensures u == Value(BitsFrom(raw, first, span)[..if span < 64 then span else 64])
  {
    u := 0;
    ghost var bits := BitsFrom(raw, first, span);
    for i := 0 to span
      invariant u == Value(bits[..if i < 64 then i else 64])
    {
      GatherBit(bits, i, u);
      if BitAt(raw, first + i) {
        u := Or(u, One64(i));
      }
    }
  }

  function MapBitsResult(raw: seq<byte>, p: PropMeta, bitInChunk: int): Mapped<BitValue> {
    var span := if p.BitSpan() <= 0 then 1 else p.BitSpan();
    var first := if bitInChunk < 0 then 0 else bitInChunk;
    if |raw| * 8 < first + span then Bad(InsufficientBytes) else Good(BitsMeaning(p, BitsFrom(raw, first, span)))
  }

  lemma GatherBit(bits: seq<bool>, i: nat, u: nat)
    requires i < |bits| && u == Value(bits[..if i < 64 then i else 64])
    ensures Value(bits[..if i + 1 < 64 then i + 1 else 64]) == if bits[i] then Or(u, One64(i)) else u
  {
    if i < 64 {
      assert bits[..i + 1] == bits[..i] + [bits[i]];
      ValueSnoc(bits[..i], bits[i]);
      ValueBound(bits[..i]);
      OrAbove(u, i);
    } else {
      OrZero(u);
    }
  }

  lemma SignBit(bits: seq<bool>)
    requires 0 < |bits| < 64
    ensures And(Value(bits), One64(|bits| - 1)) != 0 <==> bits[|bits| - 1]
    ensures bits[|bits| - 1] ==> Wrap64(Value(bits) - ToInt64(One64(|bits|))) == Value(bits) - Pow2(|bits|)
  {
    ValueBound(bits);
    SignTest(Value(bits), |bits|);
    SpanPowers(|bits|);
    ValueBit(bits, |bits| - 1);
    BitTop(Value(bits), |bits| - 1);
  }
}
