/**
 When the integers read out of registers and coils are the numbers their bits spell. `interpretInt`
 and `mapBits` (internal/engine/converter/mapper.go) work in one 64-bit word, so wide properties
 lose bits or their sign setting.
*/
module Fields {
  import opened Bits
  import opened Pdu
  import opened Props
  import opened Mapper

  // ---- registers

  /** Bits s to e of a number, as an unsigned or a two's-complement integer. */
  function TrueField(x: nat, s: nat, e: nat, signed: bool): int
    requires s <= e
  {
    var f := Shr(x, s) % Pow2(e - s + 1);
    if signed && f >= Pow2(e - s) then f - Pow2(e - s + 1) else f
  }

  /** Whether reading bits s to e of n bytes gives the field of the number, whatever the bytes are. */
  ghost predicate ReadsField(n: nat, s: nat, e: nat, signed: Option<bool>)
    requires s <= e < 8 * n
  {
    forall b: seq<byte> :: |b| == n ==>
      FieldOf(b, s, e, signed) == TrueField(BigEndian(b), s, e, SignedOrAuto(signed, 8 * n, s, e))
  }

  /** Cutting a number to m bits does not touch the bits below. */
  lemma {:induction false} CutBelow(x: nat, m: nat, s: nat, k: nat)
    requires s + k <= m
    ensures Shr(x % Pow2(m), s) % Pow2(k) == Shr(x, s) % Pow2(k)
  {
    if s == 0 {
      CutTwice(x, m, k);
    } else {
      HalfOfCut(x, m);
      CutBelow(x / 2, m - 1, s - 1, k);
    }
  }

  lemma CutTwice(x: nat, m: nat, k: nat)
    requires k <= m
    ensures x % Pow2(m) % Pow2(k) == x % Pow2(k)
  {
    Pow2Add(k, m - k);
    var c := CutMultiple(x, Pow2(k), Pow2(m - k));
    SameResidue(x, Pow2(k), c);
  }

  lemma HalfOfCut(x: nat, m: nat)
    requires m > 0
    ensures x % Pow2(m) / 2 == x / 2 % Pow2(m - 1)
  {
    ModStep(x, m);
  }

  lemma SameResidue(x: int, p: nat, c: int)
    requires p > 0
    ensures (x - p * c) % p == x % p
  {
    DivModUnique(x - p * c, p, x / p - c, x % p);
  }

  /** Below bit 64, and with a sign where all 64 bits are taken, the field is exact. */
  lemma NarrowFieldExact(b: seq<byte>, s: nat, e: nat, signed: Option<bool>)
    requires s <= e < 8 * |b| && e < 64
    requires e - s < 63 || SignedOrAuto(signed, 8 * |b|, s, e)
    ensures FieldOf(b, s, e, signed) == TrueField(BigEndian(b), s, e, SignedOrAuto(signed, 8 * |b|, s, e))
  {
    TopPowers();
    CutBelow(BigEndian(b), 64, s, e - s + 1);
    if e - s == 63 {
      var u := BigEndian(b) % TWO64;
      DivModUnique(u, TWO64, 0, u);
    }
  }

  /** Bytes with the single bit e on. */
  lemma LoneBitBytes(n: nat, e: nat) returns (b: seq<byte>)
    requires e < 8 * n
    ensures |b| == n && BigEndian(b) == Pow2(e)
  {
    b := IntBytes(Pow2(e), n);
    IntBytesValue(Pow2(e), n);
    Pow2Mono(e + 1, 8 * n);
    DivModUnique(Pow2(e), Pow2(8 * n), 0, Pow2(e));
  }

  /** The field from s up of the single bit e is that bit alone, at its top. */
  lemma LoneField(s: nat, e: nat, signed: bool)
    requires s <= e
    ensures TrueField(Pow2(e), s, e, signed) == if signed then 0 - Pow2(e - s) else Pow2(e - s)
  {
    ShrPower(e, s);
    DivModUnique(Pow2(e - s), Pow2(e - s + 1), 0, Pow2(e - s));
  }

  lemma {:induction false} ShrPower(e: nat, s: nat)
    requires s <= e
    ensures Shr(Pow2(e), s) == Pow2(e - s)
  {
    if s > 0 {
      assert Pow2(e) / 2 == Pow2(e - 1);
      ShrPower(e - 1, s - 1);
    }
  }

  /** Otherwise the top bit of the range alone is misread. */
  lemma WideFieldWrong(n: nat, s: nat, e: nat, signed: Option<bool>) returns (b: seq<byte>)
    requires s <= e < 8 * n
    requires e >= 64 || (e - s == 63 && !SignedOrAuto(signed, 8 * n, s, e))
    ensures |b| == n
    ensures FieldOf(b, s, e, signed) != TrueField(BigEndian(b), s, e, SignedOrAuto(signed, 8 * n, s, e))
  {
    b := LoneBitBytes(n, e);
    LoneField(s, e, SignedOrAuto(signed, 8 * n, s, e));
    if e >= 64 {
      HighBitLost(s, e, SignedOrAuto(signed, 8 * n, s, e));
    } else {
      TopPowers();
      DivModUnique(TWO63, TWO64, 0, TWO63);
    }
  }

  /** A bit above the word leaves nothing in it. */
  lemma HighBitLost(s: nat, e: nat, signed: bool)
    requires s <= e && e >= 64
    ensures Mapper.Field(Pow2(e) % TWO64, s, e - s + 1, signed) == 0
  {
    TopPowers();
    Pow2Add(64, e - 64);
    DivModUnique(Pow2(e), TWO64, Pow2(e - 64), 0);
    ZeroField(s, e - s + 1, signed);
  }

  lemma ZeroField(s: nat, span: nat, signed: bool)
    requires span > 0
    ensures Mapper.Field(0, s, span, signed) == 0
  {
    ShrBound(0, s);
  }

  /**
   For a range that validation accepts, what is read is the field of the number, for all data, exactly
   when the range ends below bit 64 and, if it is all of 64 bits, is read as signed.
  */
  lemma ReadsFieldIff(n: nat, s: nat, e: nat, signed: Option<bool>)
    requires s <= e < 8 * n
    ensures ReadsField(n, s, e, signed) <==> e < 64 && (e - s < 63 || SignedOrAuto(signed, 8 * n, s, e))
  {
    if e < 64 && (e - s < 63 || SignedOrAuto(signed, 8 * n, s, e)) {
      forall b: seq<byte> | |b| == n
        ensures FieldOf(b, s, e, signed) == TrueField(BigEndian(b), s, e, SignedOrAuto(signed, 8 * n, s, e))
      {
        NarrowFieldExact(b, s, e, signed);
      }
    } else {
      var b := WideFieldWrong(n, s, e, signed);
    }
  }

  // ---- accepted properties that are misread

  /** The last sixteen bits of five registers. */
  const HIGH_BITS := PropMeta("tail", "p1", IntType, 64, 79, 0, 0, 3, 0, Unset, R, None, 5)

  /** Four registers taken whole, explicitly without sign. */
  const WHOLE_UNSIGNED := PropMeta("total", "p1", IntType, 0, 63, 0, 0, 3, 0, Unset, R, Some(false), 4)

  lemma WideAccepted()
    ensures SafeProps([HIGH_BITS], true) && SafeProps([WHOLE_UNSIGNED], true)
  {
    NotBlank("tail");
    NotBlank("total");
    NotBlank("p1");
  }

  /** The first is accepted and reads as 0 whatever the device holds. */
  lemma HighBitsReadZero(raw: seq<byte>)
    requires |raw| == 10
    ensures SafeProps([HIGH_BITS], true)
    ensures ReadInt(raw, Unset, HIGH_BITS.startBit, HIGH_BITS.endBit, HIGH_BITS.signed) == Good(0)
  {
    WideAccepted();
    WordEnds(BigEndian(raw) % TWO64, 64, 16, false);
  }

  /** Nothing of a 64-bit word lies from bit 64 up. */
  lemma WordEnds(u: nat, s: nat, span: nat, signed: bool)
    requires u < TWO64 && s >= 64 && 0 < span
    ensures span < 64 ==> Mapper.Field(u, s, span, signed) == 0
  {
    TopPowers();
    Pow2Mono(64, s);
    ShrBound(u, s);
    DivModUnique(0, Pow2(span), 0, 0);
  }

  /** The second is accepted and reads as -1 when every bit is on. */
  lemma WholeUnsignedReadsNegative(raw: seq<byte>)
    requires |raw| == 8 && forall i :: 0 <= i < 8 ==> raw[i] == 255
    ensures SafeProps([WHOLE_UNSIGNED], true)
    ensures ReadInt(raw, Unset, WHOLE_UNSIGNED.startBit, WHOLE_UNSIGNED.endBit, WHOLE_UNSIGNED.signed) == Good(-1)
  {
    WideAccepted();
    AllOnesValue(raw, 8 * |raw|);
  }

  lemma AllOnesValue(b: seq<byte>, w: nat)
    requires w == 8 * |b| == 64 && forall i :: 0 <= i < |b| ==> b[i] == 255
    ensures ToInt64(BigEndian(b) % TWO64) == -1
  {
    AllOnes(b);
    TopPowers();
    DivModUnique(TWO64 - 1, TWO64, 0, TWO64 - 1);
  }

  lemma {:induction false} AllOnes(b: seq<byte>)
    requires forall i :: 0 <= i < |b| ==> b[i] == 255
    ensures BigEndian(b) == Pow2(8 * |b|) - 1
  {
    if b != [] {
      var n := |b| - 1;
      AllOnes(b[..n]);
      Pow2Add(8 * n, 8);
      assert Pow2(8) == 256;
    }
  }

  // ---- coils

  /** The number some bits spell, lowest first, unsigned or in two's complement. */
  function TrueBits(bits: seq<bool>, signed: bool): int {
    if signed && bits != [] && bits[|bits| - 1] then Value(bits) - Pow2(|bits|) else Value(bits)
  }

  /** Whether n bits always read as the number they spell. */
  ghost predicate ReadsBits(n: nat, signed: bool) {
    forall bits: seq<bool> :: |bits| == n ==> IntOfBits(bits, signed) == TrueBits(bits, signed)
  }

  lemma FullWordExact(bits: seq<bool>)
    requires |bits| == 64
    ensures IntOfBits(bits, true) == TrueBits(bits, true)
  {
    TopPowers();
    assert bits[..64] == bits;
    ValueBound(bits);
    ValueBit(bits, 63);
    BitTop(Value(bits), 63);
  }

  /** With the top bit alone on, a wide run of bits is misread. */
  lemma WideBitsWrong(n: nat, signed: bool)
    requires n > 64 || (n == 64 && !signed)
    ensures var bits := Lone(n, n - 1); IntOfBits(bits, signed) != TrueBits(bits, signed)
  {
    var bits := Lone(n, n - 1);
    LoneValue(n, n - 1);
    assert bits[..64] == Lone(64, n - 1);
    LoneValue(64, n - 1);
    TopPowers();
  }

  /**
   A number on n coils reads as what the coils spell, for all data, exactly when there are fewer than
   64 of them, or 64 read as signed.
  */
  lemma ReadsBitsIff(n: nat, signed: bool)
    ensures ReadsBits(n, signed) <==> n < 64 || (n == 64 && signed)
  {
    if n < 64 {
    } else if n == 64 && signed {
      forall bits: seq<bool> | |bits| == n ensures IntOfBits(bits, signed) == TrueBits(bits, signed) {
        FullWordExact(bits);
      }
    } else {
      WideBitsWrong(n, signed);
      assert |Lone(n, n - 1)| == n;
    }
  }

  /** A number on sixty-four coils. */
  const SIXTY_FOUR_COILS := PropMeta("count", "p1", IntType, 0, 63, 0, 0, 1, 0, Unset, R, None, 64)

  /** It is accepted and, though no sign is asked for, reads as -1 when every coil is on. */
  lemma CoilCountReadsNegative(raw: seq<byte>)
    requires |raw| == 8 && forall i :: 0 <= i < 64 ==> BitAt(raw, i)
    ensures SafeProps([SIXTY_FOUR_COILS], true)
    ensures MapBitsResult(raw, SIXTY_FOUR_COILS, 0) == Good(IntValue(-1))
  {
    NotBlank("count");
    NotBlank("p1");
    var bits := BitsFrom(raw, 0, 64);
    assert bits[..64] == bits;
    AllOnValue(bits);
    TopPowers();
  }

  lemma {:induction false} AllOnValue(bits: seq<bool>)
    requires forall i :: 0 <= i < |bits| ==> bits[i]
    ensures Value(bits) == Pow2(|bits|) - 1
  {
    if bits != [] {
      AllOnValue(bits[1..]);
    }
  }
}
