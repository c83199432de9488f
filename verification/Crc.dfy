/**
 The CRC-16 of Modbus RTU (internal/engine/converter/modbus/crc.go): the table, the table-driven
 loop, and what the check at the end of a frame detects.

 A CRC register is a number below 2^16; `Shift` runs the bit-serial division. Everything rests on
 `Shift` being linear over xor and never losing a nonzero sixteen-bit remainder.
*/
module Crc {
  import opened Bits

  const POLY: u16 := 0xA001

  function Word(lo: byte, hi: byte): u16 {
    lo + 256 * hi
  }

  // ---- bit-serial division

  /** One step of the division: shift right, and subtract the polynomial when a one falls out. */
  function ShiftBit(x: nat): nat {
    if x % 2 == 1 then Xor(x / 2, POLY) else x / 2
  }

  function Shift(x: nat, n: nat): nat {
    if n == 0 then x else ShiftBit(Shift(x, n - 1))
  }

  /** The definition of the CRC in section 2.5.1.2 of MODBUS over Serial Line V1.02. */
  function SerialCrc(data: seq<byte>): (crc: u16)
  {
    if data == [] then 0xFFFF
    else
      var n := |data| - 1;
      StepBound(SerialCrc(data[..n]), data[n]);
      Shift(Xor(SerialCrc(data[..n]), data[n]), 8)
  }

  // ---- what the source computes

  /** `init`: entry i of the table is byte i pushed through eight steps. */
  method InitTable() returns (crcTable: array<u16>)
    ensures fresh(crcTable) && TableReady(crcTable)
  {
    crcTable := new u16[256];
    for i := 0 to 256
      invariant forall k :: 0 <= k < i ==> crcTable[k] == Shift(k, 8)
    {
      var crc: u16 := i;
      for j := 0 to 8
        invariant crc == Shift(i, j)
        invariant forall k :: 0 <= k < i ==> crcTable[k] == Shift(k, 8)
      {
        ShiftBitBound(crc);
        if And(crc, 1) != 0 {
          crc := Xor(crc / 2, POLY);
        } else {
          crc := crc / 2;
        }
      }
      crcTable[i] := crc;
    }
  }

  ghost predicate TableReady(crcTable: array<u16>)
    reads crcTable
  {
    crcTable.Length == 256 && forall k :: 0 <= k < 256 ==> crcTable[k] == Shift(k, 8)
  }

  /** `CRC16`: one table lookup per byte; low byte first. */
  method CRC16(crcTable: array<u16>, data: seq<byte>) returns (lo: byte, hi: byte)
    requires TableReady(crcTable)
    ensures Word(lo, hi) == SerialCrc(data)
  {
    var crc: u16 := 0xFFFF;
    for i := 0 to |data|
      invariant crc == SerialCrc(data[..i])
    {
      SerialSnoc(data, i);
      TableStep(crc, data[i]);
      crc := Xor(crc / 256, crcTable[And(Xor(crc, data[i]), 0xFF)]);
    }
    assert data[..|data|] == data;
    LowHigh(crc);
    lo, hi := And(crc, 0xFF), And(crc / 256, 0xFF);
  }

  /** `AppendCRC`, with the checksum that `CRC16` is proved to return. */
  function AppendCRC(data: seq<byte>): seq<byte> {
    data + [SerialCrc(data) % 256, SerialCrc(data) / 256]
  }

  /** `CheckCRC`: the last two bytes are the checksum of the others. */
  predicate CheckCRC(frame: seq<byte>) {
    var n := |frame| - 2;
    |frame| >= 3 && SerialCrc(frame[..n]) % 256 == frame[n] && SerialCrc(frame[..n]) / 256 == frame[n + 1]
  }

  // ---- algebra of the division

  lemma Powers()
    ensures Pow2(8) == 256 && Pow2(16) == 0x1_0000
  {
    assert Pow2(8) == 256;
    Pow2Add(8, 8);
  }

  lemma AndOne(x: nat)
    ensures And(x, 1) == x % 2
  {
    AndMask(x, 1);
  }

  lemma IndexInTable(x: nat)
    ensures And(x, 0xFF) == x % 256
  {
    assert Pow2(8) == 256;
    AndMask(x, 8);
  }

  lemma LowHigh(crc: u16)
    ensures And(crc, 0xFF) == crc % 256 && And(crc / 256, 0xFF) == crc / 256
    ensures Word(crc % 256, crc / 256) == crc
  {
    IndexInTable(crc);
    IndexInTable(crc / 256);
  }

  lemma ShiftBitLinear(x: nat, y: nat)
    ensures ShiftBit(Xor(x, y)) == Xor(ShiftBit(x), ShiftBit(y))
  {
    XorHalves(x, y);
    var i, j := x % 2 == 1, y % 2 == 1;
    ShiftBitParts(x, i, x / 2);
    ShiftBitParts(y, j, y / 2);
    ShiftBitParts(Xor(x, y), i != j, Xor(x / 2, y / 2));
    CaseLinear(i, j, x / 2, y / 2, POLY);
  }

  lemma ShiftBitParts(x: nat, low: bool, high: nat)
    requires low == (x % 2 == 1) && high == x / 2
    ensures ShiftBit(x) == if low then Xor(high, POLY) else high
  {
    AndOne(x);
  }

  /** Two subtractions of the polynomial cancel, one goes through. */
  lemma CaseLinear(i: bool, j: bool, a: nat, b: nat, p: nat)
    ensures Xor(if i then Xor(a, p) else a, if j then Xor(b, p) else b) ==
            if i != j then Xor(Xor(a, b), p) else Xor(a, b)
  {
    XorAssoc(a, b, p);
    XorComm(b, p);
    XorAssoc(a, p, b);
    XorSwap(a, p, b, p);
    XorEqual(p, p);
    XorZero(Xor(a, b));
  }

  lemma {:induction false} ShiftLinear(x: nat, y: nat, n: nat)
    ensures Shift(Xor(x, y), n) == Xor(Shift(x, n), Shift(y, n))
  {
    if n != 0 {
      ShiftLinear(x, y, n - 1);
      var z, s, t := Shift(Xor(x, y), n - 1), Shift(x, n - 1), Shift(y, n - 1);
      ShiftBitLinear(s, t);
      assert ShiftBit(z) == Xor(ShiftBit(s), ShiftBit(t));
      ShiftUnfold(Xor(x, y), n);
      ShiftUnfold(x, n);
      ShiftUnfold(y, n);
    }
  }

  lemma ShiftUnfold(x: nat, n: nat)
    requires n > 0
    ensures Shift(x, n) == ShiftBit(Shift(x, n - 1))
  {
  }

  lemma {:induction false} ShiftAdd(x: nat, m: nat, n: nat)
    ensures Shift(Shift(x, m), n) == Shift(x, m + n)
  {
    if n != 0 {
      ShiftAdd(x, m, n - 1);
    }
  }

  /** Trailing zeros fall out without touching the polynomial. */
  lemma {:induction false} ShiftShl(x: nat, k: nat)
    ensures Shift(Shl(x, k), k) == x
  {
    if k != 0 {
      ShiftAdd(Shl(x, k), 1, k - 1);
      assert Shift(Shl(x, k), 1) == ShiftBit(Shift(Shl(x, k), 0)) == Shl(x, k - 1);
      ShiftShl(x, k - 1);
    }
  }

  lemma {:induction false} ShiftBound(x: nat, n: nat)
    requires x < 0x1_0000
    ensures Shift(x, n) < 0x1_0000
    ensures Shift(x, n) == 0 <==> x == 0
  {
    if n != 0 {
      ShiftBound(x, n - 1);
      ShiftBitBound(Shift(x, n - 1));
    }
  }

  lemma ShiftBitBound(s: nat)
    requires s < 0x1_0000
    ensures ShiftBit(s) == (if And(s, 1) != 0 then Xor(s / 2, POLY) else s / 2) < 0x1_0000
    ensures ShiftBit(s) == 0 <==> s == 0
  {
    AndOne(s);
    Powers();
    XorBound(s / 2, POLY, 16);
    XorEqual(s / 2, POLY);
  }

  lemma StepBound(crc: nat, b: byte)
    requires crc < 0x1_0000
    ensures Xor(crc, b) < 0x1_0000 && Shift(Xor(crc, b), 8) < 0x1_0000
  {
    Powers();
    XorBound(crc, b, 16);
    ShiftBound(Xor(crc, b), 8);
  }

  lemma SerialSnoc(data: seq<byte>, i: nat)
    requires i < |data|
    ensures SerialCrc(data[..i + 1]) == Shift(Xor(SerialCrc(data[..i]), data[i]), 8)
  {
    assert data[..i + 1][..i] == data[..i];
  }

  /** Why one lookup replaces eight steps. */
  lemma TableStep(crc: u16, b: byte)
    ensures And(Xor(crc, b), 0xFF) < 256
    ensures Xor(crc / 256, Shift(And(Xor(crc, b), 0xFF), 8)) == Shift(Xor(crc, b), 8) < 0x1_0000
  {
    var x := Xor(crc, b);
    IndexInTable(x);
    StepBound(crc, b);
    HighByteMovesDown(x);
    Powers();
    XorHigh(crc, b, 8);
    XorComm(crc / 256, Shift(x % 256, 8));
  }

  /** By linearity the high byte of the register just moves down. */
  lemma HighByteMovesDown(x: nat)
    ensures Shift(x, 8) == Xor(Shift(x % 256, 8), x / 256)
  {
    Powers();
    XorDisjoint(x % 256, x / 256, 8);
    ShlIsProduct(x / 256, 8);
    ShiftLinear(x % 256, Shl(x / 256, 8), 8);
    ShiftShl(x / 256, 8);
  }

  lemma XorHigh(a: nat, b: nat, k: nat)
    requires b < Pow2(k)
    ensures Xor(a, b) / Pow2(k) == a / Pow2(k)
  {
    if k == 0 {
      XorZero(a);
    } else {
      XorHalves(a, b);
      XorHigh(a / 2, b / 2, k - 1);
      DivStep(a, k);
      DivStep(Xor(a, b), k);
    }
  }

  // ---- a frame as one number, in the order its bits travel

  function Line(data: seq<byte>): nat {
    if data == [] then 0 else var n := |data| - 1; Line(data[..n]) + Shl(data[n], 8 * n)
  }

  lemma {:induction false} ShlBound(x: nat, j: nat, k: nat)
    requires x < Pow2(j)
    ensures Shl(x, k) <= Pow2(j + k) - Pow2(k)
  {
    if k != 0 {
      ShlBound(x, j, k - 1);
    }
  }

  lemma {:induction false} LineBound(data: seq<byte>)
    ensures Line(data) < Pow2(8 * |data|)
  {
    if data != [] {
      var n := |data| - 1;
      LineBound(data[..n]);
      assert Pow2(8) == 256;
      ShlBound(data[n], 8, 8 * n);
    }
  }

  /** Over a whole byte string the CRC is one long division. */
  lemma {:induction false} SerialCrcIsDivision(data: seq<byte>)
    ensures SerialCrc(data) == Shift(Xor(0xFFFF, Line(data)), 8 * |data|)
  {
    if data == [] {
      XorZero(0xFFFF);
    } else {
      var n := |data| - 1;
      SerialCrcIsDivision(data[..n]);
      LineSnoc(data);
      DivisionStep(0xFFFF, Line(data[..n]), data[n], 8 * n);
      ShiftAdd(Xor(0xFFFF, Line(data)), 8 * n, 8);
    }
  }

  /** Appending a byte after `k` bits: it meets the register once those bits have been shifted out. */
  lemma DivisionStep(c: nat, x: nat, b: byte, k: nat)
    ensures Shift(Xor(c, Xor(x, Shl(b, k))), k) == Xor(Shift(Xor(c, x), k), b)
  {
    XorAssoc(c, x, Shl(b, k));
    ShiftLinear(Xor(c, x), Shl(b, k), k);
    ShiftShl(b, k);
  }

  /** A register fed its own value, low byte first, comes to zero; any other word does not. */
  lemma TwoSteps(c: u16, lo: byte, hi: byte)
    ensures Shift(Xor(Shift(Xor(c, lo), 8), hi), 8) == 0 <==> c == Word(lo, hi)
  {
    var x := Xor(c, Word(lo, hi));
    Powers();
    XorBound(c, Word(lo, hi), 16);
    ShiftBound(x, 8);
    StepBound(c, lo);
    var s := Shift(Xor(c, lo), 8);
    StepBound(s, hi);
    ShiftBound(Xor(s, hi), 8);
    WordSteps(c, lo, hi);
    XorEqual(c, Word(lo, hi));
  }

  /** Feeding a word is feeding its two bytes. */
  lemma WordSteps(c: u16, lo: byte, hi: byte)
    ensures Shift(Xor(c, Word(lo, hi)), 8) == Xor(Shift(Xor(c, lo), 8), hi)
  {
    Powers();
    XorDisjoint(lo, hi, 8);
    ShlIsProduct(hi, 8);
    DivisionStep(c, lo, hi, 8);
  }

  /** A frame passes the check exactly when its whole length divides without remainder. */
  lemma CheckIsZeroResidue(frame: seq<byte>)
    requires |frame| >= 3
    ensures CheckCRC(frame) <==> SerialCrc(frame) == 0
  {
    var n := |frame| - 2;
    var c := LastTwo(frame);
    TwoSteps(c, frame[n], frame[n + 1]);
    WordIs(c, frame[n], frame[n + 1]);
  }

  /** The residue of a frame from the checksum of all but its last two bytes. */
  lemma LastTwo(frame: seq<byte>) returns (c: u16)
    requires |frame| >= 2
    ensures var n := |frame| - 2;
            c == SerialCrc(frame[..n]) && SerialCrc(frame) == Shift(Xor(Shift(Xor(c, frame[n]), 8), frame[n + 1]), 8)
  {
    var n := |frame| - 2;
    SerialSnoc(frame, n);
    SerialSnoc(frame, n + 1);
    assert frame[..n + 2] == frame;
    c := SerialCrc(frame[..n]);
  }

  lemma WordIs(c: u16, lo: byte, hi: byte)
    ensures c == Word(lo, hi) <==> c % 256 == lo && c / 256 == hi
  {
  }

  /** `CheckCRC(AppendCRC(d))` holds for every nonempty d. */
  lemma AppendThenCheck(data: seq<byte>)
    requires data != []
    ensures CheckCRC(AppendCRC(data))
  {
    assert AppendCRC(data)[..|data|] == data;
  }

  /**
   Every burst of at most sixteen bits is detected, wherever it lies and however long the frame:
   two frames that both pass the check cannot differ by `e` at bit position `k` alone.
  */
  lemma BurstDetected(f: seq<byte>, g: seq<byte>, e: u16, k: nat)
    requires |f| == |g| && CheckCRC(f)
    requires e != 0 && Xor(Line(f), Line(g)) == Shl(e, k)
    ensures !CheckCRC(g)
  {
    var n := 8 * |f|;
    SerialCrcIsDivision(f);
    SerialCrcIsDivision(g);
    CheckIsZeroResidue(f);
    CheckIsZeroResidue(g);
    LineBound(f);
    LineBound(g);
    XorBound(Line(f), Line(g), n);
    ShlAtLeast(e, k);
    if k >= n {
      Pow2Mono(n, k);
    }
    DivisionSeparates(Line(f), Line(g), e, k, n);
  }

  lemma DivisionSeparates(x: nat, y: nat, e: u16, k: nat, n: nat)
    requires e != 0 && k <= n && Xor(x, y) == Shl(e, k)
    ensures Shift(Xor(0xFFFF, x), n) != Shift(Xor(0xFFFF, y), n)
  {
    var a, b := Xor(0xFFFF, x), Xor(0xFFFF, y);
    StartCancels(x, y);
    ShiftLinear(a, b, n);
    BurstLeavesResidue(e, k, n);
    XorEqual(Shift(a, n), Shift(b, n));
  }

  lemma StartCancels(x: nat, y: nat)
    ensures Xor(Xor(0xFFFF, x), Xor(0xFFFF, y)) == Xor(x, y)
  {
    XorSwap(0xFFFF, x, 0xFFFF, y);
    XorEqual(0xFFFF, 0xFFFF);
    XorZero(Xor(x, y));
  }

  lemma BurstLeavesResidue(e: u16, k: nat, n: nat)
    requires e != 0 && k <= n
    ensures Shift(Shl(e, k), n) != 0
  {
    ShiftAdd(Shl(e, k), k, n - k);
    ShiftShl(e, k);
    ShiftBound(e, n - k);
  }

  lemma {:induction false} ShlAtLeast(x: nat, k: nat)
    requires x != 0
    ensures Shl(x, k) >= Pow2(k)
  {
    if k != 0 {
      ShlAtLeast(x, k - 1);
    }
  }

  /** In bytes: damage confined to two neighbouring bytes, checksum bytes included, never passes. */
  lemma AdjacentBytesDetected(f: seq<byte>, g: seq<byte>, i: nat)
    requires |f| == |g| && i + 1 < |f| && f != g && CheckCRC(f)
    requires forall j :: 0 <= j < |f| && j != i && j != i + 1 ==> f[j] == g[j]
    ensures !CheckCRC(g)
  {
    var e := AdjacentDifference(f, g, i);
    BurstDetected(f, g, e, 8 * i);
  }

  lemma AdjacentDifference(f: seq<byte>, g: seq<byte>, i: nat) returns (e: u16)
    requires |f| == |g| && i + 1 < |f| && f != g
    requires forall j :: 0 <= j < |f| && j != i && j != i + 1 ==> f[j] == g[j]
    ensures e != 0 && Xor(Line(f), Line(g)) == Shl(e, 8 * i)
  {
    SomewhereDifferent(f, g);
    SameWordsSameBytes(f[i], f[i + 1], g[i], g[i + 1]);
    DifferencePlace(f, g, i);
    e := WordsDiffer(Word(f[i], f[i + 1]), Word(g[i], g[i + 1]));
  }

  lemma SameWordsSameBytes(a: byte, b: byte, c: byte, d: byte)
    ensures Word(a, b) == Word(c, d) ==> a == c && b == d
  {
  }

  lemma SomewhereDifferent(f: seq<byte>, g: seq<byte>)
    requires |f| == |g| && f != g
    ensures exists j :: 0 <= j < |f| && f[j] != g[j]
  {
  }

  lemma WordsDiffer(a: u16, b: u16) returns (e: u16)
    requires a != b
    ensures e == Xor(a, b) && e != 0
  {
    Powers();
    XorBound(a, b, 16);
    XorEqual(a, b);
    e := Xor(a, b);
  }

  /** The difference of two frames that agree outside two neighbouring bytes, as one number. */
  lemma {:induction false} DifferencePlace(f: seq<byte>, g: seq<byte>, i: nat)
    requires |f| == |g| && i + 1 < |f|
    requires forall j :: 0 <= j < |f| && j != i && j != i + 1 ==> f[j] == g[j]
    ensures Xor(Line(f), Line(g)) == Shl(Xor(Word(f[i], f[i + 1]), Word(g[i], g[i + 1])), 8 * i)
  {
    var n := |f| - 1;
    DifferenceSnoc(f, g);
    if i + 1 < n {
      DifferencePlace(f[..n], g[..n], i);
      XorEqual(Shl(f[n], 8 * n), Shl(g[n], 8 * n));
      XorZero(Xor(Line(f[..n]), Line(g[..n])));
    } else {
      assert f[..n][..i] == g[..n][..i];
      DifferenceSnoc(f[..n], g[..n]);
      XorEqual(Line(f[..n][..i]), Line(g[..n][..i]));
      XorZero(Xor(Shl(f[i], 8 * i), Shl(g[i], 8 * i)));
      ShlTwo(f[i], f[n], g[i], g[n], 8 * i);
    }
  }

  lemma DifferenceSnoc(f: seq<byte>, g: seq<byte>)
    requires |f| == |g| > 0
    ensures var n := |f| - 1;
            Xor(Line(f), Line(g)) == Xor(Xor(Line(f[..n]), Line(g[..n])), Xor(Shl(f[n], 8 * n), Shl(g[n], 8 * n)))
  {
    var n := |f| - 1;
    LineSnoc(f);
    LineSnoc(g);
    XorSwap(Line(f[..n]), Shl(f[n], 8 * n), Line(g[..n]), Shl(g[n], 8 * n));
  }

  lemma LineSnoc(f: seq<byte>)
    requires f != []
    ensures var n := |f| - 1; Line(f) == Xor(Line(f[..n]), Shl(f[n], 8 * n))
  {
    var n := |f| - 1;
    LineBound(f[..n]);
    XorDisjoint(Line(f[..n]), f[n], 8 * n);
  }

  /** Two bytes shifted together are the two shifted apart. */
  lemma {:induction false} ShlTwo(a: byte, b: byte, c: byte, d: byte, k: nat)
    ensures Xor(Xor(Shl(a, k), Shl(c, k)), Xor(Shl(b, k + 8), Shl(d, k + 8)))
         == Shl(Xor(Word(a, b), Word(c, d)), k)
  {
    if k == 0 {
      WordSplit(a, b);
      WordSplit(c, d);
      XorSwap(a, Shl(b, 8), c, Shl(d, 8));
    } else {
      ShlTwo(a, b, c, d, k - 1);
      EvenTwice(Shl(a, k - 1), Shl(c, k - 1), Shl(b, k + 7), Shl(d, k + 7));
    }
  }

  lemma WordSplit(lo: byte, hi: byte)
    ensures Word(lo, hi) == Xor(lo, Shl(hi, 8))
  {
    assert Pow2(8) == 256;
    ShlIsProduct(hi, 8);
    XorDisjoint(lo, hi, 8);
  }

  lemma EvenTwice(p: nat, q: nat, r: nat, s: nat)
    ensures Xor(Xor(2 * p, 2 * q), Xor(2 * r, 2 * s)) == 2 * Xor(Xor(p, q), Xor(r, s))
  {
    XorEven(p, q);
    XorEven(r, s);
    XorEven(Xor(p, q), Xor(r, s));
  }

  lemma XorEven(a: nat, b: nat)
    ensures Xor(2 * a, 2 * b) == 2 * Xor(a, b)
  {
  }
}
