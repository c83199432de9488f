/**
 Protocol data units, shared by RTU and TCP (internal/engine/converter/modbus/pdu.go and
 exception.go): building requests, and taking replies apart.
*/
module Pdu {
  import opened Bits

  datatype Error =
    | ShortFrame
    | CRCMismatch
    | UnitIDMismatch
    | FunctionCodeMismatch
    | AddressMismatch
    | TransactionIDMismatch
    | ProtocolIDMismatch
    | InvalidAddress
    | InvalidData
    | Exception(functionCode: byte, exceptionCode: byte)

  datatype Result<+T> = Ok(value: T) | Err(error: Error)

  const READ_COILS: byte := 1
  const READ_DISCRETE: byte := 2
  const READ_HOLDING: byte := 3
  const READ_INPUT: byte := 4
  const WRITE_COIL: byte := 5
  const WRITE_REG: byte := 6
  const WRITE_COILS: byte := 15
  const WRITE_REGS: byte := 16

  const MAX_READ_REGISTERS := 125
  const MAX_WRITE_REGISTERS := 123
  const MAX_READ_BITS := 2000
  const MAX_WRITE_BITS := 1968
  const MAX_ADDRESS := 0xFFFF

  /** The two address spaces: a unit is a sixteen-bit register, or a single bit. */
  datatype AddrSpace = RegisterSpace | BitSpace

  function AddrSpaceOf(fc: int): AddrSpace {
    if fc == 1 || fc == 2 then BitSpace else RegisterSpace
  }

  predicate IsValidReadFC(fc: int) { 1 <= fc <= 4 }

  predicate IsValidWriteFC(fc: int) { fc == 5 || fc == 6 || fc == 15 || fc == 16 }

  predicate IsExceptionFC(fc: byte) { And(fc, 0x80) != 0 }

  /** `Transient`: busy, acknowledge and gateway-target exceptions are worth a resend. */
  predicate Transient(e: Error) {
    e.Exception? && (e.exceptionCode == 5 || e.exceptionCode == 6 || e.exceptionCode == 11)
  }

  /** The source also lists an illegal-function-code error here, which nothing returns. */
  predicate IsPermanentError(e: Error) {
    if e.Exception? then !Transient(e) else e == InvalidAddress || e == InvalidData
  }

  predicate IsFrameResetError(e: Error) {
    e in {CRCMismatch, UnitIDMismatch, FunctionCodeMismatch, AddressMismatch, TransactionIDMismatch, ProtocolIDMismatch}
  }

  lemma ExceptionFlag(fc: byte)
    ensures IsExceptionFC(fc) <==> fc >= 128
    ensures fc < 128 ==> Or(fc, 0x80) == fc + 128
  {
    assert Pow2(7) == 128 && Pow2(8) == 256;
    AndBit(fc, 7);
    BitTop(fc, 7);
    if fc < 128 {
      OrAbove(fc, 7);
    }
  }

  // ---- big-endian words

  function PutU16(w: u16): seq<byte> { [w / 256, w % 256] }

  function U16At(s: seq<byte>, i: nat): u16
    requires i + 1 < |s|
  {
    var hi: int := s[i];
    256 * hi + s[i + 1]
  }

  // ---- read requests and replies

  /** `validateReadRequest` returns nil. */
  predicate ValidReadRequest(fc: byte, startAddr: int, quantity: int) {
    && 0 <= startAddr <= MAX_ADDRESS
    && 1 <= quantity
    && quantity <= (if fc == READ_COILS || fc == READ_DISCRETE then MAX_READ_BITS else MAX_READ_REGISTERS)
    && startAddr + quantity - 1 <= MAX_ADDRESS
  }

  function BuildReadPDU(fc: byte, startAddr: int, quantity: int): Result<seq<byte>> {
    if !ValidReadRequest(fc, startAddr, quantity) then Err(InvalidAddress)
    else Ok([fc] + PutU16(startAddr) + PutU16(quantity))
  }

  function ReadRespByteCount(fc: byte, quantity: nat): nat {
    if fc == READ_COILS || fc == READ_DISCRETE then (quantity + 7) / 8 else quantity * 2
  }

  function ParseReadPDU(pdu: seq<byte>, fc: byte, expectedQuantity: nat): Result<seq<byte>> {
    if |pdu| < 2 then Err(ShortFrame)
    else if IsExceptionFC(pdu[0]) then Err(Exception(pdu[0], pdu[1]))
    else if pdu[0] != fc then Err(FunctionCodeMismatch)
    else
      var byteCount: int := pdu[1];
      var expected := ReadRespByteCount(fc, expectedQuantity);
      if byteCount != expected && (byteCount > expected || |pdu| < 2 + byteCount) then Err(ShortFrame)
      else if |pdu| < 2 + byteCount then Err(ShortFrame)
      else Ok(pdu[2..2 + byteCount])
  }

  // ---- write requests and replies

  function BuildWriteSingleRegPDU(startAddr: int, value: u16): Result<seq<byte>> {
    if startAddr < 0 || startAddr > MAX_ADDRESS then Err(InvalidAddress)
    else Ok([WRITE_REG] + PutU16(startAddr) + PutU16(value))
  }

  function BuildWriteMultiRegsPDU(startAddr: int, quantity: int, data: seq<byte>): Result<seq<byte>> {
    if startAddr < 0 || startAddr > MAX_ADDRESS then Err(InvalidAddress)
    else if quantity < 1 || quantity > MAX_WRITE_REGISTERS then Err(InvalidAddress)
    else if startAddr + quantity - 1 > MAX_ADDRESS then Err(InvalidAddress)
    else if |data| != quantity * 2 then Err(InvalidData)
    else Ok([WRITE_REGS] + PutU16(startAddr) + PutU16(quantity) + [|data|] + data)
  }

  function BuildWriteSingleCoilPDU(startAddr: int, on: bool): Result<seq<byte>> {
    if startAddr < 0 || startAddr > MAX_ADDRESS then Err(InvalidAddress)
    else Ok([WRITE_COIL] + PutU16(startAddr) + PutU16(if on then 0xFF00 else 0))
  }

  /** `BuildWriteMultiCoilsPDU`: the loop ors each set bit into its byte, in place. */
  method BuildWriteMultiCoilsPDU(startAddr: int, quantity: int, bits: seq<bool>) returns (r: Result<seq<byte>>)
    ensures r == MultiCoilsPDU(startAddr, quantity, bits)
  {
    if startAddr < 0 || startAddr > MAX_ADDRESS { return Err(InvalidAddress); }
    if quantity < 1 || quantity > MAX_WRITE_BITS { return Err(InvalidAddress); }
    if startAddr + quantity - 1 > MAX_ADDRESS { return Err(InvalidAddress); }
    if |bits| != quantity { return Err(InvalidData); }
    var byteCount := (quantity + 7) / 8;
    var data := new byte[byteCount](_ => 0);
    for i := 0 to |bits|
      invariant forall k :: 0 <= k < byteCount ==> data[k] == Value(Octet(bits[..i], k))
    {
      if bits[i] {
        OctetSet(bits, i);
        data[i / 8] := Or(data[i / 8], Pow2(i % 8));
      }
      OctetsStep(bits, i, byteCount);
    }
    assert bits[..|bits|] == bits;
    assert data[..] == PackBits(bits);
    r := Ok([WRITE_COILS] + PutU16(startAddr) + PutU16(quantity) + [byteCount] + data[..]);
  }

  function MultiCoilsPDU(startAddr: int, quantity: int, bits: seq<bool>): Result<seq<byte>> {
    if startAddr < 0 || startAddr > MAX_ADDRESS then Err(InvalidAddress)
    else if quantity < 1 || quantity > MAX_WRITE_BITS then Err(InvalidAddress)
    else if startAddr + quantity - 1 > MAX_ADDRESS then Err(InvalidAddress)
    else if |bits| != quantity then Err(InvalidData)
    else Ok([WRITE_COILS] + PutU16(startAddr) + PutU16(quantity) + [(quantity + 7) / 8] + PackBits(bits))
  }

  function ParseWritePDU(pdu: seq<byte>, reqFC: byte, startAddr: int, quantity: int): Result<seq<byte>> {
    if |pdu| < 1 then Err(ShortFrame)
    else if IsExceptionFC(pdu[0]) then
      if |pdu| < 2 then Err(ShortFrame) else Err(Exception(pdu[0], pdu[1]))
    else if pdu[0] != reqFC then Err(FunctionCodeMismatch)
    else if |pdu| < 5 then Err(ShortFrame)
    else if IsValidWriteFC(reqFC) && U16At(pdu, 1) != startAddr then Err(AddressMismatch)
    else Ok([])
  }

  // ---- bits packed eight to a byte, first bit lowest

  function Octet(bits: seq<bool>, k: nat): (o: seq<bool>)
    ensures |o| <= 8
  {
    if 8 * k >= |bits| then [] else if 8 * k + 8 <= |bits| then bits[8 * k..8 * k + 8] else bits[8 * k..]
  }

  function OctetByte(bits: seq<bool>, k: nat): byte {
    ValueBound(Octet(bits, k));
    Pow2Mono(|Octet(bits, k)|, 8);
    Value(Octet(bits, k))
  }

  function PackBits(bits: seq<bool>): (data: seq<byte>)
    ensures |data| == (|bits| + 7) / 8
  {
    seq((|bits| + 7) / 8, k requires k >= 0 => OctetByte(bits, k))
  }

  /** `bitAt`: bit 0 is the lowest bit of the first byte; outside the data every bit is off. */
  predicate BitAt(raw: seq<byte>, bit: int) {
    0 <= bit < 8 * |raw| && And(raw[bit / 8], Pow2(bit % 8)) != 0
  }

  lemma OctetSet(bits: seq<bool>, i: nat)
    requires i < |bits| && bits[i]
    ensures Or(Value(Octet(bits[..i], i / 8)), Pow2(i % 8)) == Value(Octet(bits[..i + 1], i / 8)) < 256
  {
    var o := Octet(bits[..i], i / 8);
    assert |o| == i % 8;
    assert Octet(bits[..i + 1], i / 8) == o + [bits[i]];
    ValueBound(o);
    OrAbove(Value(o), i % 8);
    ValueSnoc(o, bits[i]);
    ValueBound(o + [bits[i]]);
    Pow2Mono(|o| + 1, 8);
  }

  lemma OctetsStep(bits: seq<bool>, i: nat, byteCount: nat)
    requires i < |bits|
    ensures forall k :: 0 <= k < byteCount && (k != i / 8 || !bits[i])
                    ==> Value(Octet(bits[..i], k)) == Value(Octet(bits[..i + 1], k))
  {
    forall k | 0 <= k < byteCount && (k != i / 8 || !bits[i])
      ensures Value(Octet(bits[..i], k)) == Value(Octet(bits[..i + 1], k))
    {
      if k != i / 8 {
        assert Octet(bits[..i + 1], k) == Octet(bits[..i], k);
      } else {
        assert Octet(bits[..i + 1], k) == Octet(bits[..i], k) + [false];
        ValueSnoc(Octet(bits[..i], k), false);
      }
    }
  }

  /** Packing then reading back is the identity, and the padding reads as off. */
  lemma UnpackPacked(bits: seq<bool>, i: int)
    ensures BitAt(PackBits(bits), i) == (0 <= i < |bits| && bits[i])
  {
    var data := PackBits(bits);
    if 0 <= i < 8 * |data| {
      var k, j := i / 8, i % 8;
      AndBit(data[k], j);
      ValueBit(Octet(bits, k), j);
    }
  }

  /** The coils sent in a multi-coil request are the ones asked for, bit by bit. */
  lemma MultiCoilsCarryBits(startAddr: int, quantity: int, bits: seq<bool>, i: nat)
    requires MultiCoilsPDU(startAddr, quantity, bits).Ok? && i < |bits|
    ensures BitAt(MultiCoilsPDU(startAddr, quantity, bits).value[6..], i) == bits[i]
  {
    assert MultiCoilsPDU(startAddr, quantity, bits).value[6..] == PackBits(bits);
    UnpackPacked(bits, i);
  }
}
