/**
 Frames on the wire and their decoders (internal/engine/converter/modbus/rtu.go, tcp.go and
 modbus.go). `Link` says which of the two protocols is spoken; on TCP it carries the transaction id
 that pairs a reply with its request.
*/
module Frames {
  import opened Bits
  import opened Crc
  import opened Pdu

  datatype Link = Rtu | Tcp(tid: u16)

  // ---- framing

  const RTU_EXCEPTION_LEN := 5
  const MBAP_LEN := 7

  function RtuBuildFrame(unitID: byte, pdu: seq<byte>): seq<byte> {
    AppendCRC([unitID] + pdu)
  }

  function TcpBuildFrame(tid: u16, unitID: byte, pdu: seq<byte>): seq<byte> {
    PutU16(tid) + [0, 0] + PutU16((1 + |pdu|) % 0x1_0000) + [unitID] + pdu
  }

  function BuildFrame(link: Link, unitID: byte, pdu: seq<byte>): seq<byte> {
    match link
    case Rtu => RtuBuildFrame(unitID, pdu)
    case Tcp(tid) => TcpBuildFrame(tid, unitID, pdu)
  }

  /** `TCP`: the only state of the codec is the counter that transaction ids come from. */
  class TcpCodec {
    var tid: nat

    ghost predicate Valid() reads this { tid < 0x1_0000_0000 }

    constructor ()
      ensures Valid() && tid == 0
    {
      tid := 0;
    }

    method NextTID() returns (id: u16)
      requires Valid()
      modifies this
      ensures Valid() && tid == (old(tid) + 1) % 0x1_0000_0000
      ensures id == (old(tid) + 1) % 0x1_0000
    {
      tid := (tid + 1) % 0x1_0000_0000;
      id := tid % 0x1_0000;
    }

    /** A rejected request uses up no transaction id. */
    method EncodeRead(unitID: byte, fc: byte, startAddr: int, quantity: int)
      returns (frame: Result<seq<byte>>, id: u16)
      requires Valid()
      modifies this
      ensures Valid()
      ensures frame.Ok? <==> ValidReadRequest(fc, startAddr, quantity)
      ensures frame.Ok? ==> id == (old(tid) + 1) % 0x1_0000 && tid == (old(tid) + 1) % 0x1_0000_0000
                            && frame.value == BuildFrame(Tcp(id), unitID, BuildReadPDU(fc, startAddr, quantity).value)
      ensures frame.Err? ==> frame.error == InvalidAddress && tid == old(tid)
    {
      var pdu := BuildReadPDU(fc, startAddr, quantity);
      if pdu.Err? {
        return pdu, 0;
      }
      id := NextTID();
      frame := Ok(BuildFrame(Tcp(id), unitID, pdu.value));
    }
  }

  // ---- RTU decoding

  function TryRtuException(buf: seq<byte>, expectUnitID: byte, fc: byte): Result<()> {
    if |buf| < RTU_EXCEPTION_LEN then Ok(())
    else
      var frame := buf[..RTU_EXCEPTION_LEN];
      if frame[0] != expectUnitID then Ok(())
      else if frame[1] != Or(fc, 0x80) then Ok(())
      else if !CheckCRC(frame) then Ok(())
      else Err(Exception(frame[1], frame[2]))
  }

  function RtuExtractPDU(frame: seq<byte>, expectUnitID: byte): Result<seq<byte>> {
    if |frame| < RTU_EXCEPTION_LEN then Err(ShortFrame)
    else if frame[0] != expectUnitID then Err(UnitIDMismatch)
    else if !CheckCRC(frame) then Err(CRCMismatch)
    else Ok(frame[1..|frame| - 2])
  }

  function RtuReadRespLen(fc: byte, quantity: nat): nat {
    1 + 1 + 1 + ReadRespByteCount(fc, quantity) + 2
  }

  /** Six bytes for single writes, although their echo has eight. */
  function RtuWriteRespLen(fc: byte): nat {
    if fc == WRITE_REGS || fc == WRITE_COILS then 8 else 6
  }

  /** Both RTU decoders: probe for an exception, wait for `expectedLen` bytes, then parse. */
  function RtuDecode(buf: seq<byte>, expectUnitID: byte, fc: byte, expectedLen: nat,
                     parse: seq<byte> -> Result<seq<byte>>): Result<seq<byte>> {
    var exc := TryRtuException(buf, expectUnitID, fc);
    if exc.Err? then Err(exc.error)
    else if |buf| < expectedLen then Err(ShortFrame)
    else
      var pdu := RtuExtractPDU(buf[..expectedLen], expectUnitID);
      if pdu.Err? then pdu else parse(pdu.value)
  }

  // ---- TCP decoding

  function TcpParseFrameLen(header: seq<byte>): nat {
    if |header| < 6 then 0 else 6 + U16At(header, 4)
  }

  function TcpExtractPDU(frame: seq<byte>, expectTID: u16, expectUnitID: byte): Result<seq<byte>> {
    if |frame| < MBAP_LEN then Err(ShortFrame)
    else if U16At(frame, 0) != expectTID then Err(TransactionIDMismatch)
    else if U16At(frame, 2) != 0 then Err(ProtocolIDMismatch)
    else
      var length := U16At(frame, 4);
      if length < 1 || |frame| < 6 + length then Err(ShortFrame)
      else if frame[6] != expectUnitID then Err(UnitIDMismatch)
      else Ok(frame[7..6 + length])
  }

  function TcpDecode(buf: seq<byte>, expectTID: u16, expectUnitID: byte,
                     parse: seq<byte> -> Result<seq<byte>>): Result<seq<byte>> {
    if |buf| < MBAP_LEN then Err(ShortFrame)
    else
      var totalLen := TcpParseFrameLen(buf);
      if |buf| < totalLen then Err(ShortFrame)
      else
        var pdu := TcpExtractPDU(buf[..totalLen], expectTID, expectUnitID);
        if pdu.Err? then pdu else parse(pdu.value)
  }

  // ---- the four decoders

  /** What a request waits for, and how the bytes received so far are read. */
  datatype Await =
    | ReadReply(link: Link, unitID: byte, fc: byte, quantity: nat)
    | WriteReply(link: Link, unitID: byte, fc: byte, startAddr: int, quantity: nat)
  {
    function ParsePDU(pdu: seq<byte>): Result<seq<byte>> {
      match this
      case ReadReply(_, _, fc, quantity) => ParseReadPDU(pdu, fc, quantity)
      case WriteReply(_, _, fc, startAddr, quantity) => ParseWritePDU(pdu, fc, startAddr, quantity)
    }

    function RtuLen(): nat {
      if ReadReply? then RtuReadRespLen(fc, quantity) else RtuWriteRespLen(fc)
    }

    /** `DecodeRead` and `DecodeWrite` of RTU and TCP. */
    function Decode(buf: seq<byte>): Result<seq<byte>> {
      match link
      case Rtu => RtuDecode(buf, unitID, fc, RtuLen(), pdu => ParsePDU(pdu))
      case Tcp(tid) => TcpDecode(buf, tid, unitID, pdu => ParsePDU(pdu))
    }
  }

  // ---- what a decoder makes of a well-formed frame

  /** A frame built for this unit decodes to whatever its PDU parses to. */
  lemma RtuDecodeBuilt(a: Await, pdu: seq<byte>)
    requires a.link == Rtu && a.RtuLen() == |pdu| + 3 >= 5
    requires a.fc < 128 && pdu[0] != Or(a.fc, 0x80)
    ensures a.Decode(RtuBuildFrame(a.unitID, pdu)) == a.ParsePDU(pdu)
  {
    var frame := RtuBuildFrame(a.unitID, pdu);
    AppendThenCheck([a.unitID] + pdu);
    assert frame[1] == pdu[0];
    assert frame[..|frame|] == frame;
    assert frame[1..|frame| - 2] == pdu;
  }

  lemma TcpDecodeBuilt(a: Await, pdu: seq<byte>)
    requires a.link.Tcp? && |pdu| < 0xFFFF
    ensures a.Decode(TcpBuildFrame(a.link.tid, a.unitID, pdu)) == a.ParsePDU(pdu)
  {
    var frame := TcpBuildFrame(a.link.tid, a.unitID, pdu);
    assert U16At(frame, 4) == 1 + |pdu|;
    assert U16At(frame, 0) == a.link.tid;
    assert frame[..|frame|] == frame;
    assert frame[7..6 + (1 + |pdu|)] == pdu;
  }
}
