/**
 Exactly which buffers the four decoders accept (internal/engine/converter/modbus/modbus.go): the
 converse of decoding what a conforming slave sends.
*/
module Acceptance {
  import opened Bits
  import opened Crc
  import opened Pdu
  import opened Frames
  import Receive

  /** The buffer starts with a whole frame from the awaited unit, carrying this PDU. */
  ghost predicate StartsWith(a: Await, buf: seq<byte>, pdu: seq<byte>) {
    && (if a.link.Rtu? then |pdu| + 3 == a.RtuLen() else |pdu| < 0xFFFF)
    && BuildFrame(a.link, a.unitID, pdu) <= buf
  }

  /** A read reply holds the data and perhaps more bytes; a write reply names the address written. */
  ghost predicate Carries(a: Await, pdu: seq<byte>, data: seq<byte>) {
    match a
    case ReadReply(_, _, fc, quantity) =>
      |data| <= ReadRespByteCount(fc, quantity) && |data| < 256 && [fc, |data|] + data <= pdu
    case WriteReply(_, _, fc, startAddr, _) =>
      data == [] && |pdu| >= 5 && pdu[0] == fc && (IsValidWriteFC(fc) ==> U16At(pdu, 1) == startAddr)
  }

  lemma ParsesIff(a: Await, pdu: seq<byte>, data: seq<byte>)
    requires a.fc < 128
    ensures a.ParsePDU(pdu) == Ok(data) <==> Carries(a, pdu, data)
  {
    if pdu != [] {
      ExceptionFlag(pdu[0]);
    }
    if a.ReadReply? && |pdu| >= 2 && a.ParsePDU(pdu) == Ok(data) {
      assert pdu[..2 + |data|] == [a.fc, |data|] + data;
    }
    if a.ReadReply? && Carries(a, pdu, data) {
      var head: seq<byte> := [a.fc, |data|] + data;
      assert pdu[0] == head[0] && pdu[1] == head[1];
      assert pdu[2..2 + |data|] == head[2..] == data;
    }
  }

  /** A frame that passes its checksum is some message with its checksum appended. */
  lemma CheckedIsAppended(frame: seq<byte>)
    requires CheckCRC(frame)
    ensures frame == AppendCRC(frame[..|frame| - 2])
  {
  }

  lemma RtuPduOf(a: Await, buf: seq<byte>) returns (pdu: seq<byte>)
    requires a.link.Rtu? && a.Decode(buf).Ok?
    ensures StartsWith(a, buf, pdu) && a.ParsePDU(pdu) == a.Decode(buf)
  {
    var frame := buf[..a.RtuLen()];
    pdu := frame[1..|frame| - 2];
    CheckedIsAppended(frame);
    assert frame[..|frame| - 2] == [a.unitID] + pdu;
  }

  lemma TcpPduOf(a: Await, buf: seq<byte>) returns (pdu: seq<byte>)
    requires a.link.Tcp? && a.Decode(buf).Ok?
    ensures StartsWith(a, buf, pdu) && a.ParsePDU(pdu) == a.Decode(buf)
  {
    var n := TcpParseFrameLen(buf);
    var frame := buf[..n];
    pdu := frame[7..n];
    SplitWord(frame[0], frame[1]);
    SplitWord(frame[2], frame[3]);
    SplitWord(frame[4], frame[5]);
    assert frame == TcpBuildFrame(a.link.tid, a.unitID, pdu);
  }

  lemma SplitWord(hi: byte, lo: byte)
    ensures PutU16(U16At([hi, lo], 0)) == [hi, lo]
  {
  }

  lemma StartDecodes(a: Await, buf: seq<byte>, pdu: seq<byte>)
    requires a.fc < 128 && StartsWith(a, buf, pdu) && a.ParsePDU(pdu).Ok?
    ensures a.Decode(buf) == a.ParsePDU(pdu)
  {
    var frame := BuildFrame(a.link, a.unitID, pdu);
    ExceptionFlag(a.fc);
    if a.link.Rtu? {
      RtuDecodeBuilt(a, pdu);
    } else {
      TcpDecodeBuilt(a, pdu);
    }
    Receive.DecodeStable(a, frame, buf[|frame|..]);
    assert buf == frame + buf[|frame|..];
  }

  /**
   A decoder accepts a buffer exactly when it starts with a whole, intact frame from the awaited
   unit - over TCP with the awaited transaction id - that carries the result.
  */
  lemma AcceptsIff(a: Await, buf: seq<byte>, data: seq<byte>)
    requires a.fc < 128
    ensures a.Decode(buf) == Ok(data) <==> exists pdu :: StartsWith(a, buf, pdu) && Carries(a, pdu, data)
  {
    if a.Decode(buf) == Ok(data) {
      var pdu: seq<byte>;
      if a.link.Rtu? {
        pdu := RtuPduOf(a, buf);
      } else {
        pdu := TcpPduOf(a, buf);
      }
      ParsesIff(a, pdu, data);
    }
    if pdu :| StartsWith(a, buf, pdu) && Carries(a, pdu, data) {
      ParsesIff(a, pdu, data);
      StartDecodes(a, buf, pdu);
    }
  }

  /** The byte count is only an upper bound: any smaller amount of data is accepted as the reply. */
  lemma AcceptsFewer(a: Await, data: seq<byte>) returns (buf: seq<byte>)
    requires a.ReadReply? && a.fc < 128
    requires |data| <= ReadRespByteCount(a.fc, a.quantity) < 256
    ensures a.Decode(buf) == Ok(data)
  {
    var head: seq<byte> := [a.fc, |data|] + data;
    var pdu := head + seq(ReadRespByteCount(a.fc, a.quantity) - |data|, i => 0);
    buf := BuildFrame(a.link, a.unitID, pdu);
    assert head <= pdu;
    assert StartsWith(a, buf, pdu) && Carries(a, pdu, data);
    AcceptsIff(a, buf, data);
  }

  /** The value or quantity echoed by a write reply is not looked at. */
  lemma EchoIgnored(a: Await, value: u16)
    requires a.WriteReply? && a.fc < 128 && 0 <= a.startAddr < 0x1_0000
    requires a.link.Tcp? || a.fc == WRITE_COILS || a.fc == WRITE_REGS
    ensures a.Decode(BuildFrame(a.link, a.unitID, [a.fc] + PutU16(a.startAddr) + PutU16(value))) == Ok([])
  {
    var pdu := [a.fc] + PutU16(a.startAddr) + PutU16(value);
    var buf := BuildFrame(a.link, a.unitID, pdu);
    assert U16At(pdu, 1) == a.startAddr;
    assert StartsWith(a, buf, pdu) && Carries(a, pdu, []);
    AcceptsIff(a, buf, []);
  }
}
