/**
 The device at the other end of the line, as the MODBUS Application Protocol Specification V1.1b3
 describes it (sections 6.1 to 6.6, 6.11 and 6.12), and one full exchange with it over either link.
*/
module Slave {
  import opened Bits
  import opened Crc
  import opened Pdu
  import opened Frames

  /** The four tables of a device, each addressed from 0 to 65535. */
  datatype Device = Device(coils: seq<bool>, discrete: seq<bool>, holding: seq<u16>, input: seq<u16>)
  {
    ghost predicate Valid() {
      |coils| == |discrete| == |holding| == |input| == MAX_ADDRESS + 1
    }
  }

  function RegisterBytes(regs: seq<u16>): (data: seq<byte>)
    ensures |data| == 2 * |regs|
  {
    if regs == [] then [] else PutU16(regs[0]) + RegisterBytes(regs[1..])
  }

  function Registers(data: seq<byte>): (regs: seq<u16>)
    ensures |regs| == |data| / 2
  {
    if |data| < 2 then [] else [U16At(data, 0)] + Registers(data[2..])
  }

  /** The data field of the reply to a read of `quantity` units from `start`. */
  function ReadData(dev: Device, fc: byte, start: nat, quantity: nat): (data: seq<byte>)
    requires dev.Valid() && 1 <= fc <= 4 && start + quantity <= MAX_ADDRESS + 1
    ensures |data| == ReadRespByteCount(fc, quantity)
  {
    if fc == READ_COILS then PackBits(dev.coils[start..start + quantity])
    else if fc == READ_DISCRETE then PackBits(dev.discrete[start..start + quantity])
    else if fc == READ_HOLDING then RegisterBytes(dev.holding[start..start + quantity])
    else RegisterBytes(dev.input[start..start + quantity])
  }

  function Refuse(fc: byte, code: byte): seq<byte> { [Or(fc, 0x80) % 256, code] }

  function Overwrite<T>(mem: seq<T>, addr: nat, values: seq<T>): (r: seq<T>)
    requires addr + |values| <= |mem|
    ensures |r| == |mem|
  {
    mem[..addr] + values + mem[addr + |values|..]
  }

  /** One request served: the reply, and the device afterwards. */
  function Serve(dev: Device, pdu: seq<byte>): (r: (seq<byte>, Device))
    requires dev.Valid()
    ensures r.1.Valid()
  {
    if pdu == [] then ([], dev)
    else if |pdu| < 5 then (Refuse(pdu[0], 3), dev)
    else
      var fc, addr, arg := pdu[0], U16At(pdu, 1), U16At(pdu, 3);
      if 1 <= fc <= 4 then
        if arg < 1 || arg > (if fc <= 2 then 0x7D0 else 0x7D) then (Refuse(fc, 3), dev)
        else if addr + arg > MAX_ADDRESS + 1 then (Refuse(fc, 2), dev)
        else
          var data := ReadData(dev, fc, addr, arg);
          ([fc, |data|] + data, dev)
      else if fc == WRITE_COIL then
        if arg != 0 && arg != 0xFF00 then (Refuse(fc, 3), dev)
        else (pdu[..5], dev.(coils := Overwrite(dev.coils, addr, [arg == 0xFF00])))
      else if fc == WRITE_REG then
        (pdu[..5], dev.(holding := Overwrite(dev.holding, addr, [arg])))
      else if fc == WRITE_COILS then
        if arg < 1 || arg > 0x7B0 || |pdu| != 6 + (arg + 7) / 8 || pdu[5] != (arg + 7) / 8 then (Refuse(fc, 3), dev)
        else if addr + arg > MAX_ADDRESS + 1 then (Refuse(fc, 2), dev)
        else (pdu[..5], dev.(coils := Overwrite(dev.coils, addr, seq(arg, i requires i >= 0 => BitAt(pdu[6..], i)))))
      else if fc == WRITE_REGS then
        if arg < 1 || arg > 0x7B || |pdu| != 6 + 2 * arg || pdu[5] != 2 * arg then (Refuse(fc, 3), dev)
        else if addr + arg > MAX_ADDRESS + 1 then (Refuse(fc, 2), dev)
        else (pdu[..5], dev.(holding := Overwrite(dev.holding, addr, Registers(pdu[6..]))))
      else (Refuse(fc, 1), dev)
  }

  /** A frame reaching a device with this address: silence unless it is intact and meant for it. */
  function Answer(link: Link, unitID: byte, dev: Device, frame: seq<byte>): (r: (seq<byte>, Device))
    requires dev.Valid()
    ensures r.1.Valid()
  {
    match link
    case Rtu =>
      if |frame| < 4 || frame[0] != unitID || !CheckCRC(frame) then ([], dev)
      else
        var (reply, after) := Serve(dev, frame[1..|frame| - 2]);
        (RtuBuildFrame(unitID, reply), after)
    case Tcp(_) =>
      if |frame| < 8 || U16At(frame, 2) != 0 || |frame| != 6 + U16At(frame, 4) || frame[6] != unitID then ([], dev)
      else
        var (reply, after) := Serve(dev, frame[7..]);
        (TcpBuildFrame(U16At(frame, 0), unitID, reply), after)
  }

  /** Whatever PDU is framed and sent, the device serves exactly that PDU. */
  lemma AnswerServes(link: Link, unitID: byte, dev: Device, pdu: seq<byte>)
    requires dev.Valid() && 0 < |pdu| < 0xFFFF
    ensures Answer(link, unitID, dev, BuildFrame(link, unitID, pdu)) ==
            (BuildFrame(link, unitID, Serve(dev, pdu).0), Serve(dev, pdu).1)
  {
    var frame := BuildFrame(link, unitID, pdu);
    match link
    case Rtu =>
      AppendThenCheck([unitID] + pdu);
      assert frame[1..|frame| - 2] == pdu;
    case Tcp(tid) =>
      assert U16At(frame, 0) == tid && U16At(frame, 2) == 0 && U16At(frame, 4) == 1 + |pdu|;
      assert frame[7..] == pdu;
  }

  /** Encode a read, let the device answer, decode the reply. */
  function Exchange(link: Link, unitID: byte, dev: Device, fc: byte, start: int, quantity: nat): Result<seq<byte>>
    requires dev.Valid()
  {
    match BuildReadPDU(fc, start, quantity)
    case Err(e) => Err(e)
    case Ok(pdu) =>
      var reply := Answer(link, unitID, dev, BuildFrame(link, unitID, pdu)).0;
      ReadReply(link, unitID, fc, quantity).Decode(reply)
  }

  /** One read over either link: a legal request brings back exactly the device's data. */
  lemma ReadExchange(link: Link, unitID: byte, dev: Device, fc: byte, start: int, quantity: int)
    requires dev.Valid() && IsValidReadFC(fc) && ValidReadRequest(fc, start, quantity)
    ensures Exchange(link, unitID, dev, fc, start, quantity) == Ok(ReadData(dev, fc, start, quantity))
  {
    var pdu := BuildReadPDU(fc, start, quantity).value;
    AnswerServes(link, unitID, dev, pdu);
    ReadServed(dev, fc, start, quantity);
    var reply := Serve(dev, pdu).0;
    assert Answer(link, unitID, dev, BuildFrame(link, unitID, pdu)).0 == BuildFrame(link, unitID, reply);
    ReadReplyDecodes(link, unitID, fc, quantity, ReadData(dev, fc, start, quantity));
  }

  /** A reply of the expected size decodes to its data. */
  lemma ReadReplyDecodes(link: Link, unitID: byte, fc: byte, quantity: nat, data: seq<byte>)
    requires IsValidReadFC(fc) && quantity > 0 && |data| == ReadRespByteCount(fc, quantity) < 256
    ensures ReadReply(link, unitID, fc, quantity).Decode(BuildFrame(link, unitID, [fc, |data|] + data)) == Ok(data)
  {
    var a, reply: seq<byte> := ReadReply(link, unitID, fc, quantity), [fc, |data|] + data;
    ExceptionFlag(fc);
    assert reply[2..2 + |data|] == data;
    assert a.ParsePDU(reply) == Ok(data);
    if link.Rtu? {
      RtuDecodeBuilt(a, reply);
    } else {
      TcpDecodeBuilt(a, reply);
    }
  }

  lemma ReadServed(dev: Device, fc: byte, start: int, quantity: int)
    requires dev.Valid() && IsValidReadFC(fc) && ValidReadRequest(fc, start, quantity)
    ensures var data := ReadData(dev, fc, start, quantity);
            |data| < 256 && Serve(dev, BuildReadPDU(fc, start, quantity).value) == ([fc, |data|] + data, dev)
  {
    var pdu := BuildReadPDU(fc, start, quantity).value;
    assert U16At(pdu, 1) == start && U16At(pdu, 3) == quantity;
  }

  /** The request PDUs the write builders produce, and what the device does with them. */
  ghost predicate WriteRequest(pdu: seq<byte>, fc: byte, start: int, dev: Device, after: Device)
    requires dev.Valid()
  {
    |pdu| >= 5 && pdu[0] == fc && IsValidWriteFC(fc) && U16At(pdu, 1) == start && Serve(dev, pdu) == (pdu[..5], after)
  }

  lemma SingleRegServed(dev: Device, start: int, value: u16)
    requires dev.Valid() && BuildWriteSingleRegPDU(start, value).Ok?
    ensures WriteRequest(BuildWriteSingleRegPDU(start, value).value, WRITE_REG, start, dev,
                         dev.(holding := Overwrite(dev.holding, start, [value])))
  {
    var pdu := BuildWriteSingleRegPDU(start, value).value;
    assert U16At(pdu, 1) == start && U16At(pdu, 3) == value;
  }

  lemma MultiRegsServed(dev: Device, start: int, quantity: int, data: seq<byte>)
    requires dev.Valid() && BuildWriteMultiRegsPDU(start, quantity, data).Ok?
    ensures WriteRequest(BuildWriteMultiRegsPDU(start, quantity, data).value, WRITE_REGS, start, dev,
                         dev.(holding := Overwrite(dev.holding, start, Registers(data))))
  {
    var pdu := BuildWriteMultiRegsPDU(start, quantity, data).value;
    assert U16At(pdu, 1) == start && U16At(pdu, 3) == quantity && pdu[5] == |data|;
    assert pdu[6..] == data;
  }

  lemma SingleCoilServed(dev: Device, start: int, on: bool)
    requires dev.Valid() && BuildWriteSingleCoilPDU(start, on).Ok?
    ensures WriteRequest(BuildWriteSingleCoilPDU(start, on).value, WRITE_COIL, start, dev,
                         dev.(coils := Overwrite(dev.coils, start, [on])))
  {
    var pdu := BuildWriteSingleCoilPDU(start, on).value;
    assert U16At(pdu, 1) == start && U16At(pdu, 3) == if on then 0xFF00 else 0;
  }

  lemma MultiCoilsServed(dev: Device, start: int, quantity: int, bits: seq<bool>)
    requires dev.Valid() && MultiCoilsPDU(start, quantity, bits).Ok?
    ensures WriteRequest(MultiCoilsPDU(start, quantity, bits).value, WRITE_COILS, start, dev,
                         dev.(coils := Overwrite(dev.coils, start, bits)))
  {
    var pdu := MultiCoilsPDU(start, quantity, bits).value;
    assert U16At(pdu, 1) == start && U16At(pdu, 3) == quantity;
    assert pdu[6..] == PackBits(bits);
    forall i | 0 <= i < quantity ensures BitAt(PackBits(bits), i) == bits[i] {
      UnpackPacked(bits, i);
    }
    assert seq(quantity, i requires i >= 0 => BitAt(pdu[6..], i)) == bits;
  }

  /**
   One write over either link. The device performs it, but the answer is accepted exactly when the
   link is not RTU or the function is one of the block writes: on RTU the decoder cuts the eight-byte
   echo of a single write down to six bytes.
  */
  lemma WriteExchange(link: Link, unitID: byte, pdu: seq<byte>, fc: byte, start: int, quantity: nat, dev: Device,
                      after: Device)
    requires dev.Valid() && |pdu| < 0xFFFF && WriteRequest(pdu, fc, start, dev, after)
    ensures Answer(link, unitID, dev, BuildFrame(link, unitID, pdu)).1 == after
    ensures var reply := Answer(link, unitID, dev, BuildFrame(link, unitID, pdu)).0;
            WriteReply(link, unitID, fc, start, quantity).Decode(reply).Ok?
            <==> link.Tcp? || fc == WRITE_COILS || fc == WRITE_REGS
  {
    AnswerServes(link, unitID, dev, pdu);
    var a := WriteReply(link, unitID, fc, start, quantity);
    ExceptionFlag(fc);
    assert U16At(pdu[..5], 1) == start;
    assert a.ParsePDU(pdu[..5]) == Ok([]);
    if link.Tcp? {
      TcpDecodeBuilt(a, pdu[..5]);
    } else if RtuWriteRespLen(fc) == 8 {
      RtuDecodeBuilt(a, pdu[..5]);
    } else {
      RtuSingleWriteNeverAccepted(a, RtuBuildFrame(unitID, pdu[..5]));
    }
  }

  /** No bytes whatever make the RTU decoder accept the answer to a single write. */
  lemma RtuSingleWriteNeverAccepted(a: Await, buf: seq<byte>)
    requires a.WriteReply? && a.link == Rtu && (a.fc == WRITE_COIL || a.fc == WRITE_REG)
    ensures !a.Decode(buf).Ok?
  {
    if |buf| >= 6 {
      assert |buf[..6][1..4]| == 3;
    }
  }
}
