/**
 Write plans and their execution (`BuildWritePlan` in internal/engine/converter/value.go, `execWrite`
 in internal/engine/worker.go). The float64 argument is seen only through the conversions the code
 applies to it, so a `Written` carries those conversions' results.
*/
module WritePath {
  import opened Bits
  import opened Pdu
  import opened Slave
  import opened Props
  import opened Mapper

  datatype Written = Written(asInt64: int, float32Bits: nat, float64Bits: nat, nonZero: bool, text: seq<byte>)
  {
    predicate Valid() { IsInt64(asInt64) }
  }

  datatype WriteFrame = WriteFrame(pdu: seq<byte>, fc: byte, startAddr: int, quantity: int)

  datatype PlanError = InvalidValue | BadOrder | BadRequest(error: Error)

  datatype PlanResult = Plan(frames: seq<WriteFrame>) | NoPlan(error: PlanError)

  function DefaultWriteFC(dataType: DataType, regCount: int, isBitSpace: bool): int {
    if isBitSpace || dataType.BoolType? then 5
    else if dataType.StringType? then 16
    else if regCount <= 1 then 6
    else 16
  }

  function EffectiveFC(p: PropMeta): int {
    if p.writeFC == 0 then DefaultWriteFC(p.dataType, p.registerCount, p.IsBitSpace()) else p.writeFC
  }

  /** `encodeValueBytes` after the checks have passed: a float has two or four registers. */
  function EncodeValue(p: PropMeta, v: Written): (r: Mapped<seq<byte>>)
    requires p.registerCount >= 1
    requires p.dataType.FloatType? ==> p.registerCount == 2 || p.registerCount == 4
    ensures r.Good? ==> |r.value| == 2 * p.registerCount
  {
    var n := 2 * p.registerCount;
    match p.dataType
    case FloatType =>
      var b := IntBytes(if p.registerCount == 2 then v.float32Bits else v.float64Bits, n);
      if ApplyByteOrder(b, p.byteOrder).Good? then ByteOrderUndoesItself(b, p.byteOrder); ApplyByteOrder(b, p.byteOrder)
      else ApplyByteOrder(b, p.byteOrder)
    case StringType => Good(seq(n, i requires 0 <= i => if i < |v.text| then v.text[i] else 0))
    case _ =>
      var b := IntBytes(v.asInt64, n);
      if ApplyByteOrder(b, p.byteOrder).Good? then ByteOrderUndoesItself(b, p.byteOrder); ApplyByteOrder(b, p.byteOrder)
      else ApplyByteOrder(b, p.byteOrder)
  }

  function Framed(r: Result<seq<byte>>, fc: byte, startAddr: int, quantity: int): PlanResult {
    match r
    case Err(e) => NoPlan(BadRequest(e))
    case Ok(pdu) => Plan([WriteFrame(pdu, fc, startAddr, quantity)])
  }

  /** One FC06 frame per register, in address order. */
  function SplitPlan(data: seq<byte>, startAddr: int, n: nat): PlanResult
    requires 2 * n <= |data|
  {
    if n == 0 then Plan([])
    else
      var rest := SplitPlan(data, startAddr, n - 1);
      var last := BuildWriteSingleRegPDU(startAddr + n - 1, U16At(data, 2 * n - 2));
      if rest.NoPlan? then rest
      else if last.Err? then NoPlan(BadRequest(last.error))
      else Plan(rest.frames + [WriteFrame(last.value, WRITE_REG, startAddr + n - 1, 1)])
  }

  function BlockPlan(data: seq<byte>, startAddr: int, n: int): PlanResult {
    Framed(BuildWriteMultiRegsPDU(startAddr, n, data), WRITE_REGS, startAddr, n)
  }

  function CoilPlan(p: PropMeta, v: Written, startAddr: int, writeFC: int): PlanResult {
    var count := if p.IsBitSpace() then p.BitSpan() else p.registerCount;
    var span := if count < 1 then 1 else count;
    if writeFC == 5 || span == 1 then
      Framed(BuildWriteSingleCoilPDU(startAddr, v.nonZero), WRITE_COIL, startAddr, 1)
    else
      Framed(MultiCoilsPDU(startAddr, span, seq(span, i => i == 0 && v.nonZero)), WRITE_COILS, startAddr, span)
  }

  /** What `BuildWritePlan` returns. */
  function WritePlan(p: PropMeta, v: Written, startAddr: int): PlanResult {
    var fc := EffectiveFC(p);
    if p.registerCount < 1 then NoPlan(InvalidValue)
    else if !WriteCodeFits(p.dataType, p.registerCount, fc, p.IsBitSpace()) then NoPlan(InvalidValue)
    else if p.IsBitSpace() || fc == 5 || fc == 15 then CoilPlan(p, v, startAddr, fc)
    else
      match EncodeValue(p, v)
      case Bad(_) => NoPlan(BadOrder)
      case Good(data) =>
        if fc == 6 then SplitPlan(data, startAddr, p.registerCount) else BlockPlan(data, startAddr, p.registerCount)
  }

  method BuildWritePlan(p: PropMeta, v: Written, startAddr: int) returns (r: PlanResult)
    requires v.Valid()
    ensures r == WritePlan(p, v, startAddr)
  {
    var fc := EffectiveFC(p);
    if p.registerCount < 1 || !WriteCodeFits(p.dataType, p.registerCount, fc, p.IsBitSpace()) {
      return NoPlan(InvalidValue);
    }
    if p.IsBitSpace() || fc == 5 || fc == 15 {
      return CoilPlan(p, v, startAddr, fc);
    }
    var enc := EncodeValue(p, v);
    if enc.Bad? { return NoPlan(BadOrder); }
    var data := enc.value;
    if fc != 6 {
      return BlockPlan(data, startAddr, p.registerCount);
    }
    var frames := [];
    for i := 0 to p.registerCount
      invariant SplitPlan(data, startAddr, i) == Plan(frames)
    {
      var pdu := BuildWriteSingleRegPDU(startAddr + i, U16At(data, 2 * i));
      if pdu.Err? {
        SplitStopsEarly(data, startAddr, i + 1, p.registerCount);
        return NoPlan(BadRequest(pdu.error));
      }
      frames := frames + [WriteFrame(pdu.value, WRITE_REG, startAddr + i, 1)];
    }
    r := Plan(frames);
  }

  lemma {:induction false} SplitStopsEarly(data: seq<byte>, startAddr: int, i: nat, n: nat)
    requires i <= n && 2 * n <= |data| && SplitPlan(data, startAddr, i).NoPlan?
    ensures SplitPlan(data, startAddr, n) == SplitPlan(data, startAddr, i)
  {
    if i < n {
      SplitStopsEarly(data, startAddr, i, n - 1);
    }
  }

  // ---- running frames on a device

  function Run(dev: Device, frames: seq<WriteFrame>): (after: Device)
    requires dev.Valid()
    ensures after.Valid()
  {
    if frames == [] then dev else var n := |frames| - 1; Serve(Run(dev, frames[..n]), frames[n].pdu).1
  }

  lemma {:induction false} SplitLegal(data: seq<byte>, startAddr: int, n: nat)
    requires 2 * n <= |data|
    ensures SplitPlan(data, startAddr, n).Plan? <==> n == 0 || (0 <= startAddr && startAddr + n - 1 <= MAX_ADDRESS)
    ensures SplitPlan(data, startAddr, n).Plan? ==> |SplitPlan(data, startAddr, n).frames| == n
  {
    if n != 0 {
      SplitLegal(data, startAddr, n - 1);
    }
  }

  lemma {:induction false} SplitPrefix(data: seq<byte>, startAddr: int, k: nat, n: nat)
    requires k <= n && 2 * n <= |data| && SplitPlan(data, startAddr, n).Plan?
    ensures SplitPlan(data, startAddr, k).Plan? && |SplitPlan(data, startAddr, n).frames| == n
    ensures SplitPlan(data, startAddr, n).frames[..k] == SplitPlan(data, startAddr, k).frames
  {
    SplitLegal(data, startAddr, n);
    if k < n {
      SplitPrefix(data, startAddr, k, n - 1);
      SplitLegal(data, startAddr, n - 1);
    }
  }

  lemma {:induction false} RegistersAt(data: seq<byte>, k: nat)
    requires 2 * k + 1 < |data|
    ensures Registers(data)[k] == U16At(data, 2 * k)
  {
    if k > 0 {
      RegistersAt(data[2..], k - 1);
    }
  }

  /** Writing one more word extends the written block by one. */
  lemma OverwriteNext<T>(mem: seq<T>, addr: nat, values: seq<T>, k: nat)
    requires k < |values| && addr + |values| <= |mem|
    ensures Overwrite(Overwrite(mem, addr, values[..k]), addr + k, [values[k]]) == Overwrite(mem, addr, values[..k + 1])
  {
  }

  /** After k frames of a split write, exactly the first k registers hold their new words. */
  lemma {:induction false} SplitRun(data: seq<byte>, startAddr: int, n: nat, k: nat, dev: Device)
    requires dev.Valid() && 2 * n == |data| && k <= n && n >= 1 && SplitPlan(data, startAddr, n).Plan?
    ensures |SplitPlan(data, startAddr, n).frames| == n && 0 <= startAddr && startAddr + n <= |dev.holding|
    ensures Run(dev, SplitPlan(data, startAddr, n).frames[..k]) == WithWords(dev, startAddr, Registers(data)[..k])
  {
    SplitLegal(data, startAddr, n);
    if k == 0 {
      assert Overwrite(dev.holding, startAddr, Registers(data)[..0]) == dev.holding;
    } else {
      SplitRun(data, startAddr, n, k - 1, dev);
      var frames := SplitPlan(data, startAddr, n).frames;
      SplitFrame(data, startAddr, n, k);
      RunSnoc(dev, frames, k - 1);
      var before := WithWords(dev, startAddr, Registers(data)[..k - 1]);
      assert Run(dev, frames[..k - 1]) == before;
      NextRegister(dev, data, startAddr, k - 1, frames[k - 1].pdu);
    }
  }

  /** The device with consecutive holding registers replaced. */
  function WithWords(dev: Device, startAddr: nat, words: seq<u16>): (after: Device)
    requires dev.Valid() && startAddr + |words| <= MAX_ADDRESS + 1
    ensures after.Valid()
  {
    dev.(holding := Overwrite(dev.holding, startAddr, words))
  }

  lemma NextRegister(dev: Device, data: seq<byte>, startAddr: nat, k: nat, pdu: seq<byte>)
    requires dev.Valid() && 2 * k + 1 < |data| && startAddr + |data| / 2 <= MAX_ADDRESS + 1
    requires BuildWriteSingleRegPDU(startAddr + k, U16At(data, 2 * k)) == Ok(pdu)
    ensures Serve(WithWords(dev, startAddr, Registers(data)[..k]), pdu).1 ==
        WithWords(dev, startAddr, Registers(data)[..k + 1])
  {
    RegistersAt(data, k);
    SingleRegAfter(WithWords(dev, startAddr, Registers(data)[..k]), startAddr + k, U16At(data, 2 * k));
    OverwriteNext(dev.holding, startAddr, Registers(data), k);
  }

  lemma RunSnoc(dev: Device, frames: seq<WriteFrame>, k: nat)
    requires dev.Valid() && k < |frames|
    ensures Run(dev, frames[..k + 1]) == Serve(Run(dev, frames[..k]), frames[k].pdu).1
  {
    assert frames[..k + 1][..k] == frames[..k];
  }

  /** The k-th frame writes the k-th word. */
  lemma SplitFrame(data: seq<byte>, startAddr: int, n: nat, k: nat)
    requires 2 * n <= |data| && 1 <= k <= n && SplitPlan(data, startAddr, n).Plan?
    ensures |SplitPlan(data, startAddr, n).frames| == n
    ensures BuildWriteSingleRegPDU(startAddr + k - 1, U16At(data, 2 * k - 2)) ==
        Ok(SplitPlan(data, startAddr, n).frames[k - 1].pdu)
  {
    SplitPrefix(data, startAddr, k, n);
    SplitLegal(data, startAddr, k);
    SplitLegal(data, startAddr, k - 1);
    assert SplitPlan(data, startAddr, n).frames[k - 1] == SplitPlan(data, startAddr, n).frames[..k][k - 1];
  }

  lemma SingleRegAfter(dev: Device, addr: int, value: u16)
    requires dev.Valid() && BuildWriteSingleRegPDU(addr, value).Ok?
    ensures Serve(dev, BuildWriteSingleRegPDU(addr, value).value).1 ==
        dev.(holding := Overwrite(dev.holding, addr, [value]))
  {
    SingleRegServed(dev, addr, value);
  }

  /**
   Splitting refines the block write: for up to 123 registers the two plans exist for the same
   addresses, and leave the same device behind.
  */
  lemma SplitRefinesBlock(data: seq<byte>, startAddr: int, n: nat, dev: Device)
    requires dev.Valid() && 1 <= n <= MAX_WRITE_REGISTERS && |data| == 2 * n
    ensures SplitPlan(data, startAddr, n).Plan? <==> BlockPlan(data, startAddr, n).Plan?
    ensures SplitPlan(data, startAddr, n).Plan? ==>
              Run(dev, SplitPlan(data, startAddr, n).frames) == Run(dev, BlockPlan(data, startAddr, n).frames)
  {
    SplitLegal(data, startAddr, n);
    if SplitPlan(data, startAddr, n).Plan? {
      SplitRun(data, startAddr, n, n, dev);
      var frames := SplitPlan(data, startAddr, n).frames;
      assert frames[..n] == frames;
      assert Registers(data)[..n] == Registers(data);
      MultiRegsServed(dev, startAddr, n, data);
      var block := BlockPlan(data, startAddr, n).frames;
      assert block[..0] == [];
    }
  }

  // ---- what the device holds afterwards

  /** Resending a frame the device already performed changes nothing. */
  lemma ResendIdempotent(dev: Device, pdu: seq<byte>)
    requires dev.Valid()
    ensures Serve(Serve(dev, pdu).1, pdu) == (Serve(dev, pdu).0, Serve(dev, pdu).1)
  {
    var after := Serve(dev, pdu).1;
    if after != dev {
      var addr, arg := U16At(pdu, 1), U16At(pdu, 3);
      if pdu[0] == WRITE_COIL {
        OverwriteTwice(dev.coils, addr, [arg == 0xFF00]);
      } else if pdu[0] == WRITE_REG {
        OverwriteTwice(dev.holding, addr, [arg]);
      } else if pdu[0] == WRITE_COILS {
        OverwriteTwice(dev.coils, addr, seq(arg, i requires i >= 0 => BitAt(pdu[6..], i)));
      } else {
        OverwriteTwice(dev.holding, addr, Registers(pdu[6..]));
      }
    }
  }

  lemma OverwriteTwice<T>(mem: seq<T>, addr: nat, values: seq<T>)
    requires addr + |values| <= |mem|
    ensures Overwrite(Overwrite(mem, addr, values), addr, values) == Overwrite(mem, addr, values)
  {
  }

  /** Once all its frames have run, a split write is complete: all its registers are written. */
  lemma SplitIsComplete(data: seq<byte>, startAddr: int, n: nat, dev: Device)
    requires dev.Valid() && n >= 1 && 2 * n == |data| && SplitPlan(data, startAddr, n).Plan?
    ensures 0 <= startAddr && startAddr + n <= |dev.holding|
    ensures Run(dev, SplitPlan(data, startAddr, n).frames).holding[startAddr..startAddr + n] == Registers(data)
  {
    SplitRun(data, startAddr, n, n, dev);
    var frames := SplitPlan(data, startAddr, n).frames;
    assert frames[..n] == frames;
    assert Registers(data)[..n] == Registers(data);
  }

  // ---- write, then read

  lemma {:induction false} BytesOfRegisters(data: seq<byte>)
    requires |data| % 2 == 0
    ensures RegisterBytes(Registers(data)) == data
  {
    if data != [] {
      BytesOfRegisters(data[2..]);
      assert PutU16(U16At(data, 0)) == data[..2];
      assert data == data[..2] + data[2..];
    }
  }

  /**
   The round trip over the line: an integer property written by either function code and read back
   by code 03 interprets, at full width, as the integer that was written.
  */
  lemma WriteThenRead(p: PropMeta, v: Written, startAddr: int, dev: Device)
    requires dev.Valid() && v.Valid() && p.dataType.IntType? && !p.IsBitSpace()
    requires p.startBit == 0 && p.endBit == 16 * p.registerCount - 1
    requires p.signed == None || p.signed == Some(true)
    requires 1 <= p.registerCount <= MAX_WRITE_REGISTERS && FitsSigned(v.asInt64, 2 * p.registerCount)
    requires WritePlan(p, v, startAddr).Plan?
    ensures 0 <= startAddr && startAddr + p.registerCount <= MAX_ADDRESS + 1
    ensures ReadInt(ReadData(Run(dev, WritePlan(p, v, startAddr).frames), READ_HOLDING, startAddr, p.registerCount),
                    p.byteOrder, p.startBit, p.endBit, p.signed) == Good(v.asInt64)
  {
    var data := IntStored(p, v, startAddr, dev);
    IntRoundTrip(v.asInt64, p.registerCount, p.byteOrder, p.signed, data);
  }

  /** The plan of an integer property carries its bytes, in the device's order. */
  lemma IntPlan(p: PropMeta, v: Written, startAddr: int) returns (data: seq<byte>)
    requires p.dataType.IntType? && !p.IsBitSpace() && p.registerCount >= 1 && WritePlan(p, v, startAddr).Plan?
    ensures ApplyByteOrder(IntBytes(v.asInt64, 2 * p.registerCount), p.byteOrder) == Good(data)
    ensures |data| == 2 * p.registerCount
    ensures WritePlan(p, v, startAddr) == SplitPlan(data, startAddr, p.registerCount)
         || WritePlan(p, v, startAddr) == BlockPlan(data, startAddr, p.registerCount)
  {
    data := EncodeValue(p, v).value;
  }

  lemma IntStored(p: PropMeta, v: Written, startAddr: int, dev: Device) returns (data: seq<byte>)
    requires dev.Valid() && p.dataType.IntType? && !p.IsBitSpace()
    requires 1 <= p.registerCount <= MAX_WRITE_REGISTERS && WritePlan(p, v, startAddr).Plan?
    ensures ApplyByteOrder(IntBytes(v.asInt64, 2 * p.registerCount), p.byteOrder) == Good(data)
    ensures 0 <= startAddr && startAddr + p.registerCount <= MAX_ADDRESS + 1
    ensures ReadData(Run(dev, WritePlan(p, v, startAddr).frames), READ_HOLDING, startAddr, p.registerCount) == data
  {
    data := IntPlan(p, v, startAddr);
    StoredThenRead(data, startAddr, p.registerCount, dev);
  }

  /** Whatever bytes either plan carries, reading the registers back returns them. */
  lemma StoredThenRead(data: seq<byte>, startAddr: int, n: nat, dev: Device)
    requires dev.Valid() && 1 <= n <= MAX_WRITE_REGISTERS && |data| == 2 * n
    requires SplitPlan(data, startAddr, n).Plan? || BlockPlan(data, startAddr, n).Plan?
    ensures SplitPlan(data, startAddr, n).Plan? && BlockPlan(data, startAddr, n).Plan?
    ensures 0 <= startAddr && startAddr + n <= MAX_ADDRESS + 1
    ensures ReadData(Run(dev, SplitPlan(data, startAddr, n).frames), READ_HOLDING, startAddr, n) == data
    ensures ReadData(Run(dev, BlockPlan(data, startAddr, n).frames), READ_HOLDING, startAddr, n) == data
  {
    SplitRefinesBlock(data, startAddr, n, dev);
    SplitIsComplete(data, startAddr, n, dev);
    BytesOfRegisters(data);
  }
}
