/**
 Carrying out a write plan (`execWrite` in internal/engine/worker.go): each frame is a request with
 its own resends, and the plan stops at the first frame that is not acknowledged.
*/
module WriteRuns {
  import opened Bits
  import opened Pdu
  import opened Frames
  import opened Receive
  import opened Slave
  import opened Props
  import opened WritePath
  import opened Transact
  import CoilWrites

  /** What surrounds one frame: its link (with the transaction id, over TCP), its attempts, the gap after it. */
  datatype Turn = Turn(link: Link, tries: seq<Attempt>, stopAfter: bool)

  datatype WriteResult = WriteResult(ok: bool, applied: nat)

  function AwaitOf(unitID: byte, f: WriteFrame, turn: Turn): Await {
    WriteReply(turn.link, unitID, f.fc, f.startAddr, if f.quantity < 0 then 0 else f.quantity)
  }

  predicate Framable(frames: seq<WriteFrame>) { forall f :: f in frames ==> 0 < |f.pdu| < 0xFFFF }

  function AfterTurn(unitID: byte, f: WriteFrame, turn: Turn, dev: Device): (after: Device)
    requires dev.Valid()
    ensures after.Valid()
  {
    var a := AwaitOf(unitID, f, turn);
    if Reaches(a, turn.tries) then Served(a, f.pdu, dev).1 else dev
  }

  /** The result and the device once frame i and those after it have had their turn. */
  function Executed(unitID: byte, frames: seq<WriteFrame>, turns: seq<Turn>, i: nat, dev: Device)
    : (r: (WriteResult, Device))
    requires |turns| == |frames| && i <= |frames| && dev.Valid()
    decreases |frames| - i
  {
    if i == |frames| then (WriteResult(true, i), dev)
    else
      var after := AfterTurn(unitID, frames[i], turns[i], dev);
      if !Transaction(AwaitOf(unitID, frames[i], turns[i]), turns[i].tries).Got? then (WriteResult(false, i), after)
      else if |frames| > 1 && turns[i].stopAfter then (WriteResult(false, i + 1), after)
      else Executed(unitID, frames, turns, i + 1, after)
  }

  method ExecWrite(unitID: byte, frames: seq<WriteFrame>, turns: seq<Turn>, dev: Device)
    returns (r: WriteResult, after: Device)
    requires |turns| == |frames| && dev.Valid() && Framable(frames)
    ensures (r, after) == Executed(unitID, frames, turns, 0, dev)
  {
    after := dev;
    var applied: nat := 0;
    for i := 0 to |frames|
      invariant applied == i && after.Valid()
      invariant Executed(unitID, frames, turns, 0, dev) == Executed(unitID, frames, turns, i, after)
    {
      assert frames[i] in frames;
      var v: Verdict;
      v, after := Request(AwaitOf(unitID, frames[i], turns[i]), frames[i].pdu, turns[i].tries, after);
      if !v.Got? {
        return WriteResult(false, applied), after;
      }
      applied := applied + 1;
      if |frames| > 1 && turns[i].stopAfter {
        return WriteResult(false, applied), after;
      }
    }
    r := WriteResult(true, applied);
  }

  // ---- what `Applied` says about the device

  /** An acknowledgement is only received for a frame that reached the device. */
  predicate Honest(unitID: byte, frames: seq<WriteFrame>, turns: seq<Turn>)
    requires |turns| == |frames|
  {
    forall i :: 0 <= i < |frames| ==>
      var a := AwaitOf(unitID, frames[i], turns[i]);
      Transaction(a, turns[i].tries).Got? ==> Reaches(a, turns[i].tries)
  }

  /** The device has taken the applied frames, or one more; success means all of them. */
  ghost predicate Accounts(dev: Device, frames: seq<WriteFrame>, r: WriteResult, after: Device)
    requires dev.Valid()
  {
    && r.applied <= |frames| && (r.ok ==> r.applied == |frames|)
    && (after == Run(dev, frames[..r.applied])
        || (!r.ok && r.applied < |frames| && after == Run(dev, frames[..r.applied + 1])))
  }

  /**
   Whatever else the line does, the device has taken exactly the frames counted as applied, or one
   more whose acknowledgement was lost.
  */
  lemma AppliedPrefix(unitID: byte, frames: seq<WriteFrame>, turns: seq<Turn>, dev: Device)
    requires |turns| == |frames| && dev.Valid() && Framable(frames)
    requires Honest(unitID, frames, turns)
    ensures var (r, after) := Executed(unitID, frames, turns, 0, dev); Accounts(dev, frames, r, after)
  {
    assert frames[..0] == [];
    PrefixFrom(unitID, frames, turns, 0, dev, dev);
  }

  lemma {:induction false} PrefixFrom(unitID: byte, frames: seq<WriteFrame>, turns: seq<Turn>, i: nat, dev: Device,
                                      now: Device)
    requires |turns| == |frames| && i <= |frames| && dev.Valid() && Framable(frames)
    requires Honest(unitID, frames, turns) && now == Run(dev, frames[..i])
    ensures var (r, after) := Executed(unitID, frames, turns, i, now); Accounts(dev, frames, r, after)
    decreases |frames| - i
  {
    if i < |frames| {
      assert frames[i] in frames;
      var next := AfterTurn(unitID, frames[i], turns[i], now);
      TurnServes(unitID, frames[i], turns[i], now);
      RunSnoc(dev, frames, i);
      if Transaction(AwaitOf(unitID, frames[i], turns[i]), turns[i].tries).Got? {
        PrefixFrom(unitID, frames, turns, i + 1, dev, next);
      }
    }
  }

  lemma TurnServes(unitID: byte, f: WriteFrame, turn: Turn, dev: Device)
    requires dev.Valid() && 0 < |f.pdu| < 0xFFFF
    ensures AfterTurn(unitID, f, turn, dev) ==
              if Reaches(AwaitOf(unitID, f, turn), turn.tries) then Serve(dev, f.pdu).1 else dev
  {
    AnswerServes(turn.link, unitID, dev, f.pdu);
  }

  /**
   A split write that reports k frames applied has written exactly its first k registers, or one
   more; and if it reports success, all of them.
  */
  lemma AppliedRegisters(unitID: byte, data: seq<byte>, startAddr: int, n: nat, turns: seq<Turn>, dev: Device)
    requires dev.Valid() && n >= 1 && 2 * n == |data| && SplitPlan(data, startAddr, n).Plan?
    requires |turns| == n && |SplitPlan(data, startAddr, n).frames| == n
    requires Honest(unitID, SplitPlan(data, startAddr, n).frames, turns)
    ensures var (r, after) := Executed(unitID, SplitPlan(data, startAddr, n).frames, turns, 0, dev);
      && r.applied <= n && 0 <= startAddr && startAddr + n <= MAX_ADDRESS + 1 && (r.ok ==> r.applied == n)
      && (after == WithWords(dev, startAddr, Registers(data)[..r.applied])
          || (!r.ok && r.applied < n && after == WithWords(dev, startAddr, Registers(data)[..r.applied + 1])))
  {
    var frames := SplitPlan(data, startAddr, n).frames;
    SplitFrames(data, startAddr, n);
    EchoedFramable(frames, dev);
    AppliedPrefix(unitID, frames, turns, dev);
    var k := Executed(unitID, frames, turns, 0, dev).0.applied;
    SplitRun(data, startAddr, n, k, dev);
    if k < n {
      SplitRun(data, startAddr, n, k + 1, dev);
    }
  }

  lemma EchoedFramable(frames: seq<WriteFrame>, dev: Device)
    requires AllEchoed(frames) && dev.Valid()
    ensures Framable(frames)
  {
    assert forall f :: f in frames ==> Echoed(f, dev);
  }

  // ---- a conforming device on a prompt line

  /** A frame the write builders made: any device serves it and echoes its start. */
  ghost predicate Echoed(f: WriteFrame, dev: Device)
    requires dev.Valid()
  {
    0 < |f.pdu| < 0xFFFF && WriteRequest(f.pdu, f.fc, f.startAddr, dev, Serve(dev, f.pdu).1)
  }

  predicate Acceptable(a: Await) { a.link.Tcp? || a.fc == WRITE_COILS || a.fc == WRITE_REGS }

  /** The echo of a single write, cut short, is never taken for an answer, nor for a final error. */
  lemma EchoUnheard(a: Await, pdu: seq<byte>)
    requires a.WriteReply? && a.link.Rtu? && (a.fc == WRITE_COIL || a.fc == WRITE_REG)
    requires |pdu| == 5 && pdu[0] == a.fc
    ensures var r := Settle(a.Decode(RtuBuildFrame(a.unitID, pdu)));
      r.FrameTimeout? || (r.Failed? && !IsPermanentError(r.error))
  {
    var frame := RtuBuildFrame(a.unitID, pdu);
    ExceptionFlag(a.fc);
    RtuSingleWriteNeverAccepted(a, frame);
    assert frame[..RTU_EXCEPTION_LEN][1] == a.fc;
    assert frame[..6][1..4][0] == a.fc;
  }

  lemma {:induction false} UnheardExhausts(a: Await, pdu: seq<byte>, reply: seq<byte>, tries: seq<Attempt>)
    requires a.WriteReply? && a.link.Rtu? && (a.fc == WRITE_COIL || a.fc == WRITE_REG)
    requires |pdu| == 5 && pdu[0] == a.fc && reply == RtuBuildFrame(a.unitID, pdu)
    requires forall t :: t in tries ==> Prompt(reply, t)
    ensures Transaction(a, tries) == Exhausted
  {
    if tries != [] {
      assert Prompt(reply, tries[0]);
      QuietSettles(a, tries[0].events);
      EchoUnheard(a, pdu);
      UnheardExhausts(a, pdu, reply, tries[1..]);
    }
  }

  /** A write answered promptly: acknowledged at once where the echo is accepted, else never. */
  lemma PromptWrite(unitID: byte, f: WriteFrame, turn: Turn, dev: Device)
    requires dev.Valid() && Echoed(f, dev) && turn.tries != []
    requires forall t :: t in turn.tries ==> Prompt(Served(AwaitOf(unitID, f, turn), f.pdu, dev).0, t)
    ensures var a := AwaitOf(unitID, f, turn);
      Transaction(a, turn.tries) == (if Acceptable(a) then Got([]) else Exhausted)
    ensures AfterTurn(unitID, f, turn, dev) == Serve(dev, f.pdu).1
  {
    var a := AwaitOf(unitID, f, turn);
    var first := turn.tries[0];
    assert first in turn.tries;
    TurnServes(unitID, f, turn, dev);
    AnswerServes(turn.link, unitID, dev, f.pdu);
    if Acceptable(a) {
      WriteExchange(turn.link, unitID, f.pdu, f.fc, f.startAddr, a.quantity, dev, Serve(dev, f.pdu).1);
      QuietSettles(a, first.events);
      WriteBringsNothing(a, Stream(first.events));
    } else {
      UnheardExhausts(a, f.pdu[..5], BuildFrame(turn.link, unitID, f.pdu[..5]), turn.tries);
    }
  }

  /** An accepted write reply carries no data. */
  lemma WriteBringsNothing(a: Await, buf: seq<byte>)
    requires a.WriteReply? && a.Decode(buf).Ok?
    ensures a.Decode(buf).value == []
  {
  }

  /** Every frame of a plan, sent at its turn, is answered promptly, and nobody cancels. */
  predicate Conforming(unitID: byte, frames: seq<WriteFrame>, turns: seq<Turn>, dev: Device)
    requires |turns| == |frames| && dev.Valid()
  {
    forall i :: 0 <= i < |frames| ==>
      && turns[i].tries != [] && !turns[i].stopAfter
      && forall t :: t in turns[i].tries ==>
           Prompt(Served(AwaitOf(unitID, frames[i], turns[i]), frames[i].pdu, Run(dev, frames[..i])).0, t)
  }

  ghost predicate AllEchoed(frames: seq<WriteFrame>) {
    forall f, dev: Device :: f in frames && dev.Valid() ==> Echoed(f, dev)
  }

  lemma {:induction false} AllAcknowledged(unitID: byte, frames: seq<WriteFrame>, turns: seq<Turn>, i: nat, dev: Device)
    requires |turns| == |frames| && i <= |frames| && dev.Valid() && AllEchoed(frames)
    requires Conforming(unitID, frames, turns, dev)
    requires forall j :: 0 <= j < |frames| ==> Acceptable(AwaitOf(unitID, frames[j], turns[j]))
    ensures Executed(unitID, frames, turns, i, Run(dev, frames[..i])) == (WriteResult(true, |frames|), Run(dev, frames))
    decreases |frames| - i
  {
    if i < |frames| {
      assert frames[i] in frames;
      PromptWrite(unitID, frames[i], turns[i], Run(dev, frames[..i]));
      RunSnoc(dev, frames, i);
      AllAcknowledged(unitID, frames, turns, i + 1, dev);
    } else {
      assert frames[..i] == frames;
    }
  }

  lemma FirstUnacknowledged(unitID: byte, frames: seq<WriteFrame>, turns: seq<Turn>, dev: Device)
    requires |turns| == |frames| > 0 && dev.Valid() && AllEchoed(frames)
    requires Conforming(unitID, frames, turns, dev)
    requires !Acceptable(AwaitOf(unitID, frames[0], turns[0]))
    ensures Executed(unitID, frames, turns, 0, dev) == (WriteResult(false, 0), Run(dev, frames[..1]))
  {
    assert frames[0] in frames && frames[..0] == [];
    PromptWrite(unitID, frames[0], turns[0], dev);
    RunSnoc(dev, frames, 0);
  }

  // ---- the plans there are

  /** The frames of a plan are of one kind, and every device serves and echoes each of them. */
  lemma PlanFrames(p: PropMeta, v: Written, startAddr: int) returns (fc: byte)
    requires WritePlan(p, v, startAddr).Plan?
    ensures var frames := WritePlan(p, v, startAddr).frames;
      frames != [] && AllEchoed(frames) && forall f :: f in frames ==> f.fc == fc
  {
    var fc' := EffectiveFC(p);
    if p.IsBitSpace() || fc' == 5 || fc' == 15 {
      fc := CoilFrame(p, v, startAddr, fc');
    } else {
      var data := EncodeValue(p, v).value;
      if fc' == 6 {
        fc := WRITE_REG;
        SplitFrames(data, startAddr, p.registerCount);
      } else {
        fc := WRITE_REGS;
        forall dev: Device | dev.Valid() ensures Echoed(BlockPlan(data, startAddr, p.registerCount).frames[0], dev) {
          MultiRegsServed(dev, startAddr, p.registerCount, data);
        }
      }
    }
  }

  lemma CoilFrame(p: PropMeta, v: Written, startAddr: int, writeFC: int) returns (fc: byte)
    requires CoilPlan(p, v, startAddr, writeFC).Plan?
    ensures var frames := CoilPlan(p, v, startAddr, writeFC).frames;
      |frames| == 1 && AllEchoed(frames) && frames[0].fc == fc
  {
    var frames := CoilPlan(p, v, startAddr, writeFC).frames;
    fc := frames[0].fc;
    forall dev: Device | dev.Valid() ensures Echoed(frames[0], dev) {
      if fc == WRITE_COIL {
        SingleCoilServed(dev, startAddr, v.nonZero);
      } else {
        var n := frames[0].quantity;
        MultiCoilsServed(dev, startAddr, n, CoilWrites.FirstOnly(n, v.nonZero));
      }
    }
  }

  lemma {:induction false} SplitFrames(data: seq<byte>, startAddr: int, n: nat)
    requires 2 * n <= |data| && SplitPlan(data, startAddr, n).Plan?
    ensures var frames := SplitPlan(data, startAddr, n).frames;
      |frames| == n && AllEchoed(frames) && forall f :: f in frames ==> f.fc == WRITE_REG
  {
    if n > 0 {
      SplitFrames(data, startAddr, n - 1);
      var value := U16At(data, 2 * n - 2);
      forall dev: Device | dev.Valid() ensures Echoed(SplitPlan(data, startAddr, n).frames[n - 1], dev) {
        SingleRegServed(dev, startAddr + n - 1, value);
      }
    }
  }

  /**
   A planned write to a conforming device on a prompt line of one kind: it succeeds, having written
   everything, exactly over TCP or with the block codes 15 and 16. Otherwise it reports that nothing
   was applied, although the device has executed exactly the first frame.
  */
  lemma PlannedWriteIff(unitID: byte, p: PropMeta, v: Written, startAddr: int, turns: seq<Turn>, tcp: bool, dev: Device)
    requires WritePlan(p, v, startAddr).Plan? && dev.Valid()
    requires |turns| == |WritePlan(p, v, startAddr).frames|
    requires forall t :: t in turns ==> t.link.Tcp? == tcp
    requires Conforming(unitID, WritePlan(p, v, startAddr).frames, turns, dev)
    ensures var frames := WritePlan(p, v, startAddr).frames;
      && frames != []
      && Executed(unitID, frames, turns, 0, dev) ==
         (if tcp || frames[0].fc == WRITE_COILS || frames[0].fc == WRITE_REGS
          then (WriteResult(true, |frames|), Run(dev, frames))
          else (WriteResult(false, 0), Run(dev, frames[..1])))
  {
    var frames := WritePlan(p, v, startAddr).frames;
    var fc := PlanFrames(p, v, startAddr);
    assert frames[0] in frames && turns[0] in turns;
    forall j | 0 <= j < |frames| ensures Acceptable(AwaitOf(unitID, frames[j], turns[j])) <==>
                                           tcp || fc == WRITE_COILS || fc == WRITE_REGS
    {
      assert frames[j] in frames && turns[j] in turns;
    }
    if tcp || fc == WRITE_COILS || fc == WRITE_REGS {
      assert frames[..0] == [];
      AllAcknowledged(unitID, frames, turns, 0, dev);
    } else {
      FirstUnacknowledged(unitID, frames, turns, dev);
    }
  }
}
