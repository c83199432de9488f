/**
 Reassembling a frame from whatever chunks the driver delivers (`receiveFrame` in
 internal/engine/worker.go). The driver is a list of events: what each `Receive` call before the
 deadline came back with.
*/
module Receive {
  import opened Bits
  import opened Crc
  import opened Pdu
  import opened Frames

  /** A `Receive` call: bytes, a timeout, a broken link, any other driver error, or the context done. */
  datatype Event = Chunk(bytes: seq<byte>) | Timeout | LinkError | DriverError | Cancel

  datatype Outcome = Frame(data: seq<byte>) | Failed(error: Error) | FrameTimeout | LinkLost | Faulted | Cancelled

  function Settle(r: Result<seq<byte>>): Outcome {
    match r
    case Ok(data) => Frame(data)
    case Err(e) => if e == ShortFrame then FrameTimeout else Failed(e)
  }

  predicate EndsWait(e: Event) { e.LinkError? || e.DriverError? || e.Cancel? }

  /** All the bytes that arrive up to the first event that ends the wait. */
  function Stream(events: seq<Event>): seq<byte> {
    if events == [] || EndsWait(events[0]) then []
    else (if events[0].Chunk? then events[0].bytes else []) + Stream(events[1..])
  }

  /** How the wait ends when no frame can be read from the stream. */
  function Ending(events: seq<Event>): Outcome {
    if events == [] then FrameTimeout
    else if events[0].LinkError? then LinkLost
    else if events[0].DriverError? then Faulted
    else if events[0].Cancel? then Cancelled
    else Ending(events[1..])
  }

  /** One decode of everything that arrived. */
  function Received(a: Await, events: seq<Event>): Outcome {
    var d := a.Decode(Stream(events));
    if d == Err(ShortFrame) then Ending(events) else Settle(d)
  }

  method ReceiveFrame(a: Await, events: seq<Event>) returns (r: Outcome)
    ensures r == Received(a, events)
  {
    var buf: seq<byte> := [];
    for i := 0 to |events|
      invariant a.Decode(buf) == Err(ShortFrame)
      invariant Stream(events) == buf + Stream(events[i..])
      invariant Ending(events) == Ending(events[i..])
    {
      assert events[i..][1..] == events[i + 1..];
      match events[i] {
        case Cancel =>
          assert Stream(events) == buf;
          return Cancelled;
        case LinkError =>
          assert Stream(events) == buf;
          return LinkLost;
        case DriverError =>
          assert Stream(events) == buf;
          return Faulted;
        case Timeout =>
          assert Stream(events[i..]) == Stream(events[i + 1..]);
        case Chunk(bytes) =>
          if |bytes| > 0 {
            assert Stream(events) == (buf + bytes) + Stream(events[i + 1..]);
            buf := buf + bytes;
            var d := a.Decode(buf);
            if d != Err(ShortFrame) {
              DecodeStable(a, buf, Stream(events[i + 1..]));
              return Settle(d);
            }
          } else {
            assert Stream(events[i..]) == Stream(events[i + 1..]);
          }
      }
    }
    assert Stream(events) == buf;
    r := FrameTimeout;
  }

  /** Once a buffer gives anything but "short", every extension gives the same. */
  lemma DecodeStable(a: Await, buf: seq<byte>, ext: seq<byte>)
    requires a.Decode(buf) != Err(ShortFrame)
    ensures a.Decode(buf + ext) == a.Decode(buf)
  {
    var all := buf + ext;
    match a.link
    case Rtu =>
      var n := a.RtuLen();
      if |buf| >= RTU_EXCEPTION_LEN {
        assert all[..RTU_EXCEPTION_LEN] == buf[..RTU_EXCEPTION_LEN];
      }
      if |buf| >= n {
        assert all[..n] == buf[..n];
      }
    case Tcp(tid) =>
      assert |buf| >= MBAP_LEN;
      var n := TcpParseFrameLen(buf);
      assert TcpParseFrameLen(all) == n;
      assert all[..n] == buf[..n];
  }

  /** Two drivers that deliver the same bytes, cut and delayed differently, give the same answer. */
  lemma ChunkingIrrelevant(a: Await, events: seq<Event>, other: seq<Event>)
    requires forall e :: e in events || e in other ==> e.Chunk? || e.Timeout?
    requires Stream(events) == Stream(other)
    ensures Received(a, events) == Received(a, other) == Settle(a.Decode(Stream(events)))
  {
    QuietEnds(events);
    QuietEnds(other);
  }

  lemma {:induction false} QuietEnds(events: seq<Event>)
    requires forall e :: e in events ==> e.Chunk? || e.Timeout?
    ensures Ending(events) == FrameTimeout
  {
    if events != [] {
      assert events[0] in events;
      QuietEnds(events[1..]);
    }
  }

  /** The replies a request can get: the answer of the expected length, or an exception. */
  predicate WellFormedReply(a: Await, pdu: seq<byte>) {
    a.fc < 128 &&
    ((|pdu| == 2 && pdu[0] == Or(a.fc, 0x80)) ||
     match a
     case ReadReply(_, _, fc, quantity) =>
       quantity > 0 && ReadRespByteCount(fc, quantity) < 256 &&
       |pdu| == 2 + ReadRespByteCount(fc, quantity) &&
       pdu[0] == fc && pdu[1] == ReadRespByteCount(fc, quantity)
     case WriteReply(_, _, fc, startAddr, _) =>
       |pdu| == 5 && pdu[0] == fc && (a.link.Rtu? ==> RtuWriteRespLen(fc) == 8))
  }

  /** Every proper prefix of such a frame is short: nothing is ever decoded from part of a reply. */
  lemma PrefixIsShort(a: Await, pdu: seq<byte>, n: nat)
    requires WellFormedReply(a, pdu) && n < |BuildFrame(a.link, a.unitID, pdu)|
    ensures a.Decode(BuildFrame(a.link, a.unitID, pdu)[..n]) == Err(ShortFrame)
  {
    if a.link.Rtu? {
      RtuPrefixIsShort(a, pdu, n);
    } else {
      var frame := BuildFrame(a.link, a.unitID, pdu);
      assert |frame| == 7 + |pdu|;
      if n >= MBAP_LEN {
        assert U16At(frame[..n], 4) == U16At(frame, 4) == 1 + |pdu|;
      }
    }
  }

  lemma RtuPrefixIsShort(a: Await, pdu: seq<byte>, n: nat)
    requires a.link.Rtu? && WellFormedReply(a, pdu) && n < |RtuBuildFrame(a.unitID, pdu)|
    ensures a.Decode(RtuBuildFrame(a.unitID, pdu)[..n]) == Err(ShortFrame)
  {
    var frame := RtuBuildFrame(a.unitID, pdu);
    var p := frame[..n];
    ExceptionFlag(a.fc);
    assert n < a.RtuLen();
    if n >= RTU_EXCEPTION_LEN {
      assert p[..RTU_EXCEPTION_LEN][1] == frame[1] == pdu[0] == a.fc;
    }
    assert TryRtuException(p, a.unitID, a.fc) == Ok(());
  }

  /** The whole frame, by contrast, is read at once. */
  lemma WholeFrameDecodes(a: Await, pdu: seq<byte>)
    requires WellFormedReply(a, pdu)
    ensures a.Decode(BuildFrame(a.link, a.unitID, pdu)) ==
            if pdu[0] == Or(a.fc, 0x80) then Err(Exception(pdu[0], pdu[1])) else a.ParsePDU(pdu)
    ensures a.Decode(BuildFrame(a.link, a.unitID, pdu)) != Err(ShortFrame)
  {
    var frame := BuildFrame(a.link, a.unitID, pdu);
    ExceptionFlag(a.fc);
    ExceptionFlag(pdu[0]);
    if a.link.Tcp? {
      TcpDecodeBuilt(a, pdu);
    } else if pdu[0] == Or(a.fc, 0x80) {
      AppendThenCheck([a.unitID] + pdu);
      assert frame[..RTU_EXCEPTION_LEN] == frame;
    } else {
      RtuDecodeBuilt(a, pdu);
    }
  }
}
