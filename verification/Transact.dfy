/**
 One request with its resends (`pollOne` and `writeFrame` in internal/engine/worker.go). What the
 driver and the context do in each attempt is a parameter; whether a frame that was sent reached the
 device is part of it.
*/
module Transact {
  import opened Bits
  import opened Pdu
  import opened Frames
  import opened Receive
  import opened Slave
  import opened WritePath

  datatype Sending = Sent | SendFailed | SendLinkDown

  /** The surroundings of one attempt. */
  datatype Attempt = Attempt(
    stopBefore: bool,     // the context is done before the frame is sent
    sending: Sending,
    delivered: bool,      // the frame reaches the device
    stopGap: bool,        // the context is done in the gap after sending
    events: seq<Event>,   // what the receive calls come back with
    refreshLost: bool)    // flushing the link after a bad frame finds it broken

  /** How a request ends. */
  datatype Verdict = Got(data: seq<byte>) | Denied(error: Error) | LinkDown | Stopped | Exhausted

  datatype Tried = Over(verdict: Verdict) | Again

  /** One attempt: over, or worth another. */
  function Try(a: Await, t: Attempt): Tried {
    if t.stopBefore then Over(Stopped)
    else if t.sending.SendLinkDown? then Over(LinkDown)
    else if t.sending.SendFailed? then Again
    else if t.stopGap then Over(Stopped)
    else
      match Received(a, t.events)
      case Frame(data) => Over(Got(data))
      case LinkLost => Over(LinkDown)
      case Cancelled => Over(Stopped)
      case FrameTimeout => Again
      case Faulted => Again
      case Failed(e) =>
        if IsPermanentError(e) then Over(Denied(e))
        else if IsFrameResetError(e) && t.refreshLost then Over(LinkDown)
        else Again
  }

  function Transaction(a: Await, tries: seq<Attempt>): Verdict {
    if tries == [] then Exhausted
    else if Try(a, tries[0]).Over? then Try(a, tries[0]).verdict
    else Transaction(a, tries[1..])
  }

  /** Whether the request reaches the device in some attempt that is made. */
  predicate Reaches(a: Await, tries: seq<Attempt>) {
    tries != [] && (Delivers(tries[0]) || (Try(a, tries[0]).Again? && Reaches(a, tries[1..])))
  }

  predicate Delivers(t: Attempt) { !t.stopBefore && t.delivered }

  /** The device's answer to a request, and the device afterwards. */
  function Served(a: Await, pdu: seq<byte>, dev: Device): (r: (seq<byte>, Device))
    requires dev.Valid()
    ensures r.1.Valid()
  {
    Answer(a.link, a.unitID, dev, BuildFrame(a.link, a.unitID, pdu))
  }

  /** The resend loop. However often the frame arrives, the device is as after the first time. */
  method Request(a: Await, pdu: seq<byte>, tries: seq<Attempt>, dev: Device) returns (v: Verdict, after: Device)
    requires dev.Valid() && 0 < |pdu| < 0xFFFF
    ensures v == Transaction(a, tries) && after.Valid()
    ensures after == if Reaches(a, tries) then Served(a, pdu, dev).1 else dev
  {
    after := dev;
    ghost var reached := false;
    for i := 0 to |tries|
      invariant Transaction(a, tries) == Transaction(a, tries[i..])
      invariant after == if reached then Served(a, pdu, dev).1 else dev
      invariant Reaches(a, tries) <==> reached || Reaches(a, tries[i..])
    {
      var t := tries[i];
      assert tries[i..][0] == t && tries[i..][1..] == tries[i + 1..];
      if t.stopBefore { return Stopped, after; }
      if t.delivered {
        ServedTwice(a, pdu, dev);
        after := Served(a, pdu, after).1;
        reached := true;
      }
      if t.sending.SendLinkDown? { return LinkDown, after; }
      if t.sending.SendFailed? { continue; }
      if t.stopGap { return Stopped, after; }
      var r := ReceiveFrame(a, t.events);
      match r {
        case Frame(data) => return Got(data), after;
        case LinkLost => return LinkDown, after;
        case Cancelled => return Stopped, after;
        case FrameTimeout =>
        case Faulted =>
        case Failed(e) =>
          if IsPermanentError(e) { return Denied(e), after; }
          if IsFrameResetError(e) && t.refreshLost { return LinkDown, after; }
      }
    }
    v := Exhausted;
  }

  /** A device answers a frame it gets again as it did before, and stays as it is. */
  lemma ServedTwice(a: Await, pdu: seq<byte>, dev: Device)
    requires dev.Valid() && 0 < |pdu| < 0xFFFF
    ensures Served(a, pdu, Served(a, pdu, dev).1) == Served(a, pdu, dev)
  {
    AnswerServes(a.link, a.unitID, dev, pdu);
    AnswerServes(a.link, a.unitID, Serve(dev, pdu).1, pdu);
    ResendIdempotent(dev, pdu);
  }

  // ---- attempts that are answered

  predicate Quiet(events: seq<Event>) { forall e :: e in events ==> e.Chunk? || e.Timeout? }

  /** The frame goes out and arrives, and the answer comes back whole, in any pieces at any pace. */
  predicate Prompt(reply: seq<byte>, t: Attempt) {
    && !t.stopBefore && t.sending.Sent? && t.delivered && !t.stopGap && !t.refreshLost
    && Quiet(t.events) && Stream(t.events) == reply
  }

  lemma QuietSettles(a: Await, events: seq<Event>)
    requires Quiet(events)
    ensures Received(a, events) == Settle(a.Decode(Stream(events)))
  {
    ChunkingIrrelevant(a, events, events);
  }

  // ---- reads

  ghost predicate LegalRead(a: Await, start: int) {
    a.ReadReply? && IsValidReadFC(a.fc) && ValidReadRequest(a.fc, start, a.quantity)
  }

  /** The device's answer to a legal read. */
  function ReadAnswer(a: Await, start: int, dev: Device): seq<byte>
    requires LegalRead(a, start) && dev.Valid()
  {
    Served(a, BuildReadPDU(a.fc, start, a.quantity).value, dev).0
  }

  lemma ReadAnswerIs(a: Await, start: int, dev: Device) returns (pdu: seq<byte>)
    requires LegalRead(a, start) && dev.Valid()
    ensures ReadAnswer(a, start, dev) == BuildFrame(a.link, a.unitID, pdu) && WellFormedReply(a, pdu)
    ensures var data := ReadData(dev, a.fc, start, a.quantity); |data| < 256 && pdu == [a.fc, |data|] + data
    ensures a.Decode(ReadAnswer(a, start, dev)) == Ok(ReadData(dev, a.fc, start, a.quantity))
  {
    var data := ReadData(dev, a.fc, start, a.quantity);
    AnswerServes(a.link, a.unitID, dev, BuildReadPDU(a.fc, start, a.quantity).value);
    ReadServed(dev, a.fc, start, a.quantity);
    ReadExchange(a.link, a.unitID, dev, a.fc, start, a.quantity);
    pdu := [a.fc, |data|] + data;
  }

  /** However the answer is cut and delayed, the receive loop hands over exactly the device's data. */
  lemma ChunkedRead(a: Await, start: int, dev: Device, events: seq<Event>)
    requires LegalRead(a, start) && dev.Valid()
    requires Quiet(events) && Stream(events) == ReadAnswer(a, start, dev)
    ensures Received(a, events) == Frame(ReadData(dev, a.fc, start, a.quantity))
  {
    QuietSettles(a, events);
    var pdu := ReadAnswerIs(a, start, dev);
  }

  /** After any attempts that failed without ending the request, one that is answered brings the data. */
  lemma {:induction false} ReadComesThrough(a: Await, start: int, dev: Device, tries: seq<Attempt>, i: nat)
    requires LegalRead(a, start) && dev.Valid() && i < |tries|
    requires forall j :: 0 <= j < i ==> Try(a, tries[j]).Again?
    requires Prompt(ReadAnswer(a, start, dev), tries[i])
    ensures Transaction(a, tries) == Got(ReadData(dev, a.fc, start, a.quantity))
  {
    if i == 0 {
      ChunkedRead(a, start, dev, tries[0].events);
    } else {
      ReadComesThrough(a, start, dev, tries[1..], i - 1);
    }
  }

  lemma {:induction false} EndingBringsNothing(events: seq<Event>)
    ensures !Ending(events).Frame?
  {
    if events != [] && !EndsWait(events[0]) {
      EndingBringsNothing(events[1..]);
    }
  }
}
