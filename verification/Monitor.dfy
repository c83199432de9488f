/**
 The communication monitor (internal/engine/monitor.go): a bounded ring of the session's packets
 and the request counters. Every method holds the monitor's lock, so a run is a sequence of whole
 calls. The ghost history records those calls, and the fields are functions of it.
*/
module Monitor {

  datatype Direction = Tx | Rx | Failure

  /** One observed packet or the final failure of a request. */
  datatype CommEvent = CommEvent(seqNo: int, device: int, direction: Direction, detail: string)

  datatype Counters = Counters(requests: int, successful: int, failed: int)

  datatype What = Requests | Successes | Failures

  const ZERO := Counters(0, 0, 0)

  datatype Scope = Link | Device(index: int) {
    predicate Covers(device: int) { Link? || index == device }
  }

  /** A call: a new connection, a packet sent or received, a request completed with or without an error. */
  datatype Call =
    | Reset
    | Packet(device: int, direction: Direction, detail: string)
    | Complete(device: int, ok: bool, detail: string)
  {
    predicate Logs() { Packet? || (Complete? && !ok) }

    function Event(seqNo: int): CommEvent
      requires Logs()
    {
      if Packet? then CommEvent(seqNo, device, direction, detail) else CommEvent(seqNo, device, Failure, detail)
    }

    predicate Counts(scope: Scope, what: What) {
      && Complete? && scope.Covers(device)
      && match what
         case Requests => true
         case Successes => ok
         case Failures => !ok
    }
  }

  // ---- what a history means

  /** Every event of a history, numbered from 1. */
  ghost function Logged(h: seq<Call>): seq<CommEvent> {
    if h == [] then []
    else
      var before := Logged(h[..|h| - 1]);
      if h[|h| - 1].Logs() then before + [h[|h| - 1].Event(|before| + 1)] else before
  }

  lemma {:induction false} LoggedNumbered(h: seq<Call>)
    ensures forall i :: 0 <= i < |Logged(h)| ==> Logged(h)[i].seqNo == i + 1
  {
    if h != [] {
      LoggedNumbered(h[..|h| - 1]);
    }
  }

  /** How many events precede the current session. */
  ghost function SessionStart(h: seq<Call>): (n: nat)
    ensures n <= |Logged(h)|
  {
    if h == [] then 0
    else if h[|h| - 1].Reset? then |Logged(h)|
    else SessionStart(h[..|h| - 1])
  }

  /** How many events are no longer in the ring. */
  ghost function Gone(h: seq<Call>, capacity: nat): (n: nat)
    ensures n <= |Logged(h)|
  {
    if |Logged(h)| - SessionStart(h) <= capacity then SessionStart(h) else |Logged(h)| - capacity
  }

  /** The calls of the current session. */
  ghost function Session(h: seq<Call>): seq<Call> {
    if h == [] || h[|h| - 1].Reset? then [] else Session(h[..|h| - 1]) + [h[|h| - 1]]
  }

  /** How many completed calls of a history, for a scope, are of a kind. */
  ghost function Count(h: seq<Call>, scope: Scope, what: What): int {
    if h == [] then 0
    else Count(h[..|h| - 1], scope, what) + if h[|h| - 1].Counts(scope, what) then 1 else 0
  }

  ghost predicate Tallied(h: seq<Call>, scope: Scope, counters: Counters) {
    && counters.requests == Count(h, scope, Requests)
    && counters.successful == Count(h, scope, Successes)
    && counters.failed == Count(h, scope, Failures)
  }

  /** The counters of a history: the link's, and those of each device it names. */
  ghost predicate Books(h: seq<Call>, total: Counters, devices: map<int, Counters>) {
    Tallied(h, Link, total) && forall d :: Tallied(h, Device(d), At(devices, d))
  }

  /** One more call. */
  lemma Snoc(h: seq<Call>, c: Call)
    ensures Logged(h + [c]) == if c.Logs() then Logged(h) + [c.Event(|Logged(h)| + 1)] else Logged(h)
    ensures SessionStart(h + [c]) == if c.Reset? then |Logged(h)| else SessionStart(h)
    ensures Session(h + [c]) == if c.Reset? then [] else Session(h) + [c]
  {
    assert (h + [c])[..|h|] == h;
  }

  lemma CountSnoc(h: seq<Call>, c: Call, scope: Scope, what: What)
    ensures Count(h + [c], scope, what) == Count(h, scope, what) + if c.Counts(scope, what) then 1 else 0
  {
    assert (h + [c])[..|h|] == h;
  }

  /** The counters of a scope after one more completed request. */
  function Bump(counters: Counters, ok: bool): Counters {
    if ok then Counters(counters.requests + 1, counters.successful + 1, counters.failed)
    else Counters(counters.requests + 1, counters.successful, counters.failed + 1)
  }

  lemma TallySnoc(h: seq<Call>, c: Call, scope: Scope, counters: Counters)
    requires Tallied(h, scope, counters)
    ensures Tallied(h + [c], scope, if c.Complete? && scope.Covers(c.device) then Bump(counters, c.ok) else counters)
  {
    CountSnoc(h, c, scope, Requests);
    CountSnoc(h, c, scope, Successes);
    CountSnoc(h, c, scope, Failures);
  }

  lemma BooksSilent(h: seq<Call>, c: Call, total: Counters, devices: map<int, Counters>)
    requires Books(h, total, devices) && !c.Complete?
    ensures Books(h + [c], total, devices)
  {
    TallySnoc(h, c, Link, total);
    forall d ensures Tallied(h + [c], Device(d), At(devices, d)) {
      TallySnoc(h, c, Device(d), At(devices, d));
    }
  }

  lemma BooksDone(h: seq<Call>, c: Call, total: Counters, devices: map<int, Counters>)
    requires Books(h, total, devices) && c.Complete?
    ensures Books(h + [c], Bump(total, c.ok), devices[c.device := Bump(At(devices, c.device), c.ok)])
  {
    var after := devices[c.device := Bump(At(devices, c.device), c.ok)];
    TallySnoc(h, c, Link, total);
    forall d ensures Tallied(h + [c], Device(d), At(after, d)) {
      TallySnoc(h, c, Device(d), At(devices, d));
    }
  }

  /** A logged call joins the ring, which gives up its oldest event when it is full. */
  lemma RingSnoc(h: seq<Call>, c: Call, capacity: nat)
    requires c.Logs() && capacity > 0
    ensures var log, gone, e := Logged(h), Gone(h, capacity), c.Event(|Logged(h)| + 1);
      && Logged(h + [c]) == log + [e]
      && |log| - gone <= capacity
      && Gone(h + [c], capacity) == (if |log| - gone < capacity then gone else gone + 1)
  {
    Snoc(h, c);
  }

  lemma Beginning(h: seq<Call>, capacity: nat)
    requires h == []
    ensures Logged(h) == [] && Gone(h, capacity) == 0 && Session(h) == h && Books(h, ZERO, map[])
  {
  }

  lemma QuietSnoc(h: seq<Call>, c: Call, capacity: nat)
    requires !c.Logs() && !c.Reset?
    ensures Logged(h + [c]) == Logged(h) && Gone(h + [c], capacity) == Gone(h, capacity)
  {
    Snoc(h, c);
  }

  // ---- the monitor

  function At(devices: map<int, Counters>, d: int): Counters { if d in devices then devices[d] else ZERO }

  class CommMonitor {
    const capacity: nat
    var nextSeq: nat
    var events: seq<CommEvent>
    var total: Counters
    var devices: map<int, Counters>
    var cumulative: Counters
    var cumDevices: map<int, Counters>
    ghost var history: seq<Call>

    ghost predicate Ring()
      reads this
    {
      capacity > 0 && nextSeq == |Logged(history)| && events == Logged(history)[Gone(history, capacity)..]
    }

    ghost predicate Valid()
      reads this
    {
      Ring() && Books(history, cumulative, cumDevices) && Books(Session(history), total, devices)
    }

    constructor (capacity: int)
      ensures Valid() && history == [] && this.capacity == if capacity <= 0 then 500 else capacity
    {
      this.capacity := if capacity <= 0 then 500 else capacity;
      nextSeq, events := 0, [];
      total, devices, cumulative, cumDevices := ZERO, map[], ZERO, map[];
      history := [];
      new;
      Beginning(history, this.capacity);
    }

    /** `reset`: a new connection session. */
    method NewSession()
      requires Valid()
      modifies this
      ensures Valid() && history == old(history) + [Reset]
    {
      ghost var after := history + [Reset];
      Snoc(history, Reset);
      BooksSilent(history, Reset, cumulative, cumDevices);
      events, total, devices := [], ZERO, map[];
      history := after;
    }

    /** `appendLocked`. */
    method AppendLocked(ghost c: Call, e: CommEvent)
      requires Ring() && c.Logs() && e == c.Event(e.seqNo)
      modifies this`nextSeq, this`events
      ensures nextSeq == |Logged(history + [c])| && events == Logged(history + [c])[Gone(history + [c], capacity)..]
    {
      RingSnoc(history, c, capacity);
      ghost var log, gone := Logged(history), Gone(history, capacity);
      nextSeq := nextSeq + 1;
      events := events + [e.(seqNo := nextSeq)];
      assert events == (log + [c.Event(nextSeq)])[gone..];
      if |events| > capacity {
        events := events[|events| - capacity..];
        assert events == (log + [c.Event(nextSeq)])[gone + 1..];
      }
    }

    /** `tx` and `rx`. */
    method Observe(device: int, direction: Direction, detail: string)
      requires Valid()
      modifies this
      ensures Valid() && history == old(history) + [Packet(device, direction, detail)]
    {
      ghost var c := Packet(device, direction, detail);
      Snoc(history, c);
      BooksSilent(history, c, cumulative, cumDevices);
      BooksSilent(Session(history), c, total, devices);
      AppendLocked(c, CommEvent(0, device, direction, detail));
      history := history + [c];
    }

    /** The counting in `complete`. */
    method Charge(device: int, ok: bool)
      modifies this`total, this`devices, this`cumulative, this`cumDevices
      ensures total == Bump(old(total), ok) && cumulative == Bump(old(cumulative), ok)
      ensures devices == old(devices)[device := Bump(At(old(devices), device), ok)]
      ensures cumDevices == old(cumDevices)[device := Bump(At(old(cumDevices), device), ok)]
    {
      total := total.(requests := total.requests + 1);
      cumulative := cumulative.(requests := cumulative.requests + 1);
      var stats, cum := At(devices, device), At(cumDevices, device);
      stats := stats.(requests := stats.requests + 1);
      cum := cum.(requests := cum.requests + 1);
      if ok {
        total := total.(successful := total.successful + 1);
        cumulative := cumulative.(successful := cumulative.successful + 1);
        stats := stats.(successful := stats.successful + 1);
        cum := cum.(successful := cum.successful + 1);
      } else {
        total := total.(failed := total.failed + 1);
        cumulative := cumulative.(failed := cumulative.failed + 1);
        stats := stats.(failed := stats.failed + 1);
        cum := cum.(failed := cum.failed + 1);
      }
      devices := devices[device := stats];
      cumDevices := cumDevices[device := cum];
    }

    /** `complete`: one request finished; detail is the error of a failed one. */
    method Finish(device: int, ok: bool, detail: string)
      requires Valid()
      modifies this
      ensures Valid() && history == old(history) + [Complete(device, ok, detail)]
    {
      ghost var c := Complete(device, ok, detail);
      Snoc(history, c);
      BooksDone(history, c, cumulative, cumDevices);
      BooksDone(Session(history), c, total, devices);
      if ok {
        QuietSnoc(history, c, capacity);
      } else {
        AppendLocked(c, CommEvent(0, device, Failure, detail));
      }
      Charge(device, ok);
      history := history + [c];
    }

    /** The scan in `snapshot`. */
    static method Matching(events: seq<CommEvent>, deviceIndex: int, afterSeq: nat) returns (view: seq<CommEvent>)
      ensures view == Select(events, Asked(deviceIndex), afterSeq)
    {
      view := [];
      for i := 0 to |events|
        invariant view == Select(events[..i], Asked(deviceIndex), afterSeq)
      {
        SelectSnoc(events[..i], events[i], Asked(deviceIndex), afterSeq);
        assert events[..i + 1] == events[..i] + [events[i]];
        if !(events[i].seqNo <= afterSeq || (deviceIndex >= 0 && events[i].device != deviceIndex)) {
          view := view + [events[i]];
        }
      }
      assert events[..|events|] == events;
    }

    /** `snapshot`: a negative device index selects the whole link. */
    method Snapshot(deviceIndex: int, afterSeq: nat, limit: int)
      returns (session: Counters, sinceStart: Counters, view: seq<CommEvent>, next: nat)
      requires Valid()
      ensures Tallied(Session(history), Asked(deviceIndex), session) && Tallied(history, Asked(deviceIndex), sinceStart)
      ensures session.requests == session.successful + session.failed
      ensures sinceStart.requests == sinceStart.successful + sinceStart.failed
      ensures view == View(history, capacity, Asked(deviceIndex), afterSeq, Bound(limit))
      ensures next == |Logged(history)|
    {
      session, sinceStart := total, cumulative;
      if deviceIndex >= 0 {
        session, sinceStart := At(devices, deviceIndex), At(cumDevices, deviceIndex);
      }
      Balanced(Session(history), Asked(deviceIndex));
      Balanced(history, Asked(deviceIndex));
      view := Matching(events, deviceIndex, afterSeq);
      if |view| > Bound(limit) {
        view := view[|view| - Bound(limit)..];
      }
      next := nextSeq;
    }
  }

  // ---- counters

  /** Every request counted succeeded or failed, once. */
  lemma {:induction false} Balanced(h: seq<Call>, scope: Scope)
    ensures Count(h, scope, Requests) == Count(h, scope, Successes) + Count(h, scope, Failures)
  {
    if h != [] {
      Balanced(h[..|h| - 1], scope);
    }
  }

  ghost function SumOver(h: seq<Call>, devices: seq<int>, what: What): int {
    if devices == [] then 0 else SumOver(h, devices[1..], what) + Count(h, Device(devices[0]), what)
  }

  ghost predicate Distinct(devices: seq<int>) { forall i, j :: 0 <= i < j < |devices| ==> devices[i] != devices[j] }

  /** The devices listed, each once, include every device a request was completed for. */
  ghost predicate Lists(h: seq<Call>, devices: seq<int>) {
    Distinct(devices) && forall c :: c in h && c.Complete? ==> c.device in devices
  }

  lemma {:induction false} SumSnoc(h: seq<Call>, c: Call, devices: seq<int>, what: What)
    requires Distinct(devices)
    ensures SumOver(h + [c], devices, what) ==
      SumOver(h, devices, what) + if c.Counts(Link, what) && c.device in devices then 1 else 0
  {
    if devices != [] {
      var first, rest := devices[0], devices[1..];
      assert devices == [first] + rest && first !in rest;
      SumSnoc(h, c, rest, what);
      CountSnoc(h, c, Device(first), what);
    }
  }

  lemma {:induction false} SumOfNothing(h: seq<Call>, devices: seq<int>, what: What)
    requires h == []
    ensures SumOver(h, devices, what) == 0
  {
    if devices != [] {
      SumOfNothing(h, devices[1..], what);
    }
  }

  /** The counters of the link are the sums of its devices' counters. */
  lemma {:induction false} LinkIsSumOfDevices(h: seq<Call>, devices: seq<int>, what: What)
    requires Lists(h, devices)
    ensures Count(h, Link, what) == SumOver(h, devices, what)
  {
    if h == [] {
      SumOfNothing(h, devices, what);
    } else {
      var n := |h| - 1;
      assert h == h[..n] + [h[n]];
      LinkIsSumOfDevices(h[..n], devices, what);
      SumSnoc(h[..n], h[n], devices, what);
    }
  }

  /** A history cut at its resets; the last piece is the current session. */
  ghost function Sessions(h: seq<Call>): (ss: seq<seq<Call>>)
    ensures |ss| > 0 && ss[|ss| - 1] == Session(h)
  {
    if h == [] then [[]]
    else
      var n := |h| - 1;
      var before := Sessions(h[..n]);
      if h[n].Reset? then before + [[]] else before[|before| - 1 := Session(h[..n]) + [h[n]]]
  }

  ghost function SumSessions(ss: seq<seq<Call>>, scope: Scope, what: What): int {
    if ss == [] then 0 else SumSessions(ss[..|ss| - 1], scope, what) + Count(ss[|ss| - 1], scope, what)
  }

  /** The cumulative counters are the sums of the sessions' counters. */
  lemma {:induction false} CumulativeIsSumOfSessions(h: seq<Call>, scope: Scope, what: What)
    ensures Count(h, scope, what) == SumSessions(Sessions(h), scope, what)
  {
    if h != [] {
      var n := |h| - 1;
      CumulativeIsSumOfSessions(h[..n], scope, what);
      SessionsSnoc(h, scope, what);
    }
  }

  lemma SessionsSnoc(h: seq<Call>, scope: Scope, what: What)
    requires h != []
    ensures SumSessions(Sessions(h), scope, what) ==
      SumSessions(Sessions(h[..|h| - 1]), scope, what) + if h[|h| - 1].Counts(scope, what) then 1 else 0
  {
    var n := |h| - 1;
    var before, after, session, c := Sessions(h[..n]), Sessions(h), Session(h[..n]), h[n];
    if c.Reset? {
      assert after == before + [[]];
      assert after[..|after| - 1] == before;
    } else {
      var m := |before| - 1;
      assert after == before[m := session + [c]];
      assert after[..m] == before[..m];
      CountSnoc(session, c, scope, what);
    }
  }

  // ---- polling

  function Asked(deviceIndex: int): Scope { if deviceIndex < 0 then Link else Device(deviceIndex) }

  function Bound(limit: int): nat { if limit <= 0 then 200 else limit }

  function LastOf<T>(xs: seq<T>, n: nat): seq<T> { if |xs| > n then xs[|xs| - n..] else xs }

  /** The events of a scope with a number above afterSeq, in order. */
  function Select(events: seq<CommEvent>, scope: Scope, afterSeq: nat): (chosen: seq<CommEvent>)
    ensures |chosen| <= |events|
  {
    if events == [] then []
    else
      var n := |events| - 1;
      var rest := Select(events[..n], scope, afterSeq);
      if events[n].seqNo > afterSeq && scope.Covers(events[n].device) then rest + [events[n]] else rest
  }

  ghost function View(h: seq<Call>, capacity: nat, scope: Scope, afterSeq: nat, limit: nat): seq<CommEvent> {
    LastOf(Select(Logged(h)[Gone(h, capacity)..], scope, afterSeq), limit)
  }

  lemma SelectSnoc(events: seq<CommEvent>, e: CommEvent, scope: Scope, afterSeq: nat)
    ensures Select(events + [e], scope, afterSeq) ==
      Select(events, scope, afterSeq) + if e.seqNo > afterSeq && scope.Covers(e.device) then [e] else []
  {
    assert (events + [e])[..|events|] == events;
  }

  lemma {:induction false} SelectAppend(a: seq<CommEvent>, b: seq<CommEvent>, scope: Scope, afterSeq: nat)
    ensures Select(a + b, scope, afterSeq) == Select(a, scope, afterSeq) + Select(b, scope, afterSeq)
  {
    if b == [] {
      assert a + b == a;
    } else {
      var n := |b| - 1;
      assert a + b == (a + b[..n]) + [b[n]] && b == b[..n] + [b[n]];
      SelectAppend(a, b[..n], scope, afterSeq);
      SelectSnoc(a + b[..n], b[n], scope, afterSeq);
      SelectSnoc(b[..n], b[n], scope, afterSeq);
    }
  }

  /** A strictly increasing stretch of numbers, all in (low, high]. */
  ghost predicate Increasing(events: seq<CommEvent>, low: nat, high: nat) {
    && (forall i :: 0 <= i < |events| ==> low < events[i].seqNo <= high)
    && (forall i, j :: 0 <= i < j < |events| ==> events[i].seqNo < events[j].seqNo)
  }

  /** The part of a numbered log the client with this cursor has not yet been offered. */
  ghost function Fresh(h: seq<Call>, scope: Scope, cursor: nat): seq<CommEvent>
    requires cursor <= |Logged(h)|
  {
    Select(Logged(h)[cursor..], scope, cursor)
  }

  lemma {:induction false} SelectIncreases(events: seq<CommEvent>, scope: Scope, afterSeq: nat, low: nat, high: nat)
    requires Increasing(events, low, high)
    ensures Increasing(Select(events, scope, afterSeq), afterSeq, high)
    ensures forall e :: e in Select(events, scope, afterSeq) ==> e in events
  {
    if events != [] {
      var n := |events| - 1;
      var front, last := events[..n], events[n];
      SelectIncreases(front, scope, afterSeq, low, high);
      assert forall e :: e in front ==> e.seqNo < last.seqNo;
      var rest := Select(front, scope, afterSeq);
      assert forall i :: 0 <= i < |rest| ==> rest[i] in rest;
    }
  }

  /** Nothing numbered at or below the cursor is selected. */
  lemma {:induction false} SelectNothing(events: seq<CommEvent>, scope: Scope, afterSeq: nat)
    requires forall e :: e in events ==> e.seqNo <= afterSeq
    ensures Select(events, scope, afterSeq) == []
  {
    if events != [] {
      SelectNothing(events[..|events| - 1], scope, afterSeq);
    }
  }

  /** One poll: everything it returns is new, in order, and already counted in the cursor it hands back. */
  lemma PollIsNew(h: seq<Call>, capacity: nat, scope: Scope, cursor: nat, limit: nat)
    ensures Increasing(View(h, capacity, scope, cursor, limit), cursor, |Logged(h)|)
  {
    var log := Logged(h);
    LoggedNumbered(h);
    TailIncreases(log, Gone(h, capacity));
    SelectIncreases(log[Gone(h, capacity)..], scope, cursor, 0, |log|);
    LastIncreases(Select(log[Gone(h, capacity)..], scope, cursor), limit, cursor, |log|);
  }

  lemma TailIncreases(log: seq<CommEvent>, n: nat)
    requires n <= |log| && forall i :: 0 <= i < |log| ==> log[i].seqNo == i + 1
    ensures Increasing(log[n..], 0, |log|)
  {
  }

  lemma LastIncreases(events: seq<CommEvent>, n: nat, low: nat, high: nat)
    requires Increasing(events, low, high)
    ensures Increasing(LastOf(events, n), low, high)
  {
  }

  /**
   One poll is complete exactly when nothing asked for was pushed out of the ring or reset away
   since the cursor, and what is left is within the limit.
  */
  lemma PollCompleteIff(h: seq<Call>, capacity: nat, scope: Scope, cursor: nat, limit: nat)
    requires cursor <= |Logged(h)|
    ensures var low := if Gone(h, capacity) < cursor then cursor else Gone(h, capacity);
      View(h, capacity, scope, cursor, limit) == Fresh(h, scope, cursor) <==>
        Select(Logged(h)[cursor..low], scope, cursor) == [] && |Fresh(h, scope, cursor)| <= limit
  {
    LoggedNumbered(h);
    CutCompleteIff(Logged(h), Gone(h, capacity), scope, cursor, limit);
  }

  lemma CutCompleteIff(all: seq<CommEvent>, gone: nat, scope: Scope, cursor: nat, limit: nat)
    requires cursor <= |all| && gone <= |all| && forall i :: 0 <= i < |all| ==> all[i].seqNo == i + 1
    ensures var low := if gone < cursor then cursor else gone;
      LastOf(Select(all[gone..], scope, cursor), limit) == Select(all[cursor..], scope, cursor) <==>
        Select(all[cursor..low], scope, cursor) == [] && |Select(all[cursor..], scope, cursor)| <= limit
  {
    if gone < cursor {
      var old', new' := all[gone..cursor], all[cursor..];
      assert all[gone..] == old' + new';
      SelectAppend(old', new', scope, cursor);
      SelectNothing(old', scope, cursor);
      assert all[cursor..cursor] == [];
    } else {
      var lost, kept := all[cursor..gone], all[gone..];
      assert all[cursor..] == lost + kept;
      SelectAppend(lost, kept, scope, cursor);
    }
  }

  /** The plain reading for a whole link: no reset since the cursor, and few enough events. */
  lemma LinkPollComplete(h: seq<Call>, capacity: nat, cursor: nat, limit: nat)
    requires SessionStart(h) <= cursor <= |Logged(h)|
    requires |Logged(h)| - cursor <= limit && |Logged(h)| - cursor <= capacity
    ensures View(h, capacity, Link, cursor, limit) == Logged(h)[cursor..]
  {
    PollCompleteIff(h, capacity, Link, cursor, limit);
    LoggedNumbered(h);
    assert Logged(h)[cursor..cursor] == [];
    SelectAll(Logged(h)[cursor..], cursor);
  }

  lemma {:induction false} SelectAll(events: seq<CommEvent>, afterSeq: nat)
    requires forall e :: e in events ==> e.seqNo > afterSeq
    ensures Select(events, Link, afterSeq) == events
  {
    if events != [] {
      SelectAll(events[..|events| - 1], afterSeq);
      assert events == events[..|events| - 1] + [events[|events| - 1]];
    }
  }

  // ---- a client that polls again and again, each time from the cursor it was last given

  /** The monitor's history at each poll; each extends the one before. */
  ghost predicate Growing(hs: seq<seq<Call>>) {
    hs != [] && forall i :: 0 <= i < |hs| - 1 ==> hs[i] <= hs[i + 1]
  }

  ghost function Collected(hs: seq<seq<Call>>, capacity: nat, scope: Scope, limit: nat): seq<CommEvent>
    requires hs != []
  {
    var n := |hs| - 1;
    if n == 0 then [] else
      Collected(hs[..n], capacity, scope, limit) + View(hs[n], capacity, scope, |Logged(hs[n - 1])|, limit)
  }

  lemma {:induction false} LoggedGrows(h: seq<Call>, longer: seq<Call>)
    requires h <= longer
    ensures Logged(h) <= Logged(longer)
  {
    if |h| < |longer| {
      LoggedGrows(h, longer[..|longer| - 1]);
    } else {
      assert h == longer;
    }
  }

  /** Whatever happens in between, the client never sees a number twice or out of order. */
  lemma {:induction false} PollsNeverRepeat(hs: seq<seq<Call>>, capacity: nat, scope: Scope, limit: nat)
    requires Growing(hs)
    ensures Increasing(Collected(hs, capacity, scope, limit), |Logged(hs[0])|, |Logged(hs[|hs| - 1])|)
    ensures |Logged(hs[0])| <= |Logged(hs[|hs| - 1])|
  {
    var n := |hs| - 1;
    if n > 0 {
      PollsNeverRepeat(hs[..n], capacity, scope, limit);
      LoggedGrows(hs[n - 1], hs[n]);
      PollIsNew(hs[n], capacity, scope, |Logged(hs[n - 1])|, limit);
    }
  }

  lemma Tails<T>(a: seq<T>, b: seq<T>, c: seq<T>)
    requires a <= b <= c
    ensures b[|a|..] + c[|b|..] == c[|a|..]
  {
  }

  /** When every poll is complete, the client has seen every event since its first cursor, exactly once. */
  lemma {:induction false} PollsLoseNothing(hs: seq<seq<Call>>, capacity: nat, limit: nat)
    requires Growing(hs)
    requires forall i :: 0 <= i < |hs| - 1 ==> SessionStart(hs[i + 1]) <= |Logged(hs[i])|
    requires forall i :: 0 <= i < |hs| - 1 ==>
        |Logged(hs[i + 1])| - |Logged(hs[i])| <= (if limit < capacity then limit else capacity)
    ensures Logged(hs[0]) <= Logged(hs[|hs| - 1])
    ensures Collected(hs, capacity, Link, limit) == Logged(hs[|hs| - 1])[|Logged(hs[0])|..]
  {
    var n := |hs| - 1;
    if n > 0 {
      var first, before, now := Logged(hs[0]), Logged(hs[n - 1]), Logged(hs[n]);
      PollsLoseNothing(hs[..n], capacity, limit);
      LoggedGrows(hs[n - 1], hs[n]);
      assert SessionStart(hs[n - 1 + 1]) <= |before|;
      LinkPollComplete(hs[n], capacity, |before|, limit);
      Tails(first, before, now);
    }
  }
}
