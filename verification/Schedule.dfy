/**
 The poll schedule of a link (`collectLoop`, `nextDelay`, `setDeviceOnline` and `setDeviceOffline`
 in internal/engine/worker.go). Times are nanoseconds; what the wire answers and when a pass starts
 and ends are parameters.
*/
module Schedule {
  import opened Bits

  const CAP: nat := 30_000_000_000

  // ---- the delay after failures

  /** min(30 s, base * 2^(fails-1)). */
  function Backoff(base: nat, fails: nat): nat
    requires fails > 0
  {
    if Shl(base, fails - 1) < CAP then Shl(base, fails - 1) else CAP
  }

  function Delay(base: nat, fails: nat): nat { if fails == 0 then base else Backoff(base, fails) }

  lemma {:induction false} ShlGrows(x: nat, j: nat, k: nat)
    requires j <= k
    ensures Shl(x, j) <= Shl(x, k)
  {
    if j < k {
      ShlGrows(x, j, k - 1);
    }
  }

  /**
   `nextDelay`. The doubled value stays below twice the cap unless the base is already above it, so
   it cannot overflow the source's 64-bit duration.
  */
  method NextDelay(base: nat, fails: int) returns (delay: nat, ghost peak: nat)
    ensures delay == Delay(base, if fails < 0 then 0 else fails)
    ensures peak >= delay && (peak < 2 * CAP || peak == base)
  {
    peak := base;
    if fails <= 0 {
      return base, base;
    }
    delay := base;
    var i := 1;
    while i < fails && delay < CAP
      invariant 1 <= i <= fails && delay == Shl(base, i - 1)
      invariant peak == delay && (delay < 2 * CAP || delay == base)
    {
      delay := 2 * delay;
      peak := delay;
      i := i + 1;
    }
    ShlGrows(base, i - 1, fails - 1);
    if delay > CAP {
      delay := CAP;
    }
  }

  /** More failures never bring the next poll forward, and the cap holds. */
  lemma BackoffGrows(base: nat, j: nat, k: nat)
    requires 0 < j <= k
    ensures Backoff(base, j) <= Backoff(base, k) <= CAP
    ensures Backoff(base, k) == CAP <==> Pow2(k - 1) * base >= CAP
  {
    ShlGrows(base, j - 1, k - 1);
    ShlIsProduct(base, k - 1);
  }

  /** A failing device is polled sooner than a healthy one exactly when the interval is above the cap. */
  lemma BackoffShortensIff(base: nat, fails: nat)
    ensures Delay(base, fails) < base <==> fails > 0 && base > CAP
  {
    if fails > 0 {
      ShlGrows(base, 0, fails - 1);
    }
  }

  // ---- the schedule

  datatype Result = Good | Bad | LinkDown

  /** What polling one device comes to, and whether the link is being closed right after it. */
  datatype Poll = Poll(result: Result, cancelled: bool) {
    predicate EndsPass() { result == LinkDown || cancelled }
  }

  /** The failures since the last success. */
  ghost function Trailing(outcomes: seq<bool>): nat {
    if outcomes == [] || outcomes[|outcomes| - 1] then 0 else Trailing(outcomes[..|outcomes| - 1]) + 1
  }

  lemma TrailingSnoc(outcomes: seq<bool>, ok: bool)
    ensures Trailing(outcomes + [ok]) == if ok then 0 else Trailing(outcomes) + 1
  {
    assert (outcomes + [ok])[..|outcomes|] == outcomes;
  }

  predicate Distinct(xs: seq<int>) { forall i, j :: 0 <= i < j < |xs| ==> xs[i] != xs[j] }

  predicate HasAll(m: map<int, int>, xs: seq<int>) { forall d :: d in xs ==> d in m }

  /** Go's map lookup: zero when the key is absent. */
  function At(nextDue: map<int, int>, d: int): int { if d in nextDue then nextDue[d] else 0 }

  predicate ByDue(xs: seq<int>, nextDue: map<int, int>) {
    forall i, j :: 0 <= i < j < |xs| ==> At(nextDue, xs[i]) <= At(nextDue, xs[j])
  }

  /** Exactly the targets that are due, each once, in order of due time. */
  ghost predicate IsOrder(order: seq<int>, targets: seq<int>, nextDue: map<int, int>, now: int)
    requires HasAll(nextDue, targets)
  {
    && Distinct(order)
    && (forall d :: d in order <==> d in targets && nextDue[d] <= now)
    && ByDue(order, nextDue)
  }

  /** The devices polled are the order up to and including the first poll that ends the pass, if any does. */
  ghost predicate CutAt(polled: seq<int>, order: seq<int>, polls: int -> Poll, complete: bool) {
    && polled <= order && (forall i :: 0 <= i < |polled| - 1 ==> !polls(polled[i]).EndsPass())
    && (if complete then polled == order && forall d :: d in order ==> !polls(d).EndsPass()
        else polled != [] && polls(polled[|polled| - 1]).EndsPass())
  }

  /** Each poll is recorded for its device, and nothing else is. */
  ghost predicate Recorded(targets: seq<int>, before: map<int, seq<bool>>, after: map<int, seq<bool>>,
                           polled: seq<int>, polls: int -> Poll) {
    forall d :: d in targets ==>
      && d in before && d in after
      && after[d] == before[d] + if d in polled then [polls(d).result == Good] else []
  }

  /** These devices are put off from `end` by their interval or backoff, and no others. */
  ghost predicate PutOff(targets: seq<int>, before: map<int, int>, after: map<int, int>, due: seq<int>, end: int,
                         base: nat, outcomes: map<int, seq<bool>>) {
    forall d :: d in targets ==>
      && d in before && d in after && d in outcomes
      && after[d] == if d in due then end + Delay(base, Trailing(outcomes[d])) else before[d]
  }

  class Collector {
    const targets: seq<int>
    const base: nat
    var nextDue: map<int, int>
    var consecFail: map<int, int>
    ghost var outcomes: map<int, seq<bool>>

    ghost predicate Counted()
      reads this
    {
      forall d :: d in targets ==> d in consecFail && d in outcomes && consecFail[d] == Trailing(outcomes[d])
    }

    ghost predicate Valid()
      reads this
    {
      Distinct(targets) && HasAll(nextDue, targets) && Counted()
    }

    /** A new worker: no device has been polled; `now` is when the first collection starts. */
    constructor (targets: seq<int>, base: nat, now: int)
      requires Distinct(targets)
      ensures Valid() && this.targets == targets && this.base == base
      ensures forall d :: d in targets ==> nextDue[d] == now && outcomes[d] == []
    {
      this.targets, this.base := targets, base;
      nextDue := map d | d in targets :: now;
      consecFail := map d | d in targets :: 0;
      outcomes := map d | d in targets :: [];
    }

    /** A reconnected link: everything is due at once, and failure counts carry over. */
    method Restart(now: int)
      requires Valid()
      modifies this`nextDue
      ensures Valid() && forall d :: d in targets ==> nextDue[d] == now
    {
      nextDue := map d | d in targets :: now;
    }

    /**
     One pass of the loop, from `now` to `end`. `polls` is what polling each device comes to.
     Returns the devices polled, in order, and whether the pass ran to its end.
    */
    method Pass(now: int, polls: int -> Poll, end: int) returns (polled: seq<int>, complete: bool, order: seq<int>)
      requires Valid()
      modifies this
      ensures Valid()
      // the due devices, once each, earliest first, up to the first poll that ends the pass
      ensures IsOrder(order, targets, old(nextDue), now) && CutAt(polled, order, polls, complete)
      ensures Recorded(targets, old(outcomes), outcomes, polled, polls)
      // a pass that gets to its end puts the devices off; another leaves the schedule alone
      ensures !complete ==> nextDue == old(nextDue)
      ensures complete ==> PutOff(targets, old(nextDue), nextDue, order, end, base, outcomes)
    {
      order := FindDue(now);
      var due := order;
      polled, complete := PollInTurn(due, polls);
      if complete {
        Reschedule(due, end);
      }
    }

    /** The inner loop of a pass. */
    method PollInTurn(due: seq<int>, polls: int -> Poll) returns (polled: seq<int>, complete: bool)
      requires Valid() && Distinct(due) && forall d :: d in due ==> d in targets
      modifies this`consecFail, this`outcomes
      ensures Valid() && CutAt(polled, due, polls, complete)
      ensures Recorded(targets, old(outcomes), outcomes, polled, polls)
    {
      polled, complete := [], true;
      while |polled| < |due|
        invariant polled <= due && Valid()
        invariant forall i :: 0 <= i < |polled| ==> !polls(polled[i]).EndsPass()
        invariant Recorded(targets, old(outcomes), outcomes, polled, polls)
        decreases |due| - |polled|
      {
        var d := due[|polled|];
        assert d !in polled;
        ghost var before := outcomes;
        Record(d, polls(d).result == Good);
        RecordedNext(targets, old(outcomes), before, outcomes, polled, d, polls);
        polled := polled + [d];
        if polls(d).EndsPass() {
          complete := false;
          return;
        }
      }
      assert polled == due;
    }

    /** The due devices, then `sort.Slice` on their due times. */
    method FindDue(now: int) returns (due: seq<int>)
      requires Valid()
      ensures IsOrder(due, targets, nextDue, now)
    {
      due := [];
      for n := 0 to |targets|
        invariant Distinct(due)
        invariant forall d :: d in due <==> d in targets[..n] && nextDue[d] <= now
        invariant ByDue(due, nextDue)
      {
        var d := targets[n];
        assert forall x :: x in targets[..n + 1] <==> x in targets[..n] || x == d;
        assert d !in targets[..n];
        if nextDue[d] <= now {
          due := Insert(due, d, nextDue);
        }
      }
      assert targets[..|targets|] == targets;
    }

    /** `setDeviceOnline` and `setDeviceOffline`, reduced to the failure count. */
    method Record(d: int, ok: bool)
      requires Valid() && d in targets
      modifies this`consecFail, this`outcomes
      ensures Valid() && outcomes == old(outcomes)[d := old(outcomes)[d] + [ok]]
    {
      TrailingSnoc(outcomes[d], ok);
      consecFail := consecFail[d := if ok then 0 else consecFail[d] + 1];
      outcomes := outcomes[d := outcomes[d] + [ok]];
    }

    /** The end of a pass. */
    method Reschedule(due: seq<int>, end: int)
      requires Valid() && forall d :: d in due ==> d in targets
      modifies this`nextDue
      ensures Valid() && PutOff(targets, old(nextDue), nextDue, due, end, base, outcomes)
    {
      for n := 0 to |due|
        invariant Valid() && PutOff(targets, old(nextDue), nextDue, due[..n], end, base, outcomes)
      {
        var d := due[n];
        assert forall x :: x in due[..n + 1] <==> x in due[..n] || x == d;
        var delay, _ := NextDelay(base, consecFail[d]);
        nextDue := nextDue[d := end + delay];
      }
      assert due[..|due|] == due;
    }
  }

  lemma RecordedNext(targets: seq<int>, first: map<int, seq<bool>>, before: map<int, seq<bool>>,
                     after: map<int, seq<bool>>,
                     polled: seq<int>, d: int, polls: int -> Poll)
    requires Recorded(targets, first, before, polled, polls) && d in targets && d !in polled
    requires after == before[d := before[d] + [polls(d).result == Good]]
    ensures Recorded(targets, first, after, polled + [d], polls)
  {
    assert forall x :: x in polled + [d] <==> x in polled || x == d;
  }

  // ---- runs

  /** A pass, when it starts and ends, and when the link is back if the pass ends early. */
  datatype Turn = Turn(now: int, polls: int -> Poll, end: int, back: int)

  /** One poll: in which connection, of which device, in a pass from when to when, and the failures it ends. */
  datatype Polled = Polled(session: nat, device: int, at: int, end: int, fails: nat)

  /** Within one connection a device is not polled again before its interval, or its backoff, is over. */
  ghost predicate Spaced(log: seq<Polled>, base: nat) {
    forall i, j :: 0 <= i < j < |log| && log[i].session == log[j].session && log[i].device == log[j].device ==>
      log[i].end + Delay(base, log[i].fails) <= log[j].at
  }

  /** No poll of this connection makes its device due later than scheduled; none belongs to a later connection. */
  ghost predicate Ahead(log: seq<Polled>, c: Collector, session: nat)
    reads c
  {
    forall i :: 0 <= i < |log| ==>
      && log[i].session <= session && log[i].device in c.targets
      && (log[i].session == session ==> log[i].end + Delay(c.base, log[i].fails) <= At(c.nextDue, log[i].device))
  }

  /** The records of one pass, with the failure counts it leaves. */
  ghost function Records(polled: seq<int>, session: nat, t: Turn, outcomes: map<int, seq<bool>>): (rs: seq<Polled>)
    requires forall i :: 0 <= i < |polled| ==> polled[i] in outcomes
    ensures |rs| == |polled|
    ensures forall i :: 0 <= i < |rs| ==>
        rs[i] == Polled(session, polled[i], t.now, t.end, Trailing(outcomes[polled[i]]))
  {
    seq(|polled|, i requires 0 <= i < |polled| =>
      Polled(session, polled[i], t.now, t.end, Trailing(outcomes[polled[i]])))
  }

  /**
   Any run of a link's collection: passes as long as they run to their end, a new connection after
   one that does not. Polls of one device are spaced by its interval or backoff throughout.
  */
  method Run(targets: seq<int>, base: nat, start: int, turns: seq<Turn>) returns (c: Collector, ghost log: seq<Polled>)
    requires Distinct(targets) && forall t :: t in turns ==> t.now <= t.end
    ensures c.Valid() && Spaced(log, base)
  {
    c := new Collector(targets, base, start);
    log := [];
    ghost var session := 0;
    for n := 0 to |turns|
      invariant fresh(c) && c.Valid() && c.base == base && Spaced(log, base) && Ahead(log, c, session)
    {
      assert turns[n] in turns;
      log, session := TakeTurn(c, turns[n], log, session);
    }
  }

  method TakeTurn(c: Collector, t: Turn, ghost log: seq<Polled>, ghost session: nat)
    returns (ghost longer: seq<Polled>, ghost next: nat)
    requires c.Valid() && Spaced(log, c.base) && Ahead(log, c, session) && t.now <= t.end
    modifies c
    ensures c.Valid() && Spaced(longer, c.base) && Ahead(longer, c, next)
  {
    ghost var before := c.nextDue;
    var polled, complete, order := c.Pass(t.now, t.polls, t.end);
    ghost var records := Records(polled, session, t, c.outcomes);
    PassSpaced(log, records, session, before, t.now, c.base);
    longer, next := log + records, session;
    if !complete {
      next := session + 1;
      c.Restart(t.back);
    }
  }

  /** Devices that were due can be polled without breaking the spacing. */
  lemma PassSpaced(log: seq<Polled>, records: seq<Polled>, session: nat, before: map<int, int>, now: int, base: nat)
    requires Spaced(log, base)
    requires forall i :: 0 <= i < |log| && log[i].session == session ==>
               log[i].end + Delay(base, log[i].fails) <= At(before, log[i].device)
    requires forall i, j :: 0 <= i < j < |records| ==> records[i].device != records[j].device
    requires forall i :: 0 <= i < |records| ==>
               records[i].session == session && records[i].at == now && At(before, records[i].device) <= now
    ensures Spaced(log + records, base)
  {
  }

  method Insert(due: seq<int>, d: int, nextDue: map<int, int>) returns (longer: seq<int>)
    requires d !in due && Distinct(due) && ByDue(due, nextDue)
    ensures Distinct(longer) && (forall x :: x in longer <==> x in due || x == d)
    ensures ByDue(longer, nextDue)
  {
    var at := |due|;
    while at > 0 && At(nextDue, due[at - 1]) > At(nextDue, d)
      invariant 0 <= at <= |due| && forall k :: at <= k < |due| ==> At(nextDue, due[k]) > At(nextDue, d)
    {
      at := at - 1;
    }
    assert forall k :: 0 <= k < at ==> At(nextDue, due[k]) <= At(nextDue, d);
    SplicedDistinct(due, d, at);
    SplicedByDue(due, d, at, nextDue);
    longer := Spliced(due, d, at);
  }

  function Spliced(due: seq<int>, d: int, at: nat): (longer: seq<int>)
    requires at <= |due|
    ensures |longer| == |due| + 1
    ensures forall k :: 0 <= k <= |due| ==> longer[k] == if k == at then d else due[Back(k, at)]
  {
    due[..at] + [d] + due[at..]
  }

  /** Where an element of the longer list stands in the shorter one. */
  function Back(k: nat, at: nat): int { if k < at then k else k - 1 }

  lemma SplicedDistinct(due: seq<int>, d: int, at: nat)
    requires at <= |due| && Distinct(due) && d !in due
    ensures Distinct(Spliced(due, d, at)) && forall x :: x in Spliced(due, d, at) <==> x in due || x == d
  {
    var longer := Spliced(due, d, at);
    forall x | x in due ensures x in longer {
      var i :| 0 <= i < |due| && due[i] == x;
      assert longer[if i < at then i else i + 1] == x;
    }
    assert longer[at] == d;
  }

  lemma SplicedByDue(due: seq<int>, d: int, at: nat, nextDue: map<int, int>)
    requires at <= |due| && ByDue(due, nextDue)
    requires forall k :: 0 <= k < at ==> At(nextDue, due[k]) <= At(nextDue, d)
    requires forall k :: at <= k < |due| ==> At(nextDue, d) <= At(nextDue, due[k])
    ensures ByDue(Spliced(due, d, at), nextDue)
  {
  }
}
