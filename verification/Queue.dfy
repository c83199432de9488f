/**
 The northbound event queue (`enqueue`, `Close` and `publishLoop` in internal/natsclient/client.go)
 as a state machine: any number of producers, the publishing goroutine, `Close` and a cancelled
 context interleave step by step. An accepted event is known by its ticket, its place in the order
 of acceptance.
*/
module Queue {

  datatype Event = Telemetry(id: int) | WriteResult(id: int)

  /** Who holds the mutex, and how far it has come. Producers waiting for the mutex have done nothing yet. */
  datatype Holder =
    | Free
    | Entered(event: Event)
    | Admitted(event: Event)
    | FoundFull(event: Event, seen: seq<nat>)
    | Retrying(event: Event)
    | CloseEntered
    | CloseFlagged

  datatype Consumer = Idle | Busy(ticket: nat) | Done

  datatype Closer = NotCalled | Called | Returned

  datatype State = State(
    capacity: nat, queue: seq<nat>, channelClosed: bool, eventsClosed: bool, cancelled: bool,
    holder: Holder, consumer: Consumer, closer: Closer, panicked: bool,
    accepted: seq<Event>, published: seq<nat>, dropped: set<nat>)

  datatype Step =
    | Lock(event: Event)    // a producer enters `enqueue`
    | Check                 // reads eventsClosed
    | TrySend               // the first select
    | MakeRoom              // the second select
    | FinalSend             // the send after it
    | LockClose | FlagClosed | CloseChannel   // `Close` up to its unlock
    | Receive | Publish     // the consumer
    | ExitClosed | ExitCancelled
    | Return                // `Close` sees the consumer gone
    | Cancel

  /** `queueSize`. */
  function QueueSize(value: int): (capacity: nat)
    ensures capacity >= 1
  {
    if value <= 0 then 1 else value
  }

  function Init(size: int): State {
    State(QueueSize(size), [], false, false, false, Free, Idle, NotCalled, false, [], [], {})
  }

  /** Whether a step can be taken; a plain send on a full channel blocks, a select with a default does not. */
  predicate Enabled(s: State, step: Step) {
    !s.panicked &&
    match step
    case Lock(_) => s.holder.Free?
    case Check => s.holder.Entered?
    case TrySend => s.holder.Admitted?
    case MakeRoom => s.holder.FoundFull?
    case FinalSend => s.holder.Retrying? && (s.channelClosed || |s.queue| < s.capacity)
    case LockClose => s.holder.Free? && s.closer.NotCalled?
    case FlagClosed => s.holder.CloseEntered?
    case CloseChannel => s.holder.CloseFlagged?
    case Receive => s.consumer.Idle? && s.queue != []
    case Publish => s.consumer.Busy?
    case ExitClosed => s.consumer.Idle? && s.queue == [] && s.channelClosed
    case ExitCancelled => s.consumer.Idle? && s.cancelled
    case Return => s.closer.Called? && s.channelClosed && s.consumer.Done?
    case Cancel => true
  }

  /** A send: panics on a closed channel. */
  function Send(s: State, event: Event): State {
    if s.channelClosed then s.(panicked := true)
    else s.(queue := s.queue + [|s.accepted|], accepted := s.accepted + [event], holder := Free)
  }

  function Next(s: State, step: Step): State
    requires Enabled(s, step)
  {
    match step
    case Lock(e) => s.(holder := Entered(e))
    case Check => s.(holder := if s.eventsClosed then Free else Admitted(s.holder.event))
    case TrySend =>
      if s.channelClosed || |s.queue| < s.capacity then Send(s, s.holder.event)
      else s.(holder := FoundFull(s.holder.event, s.queue))
    case MakeRoom =>
      if s.queue == [] then s.(holder := Retrying(s.holder.event))
      else s.(holder := Retrying(s.holder.event), queue := s.queue[1..], dropped := s.dropped + {s.queue[0]})
    case FinalSend => Send(s, s.holder.event)
    case LockClose => s.(holder := CloseEntered, closer := Called)
    case FlagClosed => s.(holder := CloseFlagged, eventsClosed := true)
    case CloseChannel => if s.channelClosed then s.(panicked := true) else s.(holder := Free, channelClosed := true)
    case Receive => s.(consumer := Busy(s.queue[0]), queue := s.queue[1..])
    case Publish => s.(consumer := Idle, published := s.published + [s.consumer.ticket])
    case ExitClosed => s.(consumer := Done)
    case ExitCancelled => s.(consumer := Done)
    case Return => s.(closer := Returned)
    case Cancel => s.(cancelled := true)
  }

  // ---- runs

  predicate IsRun(s: State, steps: seq<Step>)
    decreases steps
  {
    steps == [] || (Enabled(s, steps[0]) && IsRun(Next(s, steps[0]), steps[1..]))
  }

  function After(s: State, steps: seq<Step>): State
    requires IsRun(s, steps)
    decreases steps
  {
    if steps == [] then s else After(Next(s, steps[0]), steps[1..])
  }

  /** The states some interleaving leads to. */
  ghost predicate Reachable(s: State) {
    exists size: int, steps: seq<Step> :: IsRun(Init(size), steps) && s == After(Init(size), steps)
  }

  /** A run begins with three steps and goes on. */
  lemma Runs3(s: State, p: Step, q: Step, r: Step, rest: seq<Step>)
    requires Enabled(s, p) && Enabled(Next(s, p), q) && Enabled(Next(Next(s, p), q), r)
    requires IsRun(Next(Next(Next(s, p), q), r), rest)
    ensures IsRun(s, [p, q, r] + rest)
    ensures After(s, [p, q, r] + rest) == After(Next(Next(Next(s, p), q), r), rest)
  {
    Runs1(Next(Next(s, p), q), r, rest);
    Runs1(Next(s, p), q, [r] + rest);
    Runs1(s, p, [q] + ([r] + rest));
    assert [p, q, r] + rest == [p] + ([q] + ([r] + rest));
  }

  lemma Runs1(s: State, p: Step, rest: seq<Step>)
    requires Enabled(s, p) && IsRun(Next(s, p), rest)
    ensures IsRun(s, [p] + rest) && After(s, [p] + rest) == After(Next(s, p), rest)
  {
    assert ([p] + rest)[1..] == rest;
  }

  // ---- the invariant

  /** Nobody is about to send once closing has begun, and the channel is closed once. */
  predicate Locks(s: State) {
    && !s.panicked
    && (s.channelClosed ==> s.eventsClosed)
    && (s.eventsClosed ==> !s.closer.NotCalled?)
    && (s.holder.Admitted? || s.holder.FoundFull? || s.holder.Retrying? ==> !s.eventsClosed)
    && (s.holder.CloseEntered? ==> !s.eventsClosed && s.closer.Called?)
    && (s.holder.CloseFlagged? ==> s.eventsClosed && !s.channelClosed && s.closer.Called?)
    && (s.closer.NotCalled? || s.holder.CloseEntered? || s.holder.CloseFlagged? || s.channelClosed)
  }

  /** The buffer is bounded, and the holder knows how full it can be. */
  predicate Sizes(s: State) {
    && 1 <= s.capacity && |s.queue| <= s.capacity
    && (s.holder.FoundFull? ==> |s.holder.seen| == s.capacity && s.queue == s.holder.seen[s.capacity - |s.queue|..])
    && (s.holder.Retrying? ==> |s.queue| < s.capacity)
  }

  /** The tickets not dropped, in the order in which they are or will be published. */
  function Line(s: State): seq<nat> {
    s.published + (if s.consumer.Busy? then [s.consumer.ticket] else []) + s.queue
  }

  predicate Rising(ts: seq<nat>) { forall i, j :: 0 <= i < j < |ts| ==> ts[i] < ts[j] }

  /** Every accepted ticket is in line or dropped, never both. */
  ghost predicate Accounted(line: seq<nat>, dropped: set<nat>, n: nat) {
    && Rising(line)
    && (forall t :: t in line ==> t < n && t !in dropped)
    && (forall t :: t in dropped ==> t < n)
    && (forall t: nat :: t < n && t !in dropped ==> t in line)
  }

  predicate Exited(s: State) {
    && (s.consumer.Done? ==> s.cancelled || (s.channelClosed && s.queue == []))
    && (s.closer.Returned? ==> s.consumer.Done? && s.channelClosed)
  }

  /** None of the tickets a producer found in the full queue has been dropped yet. */
  predicate SeenIntact(s: State) {
    s.holder.FoundFull? ==> Rising(s.holder.seen) && forall t :: t in s.holder.seen ==> t !in s.dropped
  }

  ghost predicate Inv(s: State) {
    SeenIntact(s) && Locks(s) && Sizes(s) && Accounted(Line(s), s.dropped, |s.accepted|) && Exited(s)
  }

  lemma InitInv(size: int)
    ensures Inv(Init(size))
  {
    assert Line(Init(size)) == [];
  }

  lemma AcceptedJoins(line: seq<nat>, dropped: set<nat>, n: nat)
    requires Accounted(line, dropped, n)
    ensures Accounted(line + [n], dropped, n + 1)
  {
    assert forall i :: 0 <= i < |line| ==> line[i] in line;
  }

  /** Dropping the ticket at one place of the line. */
  lemma DroppedLeaves(front: seq<nat>, t: nat, back: seq<nat>, dropped: set<nat>, n: nat)
    requires Accounted(front + [t] + back, dropped, n)
    ensures Accounted(front + back, dropped + {t}, n)
  {
    var line, shorter, at := front + [t] + back, front + back, |front|;
    assert line[at] == t;
    forall i | 0 <= i < |shorter| ensures shorter[i] == line[if i < at then i else i + 1] {
    }
    forall u | u in shorter ensures u in line && u != t {
      var i :| 0 <= i < |shorter| && shorter[i] == u;
      assert line[if i < at then i else i + 1] == u;
    }
    forall u | u in line && u != t ensures u in shorter {
      var i :| 0 <= i < |line| && line[i] == u;
      assert shorter[if i < at then i else i - 1] == u;
    }
  }

  lemma LineKept(s: State, step: Step)
    requires Inv(s) && Enabled(s, step)
    ensures Accounted(Line(Next(s, step)), Next(s, step).dropped, |Next(s, step).accepted|)
  {
    var s' := Next(s, step);
    var front := s.published + if s.consumer.Busy? then [s.consumer.ticket] else [];
    if |s'.accepted| > |s.accepted| {
      AcceptedJoins(Line(s), s.dropped, |s.accepted|);
      assert Line(s') == Line(s) + [|s.accepted|];
    } else if step.MakeRoom? && s.queue != [] {
      assert Line(s) == front + [s.queue[0]] + s.queue[1..];
      DroppedLeaves(front, s.queue[0], s.queue[1..], s.dropped, |s.accepted|);
      assert Line(s') == front + s.queue[1..];
    } else {
      assert Line(s') == Line(s);
    }
  }

  lemma StepInv(s: State, step: Step)
    requires Inv(s) && Enabled(s, step)
    ensures Inv(Next(s, step))
  {
    LineKept(s, step);
    QueueInLine(s);
  }

  lemma QueueInLine(s: State)
    requires Accounted(Line(s), s.dropped, |s.accepted|)
    ensures Rising(s.queue) && forall t :: t in s.queue ==> t !in s.dropped
  {
    var line := Line(s);
    var n := |line| - |s.queue|;
    assert line[n..] == s.queue;
    assert forall i :: 0 <= i < |s.queue| ==> s.queue[i] == line[n + i];
  }

  lemma {:induction false} RunInv(s: State, steps: seq<Step>)
    requires Inv(s) && IsRun(s, steps)
    ensures Inv(After(s, steps))
    decreases steps
  {
    if steps != [] {
      StepInv(s, steps[0]);
      RunInv(Next(s, steps[0]), steps[1..]);
    }
  }

  lemma ReachableInv(s: State)
    requires Reachable(s)
    ensures Inv(s)
  {
    var size, steps :| IsRun(Init(size), steps) && s == After(Init(size), steps);
    InitInv(size);
    RunInv(Init(size), steps);
  }

  /** Nothing is sent on a closed channel, and it is closed once: no interleaving makes the program panic. */
  lemma NeverPanics(s: State)
    requires Reachable(s)
    ensures !s.panicked
  {
    ReachableInv(s);
  }

  /** The step the mutex holder takes next. */
  function HolderStep(holder: Holder): Step
    requires !holder.Free?
  {
    match holder
    case Entered(_) => Check
    case Admitted(_) => TrySend
    case FoundFull(_, _) => MakeRoom
    case Retrying(_) => FinalSend
    case CloseEntered => FlagClosed
    case CloseFlagged => CloseChannel
  }

  /** How many more steps the holder has to take, at most. */
  function Rank(holder: Holder): nat {
    match holder
    case Free => 0
    case Entered(_) => 4
    case Admitted(_) => 3
    case FoundFull(_, _) => 2
    case Retrying(_) => 1
    case CloseEntered => 2
    case CloseFlagged => 1
  }

  /**
   The mutex holder is never blocked, and lets go after a bounded number of its own steps; in
   particular the send after making room always finds room.
  */
  lemma HolderNeverBlocks(s: State)
    requires Reachable(s) && !s.holder.Free?
    ensures Enabled(s, HolderStep(s.holder)) && Rank(Next(s, HolderStep(s.holder)).holder) < Rank(s.holder)
  {
    ReachableInv(s);
  }

  // ---- what is published

  /** The events behind tickets. */
  function Events(accepted: seq<Event>, tickets: seq<nat>): (events: seq<Event>)
    requires forall i :: 0 <= i < |tickets| ==> tickets[i] < |accepted|
    ensures |events| == |tickets| && forall i :: 0 <= i < |tickets| ==> events[i] == accepted[tickets[i]]
  {
    if tickets == [] then [] else Events(accepted, tickets[..|tickets| - 1]) + [accepted[tickets[|tickets| - 1]]]
  }

  /** The first list is the second with the elements outside a set of places left out. */
  ghost predicate IsSubsequence(events: seq<Event>, all: seq<Event>, places: seq<nat>) {
    && Rising(places) && |places| == |events|
    && forall i :: 0 <= i < |places| ==> places[i] < |all| && events[i] == all[places[i]]
  }

  /**
   At every moment the published events are the accepted ones, in order, without those dropped and
   those still on their way.
  */
  lemma PublishedInOrder(s: State)
    requires Reachable(s)
    ensures forall i :: 0 <= i < |s.published| ==> s.published[i] < |s.accepted|
    ensures IsSubsequence(Events(s.accepted, s.published), s.accepted, s.published)
    ensures forall t: nat :: t < |s.accepted| ==> (t in s.published <==> t !in s.dropped && t !in OnTheWay(s))
  {
    ReachableInv(s);
    Published(s);
    SplitLine(s.published, OnTheWay(s), s.dropped, |s.accepted|);
  }

  /** What has been taken from or is still in the queue, and not published yet. */
  function OnTheWay(s: State): seq<nat> {
    (if s.consumer.Busy? then [s.consumer.ticket] else []) + s.queue
  }

  lemma Published(s: State)
    ensures Line(s) == s.published + OnTheWay(s)
  {
  }

  lemma SplitLine(front: seq<nat>, back: seq<nat>, dropped: set<nat>, n: nat)
    requires Accounted(front + back, dropped, n)
    ensures Rising(front) && forall i :: 0 <= i < |front| ==> front[i] < n
    ensures forall t: nat :: t < n ==> (t in front <==> t !in dropped && t !in back)
  {
    var line := front + back;
    assert forall i :: 0 <= i < |front| ==> front[i] == line[i] && line[i] in line;
    assert forall t :: t in line <==> t in front || t in back;
    forall t | t in front ensures t !in back {
      var i :| 0 <= i < |front| && front[i] == t;
      forall j | 0 <= j < |back| ensures back[j] != t {
        assert line[i] < line[|front| + j];
      }
    }
  }

  /** Unless the context was cancelled, `Close` returns only after everything not dropped has been published. */
  lemma CloseDrains(s: State)
    requires Reachable(s) && s.closer.Returned? && !s.cancelled
    ensures s.queue == [] && forall t: nat :: t < |s.accepted| ==> (t in s.published <==> t !in s.dropped)
  {
    ReachableInv(s);
    PublishedInOrder(s);
  }

  // ---- closing makes progress

  /** The steps the consumer and the waiting `Close` still have to take once the channel is closed. */
  function Pending(s: State): nat {
    2 * |s.queue|
    + (match s.consumer case Idle => 1 case Busy(_) => 2 case Done => 0)
    + if s.closer.Returned? then 0 else 1
  }

  /**
   Once the channel is closed the work left never grows, shrinks with every step of the consumer or
   of `Close`, and one of those steps is possible as long as `Close` has not returned, whoever holds
   the mutex.
  */
  lemma ClosingProgresses(s: State, step: Step)
    requires Reachable(s) && s.channelClosed && Enabled(s, step)
    ensures Next(s, step).channelClosed && Pending(Next(s, step)) <= Pending(s)
    ensures step.Receive? || step.Publish? || step.ExitClosed? || step.Return? ==> Pending(Next(s, step)) < Pending(s)
    ensures !s.closer.Returned? ==>
              Enabled(s, Receive) || Enabled(s, Publish) || Enabled(s, ExitClosed) || Enabled(s, Return)
  {
    ReachableInv(s);
  }

  // ---- which event is dropped

  /**
   A producer that found the queue full drops the oldest event of that moment exactly when the
   consumer has taken nothing since; otherwise it drops a later one although there is room, or
   nothing if the queue has run empty.
  */
  lemma DropsOldestIff(s: State)
    requires Reachable(s) && s.holder.FoundFull?
    ensures Enabled(s, MakeRoom) && 0 < |s.holder.seen| == s.capacity && |s.queue| <= s.capacity
    ensures s.holder.seen[0] !in s.dropped
    ensures s.queue == [] ==> Next(s, MakeRoom).dropped == s.dropped
    ensures s.queue != [] ==> Next(s, MakeRoom).dropped == s.dropped + {s.holder.seen[s.capacity - |s.queue|]}
    ensures s.holder.seen[0] in Next(s, MakeRoom).dropped <==> |s.queue| == s.capacity
  {
    ReachableInv(s);
    assert s.holder.seen[0] in s.holder.seen;
    if s.queue != [] {
      assert s.queue[0] == s.holder.seen[s.capacity - |s.queue|];
    }
  }

  /** The concrete run behind it: with room for two, the second event is lost while the queue holds one. */
  lemma DropWithRoom(a: Event, b: Event, c: Event) returns (s: State)
    ensures Reachable(s) && s.holder == FoundFull(c, [0, 1]) && s.accepted == [a, b]
    ensures |s.queue| < s.capacity && s.dropped == {}
    ensures Enabled(s, MakeRoom) && Next(s, MakeRoom).dropped == {1}
  {
    var s0 := Init(2);
    var s1 := Next(Next(Next(s0, Lock(a)), Check), TrySend);
    assert s1 == s0.(queue := [0], accepted := [a]);
    var s2 := s0.(queue := [0, 1], accepted := [a, b]);
    assert s2 == Next(Next(Next(s1, Lock(b)), Check), TrySend);
    s := s2.(holder := FoundFull(c, [0, 1]), consumer := Busy(0), queue := [1]);
    var last := FindFullThenTake(s2, c);
    Runs3(s1, Lock(b), Check, TrySend, last);
    Runs3(s0, Lock(a), Check, TrySend, [Lock(b), Check, TrySend] + last);
  }

  lemma FindFullThenTake(s: State, c: Event) returns (steps: seq<Step>)
    requires Enabled(s, Lock(c)) && !s.eventsClosed && !s.channelClosed
    requires s.consumer.Idle? && |s.queue| == s.capacity > 0
    ensures IsRun(s, steps)
    ensures After(s, steps) == s.(holder := FoundFull(c, s.queue), consumer := Busy(s.queue[0]), queue := s.queue[1..])
  {
    var full := Next(Next(Next(s, Lock(c)), Check), TrySend);
    var none: seq<Step> := [];
    Runs1(full, Receive, none);
    Runs3(s, Lock(c), Check, TrySend, [Receive] + none);
    steps := [Lock(c), Check, TrySend] + ([Receive] + none);
  }
}
