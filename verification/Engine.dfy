/**
 The reconciler (`Engine.Apply`, `startChannel` and `Stop` in internal/engine/engine.go). Both
 operations hold `applyMu` throughout, so a run is a sequence of whole operations; the ghost trace
 records every worker started and stopped, in order.
*/
module Engine {
  import opened Plans

  /** A link's goroutine, reduced to its identity, its channel, its fingerprint and whether it runs. */
  class Worker {
    const index: int
    const fp: Text
    var live: bool

    constructor (index: int, fp: Text)
      ensures this.index == index && this.fp == fp && live
    {
      this.index, this.fp, live := index, fp, true;
    }

    /** `stop`: returns only once the goroutine has ended. */
    method Stop()
      modifies this
      ensures !live
    {
      live := false;
    }
  }

  datatype Event = Started(worker: Worker) | Stopped(worker: Worker)

  /** The workers running after a trace. */
  ghost function LiveAfter(trace: seq<Event>): set<Worker> {
    if trace == [] then {}
    else
      var n := |trace| - 1;
      match trace[n]
      case Started(w) => LiveAfter(trace[..n]) + {w}
      case Stopped(w) => LiveAfter(trace[..n]) - {w}
  }

  ghost predicate OnePerChannel(ws: set<Worker>) {
    forall v, w :: v in ws && w in ws && v.index == w.index ==> v == w
  }

  /** At no moment of the trace do two workers of one channel run. */
  ghost predicate NoOverlap(trace: seq<Event>) {
    forall n :: 0 <= n <= |trace| ==> OnePerChannel(LiveAfter(trace[..n]))
  }

  /** The events after the first n are stops of these workers. */
  ghost predicate OnlyStops(trace: seq<Event>, n: nat, ws: set<Worker>) {
    n <= |trace| && forall i :: n <= i < |trace| ==> trace[i].Stopped? && trace[i].worker in ws
  }

  /** The events after the first n are starts of these workers. */
  ghost predicate OnlyStarts(trace: seq<Event>, n: nat, ws: set<Worker>) {
    n <= |trace| && forall i :: n <= i < |trace| ==> trace[i].Started? && trace[i].worker in ws
  }

  /** The desired channels; of two plans with one index the later wins. */
  function Desired(plans: seq<ChannelPlan>): map<int, ChannelPlan> {
    if plans == [] then map[] else Desired(plans[..|plans| - 1])[plans[|plans| - 1].channelIndex := plans[|plans| - 1]]
  }

  /** A running worker that the new plans leave alone. */
  predicate Kept(desired: map<int, ChannelPlan>, w: Worker) {
    w.index in desired && Stream(desired[w.index]) == w.fp
  }

  /** What one call adds to the trace: stops of workers not kept, then starts of new ones. */
  ghost predicate StopsThenStarts(before: seq<Event>, after: seq<Event>, was: set<Worker>, now: set<Worker>,
                                  desired: map<int, ChannelPlan>) {
    before <= after && exists cut :: |before| <= cut <= |after| && CutAt(before, after, cut, was, now, desired)
  }

  predicate CutAt(before: seq<Event>, after: seq<Event>, cut: int, was: set<Worker>, now: set<Worker>,
                  desired: map<int, ChannelPlan>) {
    && (forall i :: |before| <= i < |after| ==> if i < cut then after[i].Stopped? else after[i].Started?)
    && (forall i :: |before| <= i < |after| ==>
          if i < cut then after[i].worker in was && !Kept(desired, after[i].worker) else after[i].worker in now - was)
  }

  /**
   The map a call leaves: the desired channels that came up, each with its plan's fingerprint; a
   channel failed exactly when it was wanted, was not already running as wanted, and is faulty;
   and a worker running as wanted is still the same object.
  */
  ghost predicate Reconciled(was: map<int, Worker>, now: map<int, Worker>, desired: map<int, ChannelPlan>,
                             faults: set<int>, failed: set<int>) {
    && (forall k :: k in now <==> k in desired && k !in failed)
    && (forall k :: k in now ==> now[k].fp == Stream(desired[k]))
    && (forall k :: k in failed <==> k in desired && k in faults && !(k in was && Kept(desired, was[k])))
    && (forall k :: k in was && Kept(desired, was[k]) ==> k in now && now[k] == was[k])
  }

  class Engine {
    var workers: map<int, Worker>
    var closed: bool
    ghost var trace: seq<Event>

    ghost predicate Valid()
      reads this, workers.Values
    {
      && (forall k :: k in workers ==> workers[k].index == k && workers[k].live)
      && LiveAfter(trace) == workers.Values
      && NoOverlap(trace)
      && (closed ==> workers == map[])
    }

    constructor ()
      ensures Valid() && workers == map[] && !closed && trace == []
    {
      workers, closed, trace := map[], false, [];
    }

    /** Every desired channel runs with the fingerprint of its plan, and nothing else does. */
    ghost predicate Settled(desired: map<int, ChannelPlan>)
      reads this, workers.Values
    {
      forall k :: (k in workers <==> k in desired) && (k in workers ==> workers[k].fp == Stream(desired[k]))
    }

    /**
     `Apply`. `faults` are the channels whose configuration or driver fails to come up this time.
     Returns the channels reported as failed.
    */
    method Apply(plans: seq<ChannelPlan>, faults: set<int>) returns (ok: bool, failed: set<int>)
      requires Valid()
      modifies this, workers.Values
      ensures Valid() && closed == old(closed) && ok == !closed
      ensures !ok ==> workers == old(workers) && trace == old(trace) && failed == {}
      ensures ok ==> Reconciled(old(workers), workers, Desired(plans), faults, failed)
      ensures ok ==> forall k :: k in old(workers) && !Kept(Desired(plans), old(workers)[k]) ==> !old(workers)[k].live
      ensures ok ==> StopsThenStarts(old(trace), trace, old(workers).Values, workers.Values, Desired(plans))
      ensures fresh(workers.Values - old(workers).Values)
    {
      if closed {
        return false, {};
      }
      var desired := Desired(plans);
      failed := Reconcile(desired, faults);
      ok := true;
    }

    /** The body of `Apply` once the engine is known to be open: all stops, then all starts. */
    method Reconcile(desired: map<int, ChannelPlan>, faults: set<int>) returns (failed: set<int>)
      requires Valid() && !closed
      modifies this`workers, this`trace, workers.Values
      ensures Valid()
      ensures Reconciled(old(workers), workers, desired, faults, failed)
      ensures forall k :: k in old(workers) && !Kept(desired, old(workers)[k]) ==> !old(workers)[k].live
      ensures StopsThenStarts(old(trace), trace, old(workers).Values, workers.Values, desired)
      ensures fresh(workers.Values - old(workers).Values)
    {
      ghost var was := workers;
      ghost var gone := StopUnwanted(desired);
      ghost var kept, mid := workers, trace;
      failed := StartMissing(desired, faults);
      ghost var added := workers.Values - kept.Values;
      assert added !! was.Values;
      ReconciledBy(was, kept, workers, desired, faults, failed);
      CutHolds(old(trace), mid, trace, gone, added, was.Values, workers.Values, desired);
    }

    /** Takes the workers that must go out of the map, then stops them. */
    method StopUnwanted(desired: map<int, ChannelPlan>) returns (ghost gone: set<Worker>)
      requires Valid() && !closed
      modifies this`workers, this`trace, workers.Values
      ensures Valid()
      ensures forall k :: k in workers <==> k in old(workers) && Kept(desired, old(workers)[k])
      ensures forall k :: k in workers ==> workers[k] == old(workers)[k]
      ensures old(trace) <= trace && OnlyStops(trace, |old(trace)|, gone)
      ensures workers.Values <= old(workers).Values
      ensures forall w :: w in gone ==> w in old(workers).Values && !Kept(desired, w)
      ensures forall k :: k in old(workers) && !Kept(desired, old(workers)[k]) ==> !old(workers)[k].live
    {
      var toStop := TakeOut(desired);
      gone := toStop;
      StopAll(toStop);
    }

    /** The first pass, and what it means for the workers taken together. */
    method TakeOut(desired: map<int, ChannelPlan>) returns (toStop: set<Worker>)
      requires forall k :: k in workers ==> workers[k].index == k
      modifies this`workers
      ensures forall k :: k in workers <==> k in old(workers) && Kept(desired, old(workers)[k])
      ensures forall k :: k in workers ==> workers[k] == old(workers)[k]
      ensures forall k :: k in old(workers) && !Kept(desired, old(workers)[k]) ==> old(workers)[k] in toStop
      ensures forall w :: w in toStop ==> !Kept(desired, w)
      ensures toStop <= old(workers).Values && workers.Values == old(workers).Values - toStop
    {
      toStop := SplitOff(desired);
      ValuesSplit(old(workers), workers, toStop);
    }

    /** The second pass under the lock: starts every desired channel that has no worker. */
    method StartMissing(desired: map<int, ChannelPlan>, faults: set<int>) returns (failed: set<int>)
      requires Valid() && !closed
      requires forall k :: k in workers ==> Kept(desired, workers[k])
      modifies this`workers, this`trace
      ensures Valid()
      ensures forall k :: k in failed <==> k in desired && k in faults && k !in old(workers)
      ensures forall k :: k in workers <==> k in desired && k !in failed
      ensures forall k :: k in old(workers) ==> k in workers && workers[k] == old(workers)[k]
      ensures forall k :: k in workers && k !in old(workers) ==> workers[k].fp == Stream(desired[k])
      ensures fresh(workers.Values - old(workers).Values)
      ensures old(trace) <= trace && OnlyStarts(trace, |old(trace)|, workers.Values - old(workers).Values)
    {
      failed := {};
      var todo := desired.Keys;
      while todo != {}
        invariant todo <= desired.Keys
        invariant forall k :: k in failed <==> k in desired.Keys - todo && k in faults && k !in old(workers)
        invariant Valid() && !closed
        invariant fresh(workers.Values - old(workers).Values)
        invariant old(trace) <= trace && OnlyStarts(trace, |old(trace)|, workers.Values - old(workers).Values)
        invariant forall k :: k in workers <==> k in old(workers) || (k in desired.Keys - todo && k !in failed)
        invariant forall k :: k in old(workers) ==> workers[k] == old(workers)[k]
        invariant forall k :: k in workers && k !in old(workers) ==> workers[k].fp == Stream(desired[k])
      {
        ghost var _ := Member(todo);
        var k: int :| k in todo;
        todo := todo - {k};
        if k in workers { continue; }
        if k in faults {
          failed := failed + {k};
          continue;
        }
        Start(k, Stream(desired[k]));
      }
    }

    /** `startChannel`, when the configuration and the driver are good. */
    method Start(k: int, fp: Text)
      requires Valid() && !closed && k !in workers
      modifies this`workers, this`trace
      ensures Valid() && k in workers && fresh(workers[k]) && workers[k].fp == fp
      ensures workers == old(workers)[k := workers[k]] && workers.Values == old(workers).Values + {workers[k]}
      ensures trace == old(trace) + [Started(workers[k])]
    {
      var w := new Worker(k, fp);
      TraceSnoc(trace, Started(w));
      AddedValue(workers, k, w);
      workers := workers[k := w];
      trace := trace + [Started(w)];
    }

    /** The first pass under the lock: takes the workers that must go out of the map. */
    method SplitOff(desired: map<int, ChannelPlan>) returns (toStop: set<Worker>)
      requires forall k :: k in workers ==> workers[k].index == k
      modifies this`workers
      ensures forall k :: k in workers <==> k in old(workers) && Kept(desired, old(workers)[k])
      ensures forall k :: k in workers ==> workers[k] == old(workers)[k]
      ensures forall w :: w in toStop <==> w.index in old(workers) && old(workers)[w.index] == w && !Kept(desired, w)
      ensures toStop <= old(workers).Values
    {
      toStop := {};
      var todo := workers.Keys;
      while todo != {}
        invariant todo <= workers.Keys <= old(workers).Keys && toStop <= old(workers).Values
        invariant forall k :: k in old(workers) ==> (k in workers <==> k in todo || Kept(desired, old(workers)[k]))
        invariant forall k :: k in workers ==> workers[k] == old(workers)[k]
        invariant forall w :: w in toStop <==>
                    w.index in old(workers) && w.index !in todo && old(workers)[w.index] == w && !Kept(desired, w)
      {
        ghost var _ := Member(todo);
        var k: int :| k in todo;
        todo := todo - {k};
        var w := workers[k];
        if !Kept(desired, w) {
          toStop := toStop + {w};
          workers := workers - {k};
        }
      }
    }

    /** Stops every given worker and waits for it. */
    method StopAll(toStop: set<Worker>)
      requires toStop <= LiveAfter(trace) && NoOverlap(trace)
      modifies this`trace, toStop
      ensures old(trace) <= trace && OnlyStops(trace, |old(trace)|, toStop) && NoOverlap(trace)
      ensures LiveAfter(trace) == LiveAfter(old(trace)) - toStop
      ensures forall w :: w in toStop ==> !w.live
    {
      var todo := toStop;
      while todo != {}
        invariant todo <= toStop
        invariant old(trace) <= trace && OnlyStops(trace, |old(trace)|, toStop) && NoOverlap(trace)
        invariant LiveAfter(trace) == LiveAfter(old(trace)) - (toStop - todo)
        invariant forall w :: w in toStop - todo ==> !w.live
      {
        var w :| w in todo;
        todo := todo - {w};
        w.Stop();
        TraceSnoc(trace, Stopped(w));
        trace := trace + [Stopped(w)];
      }
    }

    /** `Stop`: final. */
    method Stop()
      requires Valid()
      modifies this, workers.Values
      ensures Valid() && closed && workers == map[]
      ensures forall k :: k in old(workers) ==> !old(workers)[k].live
      ensures old(trace) <= trace && OnlyStops(trace, |old(trace)|, old(workers).Values)
    {
      closed := true;
      var all := workers.Values;
      workers := map[];
      StopAll(all);
    }
  }

  /** One more event: the live set moves by it, and a stop never makes channels overlap. */
  lemma TraceSnoc(trace: seq<Event>, e: Event)
    requires NoOverlap(trace)
    ensures LiveAfter(trace + [e]) ==
            if e.Started? then LiveAfter(trace) + {e.worker} else LiveAfter(trace) - {e.worker}
    ensures OnePerChannel(LiveAfter(trace + [e])) ==> NoOverlap(trace + [e])
    ensures e.Stopped? ==> NoOverlap(trace + [e])
  {
    var t := trace + [e];
    assert t[..|trace|] == trace;
    assert trace[..|trace|] == trace;
    assert OnePerChannel(LiveAfter(trace[..|trace|]));
    if OnePerChannel(LiveAfter(t)) {
      forall n | 0 <= n <= |t| ensures OnePerChannel(LiveAfter(t[..n])) {
        if n == |t| {
          assert t[..n] == t;
        } else {
          assert t[..n] == trace[..n];
        }
      }
    }
  }

  lemma Member<T>(s: set<T>) returns (k: T)
    requires s != {}
    ensures k in s
  {
    k :| k in s;
  }

  lemma KeyOf<K, V>(m: map<K, V>, v: V) returns (k: K)
    requires v in m.Values
    ensures k in m && m[k] == v
  {
    k :| k in m && m[k] == v;
  }

  /** The workers left and the workers taken out make up the workers there were. */
  lemma ValuesSplit(was: map<int, Worker>, kept: map<int, Worker>, gone: set<Worker>)
    requires forall k :: k in was ==> was[k].index == k
    requires forall k :: k in kept ==> k in was && kept[k] == was[k] && was[k] !in gone
    requires forall k :: k in was && k !in kept ==> was[k] in gone
    requires gone <= was.Values
    ensures kept.Values == was.Values - gone
  {
    forall w | w in was.Values - gone ensures w in kept.Values {
      var k := KeyOf(was, w);
      assert kept[k] == w;
    }
    forall w | w in kept.Values ensures w in was.Values - gone {
      var k := KeyOf(kept, w);
      assert was[k] == w;
    }
  }

  lemma ReconciledBy(was: map<int, Worker>, kept: map<int, Worker>, now: map<int, Worker>,
                     desired: map<int, ChannelPlan>, faults: set<int>, failed: set<int>)
    requires forall k :: k in was ==> was[k].index == k
    requires forall k :: k in kept <==> k in was && Kept(desired, was[k])
    requires forall k :: k in kept ==> kept[k] == was[k] && k in now && now[k] == kept[k]
    requires forall k :: k in failed <==> k in desired && k in faults && k !in kept
    requires forall k :: k in now <==> k in desired && k !in failed
    requires forall k :: k in now && k !in kept ==> now[k].fp == Stream(desired[k])
    ensures Reconciled(was, now, desired, faults, failed)
  {
  }

  lemma CutHolds(before: seq<Event>, mid: seq<Event>, after: seq<Event>, gone: set<Worker>, added: set<Worker>,
                 was: set<Worker>, now: set<Worker>, desired: map<int, ChannelPlan>)
    requires before <= mid <= after && OnlyStops(mid, |before|, gone) && OnlyStarts(after, |mid|, added)
    requires forall w :: w in gone ==> w in was && !Kept(desired, w)
    requires added !! was && added <= now
    ensures StopsThenStarts(before, after, was, now, desired)
  {
    forall i | |before| <= i < |mid| ensures after[i] == mid[i] {
    }
    assert CutAt(before, after, |mid|, was, now, desired);
  }

  lemma AddedValue<K, V>(m: map<K, V>, k: K, v: V)
    requires k !in m
    ensures m[k := v].Values == m.Values + {v}
  {
    forall x | x in m.Values + {v} ensures x in m[k := v].Values {
      if x in m.Values {
        var j := KeyOf(m, x);
        assert m[k := v][j] == x;
      } else {
        assert m[k := v][k] == x;
      }
    }
  }

  // ---- runs

  datatype Op = ApplyOp(plans: seq<ChannelPlan>, faults: set<int>) | StopOp

  /**
   Any run of the engine, from new: workers of one channel never overlap, the running workers are
   those in the map, and from the first `Stop` on there are none.
  */
  method Run(ops: seq<Op>) returns (e: Engine)
    ensures e.Valid()
    ensures (exists i :: 0 <= i < |ops| && ops[i].StopOp?) ==> e.closed && LiveAfter(e.trace) == {}
  {
    e := new Engine();
    for i := 0 to |ops|
      invariant e.Valid() && fresh(e) && fresh(e.workers.Values)
      invariant e.closed <==> exists j :: 0 <= j < i && ops[j].StopOp?
    {
      if ops[i].StopOp? {
        e.Stop();
      } else {
        var _, _ := e.Apply(ops[i].plans, ops[i].faults);
      }
    }
  }

  /** Applying the plans an engine already runs, as it does after a clean run, starts and stops nothing. */
  method Reapply(e: Engine, plans: seq<ChannelPlan>, faults: set<int>) returns (failed: set<int>)
    requires e.Valid() && !e.closed && e.Settled(Desired(plans))
    modifies e, e.workers.Values
    ensures e.Valid() && failed == {}
    ensures e.workers == old(e.workers) && e.trace == old(e.trace)
    ensures e.Settled(Desired(plans))
  {
    assert forall k :: k in e.workers ==> Kept(Desired(plans), e.workers[k]);
    var ok: bool;
    ok, failed := e.Apply(plans, faults);
    assert forall k :: k !in failed;
    assert forall k :: k in e.workers <==> k in old(e.workers);
    assert forall k :: k in old(e.workers) ==> e.workers[k] == old(e.workers)[k];
    assert e.workers == old(e.workers);
    if e.trace != old(e.trace) {
      var w := SomethingDone(old(e.trace), e.trace, old(e.workers).Values, e.workers.Values, Desired(plans));
      var k := KeyOf(old(e.workers), w);
      assert false;
    }
  }

  /** A trace grows only when a worker was not kept, or a new one came up. */
  lemma SomethingDone(before: seq<Event>, after: seq<Event>, was: set<Worker>, now: set<Worker>,
                      desired: map<int, ChannelPlan>)
    returns (w: Worker)
    requires StopsThenStarts(before, after, was, now, desired) && after != before
    ensures (w in was && !Kept(desired, w)) || w in now - was
  {
    var cut :| |before| <= cut <= |after| && CutAt(before, after, cut, was, now, desired);
    w := after[|before|].worker;
  }
}
