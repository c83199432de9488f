/**
 One poll of a device (`pollDevice`, `pollOne` and `applyMembers` in internal/engine/worker.go): the
 groups of the plan in turn, going on past groups that fail.
*/
module Polling {
  import opened Bits
  import opened Pdu
  import opened Frames
  import opened Receive
  import opened Slave
  import opened Props
  import opened Mapper
  import opened Grouping
  import opened GroupingFacts
  import opened ReadPath
  import opened Transact
  import opened Late
  import Schedule

  /** What surrounds one group: its link, the context before it, its attempts, the gap after it. */
  datatype Turn = Turn(link: Link, stopBefore: bool, tries: seq<Attempt>, stopAfter: bool)

  type Cache = map<string, Raw>

  function AwaitOf(unitID: byte, g: RegGroup, turn: Turn): Await {
    ReadReply(turn.link, unitID, g.readFC % 256, if g.quantity < 0 then 0 else g.quantity)
  }

  /** `pollOne` up to the cache: an illegal request is refused before anything is sent. */
  function Poll(unitID: byte, g: RegGroup, turn: Turn): Verdict {
    if !ValidReadRequest(g.readFC % 256, g.startAddr, g.quantity) then Denied(InvalidAddress)
    else Transaction(AwaitOf(unitID, g, turn), turn.tries)
  }

  /** How the device is taken to have fared, and the cache, once group i and those after it had their turn. */
  function Polled(unitID: byte, groups: seq<RegGroup>, turns: seq<Turn>, i: nat, failed: bool, cache: Cache)
    : (Schedule.Result, Cache)
    requires |turns| == |groups| && i <= |groups|
    decreases |groups| - i
  {
    if i == |groups| then (if failed then Schedule.Bad else Schedule.Good, cache)
    else if turns[i].stopBefore then (Schedule.Good, cache)
    else
      match Poll(unitID, groups[i], turns[i])
      case LinkDown => (Schedule.LinkDown, cache)
      case Got(data) =>
        var filled := Applied(groups[i].members, data, cache);
        if turns[i].stopAfter then (Schedule.Good, filled) else Polled(unitID, groups, turns, i + 1, failed, filled)
      case _ => Polled(unitID, groups, turns, i + 1, true, cache)
  }

  method PollDevice(unitID: byte, groups: seq<RegGroup>, turns: seq<Turn>, cache: Cache, dev: Device)
    returns (r: Schedule.Result, filled: Cache)
    requires |turns| == |groups| && dev.Valid()
    ensures (r, filled) == Polled(unitID, groups, turns, 0, false, cache)
  {
    filled := cache;
    var failed := false;
    for i := 0 to |groups|
      invariant Polled(unitID, groups, turns, 0, false, cache) == Polled(unitID, groups, turns, i, failed, filled)
    {
      var g, turn := groups[i], turns[i];
      if turn.stopBefore { return Schedule.Good, filled; }
      var v := PollOne(unitID, g, turn, dev);
      if v.LinkDown? { return Schedule.LinkDown, filled; }
      if !v.Got? {
        failed := true;
        continue;
      }
      filled := ApplyMembers(g, v.data, filled);
      if turn.stopAfter { return Schedule.Good, filled; }
    }
    r := if failed then Schedule.Bad else Schedule.Good;
  }

  method PollOne(unitID: byte, g: RegGroup, turn: Turn, dev: Device) returns (v: Verdict)
    requires dev.Valid()
    ensures v == Poll(unitID, g, turn)
  {
    var req := BuildReadPDU(g.readFC % 256, g.startAddr, g.quantity);
    if req.Err? { return Denied(req.error); }
    var after: Device;
    v, after := Request(AwaitOf(unitID, g, turn), req.value, turn.tries, dev);
  }

  // ---- what the cache holds afterwards

  /** Whether group i gets its turn and its data. */
  predicate GroupRead(unitID: byte, groups: seq<RegGroup>, turns: seq<Turn>, i: nat)
    requires |turns| == |groups| && i < |groups|
  {
    Reached(unitID, groups, turns, i) && !turns[i].stopBefore && Poll(unitID, groups[i], turns[i]).Got?
  }

  /** Whether the poll gets as far as group i. */
  predicate Reached(unitID: byte, groups: seq<RegGroup>, turns: seq<Turn>, i: nat)
    requires |turns| == |groups| && i <= |groups|
  {
    forall j :: 0 <= j < i ==>
      && !turns[j].stopBefore && !Poll(unitID, groups[j], turns[j]).LinkDown?
      && !(Poll(unitID, groups[j], turns[j]).Got? && turns[j].stopAfter)
  }

  /** The entry at `key` takes the value, or is left as it was when there is none. */
  predicate Entry(before: Cache, after: Cache, key: string, v: Mapped<Raw>) {
    if v.Good? then key in after && after[key] == v.value
    else (key in after <==> key in before) && (key in before ==> after[key] == before[key])
  }

  function ValueIf(c: bool, v: Mapped<Raw>): Mapped<Raw> { if c then v else Bad(InsufficientBytes) }

  /** What a member of group i comes out as: its value in the group's data if the group was read. */
  ghost predicate MemberEntry(unitID: byte, groups: seq<RegGroup>, turns: seq<Turn>, dev: Device,
                              before: Cache, after: Cache, i: nat, m: GroupMember)
    requires |turns| == |groups| && i < |groups| && dev.Valid() && Sendable(groups[i])
  {
    Entry(before, after, CacheKey(m.prop),
          ValueIf(GroupRead(unitID, groups, turns, i), MemberValue(m, GroupData(dev, groups[i]))))
  }

  /** No member of any group is kept under the key. */
  predicate NoMember(groups: seq<RegGroup>, key: string) {
    forall g :: g in groups ==> !HasKey(g.members, key)
  }

  predicate HasKey(members: seq<GroupMember>, key: string) {
    exists m :: m in members && CacheKey(m.prop) == key
  }

  /** The device's answer to the request for a group. */
  function GroupAnswer(unitID: byte, g: RegGroup, turn: Turn, dev: Device): seq<byte>
    requires Sendable(g) && dev.Valid()
  {
    assert g.readFC % 256 == g.readFC;
    ReadAnswer(AwaitOf(unitID, g, turn), g.startAddr, dev)
  }

  ghost predicate SoundTurn(unitID: byte, g: RegGroup, turn: Turn, dev: Device)
    requires Sendable(g) && dev.Valid()
  {
    assert g.readFC % 256 == g.readFC;
    forall t :: t in turn.tries ==> Sound(AwaitOf(unitID, g, turn), g.startAddr, dev, t)
  }

  /** In every attempt of every group, what arrives can be explained by late replies that do not mislead. */
  ghost predicate SoundLine(unitID: byte, groups: seq<RegGroup>, turns: seq<Turn>, dev: Device)
    requires |turns| == |groups| && dev.Valid()
  {
    forall i :: 0 <= i < |groups| && Sendable(groups[i]) ==> SoundTurn(unitID, groups[i], turns[i], dev)
  }

  /** Over TCP, what arrives is late replies of other units or to other transactions, and then the answer. */
  ghost predicate TcpTurn(unitID: byte, g: RegGroup, turn: Turn, dev: Device)
    requires Sendable(g) && dev.Valid()
  {
    forall t :: t in turn.tries ==>
      exists late :: Explains(late, turn.link, GroupAnswer(unitID, g, turn, dev), t) && Foreign(turn.link, unitID, late)
  }

  /** Such replies never mislead. */
  lemma TcpLineSound(unitID: byte, groups: seq<RegGroup>, turns: seq<Turn>, dev: Device)
    requires |turns| == |groups| && dev.Valid()
    requires forall i :: 0 <= i < |groups| && Sendable(groups[i]) ==> TcpTurn(unitID, groups[i], turns[i], dev)
    ensures SoundLine(unitID, groups, turns, dev)
  {
    forall i | 0 <= i < |groups| && Sendable(groups[i]) ensures SoundTurn(unitID, groups[i], turns[i], dev) {
      TcpTurnSound(unitID, groups[i], turns[i], dev);
    }
  }

  lemma TcpTurnSound(unitID: byte, g: RegGroup, turn: Turn, dev: Device)
    requires Sendable(g) && dev.Valid() && TcpTurn(unitID, g, turn, dev)
    ensures SoundTurn(unitID, g, turn, dev)
  {
    assert g.readFC % 256 == g.readFC;
    forall t | t in turn.tries ensures Sound(AwaitOf(unitID, g, turn), g.startAddr, dev, t) {
      var late :| Explains(late, turn.link, GroupAnswer(unitID, g, turn, dev), t) && Foreign(turn.link, unitID, late);
      TcpSound(AwaitOf(unitID, g, turn), g.startAddr, dev, late, t);
    }
  }

  /**
   A poll in which groups may fail in any way and replies may come late. Each member of a group that
   was read has the value its slice of the device's data maps to, if it maps; in register space that
   is the value it has when read alone. Every other entry of the cache is as before.
  */
  lemma PollMeaning(props: seq<PropMeta>, bits: bool, maxRegs: int, groups: seq<RegGroup>, unitID: byte,
                    turns: seq<Turn>, cache: Cache, dev: Device)
    requires SafeProps(props, bits) && IsPlan(groups, props, maxRegs) && |turns| == |groups| && dev.Valid()
    requires SoundLine(unitID, groups, turns, dev)
    ensures forall g :: g in groups ==> Sendable(g)
    ensures var filled := Polled(unitID, groups, turns, 0, false, cache).1;
            && (forall i: nat, m :: i < |groups| && m in groups[i].members ==>
                  MemberEntry(unitID, groups, turns, dev, cache, filled, i, m))
            && (forall key :: NoMember(groups, key) ==> Entry(cache, filled, key, Bad(InsufficientBytes)))
    ensures forall g, m :: g in groups && m in g.members && g.space == RegisterSpace ==>
              Sendable(AloneGroup(m.prop)) && MemberValue(m, GroupData(dev, g)) == AloneValue(dev, m.prop)
  {
    PlanLegal(props, bits, maxRegs, groups);
    assert forall g :: g in groups ==> Legal(g, maxRegs) && Sendable(g);
    var filled := Polled(unitID, groups, turns, 0, false, cache).1;
    forall i: nat, m | i < |groups| && m in groups[i].members
      ensures MemberEntry(unitID, groups, turns, dev, cache, filled, i, m)
    {
      var v := MemberValue(m, GroupData(dev, groups[i]));
      OwnGroup(props, bits, maxRegs, groups, dev, i, m);
      PolledKey(groups, unitID, turns, 0, false, cache, cache, dev, CacheKey(m.prop), i, v);
    }
    forall key | NoMember(groups, key) ensures Entry(cache, filled, key, Bad(InsufficientBytes)) {
      Unowned(groups, dev, key);
      PolledKey(groups, unitID, turns, 0, false, cache, cache, dev, key, -1, Bad(InsufficientBytes));
    }
    forall g, m | g in groups && m in g.members && g.space == RegisterSpace
      ensures Sendable(AloneGroup(m.prop)) && MemberValue(m, GroupData(dev, g)) == AloneValue(dev, m.prop)
    {
      assert Legal(g, maxRegs);
      MemberGetsOwn(g, m, dev);
    }
  }

  /** Whatever group j keeps under the key, it is the given group, and the value is v. */
  ghost predicate KeptBy(groups: seq<RegGroup>, dev: Device, key: string, own: int, v: Mapped<Raw>, j: nat)
    requires j < |groups| && dev.Valid() && Sendable(groups[j])
  {
    && (HasKey(groups[j].members, key) <==> j == own)
    && forall m :: m in groups[j].members && CacheKey(m.prop) == key ==> MemberValue(m, GroupData(dev, groups[j])) == v
  }

  ghost predicate Kept(groups: seq<RegGroup>, dev: Device, key: string, own: int, v: Mapped<Raw>) {
    && dev.Valid() && (forall g :: g in groups ==> Sendable(g))
    && forall j: nat :: j < |groups| ==> KeptBy(groups, dev, key, own, v, j)
  }

  lemma Unowned(groups: seq<RegGroup>, dev: Device, key: string)
    requires dev.Valid() && (forall g :: g in groups ==> Sendable(g)) && NoMember(groups, key)
    ensures Kept(groups, dev, key, -1, Bad(InsufficientBytes))
  {
    forall j: nat | j < |groups| ensures KeptBy(groups, dev, key, -1, Bad(InsufficientBytes), j) {
      assert groups[j] in groups;
      assert forall m :: m in groups[j].members && CacheKey(m.prop) == key ==> HasKey(groups[j].members, key);
    }
  }

  predicate ReadBefore(unitID: byte, groups: seq<RegGroup>, turns: seq<Turn>, own: int, n: nat)
    requires |turns| == |groups| && n <= |groups|
  {
    0 <= own < n && GroupRead(unitID, groups, turns, own)
  }

  /** The rest of a poll, from group i on, for one key. */
  lemma {:induction false} PolledKey(groups: seq<RegGroup>, unitID: byte, turns: seq<Turn>, i: nat, failed: bool,
                                     before: Cache, now: Cache, dev: Device, key: string, own: int, v: Mapped<Raw>)
    requires |turns| == |groups| && i <= |groups| && Kept(groups, dev, key, own, v)
    requires SoundLine(unitID, groups, turns, dev) && Reached(unitID, groups, turns, i)
    requires Entry(before, now, key, ValueIf(ReadBefore(unitID, groups, turns, own, i), v))
    ensures Entry(before, Polled(unitID, groups, turns, i, failed, now).1, key,
                  ValueIf(ReadBefore(unitID, groups, turns, own, |groups|), v))
    decreases |groups| - i
  {
    if i == |groups| {
    } else if !GroupRead(unitID, groups, turns, i) {
      if turns[i].stopBefore || Poll(unitID, groups[i], turns[i]).LinkDown? {
        NothingAfter(unitID, groups, turns, i, own);
      } else {
        PolledKey(groups, unitID, turns, i + 1, true, before, now, dev, key, own, v);
      }
    } else {
      var filled := GroupFills(groups, unitID, turns, i, before, now, dev, key, own, v);
      if turns[i].stopAfter {
        NothingAfter(unitID, groups, turns, i, own);
      } else {
        PolledKey(groups, unitID, turns, i + 1, failed, before, filled, dev, key, own, v);
      }
    }
  }

  /** A poll that ends with group i reads no later group. */
  lemma NothingAfter(unitID: byte, groups: seq<RegGroup>, turns: seq<Turn>, i: nat, own: int)
    requires |turns| == |groups| && i < |groups|
    requires turns[i].stopBefore || Poll(unitID, groups[i], turns[i]).LinkDown?
             || (Poll(unitID, groups[i], turns[i]).Got? && turns[i].stopAfter)
    ensures ReadBefore(unitID, groups, turns, own, |groups|) <==> ReadBefore(unitID, groups, turns, own, i + 1)
  {
    forall j: nat | i < j < |groups| ensures !GroupRead(unitID, groups, turns, j) {
    }
  }

  /** A group that is read gives the key its value, if the key is its own. */
  lemma GroupFills(groups: seq<RegGroup>, unitID: byte, turns: seq<Turn>, i: nat, before: Cache, now: Cache,
                   dev: Device, key: string, own: int, v: Mapped<Raw>)
    returns (filled: Cache)
    requires |turns| == |groups| && i < |groups| && Kept(groups, dev, key, own, v)
    requires SoundLine(unitID, groups, turns, dev) && GroupRead(unitID, groups, turns, i)
    requires Entry(before, now, key, ValueIf(ReadBefore(unitID, groups, turns, own, i), v))
    ensures Poll(unitID, groups[i], turns[i]).Got?
    ensures filled == Applied(groups[i].members, Poll(unitID, groups[i], turns[i]).data, now)
    ensures Entry(before, filled, key, ValueIf(ReadBefore(unitID, groups, turns, own, i + 1), v))
  {
    var g := groups[i];
    assert g in groups && KeptBy(groups, dev, key, own, v, i);
    PollIsData(groups, unitID, turns, i, dev);
    filled := Applied(g.members, GroupData(dev, g), now);
    AppliedKey(g.members, GroupData(dev, g), now, key, v);
  }

  lemma PollIsData(groups: seq<RegGroup>, unitID: byte, turns: seq<Turn>, i: nat, dev: Device)
    requires |turns| == |groups| && dev.Valid() && SoundLine(unitID, groups, turns, dev)
    requires i < |groups| && Sendable(groups[i]) && Poll(unitID, groups[i], turns[i]).Got?
    ensures Poll(unitID, groups[i], turns[i]).data == GroupData(dev, groups[i])
  {
    var g := groups[i];
    assert g.readFC % 256 == g.readFC;
    assert SoundTurn(unitID, g, turns[i], dev);
    ReadNeverWrong(AwaitOf(unitID, g, turns[i]), g.startAddr, dev, turns[i].tries);
  }

  lemma {:induction false} AppliedKey(members: seq<GroupMember>, raw: seq<byte>, now: Cache, key: string,
                                      v: Mapped<Raw>)
    requires forall m :: m in members && CacheKey(m.prop) == key ==> MemberValue(m, raw) == v
    ensures Entry(now, Applied(members, raw, now), key, ValueIf(HasKey(members, key), v))
  {
    if members != [] {
      var n := |members| - 1;
      AppliedKey(members[..n], raw, now, key, v);
      HasKeySnoc(members, key);
      assert members[n] in members;
    }
  }

  lemma HasKeySnoc(members: seq<GroupMember>, key: string)
    requires members != []
    ensures var n := |members| - 1;
            HasKey(members, key) <==> HasKey(members[..n], key) || CacheKey(members[n].prop) == key
  {
    var n := |members| - 1;
    assert forall m :: m in members <==> m in members[..n] || m == members[n];
  }

  /** In the plan of an accepted list each key belongs to one member of one group. */
  lemma OwnGroup(props: seq<PropMeta>, bits: bool, maxRegs: int, groups: seq<RegGroup>, dev: Device, i: nat,
                 m: GroupMember)
    requires SafeProps(props, bits) && IsPlan(groups, props, maxRegs) && dev.Valid()
    requires forall g :: g in groups ==> Legal(g, maxRegs) && Sendable(g)
    requires i < |groups| && m in groups[i].members
    ensures Kept(groups, dev, CacheKey(m.prop), i, MemberValue(m, GroupData(dev, groups[i])))
  {
    var key, v := CacheKey(m.prop), MemberValue(m, GroupData(dev, groups[i]));
    forall j: nat | j < |groups| ensures KeptBy(groups, dev, key, i, v, j) {
      forall l | l in groups[j].members && CacheKey(l.prop) == key ensures j == i && l == m {
        SameMember(props, bits, maxRegs, groups, i, m, j, l);
      }
      assert m in groups[i].members ==> HasKey(groups[i].members, key);
    }
  }

  lemma SameMember(props: seq<PropMeta>, bits: bool, maxRegs: int, groups: seq<RegGroup>, i: nat, m: GroupMember,
                   j: nat, l: GroupMember)
    requires SafeProps(props, bits) && IsPlan(groups, props, maxRegs)
    requires forall g :: g in groups ==> Legal(g, maxRegs)
    requires i < |groups| && m in groups[i].members && j < |groups| && l in groups[j].members
    requires CacheKey(m.prop) == CacheKey(l.prop)
    ensures i == j && m == l
  {
    var p := m.prop;
    MemberOfPlan(props, maxRegs, groups, groups[i], m);
    MemberOfPlan(props, maxRegs, groups, groups[j], l);
    KeysDistinct(props, bits, p, l.prop);
    ExactlyOnce(props, bits, maxRegs, groups, p);
    CountPresent(groups[i].members, m);
    CountPresent(groups[j].members, l);
    if i < j {
      OccursTwice(groups, i, j, p);
    } else if j < i {
      OccursTwice(groups, j, i, p);
    }
    assert Legal(groups[i], maxRegs);
  }

  lemma {:induction false} OccursTwice(groups: seq<RegGroup>, i: nat, j: nat, p: PropMeta)
    requires i < j < |groups| && CountMembers(groups[i].members, p) > 0 && CountMembers(groups[j].members, p) > 0
    ensures Occurs(groups, p) >= 2
  {
    var n := |groups| - 1;
    if j == n {
      assert groups[..n][i] == groups[i];
      OccursAtLeast(groups[..n], groups[i], p);
    } else {
      OccursTwice(groups[..n], i, j, p);
    }
  }

  lemma MemberOfPlan(props: seq<PropMeta>, maxRegs: int, groups: seq<RegGroup>, g: RegGroup, m: GroupMember)
    requires IsPlan(groups, props, maxRegs) && g in groups && m in g.members
    ensures m.prop in props && Readable(m.prop)
  {
    var k := PlanKey(props, maxRegs, groups, g);
    BucketKeyed(props, k);
    MembersFromBucket(Bucket(props, k), k, maxRegs, g, m);
  }

  lemma MembersFromBucket(members: seq<PropMeta>, k: Key, maxRegs: int, g: RegGroup, m: GroupMember)
    requires g in BucketGroups(members, k, maxRegs) && m in g.members
    ensures m.prop in members
  {
    if m.prop !in members {
      CountPresent(g.members, m);
      CountZero(members, m.prop);
      CountAbsent(members, k, maxRegs, m.prop);
      OccursAtLeast(BucketGroups(members, k, maxRegs), g, m.prop);
    }
  }

  lemma {:induction false} CountZero(props: seq<PropMeta>, p: PropMeta)
    requires p !in props
    ensures Count(props, p) == 0
  {
    if props != [] {
      CountZero(props[..|props| - 1], p);
    }
  }

  lemma {:induction false} CountPresent(members: seq<GroupMember>, m: GroupMember)
    requires m in members
    ensures CountMembers(members, m.prop) > 0
  {
    var n := |members| - 1;
    if members[n] != m {
      CountPresent(members[..n], m);
    }
  }

  lemma {:induction false} OccursAtLeast(groups: seq<RegGroup>, g: RegGroup, p: PropMeta)
    requires g in groups
    ensures Occurs(groups, p) >= CountMembers(g.members, p)
  {
    var n := |groups| - 1;
    if groups[n] != g {
      OccursAtLeast(groups[..n], g, p);
    }
  }

  lemma KeysDistinct(props: seq<PropMeta>, bits: bool, p: PropMeta, q: PropMeta)
    requires SafeProps(props, bits) && p in props && q in props
    ensures CacheKey(p) == CacheKey(q) ==> p == q
  {
    var i :| 0 <= i < |props| && props[i] == p;
    var j :| 0 <= j < |props| && props[j] == q;
    assert ValidProp(props[i], bits) && ValidProp(props[j], bits);
    assert i == j || props[i].id != props[j].id;
  }

  // ---- one late answer over RTU

  /** Nothing arrives in the attempt before its time-out. */
  predicate Silent(t: Attempt) { Hears(t) && Quiet(t.events) && Stream(t.events) == [] }

  /**
   Two groups with the same code and quantity. The answer to the first comes only when the second has
   been sent, and the second group's properties are filled with the first group's data.
  */
  lemma LatePoll(unitID: byte, g: RegGroup, h: RegGroup, turns: seq<Turn>, silent: Attempt, t: Attempt,
                 cache: Cache, dev: Device)
    requires Sendable(g) && Sendable(h) && g.readFC == h.readFC && g.quantity == h.quantity && dev.Valid()
    requires turns == [Turn(Rtu, false, [silent], false), Turn(Rtu, false, [t], false)]
    requires Silent(silent) && Hears(t)
    requires Stream(t.events) == GroupAnswer(unitID, g, turns[0], dev) + GroupAnswer(unitID, h, turns[1], dev)
    ensures Polled(unitID, [g, h], turns, 0, false, cache) ==
            (Schedule.Bad, Applied(h.members, GroupData(dev, g), cache))
  {
    SilentFails(AwaitOf(unitID, g, turns[0]), silent);
    OtherPoll(unitID, g, h, turns[0], turns[1], t, dev);
    TwoPolls(unitID, g, h, turns, cache);
  }

  lemma OtherPoll(unitID: byte, g: RegGroup, h: RegGroup, before: Turn, turn: Turn, t: Attempt, dev: Device)
    requires Sendable(g) && Sendable(h) && g.readFC == h.readFC && g.quantity == h.quantity && dev.Valid()
    requires before.link.Rtu? && turn.link.Rtu? && turn.tries == [t] && Hears(t)
    requires Stream(t.events) == GroupAnswer(unitID, g, before, dev) + GroupAnswer(unitID, h, turn, dev)
    ensures Poll(unitID, h, turn) == Got(GroupData(dev, g))
  {
    var a := AwaitOf(unitID, h, turn);
    AwaitedAnswer(unitID, g, before, dev, a);
    AwaitedAnswer(unitID, h, turn, dev, a);
    LateAnswerTaken(a, g.startAddr, h.startAddr, dev, t, []);
    assert [t] + [] == [t];
    assert Poll(unitID, h, turn) == Transaction(a, [t]);
  }

  lemma AwaitedAnswer(unitID: byte, g: RegGroup, turn: Turn, dev: Device, a: Await)
    requires Sendable(g) && dev.Valid() && a == AwaitOf(unitID, g, turn)
    ensures LegalRead(a, g.startAddr) && GroupAnswer(unitID, g, turn, dev) == ReadAnswer(a, g.startAddr, dev)
    ensures ReadData(dev, a.fc, g.startAddr, a.quantity) == GroupData(dev, g)
  {
    assert g.readFC % 256 == g.readFC;
  }

  lemma SilentFails(a: Await, t: Attempt)
    requires Silent(t) && a.ReadReply?
    ensures Transaction(a, [t]) == Exhausted
  {
    QuietSettles(a, t.events);
    assert Transaction(a, [t][1..]) == Exhausted;
  }

  lemma TwoPolls(unitID: byte, g: RegGroup, h: RegGroup, turns: seq<Turn>, cache: Cache)
    requires |turns| == 2 && !turns[0].stopBefore && !turns[1].stopBefore && !turns[1].stopAfter
    requires Poll(unitID, g, turns[0]) == Exhausted && Poll(unitID, h, turns[1]).Got?
    ensures Polled(unitID, [g, h], turns, 0, false, cache) ==
            (Schedule.Bad, Applied(h.members, Poll(unitID, h, turns[1]).data, cache))
  {
    var groups, filled := [g, h], Applied(h.members, Poll(unitID, h, turns[1]).data, cache);
    assert Polled(unitID, groups, turns, 2, true, filled) == (Schedule.Bad, filled);
    assert Polled(unitID, groups, turns, 1, true, cache) == (Schedule.Bad, filled);
  }
}
