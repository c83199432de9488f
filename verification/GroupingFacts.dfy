/**
 What the read plan of a validated property list guarantees, whatever order the buckets were
 walked in: every request is legal, every member slice lies in the reply, every readable property
 is read exactly once, and the plan is the same multiset of groups each time.
*/
module GroupingFacts {
  import opened Bits
  import opened Pdu
  import opened Props
  import opened Grouping

  // ---- legality

  /** A member's span lies inside its group, and its slice is measured from the group's start. */
  predicate Placed(g: RegGroup, m: GroupMember) {
    var addr, span := m.prop.registerBase + m.prop.offset, m.prop.UnitSpan(g.space);
    && m.prop.readFC == g.readFC && g.space == AddrSpaceOf(g.readFC)
    && span == m.prop.registerCount >= 1
    && g.startAddr <= addr && addr + span <= g.startAddr + g.quantity
    && m == MemberAt(m.prop, addr - g.startAddr)
  }

  /** Only a property alone in its request, at its start, can exceed the configured limit. */
  predicate Legal(g: RegGroup, maxRegs: int) {
    && IsValidReadFC(g.readFC) && ValidReadRequest(g.readFC, g.startAddr, g.quantity)
    && g.members != [] && (forall m :: m in g.members ==> Placed(g, m))
    && (g.quantity > Limit(g.readFC, maxRegs) ==>
          |g.members| == 1 && g.quantity == g.members[0].prop.registerCount)
  }

  lemma {:induction false} MaxEndBound(members: seq<PropMeta>, space: AddrSpace, bound: int)
    requires bound >= 0 && forall m :: m in members ==> m.End(space) <= bound
    ensures 0 <= MaxEnd(members, space) <= bound
  {
    if members != [] {
      MaxEndBound(members[..|members| - 1], space, bound);
    }
  }

  /** What validation gives for the members of one bucket when no address wraps. */
  predicate ReadyBucket(members: seq<PropMeta>, k: Key) {
    && IsValidReadFC(k.fc) && 0 <= k.base <= MAX_ADDRESS
    && forall m :: m in members ==> Ready(m, k)
  }

  predicate Ready(m: PropMeta, k: Key) {
    && KeyOf(m) == k && m.offset >= 0 && IsValidReadFC(k.fc)
    && m.UnitSpan(AddrSpaceOf(k.fc)) == m.registerCount
    && m.End(AddrSpaceOf(k.fc)) == m.offset + m.registerCount
    && ValidReadRequest(k.fc, k.base + m.offset, m.registerCount)
  }

  lemma BucketReady(props: seq<PropMeta>, bits: bool, k: Key)
    requires SafeProps(props, bits) && Bucket(props, k) != []
    ensures ReadyBucket(Bucket(props, k), k)
  {
    BucketKeyed(props, k);
    forall m | m in Bucket(props, k) ensures Ready(m, k) && IsValidReadFC(k.fc) && 0 <= k.base <= MAX_ADDRESS {
      ReadableIsLegal(props, bits, m);
    }
    assert Bucket(props, k)[0] in Bucket(props, k);
  }

  lemma CellLegal(members: seq<PropMeta>, k: Key, maxRegs: int, start: int, g: RegGroup)
    requires ReadyBucket(members, k) && start >= 0
    requires var limit := Limit(k.fc, maxRegs);
             var end := Min(start + limit, MaxEnd(members, AddrSpaceOf(k.fc)));
             g in CellGroup(members, k, start, end)
    ensures Legal(g, maxRegs)
  {
    var space, limit := AddrSpaceOf(k.fc), Limit(k.fc, maxRegs);
    var maxEnd := MaxEnd(members, space);
    MaxEndBound(members, space, MAX_ADDRESS + 1 - k.base);
    CellFrom(members, space, start, Min(start + limit, maxEnd));
    forall m | m in g.members ensures Placed(g, m) {
      assert Ready(m.prop, k);
    }
    assert g.members[0] in g.members;
  }

  lemma {:induction false} CellsLegal(members: seq<PropMeta>, k: Key, maxRegs: int, start: int)
    requires ReadyBucket(members, k) && Aligned(Limit(k.fc, maxRegs), start)
    ensures var limit, maxEnd := Limit(k.fc, maxRegs), MaxEnd(members, AddrSpaceOf(k.fc));
            forall g :: g in CellsBefore(members, k, limit, maxEnd, start) ==> Legal(g, maxRegs)
    decreases start
  {
    if start > 0 {
      var limit, maxEnd := Limit(k.fc, maxRegs), MaxEnd(members, AddrSpaceOf(k.fc));
      CellsLegal(members, k, maxRegs, start - limit);
      forall g | g in CellGroup(members, k, start - limit, Min(start, maxEnd)) ensures Legal(g, maxRegs) {
        CellLegal(members, k, maxRegs, start - limit, g);
      }
    }
  }

  lemma {:induction false} StraddlersLegal(members: seq<PropMeta>, k: Key, maxRegs: int, limit: int, maxEnd: int,
                                           gridEnd: int)
    requires ReadyBucket(members, k) && limit > 0
    ensures forall g :: g in Straddlers(members, k, limit, maxEnd, gridEnd) ==> Legal(g, maxRegs)
  {
    if members != [] {
      var n := |members| - 1;
      StraddlersLegal(members[..n], k, maxRegs, limit, maxEnd, gridEnd);
      assert Ready(members[n], k);
    }
  }

  lemma BucketLegal(members: seq<PropMeta>, k: Key, maxRegs: int)
    requires ReadyBucket(members, k)
    ensures forall g :: g in BucketGroups(members, k, maxRegs) ==> Legal(g, maxRegs)
  {
    var limit, maxEnd := Limit(k.fc, maxRegs), MaxEnd(members, AddrSpaceOf(k.fc));
    GridEndAligned(limit, maxEnd, 0);
    CellsLegal(members, k, maxRegs, GridEnd(limit, maxEnd, 0));
    StraddlersLegal(members, k, maxRegs, limit, maxEnd, GridEnd(limit, maxEnd, 0));
  }

  /** Every request in the plan of an accepted list is legal, and every member is placed in it. */
  lemma PlanLegal(props: seq<PropMeta>, bits: bool, maxRegs: int, groups: seq<RegGroup>)
    requires SafeProps(props, bits) && IsPlan(groups, props, maxRegs)
    ensures forall g :: g in groups ==> Legal(g, maxRegs)
  {
    forall g | g in groups ensures Legal(g, maxRegs) {
      var k := PlanKey(props, maxRegs, groups, g);
      assert Bucket(props, k) != [] by {
        EmptyBucket(k, maxRegs);
      }
      BucketReady(props, bits, k);
      BucketLegal(Bucket(props, k), k, maxRegs);
    }
  }

  lemma EmptyBucket(k: Key, maxRegs: int)
    ensures BucketGroups([], k, maxRegs) == []
  {
  }

  /** The bucket a group of the plan comes from. */
  lemma PlanKey(props: seq<PropMeta>, maxRegs: int, groups: seq<RegGroup>, g: RegGroup) returns (k: Key)
    requires IsPlan(groups, props, maxRegs) && g in groups
    ensures g in BucketGroups(Bucket(props, k), k, maxRegs) && Keyed(g, k)
  {
    assert multiset(groups)[g] == Multiplicity(props, maxRegs, g);
    assert g in multiset(groups);
    k := KeyOf(g.members[0].prop);
    assert g in multiset(BucketGroups(Bucket(props, k), k, maxRegs));
    BucketKeyed(props, k);
    GroupsKeyed(Bucket(props, k), k, maxRegs);
  }

  /** What a bucket gives is in every plan. */
  lemma InPlan(groups: seq<RegGroup>, props: seq<PropMeta>, maxRegs: int, g: RegGroup)
    requires IsPlan(groups, props, maxRegs) && g.members != []
    requires var k := KeyOf(g.members[0].prop); g in BucketGroups(Bucket(props, k), k, maxRegs)
    ensures g in groups
  {
    assert multiset(groups)[g] == Multiplicity(props, maxRegs, g) > 0;
    assert g in multiset(groups);
  }

  /** A placed member's slice lies inside the data of the reply. */
  lemma SliceInReply(g: RegGroup, m: GroupMember)
    requires Placed(g, m) && IsValidReadFC(g.readFC) && ValidReadRequest(g.readFC, g.startAddr, g.quantity)
    ensures 0 <= m.byteOffset && 1 <= m.byteLen && m.byteOffset + m.byteLen <= ReadRespByteCount(g.readFC, g.quantity)
  {
    var s, span := m.prop.registerBase + m.prop.offset - g.startAddr, m.prop.registerCount;
    if g.space == BitSpace {
      assert s == 8 * (s / 8) + s % 8;
      assert s / 8 + (s % 8 + span + 7) / 8 == (s + span + 7) / 8;
    }
  }

  // ---- exactly once

  function Count(props: seq<PropMeta>, p: PropMeta): nat {
    if props == [] then 0 else var n := |props| - 1; Count(props[..n], p) + if props[n] == p then 1 else 0
  }

  function CountMembers(members: seq<GroupMember>, p: PropMeta): nat {
    if members == [] then 0
    else
      var n := |members| - 1;
      CountMembers(members[..n], p) + if members[n].prop == p then 1 else 0
  }

  /** How many members of the groups are this property. */
  function Occurs(groups: seq<RegGroup>, p: PropMeta): nat {
    if groups == [] then 0 else var n := |groups| - 1; Occurs(groups[..n], p) + CountMembers(groups[n].members, p)
  }

  lemma CountSnoc(a: seq<PropMeta>, q: PropMeta, p: PropMeta)
    ensures Count(a + [q], p) == Count(a, p) + if q == p then 1 else 0
  {
    assert (a + [q])[..|a|] == a;
  }

  lemma CountMembersSnoc(a: seq<GroupMember>, m: GroupMember, p: PropMeta)
    ensures CountMembers(a + [m], p) == CountMembers(a, p) + if m.prop == p then 1 else 0
  {
    assert (a + [m])[..|a|] == a;
  }

  lemma OccursSnoc(a: seq<RegGroup>, g: RegGroup, p: PropMeta)
    ensures Occurs(a + [g], p) == Occurs(a, p) + CountMembers(g.members, p)
  {
    assert (a + [g])[..|a|] == a;
  }

  lemma {:induction false} OccursConcat(a: seq<RegGroup>, b: seq<RegGroup>, p: PropMeta)
    ensures Occurs(a + b, p) == Occurs(a, p) + Occurs(b, p)
  {
    if b == [] {
      assert a + b == a;
    } else {
      var n := |b| - 1;
      assert (a + b)[..|a| + n] == a + b[..n];
      OccursConcat(a, b[..n], p);
    }
  }

  lemma {:induction false} CountBucket(props: seq<PropMeta>, k: Key, p: PropMeta)
    ensures Count(Bucket(props, k), p) == if Readable(p) && KeyOf(p) == k then Count(props, p) else 0
  {
    if props != [] {
      var n := |props| - 1;
      CountBucket(props[..n], k, p);
      var b := Bucket(props[..n], k);
      if Readable(props[n]) && KeyOf(props[n]) == k {
        CountSnoc(b, props[n], p);
        assert Bucket(props, k) == b + [props[n]];
      } else {
        assert Bucket(props, k) == b;
      }
    }
  }

  lemma {:induction false} CountCell(members: seq<PropMeta>, space: AddrSpace, start: int, end: int, p: PropMeta)
    ensures CountMembers(CellMembers(members, space, start, end), p) ==
            if Inside(p, space, start, end) then Count(members, p) else 0
  {
    if members != [] {
      var n := |members| - 1;
      CountCell(members[..n], space, start, end, p);
      var c := CellMembers(members[..n], space, start, end);
      var m := MemberAt(members[n], members[n].offset - start);
      CountMembersSnoc(c, m, p);
      assert c + [] == c;
    }
  }

  /** How many of the cells that start before `start` hold the property. */
  function Holding(p: PropMeta, space: AddrSpace, limit: int, maxEnd: int, start: int): nat
    requires limit > 0
    decreases start
  {
    if start <= 0 then 0
    else
      Holding(p, space, limit, maxEnd, start - limit)
      + if Inside(p, space, start - limit, Min(start, maxEnd)) then 1 else 0
  }

  lemma {:induction false} CapturedIffHeld(p: PropMeta, space: AddrSpace, limit: int, maxEnd: int, start: int)
    requires limit > 0
    ensures CapturedBefore(p, space, limit, maxEnd, start) <==> Holding(p, space, limit, maxEnd, start) > 0
    decreases start
  {
    if start > 0 {
      CapturedIffHeld(p, space, limit, maxEnd, start - limit);
    }
  }

  /** The cells below `start` end there, so a property that ends after it starts lies in one of them at most. */
  lemma {:induction false} HeldOnce(p: PropMeta, space: AddrSpace, limit: int, maxEnd: int, start: int)
    requires limit > 0 && p.offset < p.End(space)
    ensures Holding(p, space, limit, maxEnd, start) <= 1
    ensures Holding(p, space, limit, maxEnd, start) > 0 ==> p.End(space) <= start
    decreases start
  {
    if start > 0 {
      HeldOnce(p, space, limit, maxEnd, start - limit);
    }
  }

  lemma {:induction false} CountCells(members: seq<PropMeta>, k: Key, limit: int, maxEnd: int, start: int, p: PropMeta)
    requires limit > 0 && Count(members, p) == 1
    ensures Occurs(CellsBefore(members, k, limit, maxEnd, start), p) ==
        Holding(p, AddrSpaceOf(k.fc), limit, maxEnd, start)
    decreases start
  {
    if start > 0 {
      var space, s, e := AddrSpaceOf(k.fc), start - limit, Min(start, maxEnd);
      CountCells(members, k, limit, maxEnd, s, p);
      CountCell(members, space, s, e, p);
      OccursConcat(CellsBefore(members, k, limit, maxEnd, s), CellGroup(members, k, s, e), p);
      OccursCell(members, k, s, e, p);
    }
  }

  lemma OccursCell(members: seq<PropMeta>, k: Key, start: int, end: int, p: PropMeta)
    ensures Occurs(CellGroup(members, k, start, end), p) ==
        CountMembers(CellMembers(members, AddrSpaceOf(k.fc), start, end), p)
  {
    var g := CellGroup(members, k, start, end);
    if g != [] {
      assert g[..0] == [];
    }
  }

  lemma {:induction false} CountStraddlers(members: seq<PropMeta>, k: Key, limit: int, maxEnd: int, gridEnd: int,
                                           p: PropMeta)
    requires limit > 0
    ensures Occurs(Straddlers(members, k, limit, maxEnd, gridEnd), p) ==
            if CapturedBefore(p, AddrSpaceOf(k.fc), limit, maxEnd, gridEnd) then 0 else Count(members, p)
  {
    if members != [] {
      var n := |members| - 1;
      CountStraddlers(members[..n], k, limit, maxEnd, gridEnd, p);
      var rest, m, space := Straddlers(members[..n], k, limit, maxEnd, gridEnd), members[n], AddrSpaceOf(k.fc);
      OccursSnoc(rest, RegGroup(k.fc, Wrap64(k.base + m.offset), m.UnitSpan(space), space, [MemberAt(m, 0)]), p);
      CountMembersSnoc([], MemberAt(m, 0), p);
      assert [] + [MemberAt(m, 0)] == [MemberAt(m, 0)];
      assert rest + [] == rest;
    }
  }

  /** The cells of its bucket's grid that hold a property. */
  function HeldBy(props: seq<PropMeta>, maxRegs: int, p: PropMeta): nat {
    var space, limit := AddrSpaceOf(p.readFC), Limit(p.readFC, maxRegs);
    var maxEnd := MaxEnd(Bucket(props, KeyOf(p)), space);
    Holding(p, space, limit, maxEnd, GridEnd(limit, maxEnd, 0))
  }

  lemma CountBucketGroups(props: seq<PropMeta>, maxRegs: int, p: PropMeta)
    requires Count(Bucket(props, KeyOf(p)), p) == 1
    ensures Occurs(BucketGroups(Bucket(props, KeyOf(p)), KeyOf(p), maxRegs), p) ==
              if HeldBy(props, maxRegs, p) == 0 then 1 else HeldBy(props, maxRegs, p)
  {
    var k, members := KeyOf(p), Bucket(props, KeyOf(p));
    var limit, maxEnd := Limit(k.fc, maxRegs), MaxEnd(members, AddrSpaceOf(k.fc));
    var gridEnd := GridEnd(limit, maxEnd, 0);
    CountCells(members, k, limit, maxEnd, gridEnd, p);
    CapturedIffHeld(p, AddrSpaceOf(k.fc), limit, maxEnd, gridEnd);
    CountStraddlers(members, k, limit, maxEnd, gridEnd, p);
    OccursConcat(CellsBefore(members, k, limit, maxEnd, gridEnd), Straddlers(members, k, limit, maxEnd, gridEnd), p);
  }

  /** The count depends only on the groups that contain the property, not on their order. */
  lemma {:induction false} OccursSame(a: seq<RegGroup>, b: seq<RegGroup>, p: PropMeta)
    requires forall g: RegGroup :: CountMembers(g.members, p) > 0 ==> multiset(a)[g] == multiset(b)[g]
    ensures Occurs(a, p) == Occurs(b, p)
    decreases |a|
  {
    if a == [] {
      OccursNone(b, p);
    } else {
      var n := |a| - 1;
      var g := a[n];
      assert a == a[..n] + [g];
      if CountMembers(g.members, p) == 0 {
        OccursSame(a[..n], b, p);
      } else {
        assert g in multiset(a) && multiset(a)[g] == multiset(b)[g];
        assert g in multiset(b);
        var j :| 0 <= j < |b| && b[j] == g;
        var b' := b[..j] + b[j + 1..];
        assert b == b[..j] + [g] + b[j + 1..];
        assert multiset(b) == multiset(b') + multiset{g};
        OccursSame(a[..n], b', p);
        OccursConcat(b[..j], [g], p);
        OccursConcat(b[..j] + [g], b[j + 1..], p);
        OccursConcat(b[..j], b[j + 1..], p);
        assert [g][..0] == [];
      }
    }
  }

  lemma {:induction false} OccursNone(b: seq<RegGroup>, p: PropMeta)
    requires forall g: RegGroup :: CountMembers(g.members, p) > 0 ==> multiset(b)[g] == 0
    ensures Occurs(b, p) == 0
  {
    if b != [] {
      var n := |b| - 1;
      assert b == b[..n] + [b[n]];
      assert b[n] in multiset(b);
      OccursNone(b[..n], p);
    }
  }

  lemma {:induction false} CountedIsMember(members: seq<GroupMember>, p: PropMeta)
    requires CountMembers(members, p) > 0
    ensures exists m :: m in members && m.prop == p
  {
    var n := |members| - 1;
    if members[n].prop == p {
      assert members[n] in members;
    } else {
      CountedIsMember(members[..n], p);
    }
  }

  lemma {:induction false} CountDistinct(props: seq<PropMeta>, p: PropMeta)
    requires forall i, j :: 0 <= i < j < |props| ==> props[i].id != props[j].id
    ensures Count(props, p) == if p in props then 1 else 0
  {
    if props != [] {
      var n := |props| - 1;
      CountDistinct(props[..n], p);
    }
  }

  /** Conservation: as members of the plan, each property occurs as often as in its bucket. */
  lemma PlanOccurs(props: seq<PropMeta>, maxRegs: int, groups: seq<RegGroup>, p: PropMeta)
    requires IsPlan(groups, props, maxRegs)
    ensures Occurs(groups, p) == Occurs(BucketGroups(Bucket(props, KeyOf(p)), KeyOf(p), maxRegs), p)
  {
    var own := BucketGroups(Bucket(props, KeyOf(p)), KeyOf(p), maxRegs);
    BucketKeyed(props, KeyOf(p));
    GroupsKeyed(Bucket(props, KeyOf(p)), KeyOf(p), maxRegs);
    forall g: RegGroup | CountMembers(g.members, p) > 0 ensures multiset(groups)[g] == multiset(own)[g] {
      assert multiset(groups)[g] == Multiplicity(props, maxRegs, g);
      CountedIsMember(g.members, p);
      if g in groups {
        var k := PlanKey(props, maxRegs, groups, g);
      } else if g in own {
        assert Keyed(g, KeyOf(p));
      }
    }
    OccursSame(groups, own, p);
  }

  /** A readable property is a member once for each cell that holds it, or alone if none does; any other never is. */
  lemma OccursExactly(props: seq<PropMeta>, bits: bool, maxRegs: int, groups: seq<RegGroup>, p: PropMeta)
    requires ValidProps(props, bits) && IsPlan(groups, props, maxRegs)
    ensures p in props && Readable(p) ==>
              Occurs(groups, p) == if HeldBy(props, maxRegs, p) == 0 then 1 else HeldBy(props, maxRegs, p)
    ensures !(p in props && Readable(p)) ==> Occurs(groups, p) == 0
  {
    var k := KeyOf(p);
    PlanOccurs(props, maxRegs, groups, p);
    CountBucket(props, k, p);
    CountDistinct(props, p);
    if p in props && Readable(p) {
      CountBucketGroups(props, maxRegs, p);
    } else {
      CountAbsent(Bucket(props, k), k, maxRegs, p);
    }
  }

  /** In the plan of an accepted list, a readable property whose address does not wrap is a member once. */
  lemma ExactlyOnce(props: seq<PropMeta>, bits: bool, maxRegs: int, groups: seq<RegGroup>, p: PropMeta)
    requires ValidProps(props, bits) && IsPlan(groups, props, maxRegs)
    requires Readable(p) ==> Unwrapped(p)
    ensures Occurs(groups, p) == if p in props && Readable(p) then 1 else 0
  {
    OccursExactly(props, bits, maxRegs, groups, p);
    if p in props && Readable(p) {
      ReadableIsLegal(props, bits, p);
      var space, limit := AddrSpaceOf(p.readFC), Limit(p.readFC, maxRegs);
      var maxEnd := MaxEnd(Bucket(props, KeyOf(p)), space);
      HeldOnce(p, space, limit, maxEnd, GridEnd(limit, maxEnd, 0));
    }
  }

  /** Two neighbouring registers, and two registers at the highest offset there is. */
  const CROWD := [
    HIGHEST.(id := "p2", offset := 0, registerCount := 1, endBit := 15),
    HIGHEST.(id := "p3", offset := 1, registerCount := 1, endBit := 15),
    HIGHEST]

  /** An accepted list, read one register at a time, in whose plan the wrapped property is a member twice. */
  lemma WrappedOccursTwice(groups: seq<RegGroup>)
    requires IsPlan(groups, CROWD, 1)
    ensures ValidProps(CROWD, true) && HIGHEST in CROWD && Occurs(groups, HIGHEST) == 2
  {
    CrowdAccepted();
    OccursExactly(CROWD, true, 1, groups, HIGHEST);
    CrowdBucket(CROWD);
    CrowdEnd(CROWD);
    HighestHeld(2);
    TwoCells(2);
  }

  lemma CrowdBucket(c: seq<PropMeta>)
    requires c == CROWD
    ensures Bucket(c, KeyOf(HIGHEST)) == c
  {
    var k := KeyOf(HIGHEST);
    BucketStep(c, 0);
    BucketStep(c, 1);
    BucketStep(c, 2);
    assert Bucket(c[..0], k) == [];
    assert c[..3] == c && c == [c[0], c[1], c[2]];
  }

  lemma CrowdEnd(c: seq<PropMeta>)
    requires c == CROWD
    ensures MaxEnd(c, RegisterSpace) == 2
  {
    assert HIGHEST.End(RegisterSpace) < 0;
    var two, one := c[..2], c[..1];
    assert one[..0] == [] && two[..1] == one;
    assert MaxEnd(one, RegisterSpace) == 1;
    assert MaxEnd(two, RegisterSpace) == 2;
  }

  lemma TwoCells(n: int)
    requires n == 2
    ensures GridEnd(1, n, 0) == 2
  {
    assert GridEnd(1, n, 1) == GridEnd(1, n, 2);
  }

  lemma HighestHeld(n: int)
    requires n == 2
    ensures Holding(HIGHEST, RegisterSpace, 1, n, n) == 2
  {
    assert HIGHEST.End(RegisterSpace) < 0;
    assert Holding(HIGHEST, RegisterSpace, 1, n, n - 2) == 0;
    assert Holding(HIGHEST, RegisterSpace, 1, n, n - 1) == 1;
  }

  lemma CrowdAccepted()
    ensures ValidProps(CROWD, true) && HIGHEST in CROWD
  {
    WrappedAccepted();
    assert [HIGHEST][0] == HIGHEST && CROWD[2] == HIGHEST;
    LowAccepted(CROWD[0]);
    LowAccepted(CROWD[1]);
  }

  lemma LowAccepted(p: PropMeta)
    requires p in CROWD && p != HIGHEST
    ensures ValidProp(p, true)
  {
    NotBlank("level");
    NotBlank(p.id);
  }

  /** A property absent from a bucket is absent from its groups, whatever its span. */
  lemma CountAbsent(members: seq<PropMeta>, k: Key, maxRegs: int, p: PropMeta)
    requires Count(members, p) == 0
    ensures Occurs(BucketGroups(members, k, maxRegs), p) == 0
  {
    var limit, maxEnd := Limit(k.fc, maxRegs), MaxEnd(members, AddrSpaceOf(k.fc));
    var gridEnd := GridEnd(limit, maxEnd, 0);
    AbsentFromCells(members, k, limit, maxEnd, gridEnd, p);
    CountStraddlers(members, k, limit, maxEnd, gridEnd, p);
    OccursConcat(CellsBefore(members, k, limit, maxEnd, gridEnd), Straddlers(members, k, limit, maxEnd, gridEnd), p);
  }

  lemma {:induction false} AbsentFromCells(members: seq<PropMeta>, k: Key, limit: int, maxEnd: int, start: int,
                                           p: PropMeta)
    requires limit > 0 && Count(members, p) == 0
    ensures Occurs(CellsBefore(members, k, limit, maxEnd, start), p) == 0
    decreases start
  {
    if start > 0 {
      var s, e := start - limit, Min(start, maxEnd);
      AbsentFromCells(members, k, limit, maxEnd, s, p);
      CountCell(members, AddrSpaceOf(k.fc), s, e, p);
      OccursConcat(CellsBefore(members, k, limit, maxEnd, s), CellGroup(members, k, s, e), p);
      OccursCell(members, k, s, e, p);
    }
  }

  // ---- independence of the order of buckets

  predicate Tie(g: RegGroup, h: RegGroup) { g.readFC == h.readFC && g.startAddr == h.startAddr }

  /** No two different groups have the same sort keys. */
  predicate NoTies(a: seq<RegGroup>) {
    forall x, y :: 0 <= x < y < |a| && Tie(a[x], a[y]) ==> a[x] == a[y]
  }

  /** The rebuilt plans of one list: every order of buckets, and of ties, that sorting allows. */
  ghost predicate IsBuild(groups: seq<RegGroup>, props: seq<PropMeta>, maxRegs: int) {
    IsPlan(groups, props, maxRegs) && Sorted(groups)
  }

  lemma SameGroups(props: seq<PropMeta>, maxRegs: int, a: seq<RegGroup>, b: seq<RegGroup>)
    requires IsPlan(a, props, maxRegs) && IsPlan(b, props, maxRegs)
    ensures multiset(a) == multiset(b)
  {
    forall g ensures multiset(a)[g] == multiset(b)[g] {
      assert multiset(a)[g] == Multiplicity(props, maxRegs, g);
      assert multiset(b)[g] == Multiplicity(props, maxRegs, g);
    }
  }

  /**
   Two plans of one list are the same multiset; and a plan is the only one its list can give exactly
   when no two different groups in it tie.
  */
  lemma PlanUniqueIff(props: seq<PropMeta>, maxRegs: int, a: seq<RegGroup>)
    requires IsBuild(a, props, maxRegs)
    ensures forall b :: IsBuild(b, props, maxRegs) ==> multiset(a) == multiset(b)
    ensures (forall b :: IsBuild(b, props, maxRegs) ==> a == b) <==> NoTies(a)
  {
    forall b | IsBuild(b, props, maxRegs) ensures multiset(a) == multiset(b) {
      SameGroups(props, maxRegs, a, b);
    }
    if NoTies(a) {
      forall b | IsBuild(b, props, maxRegs) ensures a == b {
        SortedUnique(a, b);
      }
    } else {
      var b := OtherBuild(props, maxRegs, a);
    }
  }

  lemma OtherBuild(props: seq<PropMeta>, maxRegs: int, a: seq<RegGroup>) returns (b: seq<RegGroup>)
    requires IsBuild(a, props, maxRegs) && !NoTies(a)
    ensures IsBuild(b, props, maxRegs) && b != a
  {
    var x, y :| 0 <= x < y < |a| && Tie(a[x], a[y]) && a[x] != a[y];
    TiesSwap(props, maxRegs, a, x, y);
    b := a[x := a[y]][y := a[x]];
    assert b[x] != a[x];
  }

  /** Two groups that tie can stand in either order. */
  lemma TiesSwap(props: seq<PropMeta>, maxRegs: int, a: seq<RegGroup>, x: nat, y: nat)
    requires IsBuild(a, props, maxRegs) && x < y < |a| && Tie(a[x], a[y])
    ensures IsBuild(a[x := a[y]][y := a[x]], props, maxRegs)
  {
    var b := a[x := a[y]][y := a[x]];
    SwapKeeps(a, x, y);
    forall i, j | 0 <= i < j < |b| ensures Before(b[i], b[j]) {
      assert Tie(a[i], b[i]) && Tie(a[j], b[j]) && Before(a[i], a[j]);
    }
  }

  lemma SwapKeeps<T>(s: seq<T>, x: nat, y: nat)
    requires x < y < |s|
    ensures multiset(s[x := s[y]][y := s[x]]) == multiset(s)
  {
  }

  lemma {:induction false} SortedUnique(a: seq<RegGroup>, b: seq<RegGroup>)
    requires multiset(a) == multiset(b) && Sorted(a) && Sorted(b)
    requires NoTies(a)
    ensures a == b
  {
    SameSize(a, b);
    if a != [] {
      SameFirst(a, b);
      DropFirst(a);
      DropFirst(b);
      SortedUnique(a[1..], b[1..]);
      SameParts(a, b);
    }
  }

  lemma SameSize<T>(a: seq<T>, b: seq<T>)
    requires multiset(a) == multiset(b)
    ensures |a| == |b|
  {
    assert |a| == |multiset(a)| == |multiset(b)| == |b|;
  }

  lemma SameParts<T>(a: seq<T>, b: seq<T>)
    requires a != [] && b != [] && a[0] == b[0] && a[1..] == b[1..]
    ensures a == b
  {
    assert a == [a[0]] + a[1..] && b == [b[0]] + b[1..];
  }

  lemma DropFirst(a: seq<RegGroup>)
    requires a != []
    ensures multiset(a[1..]) == multiset(a) - multiset{a[0]}
    ensures Sorted(a) ==> Sorted(a[1..])
    ensures NoTies(a) ==> NoTies(a[1..])
  {
    assert a == [a[0]] + a[1..];
  }

  lemma SameFirst(a: seq<RegGroup>, b: seq<RegGroup>)
    requires multiset(a) == multiset(b) && Sorted(a) && Sorted(b) && a != [] && b != []
    requires NoTies(a)
    ensures a[0] == b[0]
  {
    assert a[0] in multiset(b) && b[0] in multiset(a);
    FirstIsLeast(b, a[0]);
    FirstIsLeast(a, b[0]);
    TieIsFirst(a, b[0]);
  }

  lemma FirstIsLeast(s: seq<RegGroup>, g: RegGroup)
    requires Sorted(s) && g in s
    ensures Before(s[0], g)
  {
    var i :| 0 <= i < |s| && s[i] == g;
    assert i == 0 || Before(s[0], s[i]);
  }

  lemma TieIsFirst(s: seq<RegGroup>, g: RegGroup)
    requires NoTies(s) && g in s && Tie(s[0], g)
    ensures s[0] == g
  {
  }

  // ---- the grid counter

  /** The end of the walk is the first multiple of the limit that is not below the end of the bucket. */
  lemma {:induction false} GridEndMeaning(limit: int, maxEnd: int, start: int)
    requires limit > 0 && start >= 0 && start % limit == 0 && maxEnd > start - limit
    ensures var end := GridEnd(limit, maxEnd, start);
            end % limit == 0 && maxEnd <= end && (end == start || end < maxEnd + limit)
    decreases maxEnd - start
  {
    if start < maxEnd {
      NextMultiple(start, limit);
      GridEndMeaning(limit, maxEnd, start + limit);
    }
  }

  lemma NextMultiple(x: int, d: int)
    requires d > 0 && x % d == 0
    ensures (x + d) % d == 0
  {
    assert x + d == d * (x / d + 1) + 0;
    DivModUnique(x + d, d, x / d + 1, 0);
  }

  /** Multiples of d differ by at least d. */
  lemma MultiplesApart(x: int, y: int, d: int)
    requires d > 0 && x % d == 0 && y % d == 0 && x < y
    ensures x + d <= y
  {
    var p, q := x / d, y / d;
    assert x == d * p && y == d * q;
    assert d * (q - p) == y - x;
    MulOutside(d, q - p);
  }

  /**
   No counter of the walk over a bucket's cells leaves the 64-bit range exactly when the bucket ends
   no later than the last multiple of the limit in that range.
  */
  lemma GridFitsIff(limit: int, maxEnd: int)
    requires 0 < limit < TWO63 && 0 <= maxEnd
    ensures GridEnd(limit, maxEnd, 0) < TWO63 <==> maxEnd <= TWO63 - 1 - (TWO63 - 1) % limit
  {
    var last := TWO63 - 1 - (TWO63 - 1) % limit;
    var end := GridEnd(limit, maxEnd, 0);
    DivModUnique(last, limit, (TWO63 - 1) / limit, 0);
    GridEndMeaning(limit, maxEnd, 0);
    if last < end {
      MultiplesApart(last, end, limit);
    }
  }

  /** In a list without wrapped addresses the counter stays far below. */
  lemma SafeGridFits(props: seq<PropMeta>, bits: bool, maxRegs: int, k: Key)
    requires SafeProps(props, bits)
    ensures var limit := Limit(k.fc, maxRegs);
            GridEnd(limit, MaxEnd(Bucket(props, k), AddrSpaceOf(k.fc)), 0) < MAX_ADDRESS + 1 + limit
  {
    var limit, members := Limit(k.fc, maxRegs), Bucket(props, k);
    BucketKeyed(props, k);
    forall m | m in members ensures m.End(AddrSpaceOf(k.fc)) <= MAX_ADDRESS + 1 {
      ReadableIsLegal(props, bits, m);
    }
    MaxEndBound(members, AddrSpaceOf(k.fc), MAX_ADDRESS + 1);
    GridEndMeaning(limit, MaxEnd(members, AddrSpaceOf(k.fc)), 0);
  }

  /** One register that ends where the 64-bit range does. */
  const FARTHEST := HIGHEST.(offset := TWO63 - 2, registerBase := 2, registerCount := 1, endBit := 15)

  /** It is accepted, and unless a cell boundary falls on that very end the counter would have to pass the range. */
  lemma FarthestLeavesRange(props: seq<PropMeta>, bits: bool, maxRegs: int)
    requires ValidProps(props, bits) && FARTHEST in props
    ensures ValidProps([FARTHEST], true)
    ensures var k, limit := KeyOf(FARTHEST), Limit(FARTHEST.readFC, maxRegs);
            GridEnd(limit, MaxEnd(Bucket(props, k), RegisterSpace), 0) >= TWO63 <==> (TWO63 - 1) % limit != 0
  {
    FarthestAccepted();
    var members := Bucket(props, KeyOf(FARTHEST));
    InBucket(props, FARTHEST);
    forall m | m in members ensures m.End(RegisterSpace) <= TWO63 - 1 {
    }
    MaxEndBound(members, RegisterSpace, TWO63 - 1);
    MaxEndReached(members, RegisterSpace, FARTHEST);
    GridFitsIff(Limit(FARTHEST.readFC, maxRegs), MaxEnd(members, RegisterSpace));
  }

  lemma FarthestAccepted()
    ensures ValidProps([FARTHEST], true)
  {
    NotBlank("level");
    NotBlank("p1");
  }

  lemma {:induction false} InBucket(props: seq<PropMeta>, p: PropMeta)
    requires p in props && Readable(p)
    ensures p in Bucket(props, KeyOf(p))
  {
    var n := |props| - 1;
    if props[n] != p {
      InBucket(props[..n], p);
    }
  }

  lemma {:induction false} MaxEndReached(members: seq<PropMeta>, space: AddrSpace, p: PropMeta)
    requires p in members
    ensures MaxEnd(members, space) >= p.End(space)
  {
    var n := |members| - 1;
    if members[n] != p {
      MaxEndReached(members[..n], space, p);
    }
  }
}
