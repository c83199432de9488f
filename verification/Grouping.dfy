/**
 Read planning (`BuildGroups` in internal/engine/converter/grouping.go). Readable properties are
 bucketed by (function code, base); each bucket is cut on a grid of `limit` units; properties that
 fit no cell get a request of their own.

 The source walks its buckets in the random order of a Go map and sorts with an unstable sort, so
 the result is described up to order: `BucketGroups` says what one bucket gives, and the plan is the
 multiset union over all buckets.
*/
module Grouping {
  import opened Bits
  import opened Pdu
  import opened Props

  datatype GroupMember = GroupMember(prop: PropMeta, byteOffset: int, byteLen: int)

  datatype RegGroup = RegGroup(readFC: int, startAddr: int, quantity: int, space: AddrSpace, members: seq<GroupMember>)

  datatype Key = Key(fc: int, base: int)

  function KeyOf(p: PropMeta): Key { Key(p.readFC, p.registerBase) }

  predicate Readable(p: PropMeta) { p.CanRead() && p.readFC > 0 }

  function ProtocolUnitLimit(space: AddrSpace): int {
    if space == BitSpace then MAX_READ_BITS else MAX_READ_REGISTERS
  }

  function Limit(fc: int, maxRegs: int): (limit: int)
    ensures 1 <= limit <= ProtocolUnitLimit(AddrSpaceOf(fc))
    ensures maxRegs > 0 ==> limit <= maxRegs
  {
    var max := ProtocolUnitLimit(AddrSpaceOf(fc));
    if maxRegs <= 0 || maxRegs > max then max else maxRegs
  }

  // ---- what one bucket gives

  function Min(a: int, b: int): int { if a <= b then a else b }

  function Bucket(props: seq<PropMeta>, k: Key): seq<PropMeta> {
    if props == [] then []
    else
      var n := |props| - 1;
      Bucket(props[..n], k) + if Readable(props[n]) && KeyOf(props[n]) == k then [props[n]] else []
  }

  function MaxEnd(members: seq<PropMeta>, space: AddrSpace): int {
    if members == [] then 0
    else
      var n := |members| - 1;
      var rest, end := MaxEnd(members[..n], space), members[n].End(space);
      if end > rest then end else rest
  }

  predicate Inside(m: PropMeta, space: AddrSpace, start: int, end: int) {
    m.offset >= start && m.End(space) <= end
  }

  function MemberAt(m: PropMeta, offsetInGroup: int): GroupMember {
    GroupMember(m, m.ReadByteRange(offsetInGroup).0, m.ReadByteRange(offsetInGroup).1)
  }

  /** The members that lie wholly in one cell of the grid. */
  function CellMembers(members: seq<PropMeta>, space: AddrSpace, start: int, end: int): seq<GroupMember> {
    if members == [] then []
    else
      var n := |members| - 1;
      CellMembers(members[..n], space, start, end)
      + if Inside(members[n], space, start, end) then [MemberAt(members[n], members[n].offset - start)] else []
  }

  function CellGroup(members: seq<PropMeta>, k: Key, start: int, end: int): seq<RegGroup> {
    var cell := CellMembers(members, AddrSpaceOf(k.fc), start, end);
    if cell == [] then [] else [RegGroup(k.fc, Wrap64(k.base + start), end - start, AddrSpaceOf(k.fc), cell)]
  }

  /** The cells that start before `start`, a multiple of the limit or the end of the grid. */
  function CellsBefore(members: seq<PropMeta>, k: Key, limit: int, maxEnd: int, start: int): seq<RegGroup>
    requires limit > 0
    decreases start
  {
    if start <= 0 then []
    else
      CellsBefore(members, k, limit, maxEnd, start - limit)
      + CellGroup(members, k, start - limit, Min(start, maxEnd))
  }

  /** Whether some cell that starts before `start` holds the property. */
  predicate CapturedBefore(m: PropMeta, space: AddrSpace, limit: int, maxEnd: int, start: int)
    requires limit > 0
    decreases start
  {
    start > 0
    && (CapturedBefore(m, space, limit, maxEnd, start - limit)
        || Inside(m, space, start - limit, Min(start, maxEnd)))
  }

  function Straddlers(members: seq<PropMeta>, k: Key, limit: int, maxEnd: int, gridEnd: int): seq<RegGroup>
    requires limit > 0
  {
    if members == [] then []
    else
      var n := |members| - 1;
      var m, space := members[n], AddrSpaceOf(k.fc);
      Straddlers(members[..n], k, limit, maxEnd, gridEnd)
      + if CapturedBefore(m, space, limit, maxEnd, gridEnd) then []
        else [RegGroup(k.fc, Wrap64(k.base + m.offset), m.UnitSpan(space), space, [MemberAt(m, 0)])]
  }

  /** Where a walk over the grid from `start` stops: the first cell boundary not before `maxEnd`. */
  function GridEnd(limit: int, maxEnd: int, start: int): int
    requires limit > 0
    decreases maxEnd - start
  {
    if start >= maxEnd then start else GridEnd(limit, maxEnd, start + limit)
  }

  function BucketGroups(members: seq<PropMeta>, k: Key, maxRegs: int): seq<RegGroup> {
    var limit, maxEnd := Limit(k.fc, maxRegs), MaxEnd(members, AddrSpaceOf(k.fc));
    var gridEnd := GridEnd(limit, maxEnd, 0);
    CellsBefore(members, k, limit, maxEnd, gridEnd) + Straddlers(members, k, limit, maxEnd, gridEnd)
  }

  // ---- the whole plan

  /** How often a group occurs in the plan of a property list: as often as in its own bucket. */
  ghost function Multiplicity(props: seq<PropMeta>, maxRegs: int, g: RegGroup): nat {
    if g.members == [] then 0
    else
      var k := KeyOf(g.members[0].prop);
      multiset(BucketGroups(Bucket(props, k), k, maxRegs))[g]
  }

  ghost predicate IsPlan(groups: seq<RegGroup>, props: seq<PropMeta>, maxRegs: int) {
    forall g :: multiset(groups)[g] == Multiplicity(props, maxRegs, g)
  }

  predicate Before(a: RegGroup, b: RegGroup) {
    a.readFC < b.readFC || (a.readFC == b.readFC && a.startAddr <= b.startAddr)
  }

  predicate Sorted(groups: seq<RegGroup>) {
    forall i, j :: 0 <= i < j < |groups| ==> Before(groups[i], groups[j])
  }

  method BuildGroups(props: seq<PropMeta>, maxRegs: int) returns (groups: seq<RegGroup>)
    ensures IsPlan(groups, props, maxRegs)
    ensures Sorted(groups)
  {
    var buckets := FillBuckets(props);
    groups := [];
    var todo := buckets.Keys;
    while todo != {}
      invariant todo <= buckets.Keys
      invariant forall g :: multiset(groups)[g] == PartOfPlan(props, maxRegs, todo, g)
    {
      var k :| k in todo;
      var added := GroupBucket(buckets[k], k, maxRegs);
      PlanGrows(props, maxRegs, todo, k, groups, added);
      todo := todo - {k};
      groups := groups + added;
    }
    forall g ensures multiset(groups)[g] == Multiplicity(props, maxRegs, g) {
      assert multiset(groups)[g] == PartOfPlan(props, maxRegs, {}, g);
    }
    groups := SortGroups(groups);
  }

  /** What the plan holds while the buckets in `todo` are still to come. */
  ghost function PartOfPlan(props: seq<PropMeta>, maxRegs: int, todo: set<Key>, g: RegGroup): nat {
    if g.members != [] && KeyOf(g.members[0].prop) in todo then 0 else Multiplicity(props, maxRegs, g)
  }

  lemma PlanGrows(props: seq<PropMeta>, maxRegs: int, todo: set<Key>, k: Key, groups: seq<RegGroup>,
                  added: seq<RegGroup>)
    requires k in todo && added == BucketGroups(Bucket(props, k), k, maxRegs)
    requires forall g :: multiset(groups)[g] == PartOfPlan(props, maxRegs, todo, g)
    ensures forall g :: multiset(groups + added)[g] == PartOfPlan(props, maxRegs, todo - {k}, g)
  {
    BucketKeyed(props, k);
    GroupsKeyed(Bucket(props, k), k, maxRegs);
    forall g ensures multiset(groups + added)[g] == PartOfPlan(props, maxRegs, todo - {k}, g) {
      assert multiset(groups + added)[g] == multiset(groups)[g] + multiset(added)[g];
      if g in added {
        assert g.members != [] && KeyOf(g.members[0].prop) == k;
      }
    }
  }

  /** Step 1: the readable properties, by key. */
  method FillBuckets(props: seq<PropMeta>) returns (buckets: map<Key, seq<PropMeta>>)
    ensures forall k :: k in buckets <==> Bucket(props, k) != []
    ensures forall k :: k in buckets ==> buckets[k] == Bucket(props, k)
  {
    buckets := map[];
    for i := 0 to |props|
      invariant forall k :: k in buckets <==> Bucket(props[..i], k) != []
      invariant forall k :: k in buckets ==> buckets[k] == Bucket(props[..i], k)
    {
      var p := props[i];
      BucketStep(props, i);
      if !p.CanRead() || p.readFC <= 0 {
        continue;
      }
      var k := KeyOf(p);
      buckets := buckets[k := (if k in buckets then buckets[k] else []) + [p]];
    }
    assert props[..|props|] == props;
  }

  lemma BucketStep(props: seq<PropMeta>, i: nat)
    requires i < |props|
    ensures forall k :: Bucket(props[..i + 1], k) ==
                        Bucket(props[..i], k) + if Readable(props[i]) && KeyOf(props[i]) == k then [props[i]] else []
  {
    assert props[..i + 1][..i] == props[..i];
  }

  /** Steps 2 and 2b for one bucket: the grid of cells, then the properties no cell captured. */
  method GroupBucket(members: seq<PropMeta>, k: Key, maxRegs: int) returns (groups: seq<RegGroup>)
    ensures groups == BucketGroups(members, k, maxRegs)
  {
    var limit := Limit(k.fc, maxRegs);
    var maxEnd := CoverEnd(members, AddrSpaceOf(k.fc));
    var captured := new bool[|members|](_ => false);
    var cells, gridEnd := GroupCells(members, k, limit, maxEnd, captured);
    var alone := GroupStraddlers(members, k, limit, maxEnd, gridEnd, captured);
    groups := cells + alone;
  }

  /** Step 2: one group per cell that holds any member. */
  method GroupCells(members: seq<PropMeta>, k: Key, limit: int, maxEnd: int, captured: array<bool>)
    returns (groups: seq<RegGroup>, gridEnd: int)
    requires limit > 0 && captured.Length == |members| && forall j :: 0 <= j < |members| ==> !captured[j]
    modifies captured
    ensures gridEnd == GridEnd(limit, maxEnd, 0)
    ensures groups == CellsBefore(members, k, limit, maxEnd, gridEnd)
    ensures AllCaptured(captured, members, AddrSpaceOf(k.fc), limit, maxEnd, gridEnd)
  {
    var space := AddrSpaceOf(k.fc);
    groups := [];
    var start := 0;
    while start < maxEnd
      invariant 0 <= start && GridEnd(limit, maxEnd, start) == GridEnd(limit, maxEnd, 0)
      invariant groups == CellsBefore(members, k, limit, maxEnd, start)
      invariant AllCaptured(captured, members, space, limit, maxEnd, start)
    {
      var next := start + limit;
      var end := if next > maxEnd then maxEnd else next;
      var segMembers := FillCell(members, space, start, end, captured);
      if |segMembers| > 0 {
        groups := groups + [RegGroup(k.fc, Wrap64(k.base + start), end - start, space, segMembers)];
      }
      CellStep(members, k, limit, maxEnd, start, next);
      CapturedSteps(members, space, limit, maxEnd, start, next);
      start := next;
    }
    gridEnd := start;
  }

  ghost predicate AllCaptured(captured: array<bool>, members: seq<PropMeta>, space: AddrSpace, limit: int,
                              maxEnd: int, start: int)
    requires limit > 0
    reads captured
  {
    captured.Length == |members| &&
    forall j :: 0 <= j < |members| ==> captured[j] == CapturedBefore(members[j], space, limit, maxEnd, start)
  }

  method CoverEnd(members: seq<PropMeta>, space: AddrSpace) returns (maxEnd: int)
    ensures maxEnd == MaxEnd(members, space) >= 0
  {
    maxEnd := 0;
    for i := 0 to |members|
      invariant maxEnd == MaxEnd(members[..i], space) >= 0
    {
      assert members[..i + 1][..i] == members[..i];
      var end := members[i].End(space);
      if end > maxEnd { maxEnd := end; }
    }
    assert members[..|members|] == members;
  }

  /** One cell: collects its members and marks them as captured. */
  method FillCell(members: seq<PropMeta>, space: AddrSpace, start: int, end: int, captured: array<bool>)
    returns (segMembers: seq<GroupMember>)
    requires captured.Length == |members|
    modifies captured
    ensures segMembers == CellMembers(members, space, start, end)
    ensures forall j :: 0 <= j < |members| ==>
        captured[j] == (old(captured[j]) || Inside(members[j], space, start, end))
  {
    segMembers := [];
    for i := 0 to |members|
      invariant segMembers == CellMembers(members[..i], space, start, end)
      invariant forall j :: 0 <= j < i ==> captured[j] == (old(captured[j]) || Inside(members[j], space, start, end))
      invariant forall j :: i <= j < |members| ==> captured[j] == old(captured[j])
    {
      var m := members[i];
      assert members[..i + 1][..i] == members[..i];
      if m.offset >= start && m.End(space) <= end {
        captured[i] := true;
        var (byteOffset, byteLen) := m.ReadByteRange(m.offset - start);
        segMembers := segMembers + [GroupMember(m, byteOffset, byteLen)];
      }
    }
    assert members[..|members|] == members;
  }

  /** Step 2b: a request of its own for every property still not captured. */
  method GroupStraddlers(members: seq<PropMeta>, k: Key, limit: int, maxEnd: int, gridEnd: int, captured: array<bool>)
    returns (alone: seq<RegGroup>)
    requires limit > 0 && AllCaptured(captured, members, AddrSpaceOf(k.fc), limit, maxEnd, gridEnd)
    ensures alone == Straddlers(members, k, limit, maxEnd, gridEnd)
  {
    alone := [];
    for i := 0 to |members|
      invariant alone == Straddlers(members[..i], k, limit, maxEnd, gridEnd)
    {
      var m := members[i];
      assert members[..i + 1][..i] == members[..i];
      if captured[i] { continue; }
      var (byteOffset, byteLen) := m.ReadByteRange(0);
      var span := m.UnitSpan(AddrSpaceOf(k.fc));
      var members := [GroupMember(m, byteOffset, byteLen)];
      alone := alone + [RegGroup(k.fc, Wrap64(k.base + m.offset), span, AddrSpaceOf(k.fc), members)];
    }
    assert members[..|members|] == members;
  }

  /** `sort.Slice` by (ReadFC, StartAddr): which of two equal keys comes first is left open. */
  method SortGroups(groups: seq<RegGroup>) returns (sorted: seq<RegGroup>)
    ensures multiset(sorted) == multiset(groups)
    ensures Sorted(sorted)
  {
    sorted := [];
    for i := 0 to |groups|
      invariant multiset(sorted) == multiset(groups[..i])
      invariant Sorted(sorted)
    {
      assert groups[..i + 1] == groups[..i] + [groups[i]];
      sorted := InsertGroup(sorted, groups[i]);
    }
    assert groups[..|groups|] == groups;
  }

  method InsertGroup(sorted: seq<RegGroup>, g: RegGroup) returns (r: seq<RegGroup>)
    requires Sorted(sorted)
    ensures multiset(r) == multiset(sorted) + multiset{g} && Sorted(r)
  {
    var j := |sorted|;
    while j > 0 && !Before(sorted[j - 1], g)
      invariant 0 <= j <= |sorted|
      invariant forall l :: j <= l < |sorted| ==> Before(g, sorted[l])
    {
      j := j - 1;
    }
    InsertKeepsOrder(sorted, g, j);
    r := sorted[..j] + [g] + sorted[j..];
    assert sorted == sorted[..j] + sorted[j..];
  }

  lemma InsertKeepsOrder(sorted: seq<RegGroup>, g: RegGroup, j: nat)
    requires Sorted(sorted) && j <= |sorted|
    requires j > 0 ==> Before(sorted[j - 1], g)
    requires forall l :: j <= l < |sorted| ==> Before(g, sorted[l])
    ensures Sorted(sorted[..j] + [g] + sorted[j..])
  {
    var a, b := sorted[..j], sorted[j..];
    forall l | 0 <= l < j ensures Before(a[l], g) {
      assert l == j - 1 || Before(sorted[l], sorted[j - 1]);
    }
    forall x, y | 0 <= x < |a| && 0 <= y < |b| ensures Before(a[x], b[y]) {
      assert Before(sorted[x], sorted[j + y]);
    }
    assert Sorted([g]);
    SortedConcat(a, [g]);
    SortedConcat(a + [g], b);
  }

  lemma SortedConcat(a: seq<RegGroup>, b: seq<RegGroup>)
    requires Sorted(a) && Sorted(b)
    requires forall x, y :: 0 <= x < |a| && 0 <= y < |b| ==> Before(a[x], b[y])
    ensures Sorted(a + b)
  {
  }

  lemma CellStep(members: seq<PropMeta>, k: Key, limit: int, maxEnd: int, start: int, next: int)
    requires limit > 0 && 0 <= start < maxEnd && next == start + limit
    ensures CellsBefore(members, k, limit, maxEnd, next)
         == CellsBefore(members, k, limit, maxEnd, start) + CellGroup(members, k, start, Min(next, maxEnd))
  {
  }

  lemma CapturedSteps(members: seq<PropMeta>, space: AddrSpace, limit: int, maxEnd: int, start: int, next: int)
    requires limit > 0 && 0 <= start && next == start + limit
    ensures forall j :: 0 <= j < |members| ==>
              CapturedBefore(members[j], space, limit, maxEnd, next) ==
              (CapturedBefore(members[j], space, limit, maxEnd, start)
                  || Inside(members[j], space, start, Min(next, maxEnd)))
  {
    forall j | 0 <= j < |members|
      ensures CapturedBefore(members[j], space, limit, maxEnd, next) ==
              (CapturedBefore(members[j], space, limit, maxEnd, start)
                  || Inside(members[j], space, start, Min(next, maxEnd)))
    {
      assert next - limit == start;
    }
  }

  /** Cell boundaries: zero, and every boundary plus the limit. */
  predicate Aligned(limit: int, start: int)
    requires limit > 0
    decreases start
  {
    start == 0 || (start > 0 && Aligned(limit, start - limit))
  }

  lemma {:induction false} GridEndAligned(limit: int, maxEnd: int, start: int)
    requires limit > 0 && Aligned(limit, start)
    ensures Aligned(limit, GridEnd(limit, maxEnd, start))
    decreases maxEnd - start
  {
    if start < maxEnd {
      assert Aligned(limit, start + limit - limit);
      GridEndAligned(limit, maxEnd, start + limit);
    }
  }

  lemma {:induction false} BucketKeyed(props: seq<PropMeta>, k: Key)
    ensures forall p :: p in Bucket(props, k) ==> p in props && Readable(p) && KeyOf(p) == k
  {
    if props != [] {
      BucketKeyed(props[..|props| - 1], k);
    }
  }

  predicate Keyed(g: RegGroup, k: Key) {
    g.members != [] && forall m :: m in g.members ==> KeyOf(m.prop) == k
  }

  /** Every group of a bucket names the bucket's key through its members. */
  lemma GroupsKeyed(members: seq<PropMeta>, k: Key, maxRegs: int)
    requires forall p :: p in members ==> KeyOf(p) == k
    ensures forall g :: g in BucketGroups(members, k, maxRegs) ==> Keyed(g, k)
  {
    var space, limit := AddrSpaceOf(k.fc), Limit(k.fc, maxRegs);
    var maxEnd := MaxEnd(members, space);
    var gridEnd := GridEnd(limit, maxEnd, 0);
    CellsKeyed(members, k, limit, maxEnd, gridEnd);
    StraddlersKeyed(members, k, limit, maxEnd, gridEnd);
  }

  lemma {:induction false} CellsKeyed(members: seq<PropMeta>, k: Key, limit: int, maxEnd: int, start: int)
    requires limit > 0 && forall p :: p in members ==> KeyOf(p) == k
    ensures forall g :: g in CellsBefore(members, k, limit, maxEnd, start) ==> Keyed(g, k)
    decreases start
  {
    if start > 0 {
      CellsKeyed(members, k, limit, maxEnd, start - limit);
      CellFrom(members, AddrSpaceOf(k.fc), start - limit, Min(start, maxEnd));
    }
  }

  lemma {:induction false} CellFrom(members: seq<PropMeta>, space: AddrSpace, start: int, end: int)
    ensures forall m :: m in CellMembers(members, space, start, end) ==>
              m.prop in members && Inside(m.prop, space, start, end) && m == MemberAt(m.prop, m.prop.offset - start)
  {
    if members != [] {
      CellFrom(members[..|members| - 1], space, start, end);
    }
  }

  lemma {:induction false} StraddlersKeyed(members: seq<PropMeta>, k: Key, limit: int, maxEnd: int, gridEnd: int)
    requires limit > 0 && forall p :: p in members ==> KeyOf(p) == k
    ensures forall g :: g in Straddlers(members, k, limit, maxEnd, gridEnd) ==> Keyed(g, k)
  {
    if members != [] {
      StraddlersKeyed(members[..|members| - 1], k, limit, maxEnd, gridEnd);
    }
  }
}
