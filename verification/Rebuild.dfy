/**
 What an unstable order of groups means for a reload: `planFingerprint` (internal/engine/engine.go)
 hashes the groups in the order `BuildGroups` (internal/engine/converter/grouping.go) left them, so
 building one configuration again can change the fingerprint and restart its link.
*/
module Rebuild {
  import opened Pdu
  import opened Props
  import opened Grouping
  import opened GroupingFacts
  import opened Plans
  import opened Fingerprint
  import Engine

  /** The fields of a group that are hashed. */
  function Hashed(g: RegGroup): GroupSpec {
    GroupSpec(g.readFC, g.startAddr, g.quantity, if g.space == BitSpace then 1 else 0)
  }

  function HashedAll(groups: seq<RegGroup>): (specs: seq<GroupSpec>)
    ensures |specs| == |groups| && forall i :: 0 <= i < |groups| ==> specs[i] == Hashed(groups[i])
  {
    seq(|groups|, i requires 0 <= i < |groups| => Hashed(groups[i]))
  }

  /** No two groups with the same sort keys differ in what is hashed of them: in their quantity. */
  predicate HashedTiesAgree(a: seq<RegGroup>) {
    forall x, y :: 0 <= x < y < |a| && Tie(a[x], a[y]) ==> a[x].quantity == a[y].quantity
  }

  predicate SpecBefore(s: GroupSpec, t: GroupSpec) {
    s.readFC < t.readFC || (s.readFC == t.readFC && s.startAddr <= t.startAddr)
  }

  predicate SpecsSorted(ss: seq<GroupSpec>) {
    forall i, j :: 0 <= i < j < |ss| ==> SpecBefore(ss[i], ss[j])
  }

  predicate SpecsTieFree(ss: seq<GroupSpec>) {
    forall i, j :: 0 <= i < j < |ss| && ss[i].readFC == ss[j].readFC && ss[i].startAddr == ss[j].startAddr ==>
        ss[i] == ss[j]
  }

  lemma {:induction false} SpecsUnique(s: seq<GroupSpec>, t: seq<GroupSpec>)
    requires multiset(s) == multiset(t) && SpecsSorted(s) && SpecsSorted(t) && SpecsTieFree(s)
    ensures s == t
  {
    assert |s| == |multiset(s)| == |multiset(t)| == |t|;
    if s != [] {
      FirstSpec(s, t);
      DropSpec(s);
      DropSpec(t);
      SpecsUnique(s[1..], t[1..]);
      assert s == [s[0]] + s[1..] && t == [t[0]] + t[1..];
    }
  }

  lemma DropSpec(s: seq<GroupSpec>)
    requires s != []
    ensures multiset(s[1..]) == multiset(s) - multiset{s[0]}
    ensures SpecsSorted(s) ==> SpecsSorted(s[1..])
    ensures SpecsTieFree(s) ==> SpecsTieFree(s[1..])
  {
    assert s == [s[0]] + s[1..];
  }

  lemma FirstSpec(s: seq<GroupSpec>, t: seq<GroupSpec>)
    requires multiset(s) == multiset(t) && SpecsSorted(s) && SpecsSorted(t) && SpecsTieFree(s)
    requires s != [] && t != []
    ensures s[0] == t[0]
  {
    assert s[0] in multiset(t) && t[0] in multiset(s);
    LeastSpec(t, s[0]);
    LeastSpec(s, t[0]);
    var j :| 0 <= j < |s| && s[j] == t[0];
  }

  lemma LeastSpec(s: seq<GroupSpec>, g: GroupSpec)
    requires SpecsSorted(s) && g in s
    ensures SpecBefore(s[0], g)
  {
    var i :| 0 <= i < |s| && s[i] == g;
    assert i == 0 || SpecBefore(s[0], s[i]);
  }

  lemma {:induction false} HashedMultiset(a: seq<RegGroup>, b: seq<RegGroup>)
    requires multiset(a) == multiset(b)
    ensures multiset(HashedAll(a)) == multiset(HashedAll(b))
    decreases |a|
  {
    assert |a| == |multiset(a)| == |multiset(b)| == |b|;
    if a != [] {
      var n := |a| - 1;
      assert a[n] in multiset(b);
      var j :| 0 <= j < |b| && b[j] == a[n];
      Without(a, n);
      Without(b, j);
      assert a[..n] + a[n + 1..] == a[..n];
      HashedMultiset(a[..n], b[..j] + b[j + 1..]);
    }
  }

  lemma Removed<T>(s: seq<T>, j: nat)
    requires j < |s|
    ensures multiset(s[..j] + s[j + 1..]) == multiset(s) - multiset{s[j]}
    ensures multiset(s) == multiset(s[..j] + s[j + 1..]) + multiset{s[j]}
  {
    assert s == s[..j] + [s[j]] + s[j + 1..];
  }

  lemma HashedConcat(a: seq<RegGroup>, b: seq<RegGroup>)
    ensures HashedAll(a + b) == HashedAll(a) + HashedAll(b)
  {
  }

  lemma Without(b: seq<RegGroup>, j: nat)
    requires j < |b|
    ensures multiset(b[..j] + b[j + 1..]) == multiset(b) - multiset{b[j]}
    ensures multiset(HashedAll(b)) == multiset(HashedAll(b[..j] + b[j + 1..])) + multiset{Hashed(b[j])}
  {
    var specs := HashedAll(b);
    Removed(b, j);
    Removed(specs, j);
    HashedConcat(b[..j], b[j + 1..]);
    assert HashedAll(b[..j]) == specs[..j] && HashedAll(b[j + 1..]) == specs[j + 1..];
  }

  // ---- a channel whose device i polls some groups

  /** The channel plan with the groups of one device replaced. */
  function WithGroups(p: ChannelPlan, i: nat, groups: seq<RegGroup>): ChannelPlan
    requires i < |p.devices|
  {
    p.(devices := p.devices[i := p.devices[i].(groups := HashedAll(groups))])
  }

  lemma StreamTellsGroups(p: ChannelPlan, i: nat, a: seq<RegGroup>, b: seq<RegGroup>)
    requires i < |p.devices| && PlanOk(WithGroups(p, i, a)) && PlanOk(WithGroups(p, i, b))
    ensures Stream(WithGroups(p, i, a)) == Stream(WithGroups(p, i, b)) ==> HashedAll(a) == HashedAll(b)
  {
    var pa, pb := WithGroups(p, i, a), WithGroups(p, i, b);
    FingerprintFaithful(pa, pb);
    if SamePlan(pa, pb) {
      assert SameDevice(pa.devices[i], pb.devices[i]);
    }
  }

  lemma OkWithSameGroups(p: ChannelPlan, i: nat, a: seq<RegGroup>, b: seq<RegGroup>)
    requires i < |p.devices| && PlanOk(WithGroups(p, i, a)) && multiset(a) == multiset(b)
    ensures PlanOk(WithGroups(p, i, b))
  {
    var pa, pb := WithGroups(p, i, a), WithGroups(p, i, b);
    var d, e := pa.devices[i], pb.devices[i];
    HashedMultiset(a, b);
    assert DeviceOk(d);
    forall g | g in e.groups ensures GroupOk(g) {
      assert g in multiset(e.groups);
      assert g in d.groups;
    }
    assert DeviceOk(e);
    forall f | f in pb.devices ensures DeviceOk(f) {
      var k :| 0 <= k < |pb.devices| && pb.devices[k] == f;
      assert pa.devices[k] in pa.devices;
    }
  }

  lemma HashedSorted(a: seq<RegGroup>, props: seq<PropMeta>, bits: bool, maxRegs: int)
    requires SafeProps(props, bits) && IsBuild(a, props, maxRegs)
    ensures SpecsSorted(HashedAll(a)) && (HashedTiesAgree(a) ==> SpecsTieFree(HashedAll(a)))
  {
    PlanLegal(props, bits, maxRegs, a);
    forall x | 0 <= x < |a| ensures a[x].space == AddrSpaceOf(a[x].readFC) {
      assert a[x] in a && Legal(a[x], maxRegs);
      assert a[x].members[0] in a[x].members;
    }
  }

  /**
   Building one accepted configuration again leaves the stream that is hashed as it was, whatever
   order the groups come in, exactly when no two groups with the same function code and start
   address differ in quantity.
  */
  lemma RebuildStableIff(props: seq<PropMeta>, bits: bool, maxRegs: int, a: seq<RegGroup>, p: ChannelPlan, i: nat)
    requires SafeProps(props, bits) && IsBuild(a, props, maxRegs)
    requires i < |p.devices| && PlanOk(WithGroups(p, i, a))
    ensures (forall b :: IsBuild(b, props, maxRegs) ==> Stream(WithGroups(p, i, b)) == Stream(WithGroups(p, i, a)))
            <==> HashedTiesAgree(a)
  {
    if HashedTiesAgree(a) {
      forall b | IsBuild(b, props, maxRegs) ensures Stream(WithGroups(p, i, b)) == Stream(WithGroups(p, i, a)) {
        SameGroups(props, maxRegs, a, b);
        HashedMultiset(a, b);
        HashedSorted(a, props, bits, maxRegs);
        HashedSorted(b, props, bits, maxRegs);
        SpecsUnique(HashedAll(a), HashedAll(b));
      }
    } else {
      var b := OtherStream(props, maxRegs, a, p, i);
    }
  }

  /** A build with groups that tie in different quantities has another build with another stream. */
  lemma OtherStream(props: seq<PropMeta>, maxRegs: int, a: seq<RegGroup>, p: ChannelPlan, i: nat)
    returns (b: seq<RegGroup>)
    requires IsBuild(a, props, maxRegs) && !HashedTiesAgree(a)
    requires i < |p.devices| && PlanOk(WithGroups(p, i, a))
    ensures IsBuild(b, props, maxRegs) && Stream(WithGroups(p, i, b)) != Stream(WithGroups(p, i, a))
  {
    var x, y :| 0 <= x < y < |a| && Tie(a[x], a[y]) && a[x].quantity != a[y].quantity;
    b := a[x := a[y]][y := a[x]];
    TiesSwap(props, maxRegs, a, x, y);
    SameGroups(props, maxRegs, a, b);
    OkWithSameGroups(p, i, a, b);
    StreamTellsGroups(p, i, a, b);
    assert HashedAll(b)[x] != HashedAll(a)[x];
  }

  // ---- a real list

  /** Two registers that straddle the first request's end, and three that start at the same place from another base. */
  const OVERLAPPING := [
    PropMeta("low", "p1", IntType, 0, 31, 124, 0, 3, 0, ABCD, R, None, 2),
    PropMeta("high", "p2", IntType, 0, 47, 0, 124, 3, 0, ABCD, R, None, 3)]

  const LOW := RegGroup(3, 124, 2, RegisterSpace, [MemberAt(OVERLAPPING[0], 0)])
  const HIGH := RegGroup(3, 124, 3, RegisterSpace, [MemberAt(OVERLAPPING[1], 0)])

  lemma OverlappingAccepted()
    ensures SafeProps(OVERLAPPING, false)
  {
    NotBlank("low");
    NotBlank("high");
    NotBlank("p1");
    NotBlank("p2");
  }

  lemma TwoBuckets(c: seq<PropMeta>)
    requires |c| == 2 && Readable(c[0]) && Readable(c[1]) && KeyOf(c[0]) != KeyOf(c[1])
    ensures Bucket(c, KeyOf(c[0])) == [c[0]] && Bucket(c, KeyOf(c[1])) == [c[1]]
  {
    BucketStep(c, 0);
    BucketStep(c, 1);
    assert c[..2] == c && Bucket(c[..0], KeyOf(c[0])) == [] && Bucket(c[..0], KeyOf(c[1])) == [];
  }

  lemma LowPlanned(m: seq<PropMeta>)
    requires m == [OVERLAPPING[0]]
    ensures LOW in BucketGroups(m, Key(3, 0), 0)
  {
    var p := m[0];
    assert m[..0] == [] && MaxEnd(m, RegisterSpace) == 126;
    assert GridEnd(125, 126, 125) == GridEnd(125, 126, 250) == 250;
    assert GridEnd(125, 126, 0) == 250;
    assert !CapturedBefore(p, RegisterSpace, 125, 126, 0);
    assert !CapturedBefore(p, RegisterSpace, 125, 126, 125);
    assert !CapturedBefore(p, RegisterSpace, 125, 126, 250);
    assert Straddlers(m, Key(3, 0), 125, 126, 250) == [LOW];
  }

  lemma HighPlanned(m: seq<PropMeta>)
    requires m == [OVERLAPPING[1]]
    ensures HIGH in BucketGroups(m, Key(3, 124), 0)
  {
    assert m[..0] == [] && MaxEnd(m, RegisterSpace) == 3;
    assert GridEnd(125, 3, 125) == 125 == GridEnd(125, 3, 0);
    assert CellMembers(m, RegisterSpace, 0, 3) == HIGH.members;
    assert CellsBefore(m, Key(3, 124), 125, 3, 0) == [];
    assert CellsBefore(m, Key(3, 124), 125, 3, 125) == [HIGH];
  }

  lemma BothInPlan(a: seq<RegGroup>)
    requires IsPlan(a, OVERLAPPING, 0)
    ensures LOW in a && HIGH in a
  {
    TwoBuckets(OVERLAPPING);
    LowPlanned([OVERLAPPING[0]]);
    HighPlanned([OVERLAPPING[1]]);
    InPlan(a, OVERLAPPING, 0, LOW);
    InPlan(a, OVERLAPPING, 0, HIGH);
  }

  /**
   An accepted list whose plan is not unique: any channel that polls it can, without any change of
   configuration, get a plan that its running worker does not match.
  */
  lemma UnchangedRestarts(a: seq<RegGroup>, p: ChannelPlan, i: nat, w: Engine.Worker) returns (b: seq<RegGroup>)
    requires IsBuild(a, OVERLAPPING, 0) && i < |p.devices| && PlanOk(WithGroups(p, i, a))
    requires w.index == p.channelIndex && w.fp == Stream(WithGroups(p, i, a))
    ensures SafeProps(OVERLAPPING, false) && IsBuild(b, OVERLAPPING, 0) && !NoTies(a)
    ensures Engine.Kept(map[w.index := WithGroups(p, i, a)], w)
    ensures !Engine.Kept(map[w.index := WithGroups(p, i, b)], w)
  {
    OverlappingAccepted();
    BothInPlan(a);
    var x :| 0 <= x < |a| && a[x] == LOW;
    var y :| 0 <= y < |a| && a[y] == HIGH;
    assert Tie(a[x], a[y]) && Tie(a[y], a[x]) && a[x].quantity != a[y].quantity;
    b := OtherStream(OVERLAPPING, 0, a, p, i);
  }
}
