/**
 The fingerprint stream is uniquely decodable: two plans within the ranges the configuration
 allows write the same bytes only when they agree on every field that is hashed. The lists are
 delimited by single bytes (0xFF after the groups, 0xFE after the properties) that nothing else can
 put in those places.
*/
module Fingerprint {
  import opened Bits
  import opened Props
  import opened Mapper
  import opened Plans

  // ---- the plans considered

  /** No NUL, and no 0xFE: every NUL-free UTF-8 string is such a text. */
  predicate TextOk(s: Text) { forall b :: b in s ==> b != 0 && b != 0xFE }

  predicate Word(v: int) { 0 <= v < 0x1_0000 }

  predicate Int32(v: int) { -0x8000_0000 <= v < 0x8000_0000 }

  predicate GroupOk(g: GroupSpec) { 1 <= g.readFC <= 4 && Word(g.startAddr) && Word(g.quantity) }

  predicate PropOk(p: PropSpec) {
    && TextOk(p.name) && TextOk(p.id) && TextOk(p.dataType) && TextOk(p.byteOrder) && TextOk(p.access) && TextOk(p.unit)
    && Word(p.startBit) && Word(p.endBit) && Word(p.offset) && Word(p.registerBase) && Word(p.registerCount)
    && 0 <= p.readFC < 256 && 0 <= p.writeFC < 256 && p.coefficient < TWO64 && p.delta < TWO64
  }

  predicate DeviceOk(d: DevicePlan) {
    && Int32(d.index) && TextOk(d.name) && TextOk(d.modelID) && TextOk(d.modelName) && TextOk(d.protocol)
        && TextOk(d.errMsg)
    && (forall g :: g in d.groups ==> GroupOk(g)) && (forall p :: p in d.props ==> PropOk(p))
  }

  predicate PlanOk(p: ChannelPlan) {
    TextOk(p.kind) && TextOk(p.name) && (forall b :: b in p.config ==> b != 0) && Int32(p.pollMs)
    && forall d :: d in p.devices ==> DeviceOk(d)
  }

  // ---- agreement on what is hashed

  /** Everything but the description; a missing sign flag counts as false. */
  predicate SameProp(p: PropSpec, q: PropSpec) {
    p.(description := [], signed := Some(SignedFlag(p))) == q.(description := [], signed := Some(SignedFlag(q)))
  }

  predicate SameProps(ps: seq<PropSpec>, qs: seq<PropSpec>) {
    |ps| == |qs| && forall i :: 0 <= i < |ps| ==> SameProp(ps[i], qs[i])
  }

  predicate SameDevice(d: DevicePlan, e: DevicePlan) {
    && d.index == e.index && d.protocol == e.protocol && d.unitID == e.unitID
    && d.DisplayName() == e.DisplayName() && d.modelID == e.modelID
    && d.valid == e.valid && (!d.valid ==> d.errMsg == e.errMsg)
    && d.groups == e.groups && SameProps(d.props, e.props)
  }

  predicate SamePlan(p: ChannelPlan, q: ChannelPlan) {
    && p.kind == q.kind && p.name == q.name && p.pollMs == q.pollMs && p.config == q.config
    && |p.devices| == |q.devices| && forall i :: 0 <= i < |p.devices| ==> SameDevice(p.devices[i], q.devices[i])
  }

  // ---- cancelling equal prefixes

  predicate NulFree(s: Text) { forall b :: b in s ==> b != 0 }

  predicate Alike(t: Token, u: Token) {
    (t.Str? && u.Str? && NulFree(t.s) && NulFree(u.s)) || (t.Fixed? && u.Fixed? && |t.b| == |u.b|)
  }

  /** A string ends at the first NUL. */
  lemma {:induction false} StrCancel(a: Text, b: Text, x: Text, y: Text)
    requires NulFree(a) && NulFree(b) && a + [0] + x == b + [0] + y
    ensures a == b && x == y
  {
    FirstByte(a, x);
    FirstByte(b, y);
    if a != [] && b != [] {
      assert a[1..] + [0] + x == (a + [0] + x)[1..] == (b + [0] + y)[1..] == b[1..] + [0] + y;
      TailNulFree(a);
      TailNulFree(b);
      StrCancel(a[1..], b[1..], x, y);
      assert a == [a[0]] + a[1..] && b == [b[0]] + b[1..];
    } else {
      assert ([] + [0] + x)[1..] == x && ([] + [0] + y)[1..] == y;
    }
  }

  lemma FirstByte(a: Text, x: Text)
    requires NulFree(a)
    ensures (a + [0] + x)[0] == (if a == [] then 0 else a[0]) && (a == [] <==> (a + [0] + x)[0] == 0)
  {
    if a != [] {
      assert a[0] in a;
    }
  }

  lemma TailNulFree(a: Text)
    requires NulFree(a) && a != []
    ensures NulFree(a[1..])
  {
    assert forall b :: b in a[1..] ==> b in a;
  }

  lemma FixedCancel(a: Text, b: Text, x: Text, y: Text)
    requires |a| == |b| && a + x == b + y
    ensures a == b && x == y
  {
    assert (a + x)[..|a|] == a && (b + y)[..|b|] == b;
    assert (a + x)[|a|..] == x && (b + y)[|b|..] == y;
  }

  lemma TokenCancel(t: Token, u: Token, x: Text, y: Text)
    requires Alike(t, u) && TokenBytes(t) + x == TokenBytes(u) + y
    ensures t == u && x == y
  {
    if t.Str? {
      StrCancel(t.s, u.s, x, y);
    } else {
      FixedCancel(t.b, u.b, x, y);
    }
  }

  lemma {:induction false} RunCancel(ts: seq<Token>, us: seq<Token>, x: Text, y: Text)
    requires |ts| == |us| && forall i :: 0 <= i < |ts| ==> Alike(ts[i], us[i])
    requires Flat(ts) + x == Flat(us) + y
    ensures ts == us && x == y
  {
    if ts == [] {
      assert x == [] + x && y == [] + y;
    } else {
      assert Flat(ts) + x == TokenBytes(ts[0]) + (Flat(ts[1..]) + x);
      assert Flat(us) + y == TokenBytes(us[0]) + (Flat(us[1..]) + y);
      TokenCancel(ts[0], us[0], Flat(ts[1..]) + x, Flat(us[1..]) + y);
      RunCancel(ts[1..], us[1..], x, y);
      assert ts == [ts[0]] + ts[1..] && us == [us[0]] + us[1..];
    }
  }

  lemma IntBytesSame(v: int, w: int, n: nat)
    requires IntBytes(v, n) == IntBytes(w, n)
    ensures v % Pow2(8 * n) == w % Pow2(8 * n)
  {
    IntBytesValue(v, n);
    IntBytesValue(w, n);
  }

  lemma Powers()
    ensures Pow2(16) == 0x1_0000 && Pow2(32) == 0x1_0000_0000
  {
    assert Pow2(8) == 256;
    Pow2Add(8, 8);
    Pow2Add(16, 16);
  }

  lemma WordSame(v: int, w: int)
    requires Word(v) && Word(w) && IntBytes(v, 2) == IntBytes(w, 2)
    ensures v == w
  {
    IntBytesSame(v, w, 2);
    Powers();
  }

  lemma Int32Same(v: int, w: int)
    requires Int32(v) && Int32(w) && IntBytes(v, 4) == IntBytes(w, 4)
    ensures v == w
  {
    IntBytesSame(v, w, 4);
    Powers();
    ResiduesApart(v, w);
  }

  lemma ResiduesApart(v: int, w: int)
    requires Int32(v) && Int32(w) && v % 0x1_0000_0000 == w % 0x1_0000_0000
    ensures v == w
  {
  }

  lemma LongSame(v: nat, w: nat)
    requires v < TWO64 && w < TWO64 && IntBytes(v, 8) == IntBytes(w, 8)
    ensures v == w
  {
    LongPower();
    IntBytesSame(v, w, 8);
  }

  lemma LongPower()
    ensures Pow2(8 * 8) == TWO64
  {
    TopPowers();
  }

  // ---- one item

  lemma GroupCancel(g: GroupSpec, h: GroupSpec, x: Text, y: Text)
    requires GroupOk(g) && GroupOk(h) && Flat(GroupTokens(g)) + x == Flat(GroupTokens(h)) + y
    ensures g == h && x == y
  {
    RunCancel(GroupTokens(g), GroupTokens(h), x, y);
    assert GroupTokens(g)[0] == GroupTokens(h)[0] && GroupTokens(g)[1] == GroupTokens(h)[1];
    assert GroupTokens(g)[2] == GroupTokens(h)[2] && GroupTokens(g)[3] == GroupTokens(h)[3];
    WordSame(g.startAddr, h.startAddr);
    WordSame(g.quantity, h.quantity);
  }

  lemma PropTokensAlike(p: PropSpec, q: PropSpec)
    requires PropOk(p) && PropOk(q)
    ensures |PropTokens(p)| == |PropTokens(q)| == 16
    ensures forall i :: 0 <= i < 16 ==> Alike(PropTokens(p)[i], PropTokens(q)[i])
  {
  }

  lemma PropTexts(p: PropSpec, q: PropSpec)
    requires PropTokens(p) == PropTokens(q)
    ensures p.name == q.name && p.id == q.id && p.dataType == q.dataType
    ensures p.byteOrder == q.byteOrder && p.access == q.access && p.unit == q.unit
  {
    var t, u := PropTokens(p), PropTokens(q);
    assert t[0] == u[0] && t[1] == u[1] && t[2] == u[2] && t[11] == u[11] && t[12] == u[12] && t[13] == u[13];
  }

  lemma PropPlace(p: PropSpec, q: PropSpec)
    requires PropOk(p) && PropOk(q) && PropTokens(p) == PropTokens(q)
    ensures p.startBit == q.startBit && p.endBit == q.endBit && p.offset == q.offset
    ensures p.registerBase == q.registerBase && p.registerCount == q.registerCount
  {
    var t, u := PropTokens(p), PropTokens(q);
    assert t[3] == u[3] && t[4] == u[4] && t[5] == u[5] && t[6] == u[6] && t[7] == u[7];
    WordSame(p.startBit, q.startBit);
    WordSame(p.endBit, q.endBit);
    WordSame(p.offset, q.offset);
    WordSame(p.registerBase, q.registerBase);
    WordSame(p.registerCount, q.registerCount);
  }

  lemma PropNumbers(p: PropSpec, q: PropSpec)
    requires PropOk(p) && PropOk(q) && PropTokens(p) == PropTokens(q)
    ensures p.readFC == q.readFC && p.writeFC == q.writeFC && SignedFlag(p) == SignedFlag(q)
    ensures p.coefficient == q.coefficient && p.delta == q.delta
  {
    var t, u := PropTokens(p), PropTokens(q);
    assert t[8] == u[8] && t[9] == u[9] && t[10] == u[10] && t[14] == u[14];
    LongSame(p.coefficient, q.coefficient);
    LongSame(p.delta, q.delta);
  }

  lemma PropTokensSame(p: PropSpec, q: PropSpec)
    requires PropOk(p) && PropOk(q) && PropTokens(p) == PropTokens(q)
    ensures SameProp(p, q)
  {
    PropTexts(p, q);
    PropPlace(p, q);
    PropNumbers(p, q);
  }

  lemma PropCancel(p: PropSpec, q: PropSpec, x: Text, y: Text)
    requires PropOk(p) && PropOk(q) && Flat(PropTokens(p)) + x == Flat(PropTokens(q)) + y
    ensures SameProp(p, q) && x == y
  {
    PropTokensAlike(p, q);
    RunCancel(PropTokens(p), PropTokens(q), x, y);
    PropTokensSame(p, q);
  }

  // ---- lists closed by a byte that no item starts with

  lemma GroupStarts(g: GroupSpec, x: Text)
    requires GroupOk(g)
    ensures |Flat(GroupTokens(g)) + x| > 0 && (Flat(GroupTokens(g)) + x)[0] == g.readFC
  {
    var ts := GroupTokens(g);
    assert Flat(ts) == TokenBytes(ts[0]) + Flat(ts[1..]);
  }

  lemma PropStarts(p: PropSpec, x: Text)
    requires PropOk(p)
    ensures |Flat(PropTokens(p)) + x| > 0 && (Flat(PropTokens(p)) + x)[0] != 0xFE
  {
    var ts := PropTokens(p);
    assert ts[0] == Str(p.name);
    assert Flat(ts) == TokenBytes(ts[0]) + Flat(ts[1..]);
    if p.name != [] {
      assert p.name[0] in p.name;
    }
  }

  lemma EachFirst<T>(xs: seq<T>, tokensOf: T -> seq<Token>, end: byte, x: Text)
    ensures xs == [] ==> Flat(Each(xs, tokensOf)) + ([end] + x) == [end] + x
    ensures xs != [] ==>
              Flat(Each(xs, tokensOf)) + ([end] + x) ==
                  Flat(tokensOf(xs[0])) + (Flat(Each(xs[1..], tokensOf)) + ([end] + x))
  {
    if xs != [] {
      var a, b := tokensOf(xs[0]), Each(xs[1..], tokensOf);
      FlatConcat(a, b);
      Assoc(Flat(a), Flat(b), [end] + x);
    } else {
      assert [] + ([end] + x) == [end] + x;
    }
  }

  lemma Assoc(a: Text, b: Text, c: Text)
    ensures (a + b) + c == a + (b + c)
  {
  }

  lemma {:induction false} GroupsCancel(gs: seq<GroupSpec>, hs: seq<GroupSpec>, x: Text, y: Text)
    requires (forall g :: g in gs ==> GroupOk(g)) && (forall h :: h in hs ==> GroupOk(h))
    requires Flat(Each(gs, GroupTokens)) + ([0xFF] + x) == Flat(Each(hs, GroupTokens)) + ([0xFF] + y)
    ensures gs == hs && x == y
  {
    EachFirst(gs, GroupTokens, 0xFF, x);
    EachFirst(hs, GroupTokens, 0xFF, y);
    if gs != [] { GroupStarts(gs[0], Flat(Each(gs[1..], GroupTokens)) + ([0xFF] + x)); }
    if hs != [] { GroupStarts(hs[0], Flat(Each(hs[1..], GroupTokens)) + ([0xFF] + y)); }
    if gs == [] {
      FixedCancel([0xFF], [0xFF], x, y);
    } else {
      GroupCancel(gs[0], hs[0], Flat(Each(gs[1..], GroupTokens)) + ([0xFF] + x),
                  Flat(Each(hs[1..], GroupTokens)) + ([0xFF] + y));
      GroupsCancel(gs[1..], hs[1..], x, y);
      assert gs == [gs[0]] + gs[1..] && hs == [hs[0]] + hs[1..];
    }
  }

  lemma {:induction false} PropsCancel(ps: seq<PropSpec>, qs: seq<PropSpec>, x: Text, y: Text)
    requires (forall p :: p in ps ==> PropOk(p)) && (forall q :: q in qs ==> PropOk(q))
    requires Flat(Each(ps, PropTokens)) + ([0xFE] + x) == Flat(Each(qs, PropTokens)) + ([0xFE] + y)
    ensures SameProps(ps, qs) && x == y
  {
    var xs := PropsFirst(ps, x);
    var ys := PropsFirst(qs, y);
    if ps == [] {
      FixedCancel([0xFE], [0xFE], x, y);
    } else {
      PropCancel(ps[0], qs[0], xs, ys);
      PropsCancel(ps[1..], qs[1..], x, y);
      SamePropsCons(ps, qs);
    }
  }

  /** How a closed list of properties begins: with its closing byte, or with its first property. */
  lemma PropsFirst(ps: seq<PropSpec>, x: Text) returns (rest: Text)
    requires forall p :: p in ps ==> PropOk(p)
    ensures var all := Flat(Each(ps, PropTokens)) + ([0xFE] + x);
      && |all| > 0 && (ps == [] <==> all[0] == 0xFE)
      && all == if ps == [] then [0xFE] + x else Flat(PropTokens(ps[0])) + rest
    ensures ps != [] ==> rest == Flat(Each(ps[1..], PropTokens)) + ([0xFE] + x)
  {
    EachFirst(ps, PropTokens, 0xFE, x);
    rest := [];
    if ps != [] {
      rest := Flat(Each(ps[1..], PropTokens)) + ([0xFE] + x);
      PropStarts(ps[0], rest);
    }
  }

  lemma SamePropsCons(ps: seq<PropSpec>, qs: seq<PropSpec>)
    requires ps != [] && qs != [] && SameProp(ps[0], qs[0]) && SameProps(ps[1..], qs[1..])
    ensures SameProps(ps, qs)
  {
    forall i | 0 <= i < |ps| ensures SameProp(ps[i], qs[i]) {
      if i > 0 {
        assert ps[i] == ps[1..][i - 1] && qs[i] == qs[1..][i - 1];
      }
    }
  }

  // ---- a device

  lemma {:induction false} DigitsPrintable(n: nat)
    ensures TextOk(Digits(n))
  {
  }

  lemma DisplayOk(d: DevicePlan)
    requires DeviceOk(d)
    ensures NulFree(d.DisplayName())
  {
    DigitsPrintable(if d.index < 0 then -d.index else d.index);
  }

  /** The first five fields, and the validity byte. */
  function Front(d: DevicePlan): seq<Token> {
    [Fixed(IntBytes(d.index, 4)), Str(d.protocol), Fixed([d.unitID]), Str(d.DisplayName()), Str(d.modelID),
     Fixed([if d.valid then 1 else 0])]
  }

  function Verdict(d: DevicePlan): seq<Token> { if d.valid then [] else [Str(d.errMsg)] }

  lemma DeviceShape(d: DevicePlan, x: Text)
    ensures Flat(DeviceTokens(d)) + x
         == Flat(Front(d)) + (Flat(Verdict(d)) + (Flat(Each(d.groups, GroupTokens))
            + ([0xFF] + (Flat(Each(d.props, PropTokens)) + ([0xFE] + x)))))
  {
    var h, v, g, p := Front(d), Verdict(d), Each(d.groups, GroupTokens), Each(d.props, PropTokens);
    assert HeadTokens(d) == h + v;
    ShapeOf(h + v, g, p, x);
    FlatConcat(h, v);
    Assoc(Flat(h), Flat(v), Flat(g) + ([0xFF] + (Flat(p) + ([0xFE] + x))));
  }

  lemma ShapeOf(h: seq<Token>, g: seq<Token>, p: seq<Token>, x: Text)
    ensures Flat(h + g + [Fixed([0xFF])] + p + [Fixed([0xFE])]) + x
         == Flat(h) + (Flat(g) + ([0xFF] + (Flat(p) + ([0xFE] + x))))
  {
    FlatConcat(h, g);
    Closed(h + g, [0xFF]);
    FlatConcat(h + g + [Fixed([0xFF])], p);
    Closed(h + g + [Fixed([0xFF])] + p, [0xFE]);
    var a, b, c := Flat(h), Flat(g), Flat(p);
    var y := [0xFE] + x;
    Assoc(a + b + [0xFF] + c, [0xFE], x);
    Assoc(a + b + [0xFF], c, y);
    Assoc(a + b, [0xFF], c + y);
    Assoc(a, b, [0xFF] + (c + y));
  }

  lemma Closed(ts: seq<Token>, b: Text)
    ensures Flat(ts + [Fixed(b)]) == Flat(ts) + b
  {
    FlatSnoc(ts, Fixed(b));
  }

  lemma FrontCancel(d: DevicePlan, e: DevicePlan, x: Text, y: Text)
    requires DeviceOk(d) && DeviceOk(e) && Flat(Front(d)) + x == Flat(Front(e)) + y
    ensures d.index == e.index && d.protocol == e.protocol && d.unitID == e.unitID
    ensures d.DisplayName() == e.DisplayName() && d.modelID == e.modelID && d.valid == e.valid && x == y
  {
    DisplayOk(d);
    DisplayOk(e);
    var t, u := Front(d), Front(e);
    RunCancel(t, u, x, y);
    assert t[0] == u[0] && t[1] == u[1] && t[2] == u[2] && t[3] == u[3] && t[4] == u[4] && t[5] == u[5];
    Int32Same(d.index, e.index);
  }

  lemma DeviceCancel(d: DevicePlan, e: DevicePlan, x: Text, y: Text)
    requires DeviceOk(d) && DeviceOk(e) && Flat(DeviceTokens(d)) + x == Flat(DeviceTokens(e)) + y
    ensures SameDevice(d, e) && x == y
  {
    DeviceShape(d, x);
    DeviceShape(e, y);
    var xp, yp := Flat(Each(d.props, PropTokens)) + ([0xFE] + x), Flat(Each(e.props, PropTokens)) + ([0xFE] + y);
    var xg, yg := Flat(Each(d.groups, GroupTokens)) + ([0xFF] + xp), Flat(Each(e.groups, GroupTokens)) + ([0xFF] + yp);
    FrontCancel(d, e, Flat(Verdict(d)) + xg, Flat(Verdict(e)) + yg);
    RunCancel(Verdict(d), Verdict(e), xg, yg);
    assert !d.valid ==> Verdict(d)[0] == Verdict(e)[0];
    GroupsCancel(d.groups, e.groups, xp, yp);
    PropsCancel(d.props, e.props, x, y);
  }

  // ---- a plan

  lemma {:induction false} DevicesCancel(ds: seq<DevicePlan>, es: seq<DevicePlan>)
    requires (forall d :: d in ds ==> DeviceOk(d)) && (forall e :: e in es ==> DeviceOk(e))
    requires Flat(Each(ds, DeviceTokens)) == Flat(Each(es, DeviceTokens))
    ensures |ds| == |es| && forall i :: 0 <= i < |ds| ==> SameDevice(ds[i], es[i])
  {
    DevicesFirst(ds);
    DevicesFirst(es);
    if ds != [] && es != [] {
      DeviceCancel(ds[0], es[0], Flat(Each(ds[1..], DeviceTokens)), Flat(Each(es[1..], DeviceTokens)));
      DevicesCancel(ds[1..], es[1..]);
      SameDevicesCons(ds, es);
    }
  }

  lemma DevicesFirst(ds: seq<DevicePlan>)
    ensures ds == [] ==> Flat(Each(ds, DeviceTokens)) == []
    ensures ds != [] ==> Flat(Each(ds, DeviceTokens)) == Flat(DeviceTokens(ds[0])) + Flat(Each(ds[1..], DeviceTokens))
    ensures ds != [] ==> Flat(DeviceTokens(ds[0])) != []
  {
    if ds != [] {
      FlatConcat(DeviceTokens(ds[0]), Each(ds[1..], DeviceTokens));
      DeviceNonempty(ds[0]);
    }
  }

  lemma SameDevicesCons(ds: seq<DevicePlan>, es: seq<DevicePlan>)
    requires |ds| == |es| > 0 && SameDevice(ds[0], es[0])
    requires forall i :: 0 <= i < |ds| - 1 ==> SameDevice(ds[1..][i], es[1..][i])
    ensures forall i :: 0 <= i < |ds| ==> SameDevice(ds[i], es[i])
  {
    forall i | 0 <= i < |ds| ensures SameDevice(ds[i], es[i]) {
      if i > 0 {
        assert ds[i] == ds[1..][i - 1] && es[i] == es[1..][i - 1];
      }
    }
  }

  lemma DeviceNonempty(d: DevicePlan)
    ensures |Flat(DeviceTokens(d))| > 0
  {
    DeviceShape(d, []);
    assert Flat(DeviceTokens(d)) + [] == Flat(DeviceTokens(d));
    var f := Front(d);
    assert Flat(f) == TokenBytes(f[0]) + Flat(f[1..]);
  }

  lemma HeadCancel(p: ChannelPlan, q: ChannelPlan, x: Text, y: Text)
    requires PlanOk(p) && PlanOk(q) && Flat(PlanHead(p)) + x == Flat(PlanHead(q)) + y
    ensures p.kind == q.kind && p.name == q.name && p.pollMs == q.pollMs && p.config == q.config && x == y
  {
    var t, u := PlanHead(p), PlanHead(q);
    RunCancel(t, u, x, y);
    assert t[0] == u[0] && t[1] == u[1] && t[2] == u[2] && t[3] == u[3];
    Int32Same(p.pollMs, q.pollMs);
  }

  /** Two plans have the same fingerprint exactly when they agree on every hashed field. */
  lemma FingerprintFaithful(p: ChannelPlan, q: ChannelPlan)
    requires PlanOk(p) && PlanOk(q)
    ensures Stream(p) == Stream(q) <==> SamePlan(p, q)
  {
    FlatConcat(PlanHead(p), Each(p.devices, DeviceTokens));
    FlatConcat(PlanHead(q), Each(q.devices, DeviceTokens));
    if Stream(p) == Stream(q) {
      HeadCancel(p, q, Flat(Each(p.devices, DeviceTokens)), Flat(Each(q.devices, DeviceTokens)));
      DevicesCancel(p.devices, q.devices);
    }
    if SamePlan(p, q) {
      DevicesSame(p.devices, q.devices);
    }
  }

  lemma {:induction false} DevicesSame(ds: seq<DevicePlan>, es: seq<DevicePlan>)
    requires |ds| == |es| && forall i :: 0 <= i < |ds| ==> SameDevice(ds[i], es[i])
    ensures Each(ds, DeviceTokens) == Each(es, DeviceTokens)
  {
    if ds != [] {
      assert SameDevice(ds[0], es[0]);
      PropsSame(ds[0].props, es[0].props);
      assert HeadTokens(ds[0]) == HeadTokens(es[0]);
      DevicesSame(ds[1..], es[1..]);
    }
  }

  lemma {:induction false} PropsSame(ps: seq<PropSpec>, qs: seq<PropSpec>)
    requires SameProps(ps, qs)
    ensures Each(ps, PropTokens) == Each(qs, PropTokens)
  {
    if ps != [] {
      assert SameProp(ps[0], qs[0]);
      assert PropTokens(ps[0]) == PropTokens(qs[0]);
      PropsSame(ps[1..], qs[1..]);
    }
  }

  // ---- what the stream does not show

  function WithDevice(p: ChannelPlan, i: nat, d: DevicePlan): ChannelPlan
    requires i < |p.devices|
  {
    p.(devices := p.devices[i := d])
  }

  function WithProp(d: DevicePlan, j: nat, q: PropSpec): DevicePlan
    requires j < |d.props|
  {
    d.(props := d.props[j := q])
  }

  lemma UnseenDevice(p: ChannelPlan, i: nat, d: DevicePlan)
    requires i < |p.devices| && SameDevice(p.devices[i], d)
    ensures Stream(WithDevice(p, i, d)) == Stream(p)
  {
    DevicesSame(WithDevice(p, i, d).devices, p.devices);
  }

  lemma UnseenProp(p: ChannelPlan, i: nat, j: nat, q: PropSpec)
    requires i < |p.devices| && j < |p.devices[i].props| && SameProp(p.devices[i].props[j], q)
    ensures Stream(WithDevice(p, i, WithProp(p.devices[i], j, q))) == Stream(p)
  {
    var d := p.devices[i];
    assert SameProps(d.props, WithProp(d, j, q).props);
    UnseenDevice(p, i, WithProp(d, j, q));
  }

  /**
   What the fingerprint cannot see: the description of a property, whether a sign flag that is not
   true is missing or false, and the name of the model behind a device that has its own name.
  */
  lemma BlindSpots(p: ChannelPlan, i: nat, j: nat, text: Text, flag: Option<bool>)
    requires i < |p.devices| && j < |p.devices[i].props|
    ensures var d := p.devices[i];
            && var q := d.props[j];
            && Stream(WithDevice(p, i, WithProp(d, j, q.(description := text)))) == Stream(p)
            && (q.signed != Some(true) && flag != Some(true) ==>
                  Stream(WithDevice(p, i, WithProp(d, j, q.(signed := flag)))) == Stream(p))
            && (d.name != [] ==> Stream(WithDevice(p, i, d.(modelName := text))) == Stream(p))
  {
    var d := p.devices[i];
    var q := d.props[j];
    UnseenProp(p, i, j, q.(description := text));
    if q.signed != Some(true) && flag != Some(true) {
      UnseenProp(p, i, j, q.(signed := flag));
    }
    if d.name != [] {
      UnseenDevice(p, i, d.(modelName := text));
    }
  }
}
