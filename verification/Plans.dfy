/**
 The acquisition plan (internal/engine/plan.go) and the byte stream its fingerprint hashes
 (`planFingerprint` in internal/engine/engine.go). Go strings are byte strings here.
*/
module Plans {
  import opened Bits
  import opened Props
  import opened Mapper

  type Text = seq<byte>

  datatype GroupSpec = GroupSpec(readFC: int, startAddr: int, quantity: int, space: byte)

  /** A property as the plan carries it; the two scale factors are their IEEE 754 bit patterns. */
  datatype PropSpec = PropSpec(
    name: Text, id: Text, dataType: Text, startBit: int, endBit: int, offset: int, registerBase: int,
    registerCount: int,
    readFC: int, writeFC: int, coefficient: nat, delta: nat, byteOrder: Text, access: Text, unit: Text,
    signed: Option<bool>, description: Text)

  datatype DevicePlan = DevicePlan(
    index: int, unitID: byte, name: Text, modelID: Text, modelName: Text, protocol: Text,
    groups: seq<GroupSpec>, props: seq<PropSpec>, valid: bool, errMsg: Text)
  {
    function DisplayName(): Text {
      if name != [] then name else if modelName != [] then modelName else DEVICE_PREFIX + Decimal(index)
    }
  }

  datatype ChannelPlan = ChannelPlan(channelIndex: int, name: Text, kind: Text, config: Text,
                                     devices: seq<DevicePlan>, pollMs: int)

  /** The UTF-8 bytes of the two characters for "device", and a number sign. */
  const DEVICE_PREFIX: Text := [0xE8, 0xAE, 0xBE, 0xE5, 0xA4, 0x87, 0x23]

  // ---- decimal numerals

  function Digits(n: nat): (d: Text)
    ensures d != [] && forall c :: c in d ==> 48 <= c <= 57
  {
    if n < 10 then [48 + n] else Digits(n / 10) + [48 + n % 10]
  }

  /** `%d`. */
  function Decimal(n: int): Text { if n < 0 then [45] + Digits(-n) else Digits(n) }

  lemma DigitsShort(n: nat)
    ensures |Digits(n)| == 1 <==> n < 10
    ensures Digits(n)[|Digits(n)| - 1] == 48 + n % 10
    ensures n >= 10 ==> Digits(n)[..|Digits(n)| - 1] == Digits(n / 10)
  {
  }

  lemma {:induction false} DigitsInjective(m: nat, n: nat)
    requires Digits(m) == Digits(n)
    ensures m == n
  {
    DigitsShort(m);
    DigitsShort(n);
    if m >= 10 {
      DigitsInjective(m / 10, n / 10);
    }
  }

  lemma SignFirst(n: int)
    ensures n < 0 <==> Decimal(n)[0] == 45
    ensures n < 0 ==> Decimal(n)[1..] == Digits(-n)
  {
    if n >= 0 {
      assert Digits(n)[0] in Digits(n);
    }
  }

  lemma DecimalInjective(m: int, n: int)
    requires Decimal(m) == Decimal(n)
    ensures m == n
  {
    SignFirst(m);
    SignFirst(n);
    if m < 0 {
      DigitsInjective(-m, -n);
    } else {
      DigitsInjective(m, n);
    }
  }

  // ---- the stream as tokens

  /** What one write helper sends: a string closed by NUL, or a run of fixed length. */
  datatype Token = Str(s: Text) | Fixed(b: Text)

  function TokenBytes(t: Token): Text { if t.Str? then t.s + [0] else t.b }

  function Flat(ts: seq<Token>): Text {
    if ts == [] then [] else TokenBytes(ts[0]) + Flat(ts[1..])
  }

  function GroupTokens(g: GroupSpec): seq<Token> {
    [Fixed([g.readFC % 256]), Fixed(IntBytes(g.startAddr, 2)), Fixed(IntBytes(g.quantity, 2)), Fixed([g.space])]
  }

  predicate SignedFlag(p: PropSpec) { p.signed == Some(true) }

  function PropTokens(p: PropSpec): seq<Token> {
    [Str(p.name), Str(p.id), Str(p.dataType), Fixed(IntBytes(p.startBit, 2)), Fixed(IntBytes(p.endBit, 2)),
     Fixed(IntBytes(p.offset, 2)), Fixed(IntBytes(p.registerBase, 2)), Fixed(IntBytes(p.registerCount, 2)),
     Fixed([p.readFC % 256, p.writeFC % 256]), Fixed(IntBytes(p.coefficient, 8)), Fixed(IntBytes(p.delta, 8)),
     Str(p.byteOrder), Str(p.access), Str(p.unit), Fixed([if SignedFlag(p) then 1 else 0]), Fixed([0xFD])]
  }

  /** The tokens of each item of a list in turn. */
  function Each<T>(xs: seq<T>, tokensOf: T -> seq<Token>): seq<Token> {
    if xs == [] then [] else tokensOf(xs[0]) + Each(xs[1..], tokensOf)
  }

  function HeadTokens(d: DevicePlan): seq<Token> {
    [Fixed(IntBytes(d.index, 4)), Str(d.protocol), Fixed([d.unitID]), Str(d.DisplayName()), Str(d.modelID)]
    + if d.valid then [Fixed([1])] else [Fixed([0]), Str(d.errMsg)]
  }

  function DeviceTokens(d: DevicePlan): seq<Token> {
    HeadTokens(d) + Each(d.groups, GroupTokens) + [Fixed([0xFF])] + Each(d.props, PropTokens) + [Fixed([0xFE])]
  }

  function PlanTokens(p: ChannelPlan): seq<Token> {
    PlanHead(p) + Each(p.devices, DeviceTokens)
  }

  /** The bytes fed to SHA-256. The hash is taken as injective, so a fingerprint is this stream. */
  function Stream(p: ChannelPlan): Text { Flat(PlanTokens(p)) }

  // ---- writing it

  /** A running hash, as the bytes written to it so far. */
  class Hash {
    var written: Text

    constructor ()
      ensures written == []
    {
      written := [];
    }

    /** The write helpers, called once per token. */
    method WriteAll(ts: seq<Token>)
      modifies this
      ensures written == old(written) + Flat(ts)
    {
      for i := 0 to |ts|
        invariant written == old(written) + Flat(ts[..i])
      {
        FlatSnoc(ts[..i], ts[i]);
        assert ts[..i + 1] == ts[..i] + [ts[i]];
        written := written + TokenBytes(ts[i]);
      }
      assert ts[..|ts|] == ts;
    }

    /** A loop over a list, writing the tokens of each item. */
    method WriteEach<T>(xs: seq<T>, tokensOf: T -> seq<Token>)
      modifies this
      ensures written == old(written) + Flat(Each(xs, tokensOf))
    {
      for i := 0 to |xs|
        invariant written == old(written) + Flat(Each(xs[..i], tokensOf))
      {
        EachSnoc(xs, i, tokensOf);
        WriteAll(tokensOf(xs[i]));
      }
      assert xs[..|xs|] == xs;
    }

    /** The body of the loop over devices: a head, the loop over groups, the loop over properties. */
    method WriteDevice(d: DevicePlan)
      modifies this
      ensures written == old(written) + Flat(DeviceTokens(d))
    {
      ghost var start := written;
      WriteAll(HeadTokens(d));
      WriteEach(d.groups, GroupTokens);
      written := written + [0xFF];
      WriteEach(d.props, PropTokens);
      written := written + [0xFE];
      DeviceJoin(d, start, written);
    }
  }

  function PlanHead(p: ChannelPlan): seq<Token> {
    [Str(p.kind), Str(p.name), Fixed(IntBytes(p.pollMs, 4)), Str(p.config)]
  }

  method PlanFingerprint(p: ChannelPlan) returns (fp: Text)
    ensures fp == Stream(p)
  {
    var h := new Hash();
    h.WriteAll(PlanHead(p));
    for i := 0 to |p.devices|
      invariant h.written == PlanPart(p, i)
    {
      PlanPartSnoc(p, i);
      h.WriteDevice(p.devices[i]);
    }
    PlanWhole(p);
    fp := h.written;
  }

  /** The stream up to device n. */
  function PlanPart(p: ChannelPlan, n: nat): Text
    requires n <= |p.devices|
  {
    Flat(PlanHead(p)) + Flat(Each(p.devices[..n], DeviceTokens))
  }

  lemma PlanPartSnoc(p: ChannelPlan, n: nat)
    requires n < |p.devices|
    ensures PlanPart(p, n + 1) == PlanPart(p, n) + Flat(DeviceTokens(p.devices[n]))
  {
    EachSnoc(p.devices, n, DeviceTokens);
  }

  lemma PlanWhole(p: ChannelPlan)
    ensures PlanPart(p, |p.devices|) == Stream(p)
  {
    assert p.devices[..|p.devices|] == p.devices;
    FlatConcat(PlanHead(p), Each(p.devices, DeviceTokens));
  }

  lemma DeviceJoin(d: DevicePlan, start: Text, end: Text)
    requires end == start + Flat(HeadTokens(d)) + Flat(Each(d.groups, GroupTokens)) + [0xFF]
                    + Flat(Each(d.props, PropTokens)) + [0xFE]
    ensures end == start + Flat(DeviceTokens(d))
  {
    DeviceFlat(d);
    Assemble(start, Flat(HeadTokens(d)), Flat(Each(d.groups, GroupTokens)), [0xFF],
             Flat(Each(d.props, PropTokens)), [0xFE]);
  }

  lemma Assemble(s: Text, a: Text, b: Text, c: Text, d: Text, e: Text)
    ensures s + a + b + c + d + e == s + (a + b + c + d + e)
  {
  }

  lemma DeviceFlat(d: DevicePlan)
    ensures Flat(DeviceTokens(d)) ==
      Flat(HeadTokens(d)) + Flat(Each(d.groups, GroupTokens)) + [0xFF] + Flat(Each(d.props, PropTokens)) + [0xFE]
  {
    var head, groups, props := HeadTokens(d), Each(d.groups, GroupTokens), Each(d.props, PropTokens);
    FlatConcat(head, groups);
    FlatSnoc(head + groups, Fixed([0xFF]));
    FlatConcat(head + groups + [Fixed([0xFF])], props);
    FlatSnoc(head + groups + [Fixed([0xFF])] + props, Fixed([0xFE]));
  }

  lemma {:induction false} EachSnoc<T>(xs: seq<T>, i: nat, tokensOf: T -> seq<Token>)
    requires i < |xs|
    ensures Flat(Each(xs[..i + 1], tokensOf)) == Flat(Each(xs[..i], tokensOf)) + Flat(tokensOf(xs[i]))
  {
    var a, b := xs[..i + 1], xs[..i];
    if i == 0 {
      assert a[1..] == [] && tokensOf(xs[0]) + [] == tokensOf(xs[0]);
    } else {
      EachSnoc(xs[1..], i - 1, tokensOf);
      assert a[1..] == xs[1..][..i] && b[1..] == xs[1..][..i - 1];
      FlatConcat(tokensOf(xs[0]), Each(a[1..], tokensOf));
      FlatConcat(tokensOf(xs[0]), Each(b[1..], tokensOf));
    }
  }

  lemma {:induction false} FlatConcat(a: seq<Token>, b: seq<Token>)
    ensures Flat(a + b) == Flat(a) + Flat(b)
  {
    if a == [] {
      assert a + b == b;
    } else {
      assert (a + b)[1..] == a[1..] + b;
      FlatConcat(a[1..], b);
    }
  }

  lemma FlatSnoc(a: seq<Token>, t: Token)
    ensures Flat(a + [t]) == Flat(a) + TokenBytes(t)
  {
    FlatConcat(a, [t]);
    assert Flat([t]) == TokenBytes(t) + [];
  }
}
