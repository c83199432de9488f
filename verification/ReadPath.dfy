/**
 The read path end to end (`pollOne` and `applyMembers` in internal/engine/worker.go): plan the
 requests, send them over either link, cut each reply into slices, map every slice to a value. The
 reference is reading each property alone.
*/
module ReadPath {
  import opened Bits
  import opened Pdu
  import opened Frames
  import opened Slave
  import opened Props
  import opened Grouping
  import opened GroupingFacts
  import opened Mapper

  /** A mapped value before scaling: floats and text stay bytes. */
  datatype Raw =
    | BitsRaw(b: BitValue)
    | BoolRaw(on: bool)
    | IntRaw(v: int)
    | FloatRaw(bits: seq<byte>)
    | TextRaw(text: seq<byte>)

  // ---- mapping a slice

  /** `extractBit`: bit 0 is the lowest bit of the last byte. */
  predicate ExtractBit(raw: seq<byte>, bit: int) {
    0 <= bit < 8 * |raw| && And(raw[|raw| - 1 - bit / 8], Pow2(bit % 8)) != 0
  }

  function TrimRight(s: seq<byte>): seq<byte> {
    if s != [] && (s[|s| - 1] == 0 || s[|s| - 1] == 32) then TrimRight(s[..|s| - 1]) else s
  }

  function MapInt(raw: seq<byte>, p: PropMeta): Mapped<Raw> {
    match ReadInt(raw, p.byteOrder, p.startBit, p.endBit, p.signed)
    case Bad(e) => Bad(e)
    case Good(v) => Good(IntRaw(v))
  }

  /** `MapRegistersAt`. */
  function MapRegistersAt(chunk: seq<byte>, p: PropMeta, bitInChunk: int): Mapped<Raw> {
    if p.IsBitSpace() then
      match MapBitsResult(chunk, p, bitInChunk)
      case Bad(e) => Bad(e)
      case Good(b) => Good(BitsRaw(b))
    else
      var need := p.registerCount * 2;
      if need <= 0 || |chunk| < need then Bad(InsufficientBytes)
      else
        var raw := chunk[..need];
        match p.dataType
        case BoolType => Good(BoolRaw(ExtractBit(raw, p.startBit)))
        case StringType => Good(TextRaw(TrimRight(raw)))
        case FloatType =>
          (match ApplyByteOrder(raw, p.byteOrder)
           case Bad(e) => Bad(e)
           case Good(b) => if |b| == 4 || |b| == 8 then Good(FloatRaw(b)) else MapInt(raw, p))
        case _ => MapInt(raw, p)
  }

  /** A bool in a register is the bit of that number in the register's value. */
  lemma {:induction false} ExtractBitMeaning(raw: seq<byte>, bit: nat)
    requires bit < 8 * |raw|
    ensures ExtractBit(raw, bit) <==> Bit(BigEndian(raw), bit)
  {
    var n := |raw| - 1;
    assert Pow2(8) == 256;
    if bit < 8 {
      AndBit(raw[n], bit);
      ShlIsProduct(BigEndian(raw[..n]), 8);
      BitLow(raw[n], BigEndian(raw[..n]), bit, 8);
    } else {
      ExtractBitMeaning(raw[..n], bit - 8);
      ShlIsProduct(BigEndian(raw[..n]), 8);
      BitHigh(raw[n], BigEndian(raw[..n]), bit - 8, 8);
      assert raw[..n][n - 1 - (bit - 8) / 8] == raw[n - bit / 8];
    }
  }

  lemma {:induction false} BitLow(low: nat, high: nat, i: nat, k: nat)
    requires i < k && low < Pow2(k)
    ensures Bit(low + Shl(high, k), i) == Bit(low, i)
  {
    if i != 0 {
      BitLow(low / 2, high, i - 1, k - 1);
      assert (low + Shl(high, k)) / 2 == low / 2 + Shl(high, k - 1);
    }
  }

  lemma {:induction false} BitHigh(low: nat, high: nat, i: nat, k: nat)
    requires low < Pow2(k)
    ensures Bit(low + Shl(high, k), i + k) == Bit(high, i)
  {
    if k != 0 {
      BitHigh(low / 2, high, i, k - 1);
      assert (low + Shl(high, k)) / 2 == low / 2 + Shl(high, k - 1);
    }
  }

  // ---- one group over the line

  predicate Sendable(g: RegGroup) {
    IsValidReadFC(g.readFC) && ValidReadRequest(g.readFC, g.startAddr, g.quantity)
  }

  /** The data a device holds for a group. */
  function GroupData(dev: Device, g: RegGroup): (data: seq<byte>)
    requires dev.Valid() && Sendable(g)
    ensures |data| == ReadRespByteCount(g.readFC, g.quantity)
  {
    ReadData(dev, g.readFC, g.startAddr, g.quantity)
  }

  /** One group's request, answered and decoded; `byte(fc)` is the source's conversion. */
  function Fetch(link: Link, unitID: byte, dev: Device, g: RegGroup): Result<seq<byte>>
    requires dev.Valid() && g.quantity >= 0
  {
    Exchange(link, unitID, dev, g.readFC % 256, g.startAddr, g.quantity)
  }

  /** What `applyMembers` makes of one member: it always passes bit offset 0. */
  function MemberValue(m: GroupMember, raw: seq<byte>): Mapped<Raw> {
    if m.byteOffset < 0 || m.byteLen < 0 || |raw| < m.byteOffset + m.byteLen then Bad(InsufficientBytes)
    else MapRegistersAt(raw[m.byteOffset..m.byteOffset + m.byteLen], m.prop, 0)
  }

  lemma FetchReads(link: Link, unitID: byte, dev: Device, g: RegGroup)
    requires dev.Valid() && Sendable(g)
    ensures Fetch(link, unitID, dev, g) == Ok(GroupData(dev, g))
  {
    var fc: byte := g.readFC % 256;
    assert fc == g.readFC;
    ReadExchange(link, unitID, dev, fc, g.startAddr, g.quantity);
    assert Fetch(link, unitID, dev, g) == Exchange(link, unitID, dev, fc, g.startAddr, g.quantity);
    assert ReadData(dev, fc, g.startAddr, g.quantity) == GroupData(dev, g);
  }

  // ---- register space

  lemma {:induction false} RegisterConcat(a: seq<u16>, b: seq<u16>)
    ensures RegisterBytes(a + b) == RegisterBytes(a) + RegisterBytes(b)
  {
    if a == [] {
      assert a + b == b;
    } else {
      assert (a + b)[1..] == a[1..] + b;
      RegisterConcat(a[1..], b);
      assert PutU16(a[0]) + (RegisterBytes(a[1..]) + RegisterBytes(b)) ==
          (PutU16(a[0]) + RegisterBytes(a[1..])) + RegisterBytes(b);
    }
  }

  lemma RegisterSplit(regs: seq<u16>, k: nat)
    requires k <= |regs|
    ensures RegisterBytes(regs) == RegisterBytes(regs[..k]) + RegisterBytes(regs[k..])
  {
    assert regs == regs[..k] + regs[k..];
    RegisterConcat(regs[..k], regs[k..]);
  }

  lemma RegisterSlice(regs: seq<u16>, from: nat, to: nat)
    requires from <= to <= |regs|
    ensures RegisterBytes(regs)[2 * from..2 * to] == RegisterBytes(regs[from..to])
  {
    var head := regs[..to];
    RegisterSplit(regs, to);
    RegisterSplit(head, from);
    assert head[from..] == regs[from..to];
    MiddleOf(RegisterBytes(regs), RegisterBytes(head[..from]), RegisterBytes(head[from..]), RegisterBytes(regs[to..]));
  }

  lemma MiddleOf<T>(s: seq<T>, a: seq<T>, b: seq<T>, c: seq<T>)
    requires s == a + b + c
    ensures s[|a|..|a| + |b|] == b
  {
  }

  function RegisterTable(dev: Device, fc: int): seq<u16> { if fc == 3 then dev.holding else dev.input }

  /** A member's slice of the group's reply is the reply to reading that property alone. */
  lemma SliceIsOwnReply(dev: Device, g: RegGroup, m: GroupMember)
    requires dev.Valid() && Sendable(g) && Placed(g, m) && g.space == RegisterSpace
    ensures Sendable(AloneGroup(m.prop))
    ensures 0 <= m.byteOffset && 0 <= m.byteLen && m.byteOffset + m.byteLen <= |GroupData(dev, g)|
    ensures GroupData(dev, g)[m.byteOffset..m.byteOffset + m.byteLen] == GroupData(dev, AloneGroup(m.prop))
  {
    SliceInReply(g, m);
    var from, n := m.prop.registerBase + m.prop.offset - g.startAddr, m.prop.registerCount;
    var table := RegisterTable(dev, g.readFC);
    var mine := table[g.startAddr..g.startAddr + g.quantity];
    assert GroupData(dev, g) == RegisterBytes(mine);
    RegisterSlice(mine, from, from + n);
    SliceOfSlice(table, g.startAddr, g.startAddr + g.quantity, from, from + n);
    assert m.byteOffset == 2 * from && m.byteLen == 2 * n;
  }

  /** The request that would read this member and nothing else. */
  function AloneGroup(p: PropMeta): RegGroup {
    RegGroup(p.readFC, p.registerBase + p.offset, p.registerCount, AddrSpaceOf(p.readFC), [MemberAt(p, 0)])
  }

  /** What a placed register member gets from the group's reply. */
  lemma MemberGetsOwn(g: RegGroup, m: GroupMember, dev: Device)
    requires dev.Valid() && Sendable(g) && Placed(g, m) && g.space == RegisterSpace
    ensures Sendable(AloneGroup(m.prop))
    ensures MemberValue(m, GroupData(dev, g)) == AloneValue(dev, m.prop)
  {
    SliceIsOwnReply(dev, g, m);
  }

  /** The value of a register property read alone. */
  function AloneValue(dev: Device, p: PropMeta): Mapped<Raw>
    requires dev.Valid() && Sendable(AloneGroup(p))
  {
    MapRegistersAt(GroupData(dev, AloneGroup(p)), p, 0)
  }

  /**
   Grouping preserves meaning: over RTU or TCP, whatever the memory of the device, each register
   member of every group of an accepted list's plan gets the bytes, and so the value, it would get if
   it were read alone.
  */
  lemma GroupingPreservesMeaning(props: seq<PropMeta>, bits: bool, maxRegs: int, groups: seq<RegGroup>,
                                 g: RegGroup, m: GroupMember, link: Link, unitID: byte, dev: Device)
    returns (data: seq<byte>, own: seq<byte>)
    requires SafeProps(props, bits) && IsPlan(groups, props, maxRegs) && dev.Valid()
    requires g in groups && m in g.members && m.prop.AddrSpace() == RegisterSpace
    ensures g.quantity >= 0 && Fetch(link, unitID, dev, g) == Ok(data)
    ensures m.prop.registerCount >= 0 && Fetch(link, unitID, dev, AloneGroup(m.prop)) == Ok(own)
    ensures 0 <= m.byteOffset && 0 <= m.byteLen && m.byteOffset + m.byteLen <= |data|
    ensures data[m.byteOffset..m.byteOffset + m.byteLen] == own
    ensures MemberValue(m, data) == MapRegistersAt(own, m.prop, 0)
  {
    PlanSends(props, bits, maxRegs, groups, g, m);
    SliceIsOwnReply(dev, g, m);
    MemberGetsOwn(g, m, dev);
    FetchReads(link, unitID, dev, g);
    FetchReads(link, unitID, dev, AloneGroup(m.prop));
    data, own := GroupData(dev, g), GroupData(dev, AloneGroup(m.prop));
  }

  lemma PlanSends(props: seq<PropMeta>, bits: bool, maxRegs: int, groups: seq<RegGroup>, g: RegGroup, m: GroupMember)
    requires SafeProps(props, bits) && IsPlan(groups, props, maxRegs) && g in groups && m in g.members
    ensures Sendable(g) && Placed(g, m) && g.space == m.prop.AddrSpace()
  {
    PlanLegal(props, bits, maxRegs, groups);
    assert Legal(g, maxRegs);
  }

  // ---- bit space

  function BitTable(dev: Device, fc: int): seq<bool> { if fc == 1 then dev.coils else dev.discrete }

  /** The device's bits a member asks for, starting `back` bits early. */
  function BitsAt(dev: Device, g: RegGroup, m: GroupMember, back: nat): (bits: seq<bool>)
    requires dev.Valid() && Sendable(g) && Placed(g, m) && g.space == BitSpace
    requires back <= m.prop.registerBase + m.prop.offset - g.startAddr
    ensures |bits| == m.prop.registerCount
  {
    var from := m.prop.registerBase + m.prop.offset - back;
    BitTable(dev, g.readFC)[from..from + m.prop.registerCount]
  }

  /** How far into its first byte a member starts. */
  function Skew(g: RegGroup, m: GroupMember): nat
    requires Placed(g, m)
  {
    (m.prop.registerBase + m.prop.offset - g.startAddr) % 8
  }

  /** A member's slice of the group's data, read from bit `first` on. */
  lemma SliceBits(dev: Device, g: RegGroup, m: GroupMember, first: nat) returns (slice: seq<byte>)
    requires dev.Valid() && Sendable(g) && Placed(g, m) && g.space == BitSpace && first <= Skew(g, m)
    ensures 0 <= m.byteOffset && 0 <= m.byteLen && m.byteOffset + m.byteLen <= |GroupData(dev, g)|
    ensures slice == GroupData(dev, g)[m.byteOffset..m.byteOffset + m.byteLen]
    ensures first + m.prop.registerCount <= 8 * |slice|
    ensures BitsFrom(slice, first, m.prop.registerCount) == BitsAt(dev, g, m, Skew(g, m) - first)
  {
    SliceInReply(g, m);
    var from := SlicePlace(g, m, first);
    var table := GroupTable(dev, g);
    slice := GroupData(dev, g)[m.byteOffset..m.byteOffset + m.byteLen];
    SlicedBits(table, GroupData(dev, g), m.byteOffset, m.byteLen, first, m.prop.registerCount);
    TableSlice(dev, g, m, first, from);
  }

  /** The bits of a group's range. */
  function GroupTable(dev: Device, g: RegGroup): (table: seq<bool>)
    requires dev.Valid() && Sendable(g) && AddrSpaceOf(g.readFC) == BitSpace
    ensures |table| == g.quantity && GroupData(dev, g) == PackBits(table)
  {
    BitTable(dev, g.readFC)[g.startAddr..g.startAddr + g.quantity]
  }

  lemma TableSlice(dev: Device, g: RegGroup, m: GroupMember, first: nat, from: nat)
    requires dev.Valid() && Sendable(g) && Placed(g, m) && g.space == BitSpace && first <= Skew(g, m)
    requires from == m.prop.registerBase + m.prop.offset - g.startAddr - (Skew(g, m) - first)
    requires from + m.prop.registerCount <= g.quantity
    ensures GroupTable(dev, g)[from..from + m.prop.registerCount] == BitsAt(dev, g, m, Skew(g, m) - first)
  {
    SliceOfSlice(BitTable(dev, g.readFC), g.startAddr, g.startAddr + g.quantity, from, from + m.prop.registerCount);
  }

  /** Where in the group's table those bits lie. */
  lemma SlicePlace(g: RegGroup, m: GroupMember, first: nat) returns (from: nat)
    requires Sendable(g) && Placed(g, m) && g.space == BitSpace && first <= Skew(g, m)
    ensures from == 8 * m.byteOffset + first == m.prop.registerBase + m.prop.offset - g.startAddr - (Skew(g, m) - first)
    ensures from + m.prop.registerCount <= g.quantity && first + m.prop.registerCount <= 8 * m.byteLen
  {
    var s := m.prop.registerBase + m.prop.offset - g.startAddr;
    from := 8 * m.byteOffset + first;
    assert s == 8 * (s / 8) + s % 8;
  }

  lemma SliceOfSlice<T>(t: seq<T>, a: nat, b: nat, x: nat, y: nat)
    requires a <= b <= |t| && x <= y <= b - a
    ensures t[a..b][x..y] == t[a + x..a + y]
  {
    var l, r := t[a..b][x..y], t[a + x..a + y];
    assert forall i :: 0 <= i < y - x ==> l[i] == t[a + x + i] == r[i];
    assert l == r;
  }

  lemma SliceBit(data: seq<byte>, byteOffset: nat, byteLen: nat, bit: nat)
    requires byteOffset + byteLen <= |data| && bit < 8 * byteLen
    ensures BitAt(data[byteOffset..byteOffset + byteLen], bit) == BitAt(data, 8 * byteOffset + bit)
  {
    var place := 8 * byteOffset + bit;
    assert place / 8 == byteOffset + bit / 8 && place % 8 == bit % 8;
  }

  /** All the bits of some bytes. */
  function Unpacked(data: seq<byte>): (bits: seq<bool>)
    ensures |bits| == 8 * |data|
  {
    BitsFrom(data, 0, 8 * |data|)
  }

  lemma UnpackedSlice(data: seq<byte>, byteOffset: nat, byteLen: nat)
    requires byteOffset + byteLen <= |data|
    ensures Unpacked(data[byteOffset..byteOffset + byteLen]) ==
        Unpacked(data)[8 * byteOffset..8 * (byteOffset + byteLen)]
  {
    var slice := data[byteOffset..byteOffset + byteLen];
    forall i | 0 <= i < 8 * byteLen ensures Unpacked(slice)[i] == Unpacked(data)[8 * byteOffset + i] {
      SliceBit(data, byteOffset, byteLen, i);
    }
  }

  lemma UnpackedPacked(table: seq<bool>)
    ensures |table| <= |Unpacked(PackBits(table))| && Unpacked(PackBits(table))[..|table|] == table
  {
    var bits := Unpacked(PackBits(table));
    forall i | 0 <= i < |table| ensures bits[i] == table[i] {
      UnpackPacked(table, i);
    }
  }

  lemma BitsFromUnpacked(slice: seq<byte>, first: nat, n: nat)
    requires first + n <= 8 * |slice|
    ensures BitsFrom(slice, first, n) == Unpacked(slice)[first..first + n]
  {
  }

  /** Bits read from a run of whole bytes of a packed reply are those of the table, shifted. */
  lemma SlicedBits(table: seq<bool>, data: seq<byte>, byteOffset: nat, byteLen: nat, first: nat, n: nat)
    requires data == PackBits(table)
    requires byteOffset + byteLen <= |data| && first + n <= 8 * byteLen && 8 * byteOffset + first + n <= |table|
    ensures BitsFrom(data[byteOffset..byteOffset + byteLen], first, n)
         == table[8 * byteOffset + first..8 * byteOffset + first + n]
  {
    UnpackedSlice(data, byteOffset, byteLen);
    UnpackedPacked(table);
    BitsFromUnpacked(data[byteOffset..byteOffset + byteLen], first, n);
    SlicesMeet(table, Unpacked(data), 8 * byteOffset, 8 * byteLen, first, n);
  }

  lemma SlicesMeet<T>(table: seq<T>, all: seq<T>, start: nat, len: nat, first: nat, n: nat)
    requires |table| <= |all| && all[..|table|] == table
    requires start + len <= |all| && first + n <= len && start + first + n <= |table|
    ensures all[start..start + len][first..first + n] == table[start + first..start + first + n]
  {
    SliceOfSlice(all, start, start + len, first, first + n);
    SliceOfSlice(all, 0, |table|, start + first, start + first + n);
  }

  /** With the in-chunk offset that the slice calls for, the device's own bits come out. */
  lemma BitsRecovered(dev: Device, g: RegGroup, m: GroupMember)
    requires dev.Valid() && Sendable(g) && Placed(g, m) && g.space == BitSpace
    ensures 0 <= m.byteOffset && 0 <= m.byteLen && m.byteOffset + m.byteLen <= |GroupData(dev, g)|
    ensures MapBitsResult(GroupData(dev, g)[m.byteOffset..m.byteOffset + m.byteLen], m.prop, Skew(g, m))
            == Good(BitsMeaning(m.prop, BitsAt(dev, g, m, 0)))
  {
    var slice := SliceBits(dev, g, m, Skew(g, m));
  }

  /** The bits `applyMembers` actually reads: those from the start of the byte. */
  lemma BitsTaken(dev: Device, g: RegGroup, m: GroupMember)
    requires dev.Valid() && Sendable(g) && Placed(g, m) && g.space == BitSpace
    ensures MemberValue(m, GroupData(dev, g)) == Good(BitsRaw(BitsMeaning(m.prop, BitsAt(dev, g, m, Skew(g, m)))))
  {
    var slice := SliceBits(dev, g, m, 0);
  }

  ghost predicate ReadsOwnBits(g: RegGroup, m: GroupMember, dev: Device)
    requires dev.Valid() && Sendable(g) && Placed(g, m) && g.space == BitSpace
  {
    MemberValue(m, GroupData(dev, g)) == Good(BitsRaw(BitsMeaning(m.prop, BitsAt(dev, g, m, 0))))
  }

  /**
   A bit property gets its own bits, whatever the device holds, exactly when it starts on a byte
   boundary of its group.
  */
  lemma BitMembersRightIff(g: RegGroup, m: GroupMember)
    requires Sendable(g)
    requires Placed(g, m) && g.space == BitSpace
    ensures (forall dev: Device :: dev.Valid() ==> ReadsOwnBits(g, m, dev))
            <==> (m.prop.registerBase + m.prop.offset - g.startAddr) % 8 == 0
  {
    if Skew(g, m) == 0 {
      forall dev: Device | dev.Valid() ensures ReadsOwnBits(g, m, dev) {
        BitsTaken(dev, g, m);
      }
    } else {
      var dev := MisreadDevice(g, m);
      assert dev.Valid();
    }
  }

  /** Two neighbouring coils. */
  const TWO_COILS := [
    PropMeta("left", "p1", BoolType, 0, 0, 0, 0, 1, 0, Unset, R, None, 1),
    PropMeta("right", "p2", BoolType, 0, 0, 1, 0, 1, 0, Unset, R, None, 1)]

  /** The request for both, and the second coil in it. */
  const BOTH := RegGroup(1, 0, 2, BitSpace, [MemberAt(TWO_COILS[0], 0), MemberAt(TWO_COILS[1], 1)])

  /** An accepted list in whose plan a bit property starts off a byte boundary, and so is misread from some device. */
  lemma SecondCoilMisread(groups: seq<RegGroup>)
    requires IsPlan(groups, TWO_COILS, 0)
    ensures SafeProps(TWO_COILS, true) && BOTH in groups && BOTH.members[1].prop == TWO_COILS[1]
    ensures Sendable(BOTH) && Placed(BOTH, BOTH.members[1])
    ensures exists dev: Device :: dev.Valid() && !ReadsOwnBits(BOTH, BOTH.members[1], dev)
  {
    TwoCoilsAccepted();
    BothPlanned(groups);
    BitMembersRightIff(BOTH, BOTH.members[1]);
  }

  lemma TwoCoilsAccepted()
    ensures SafeProps(TWO_COILS, true)
  {
    NotBlank("left");
    NotBlank("right");
    NotBlank("p1");
    NotBlank("p2");
  }

  lemma BothPlanned(groups: seq<RegGroup>)
    requires IsPlan(groups, TWO_COILS, 0)
    ensures BOTH in groups
  {
    TwoCoilsPlan(TWO_COILS);
    InPlan(groups, TWO_COILS, 0, BOTH);
  }

  lemma TwoCoilsPlan(c: seq<PropMeta>)
    requires c == TWO_COILS
    ensures Bucket(c, Key(1, 0)) == c
    ensures BOTH in BucketGroups(c, Key(1, 0), 0)
  {
    BucketStep(c, 0);
    BucketStep(c, 1);
    assert c[..2] == c && Bucket(c[..0], Key(1, 0)) == [] && c == [c[0], c[1]];
    var one := c[..1];
    assert one[..0] == [];
    assert MaxEnd(one, BitSpace) == 1 && MaxEnd(c, BitSpace) == 2;
    assert GridEnd(2000, 2, 2000) == 2000;
    assert CellMembers(one, BitSpace, 0, 2) == [MemberAt(c[0], 0)];
    assert CellMembers(c, BitSpace, 0, 2) == BOTH.members;
    assert CellsBefore(c, Key(1, 0), 2000, 2, 0) == [];
    assert BOTH in CellsBefore(c, Key(1, 0), 2000, 2, 2000);
  }

  /** Off a byte boundary, a device with just the property's first bit on is misread. */
  lemma MisreadDevice(g: RegGroup, m: GroupMember) returns (dev: Device)
    requires Sendable(g)
    requires Placed(g, m) && g.space == BitSpace && Skew(g, m) != 0
    ensures dev.Valid() && !ReadsOwnBits(g, m, dev)
  {
    var addr := m.prop.registerBase + m.prop.offset;
    dev := OneBitOn(addr);
    var d, n := Skew(g, m), m.prop.registerCount;
    OneBitSlice(addr, g.readFC, addr, n);
    OneBitSlice(addr, g.readFC, addr - d, n);
    LoneDiffer(m.prop, n, d);
    ReadsOwnBitsIff(g, m, dev, Lone(n, 0), Lone(n, d));
  }

  /** The value is right when the bits taken mean the same as the property's own. */
  lemma ReadsOwnBitsIff(g: RegGroup, m: GroupMember, dev: Device, own: seq<bool>, taken: seq<bool>)
    requires dev.Valid() && Sendable(g) && Placed(g, m) && g.space == BitSpace
    requires own == BitsAt(dev, g, m, 0) && taken == BitsAt(dev, g, m, Skew(g, m))
    ensures ReadsOwnBits(g, m, dev) <==> BitsMeaning(m.prop, taken) == BitsMeaning(m.prop, own)
  {
    BitsTaken(dev, g, m);
    SameRaw(MemberValue(m, GroupData(dev, g)), BitsMeaning(m.prop, taken), BitsMeaning(m.prop, own));
  }

  lemma SameRaw(value: Mapped<Raw>, taken: BitValue, own: BitValue)
    requires value == Good(BitsRaw(taken))
    ensures value == Good(BitsRaw(own)) <==> taken == own
  {
  }

  lemma OneBitSlice(addr: nat, fc: int, from: nat, n: nat)
    requires from <= addr && from + n <= MAX_ADDRESS + 1
    ensures BitTable(OneBitOn(addr), fc)[from..from + n] == Lone(n, addr - from)
  {
  }

  ghost function OneBitOn(addr: nat): (dev: Device)
    ensures dev.Valid()
  {
    var t, r := seq(MAX_ADDRESS + 1, i => i == addr), seq(MAX_ADDRESS + 1, i => 0);
    Device(t, t, r, r)
  }

  lemma LoneDiffer(p: PropMeta, n: nat, d: nat)
    requires n >= 1 && 1 <= d <= 7
    ensures BitsMeaning(p, Lone(n, 0)) != BitsMeaning(p, Lone(n, d))
  {
    LoneInt(n, 0, p.signed == Some(true));
    LoneInt(n, d, p.signed == Some(true));
    assert d == 1 || Pow2(d) == 2 * Pow2(d - 1);
  }

  /** A lone one among n bits: its weight, or minus its weight when it is the sign. */
  lemma LoneInt(n: nat, at: nat, signed: bool)
    requires n >= 1 && at <= 7
    ensures var v := IntOfBits(Lone(n, at), signed);
            if at >= n then v == 0 else v == Pow2(at) || v == 0 - Pow2(at)
  {
    LoneValue(n, at);
    TopPowers();
    Pow2Mono(at, 7);
    assert Pow2(7) == 128;
    if n >= 64 {
      assert Lone(n, at)[..64] == Lone(64, at);
      LoneValue(64, at);
    } else if signed && at == n - 1 {
      assert Pow2(n) == 2 * Pow2(at);
    }
  }

  // ---- one poll of a device

  /** `CacheKey`: the id, or the name when the id is empty. */
  function CacheKey(p: PropMeta): string { if p.id != "" then p.id else p.name }

  /** `applyMembers`: values that map go into the cache; the others leave it alone. */
  method ApplyMembers(g: RegGroup, raw: seq<byte>, cache: map<string, Raw>) returns (r: map<string, Raw>)
    ensures r == Applied(g.members, raw, cache)
  {
    r := cache;
    for i := 0 to |g.members|
      invariant r == Applied(g.members[..i], raw, cache)
    {
      assert g.members[..i + 1][..i] == g.members[..i];
      var val := MemberValue(g.members[i], raw);
      if val.Good? {
        r := r[CacheKey(g.members[i].prop) := val.value];
      }
    }
    assert g.members[..|g.members|] == g.members;
  }

  function Applied(members: seq<GroupMember>, raw: seq<byte>, cache: map<string, Raw>): map<string, Raw> {
    if members == [] then cache
    else
      var n := |members| - 1;
      var rest, val := Applied(members[..n], raw, cache), MemberValue(members[n], raw);
      if val.Good? then rest[CacheKey(members[n].prop) := val.value] else rest
  }
}
