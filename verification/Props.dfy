/**
 Property metadata and its validation (internal/engine/converter/grouping.go and validate.go).
 Data types, byte orders and access modes are enumerations: the strings of the source after
 trimming and case folding, with one value for every spelling it does not know.
*/
module Props {
  import opened Bits
  import opened Pdu

  datatype Option<+T> = None | Some(value: T)

  datatype DataType = BoolType | IntType | FloatType | StringType | OtherType

  datatype ByteOrder =
    | Unset | AB | BA | ABCD | CDAB | BADC | DCBA
    | ABCDEFGH | HGFEDCBA | EFGHABCD | BADCFEHG | UnknownOrder

  datatype Access = NoAccess | R | W | RW | WR | UnknownAccess

  datatype PropMeta = PropMeta(
    name: string, id: string, dataType: DataType, startBit: int, endBit: int,
    offset: int, registerBase: int, readFC: int, writeFC: int,
    byteOrder: ByteOrder, access: Access, signed: Option<bool>, registerCount: int)
  {
    /** The read code decides; a write-only property falls back on its write code. */
    function AddrSpace(): AddrSpace {
      if readFC > 0 then AddrSpaceOf(readFC) else AddrSpaceOf(writeFC)
    }

    predicate IsBitSpace() { AddrSpace() == BitSpace }

    function BitSpan(): int {
      if registerCount > 0 then registerCount else endBit - startBit + 1
    }

    function UnitSpan(space: AddrSpace): int {
      if space == BitSpace then BitSpan() else registerCount
    }

    /** One past its last unit, counted from its base, in 64-bit arithmetic. */
    function End(space: AddrSpace): int { Wrap64(offset + UnitSpan(space)) }

    /** Where the property lies in the reply to a read that starts `offsetInGroup` units before it. */
    function ReadByteRange(offsetInGroup: int): (int, int) {
      if IsBitSpace() then
        var span := if BitSpan() <= 0 then 1 else BitSpan();
        var start := if offsetInGroup < 0 then 0 else offsetInGroup;
        var byteLen := (start % 8 + span + 7) / 8;
        (start / 8, if byteLen < 1 then 1 else byteLen)
      else (Wrap64(offsetInGroup * 2), Wrap64(registerCount * 2))
    }

    predicate CanRead() { access in {R, RW, WR} }

    predicate CanWrite() { access in {W, RW, WR} }

    /** Not mapped to any register: the online flag, or a property with no codes and no access. */
    predicate IsVirtual() {
      readFC == 0 && writeFC == 0 && (name == ONLINE_NAME || access == NoAccess)
    }
  }

  /** The display name of the built-in online property, "zai xian zhuang tai" in Chinese characters. */
  const ONLINE_NAME: string := "\U{5728}\U{7EBF}\U{72B6}\U{6001}"

  /** `strings.TrimSpace(s) == ""`, for the white space of Unicode. */
  predicate Blank(s: string) {
    forall c :: c in s ==> c in "\t\n\U{0B}\U{0C}\r \U{85}\U{A0}\U{1680}\U{2028}\U{2029}\U{202F}\U{205F}\U{3000}"
                           || '\U{2000}' <= c <= '\U{200A}'
  }

  predicate ValidByteOrder(o: ByteOrder) { !o.UnknownOrder? }

  /** `ValidateWriteFunctionCode` returns nil. */
  predicate WriteCodeFits(dataType: DataType, regCount: int, writeFC: int, isBitSpace: bool) {
    if writeFC == 0 then true
    else if writeFC == 5 || writeFC == 15 then isBitSpace && !(writeFC == 5 && regCount > 1)
    else if writeFC == 6 then
      !(dataType.BoolType? && isBitSpace) && (dataType.FloatType? ==> regCount == 2 || regCount == 4)
    else if writeFC == 16 then
      !(dataType.BoolType? && isBitSpace) && (dataType.FloatType? ==> regCount == 2 || regCount == 4)
      && 1 <= regCount <= MAX_WRITE_REGISTERS
    else false
  }

  datatype Field = NameField | AccessField | IdField | ReadCodeField | WriteCodeField | CountField
                 | BaseField | OffsetField | EndBitField | ByteOrderField

  datatype Issue = Issue(index: nat, field: Field)

  function When(c: bool, i: nat, f: Field): seq<Issue> { if c then [Issue(i, f)] else [] }

  /** Whether some issue names property i. */
  ghost predicate Reported(issues: seq<Issue>, i: nat) { exists n :: n in issues && n.index == i }

  /** What is wrong with property i: itself, or an id already used by a property with a name. */
  ghost predicate Faulty(props: seq<PropMeta>, i: nat, supportsBits: bool)
    requires i < |props|
  {
    !ValidProp(props[i], supportsBits) || exists j :: 0 <= j < i && !Blank(props[j].name) && props[j].id == props[i].id
  }

  /** `ValidatePropsFor`: the issues of all properties, not just of the first faulty one. */
  method ValidatePropsFor(props: seq<PropMeta>, supportsBits: bool) returns (issues: seq<Issue>)
    ensures forall i :: 0 <= i < |props| ==> (Reported(issues, i) <==> Faulty(props, i, supportsBits))
    ensures forall n :: n in issues ==> n.index < |props|
  {
    issues := [];
    var seenID: map<string, nat> := map[];
    for i := 0 to |props|
      invariant forall j :: 0 <= j < i ==> (Reported(issues, j) <==> Faulty(props, j, supportsBits))
      invariant forall n :: n in issues ==> n.index < i
      invariant forall id :: id in seenID <==>
          exists j :: 0 <= j < i && !Blank(props[j].name) && !Blank(id) && props[j].id == id
    {
      var p := props[i];
      var found := CheckOne(p, i, supportsBits, p.id in seenID);
      if !Blank(p.name) && !Blank(p.id) && p.id !in seenID {
        seenID := seenID[p.id := i];
      }
      ReportGrows(issues, found, i);
      issues := issues + found;
    }
  }

  /** The body of the loop, but for the id map: the issues of one property. */
  method CheckOne(p: PropMeta, i: nat, supportsBits: bool, taken: bool) returns (found: seq<Issue>)
    ensures forall n :: n in found ==> n.index == i
    ensures found == [] <==> ValidProp(p, supportsBits) && !taken
  {
    if Blank(p.name) {
      return [Issue(i, NameField)];
    }
    found := When(p.access.UnknownAccess?, i, AccessField) + When(Blank(p.id) || taken, i, IdField);
    if !p.IsVirtual() {
      found := found + MappedIssues(p, i, supportsBits);
    }
  }

  lemma ReportGrows(issues: seq<Issue>, found: seq<Issue>, i: nat)
    requires (forall n :: n in issues ==> n.index < i) && (forall n :: n in found ==> n.index == i)
    ensures forall j: nat :: j < i ==> (Reported(issues + found, j) <==> Reported(issues, j))
    ensures Reported(issues + found, i) <==> found != []
  {
    forall j: nat | j < i ensures Reported(issues + found, j) <==> Reported(issues, j) {
      if Reported(issues, j) {
        var n :| n in issues && n.index == j;
        assert n in issues + found;
      }
    }
    if found != [] {
      assert found[0] in issues + found;
    }
  }

  /** The list is accepted, with no issue at all, exactly when it is valid. */
  lemma AcceptedIffValid(props: seq<PropMeta>, supportsBits: bool, issues: seq<Issue>)
    requires forall i :: 0 <= i < |props| ==> (Reported(issues, i) <==> Faulty(props, i, supportsBits))
    requires forall n :: n in issues ==> n.index < |props|
    ensures issues == [] <==> ValidProps(props, supportsBits)
  {
    if issues == [] {
      forall i | 0 <= i < |props|
        ensures ValidProp(props[i], supportsBits) && !Faulty(props, i, supportsBits)
      {
        assert !Reported(issues, i);
      }
      forall i, j | 0 <= i < j < |props| ensures props[i].id != props[j].id {
        assert !Faulty(props, i, supportsBits) && !Faulty(props, j, supportsBits);
      }
    } else {
      assert issues[0] in issues;
      assert Reported(issues, issues[0].index);
      assert Faulty(props, issues[0].index, supportsBits);
    }
  }

  /** The checks on a property that is mapped to registers or bits. */
  function MappedIssues(p: PropMeta, i: nat, supportsBits: bool): (r: seq<Issue>)
    ensures forall n :: n in r ==> n.index == i
    ensures r == [] <==> ValidMapped(p, supportsBits)
  {
    CodeIssues(p, i, supportsBits) + PlaceIssues(p, i)
    + When(!ValidByteOrder(p.byteOrder), i, ByteOrderField)
    + When(p.writeFC != 0 && !WriteCodeFits(p.dataType, p.registerCount, p.writeFC, p.IsBitSpace()), i, WriteCodeField)
  }

  function CodeIssues(p: PropMeta, i: nat, supportsBits: bool): (r: seq<Issue>)
    ensures forall n :: n in r ==> n.index == i
  {
    When(p.readFC != 0 && !IsValidReadFC(p.readFC), i, ReadCodeField)
    + When(p.writeFC != 0 && !IsValidWriteFC(p.writeFC), i, WriteCodeField)
    + When(p.readFC == 0 && p.CanRead(), i, ReadCodeField)
    + When(p.writeFC == 0 && p.CanWrite(), i, WriteCodeField)
    + When(!supportsBits && (AddrSpaceOf(p.readFC) == BitSpace || AddrSpaceOf(p.writeFC) == BitSpace), i, ReadCodeField)
  }

  /** The last address a property covers, as the check computes it: the sum may wrap. */
  function LastAddress(p: PropMeta): int {
    Wrap64(p.registerBase + p.offset + (if p.registerCount < 1 then 1 else p.registerCount) - 1)
  }

  function Width(p: PropMeta): int { if p.IsBitSpace() then p.registerCount else Wrap64(p.registerCount * 16) }

  function PlaceIssues(p: PropMeta, i: nat): (r: seq<Issue>)
    ensures forall n :: n in r ==> n.index == i
  {
    var limit := if p.IsBitSpace() then MAX_READ_BITS else MAX_READ_REGISTERS;
    var width := Width(p);
    When((p.readFC != 0 || p.writeFC != 0) && !(1 <= p.registerCount <= limit), i, CountField)
    + (if p.registerBase < 0 || p.registerBase > MAX_ADDRESS then [Issue(i, BaseField)]
       else if p.offset < 0 then [Issue(i, OffsetField)]
       else When(LastAddress(p) > MAX_ADDRESS, i, OffsetField))
    + When(width > 0 && (p.startBit < 0 || p.endBit < p.startBit || p.endBit >= width), i, EndBitField)
  }

  /** What acceptance means for one property that is mapped to registers or bits. */
  predicate ValidMapped(p: PropMeta, supportsBits: bool) {
    && (p.readFC == 0 || IsValidReadFC(p.readFC))
    && (p.writeFC == 0 || IsValidWriteFC(p.writeFC))
    && (p.CanRead() ==> p.readFC != 0)
    && (p.CanWrite() ==> p.writeFC != 0)
    && (supportsBits || (AddrSpaceOf(p.readFC) == RegisterSpace && AddrSpaceOf(p.writeFC) == RegisterSpace))
    && (p.readFC != 0 || p.writeFC != 0 ==>
        1 <= p.registerCount <= if p.IsBitSpace() then MAX_READ_BITS else MAX_READ_REGISTERS)
    && 0 <= p.registerBase <= MAX_ADDRESS && 0 <= p.offset
    && LastAddress(p) <= MAX_ADDRESS
    && (Width(p) > 0 ==> 0 <= p.startBit <= p.endBit < Width(p))
    && ValidByteOrder(p.byteOrder)
    && WriteCodeFits(p.dataType, p.registerCount, p.writeFC, p.IsBitSpace())
  }

  predicate ValidProp(p: PropMeta, supportsBits: bool) {
    !Blank(p.name) && !Blank(p.id) && !p.access.UnknownAccess? && (p.IsVirtual() || ValidMapped(p, supportsBits))
  }

  /** Acceptance of a list: each property is in order, and no two share an id. */
  ghost predicate ValidProps(props: seq<PropMeta>, supportsBits: bool) {
    && (forall i :: 0 <= i < |props| ==>
          ValidProp(props[i], supportsBits))
    && (forall i, j :: 0 <= i < j < |props| ==> props[i].id != props[j].id)
  }

  /** The sum the address check computes does not wrap. */
  predicate Unwrapped(p: PropMeta) {
    p.registerBase + p.offset + p.registerCount - 1 < TWO63
  }

  /** An accepted list in which no property that is read makes that sum wrap. */
  ghost predicate SafeProps(props: seq<PropMeta>, supportsBits: bool) {
    ValidProps(props, supportsBits) && forall p :: p in props && p.readFC > 0 ==> Unwrapped(p)
  }

  lemma AcceptedProp(props: seq<PropMeta>, supportsBits: bool, p: PropMeta)
    requires ValidProps(props, supportsBits) && p in props && p.readFC > 0
    ensures ValidMapped(p, supportsBits)
  {
    var i :| 0 <= i < |props| && props[i] == p;
    assert ValidProp(props[i], supportsBits);
  }

  /**
   An accepted property that is read asks for a legal request of its own exactly when its last
   address does not wrap. The offset is any 64-bit integer.
  */
  lemma ReadableIsLegalIff(props: seq<PropMeta>, supportsBits: bool, p: PropMeta)
    requires ValidProps(props, supportsBits) && p in props && p.readFC > 0 && IsInt64(p.offset)
    ensures ValidReadRequest(p.readFC, Wrap64(p.registerBase + p.offset), p.UnitSpan(AddrSpaceOf(p.readFC))) <==>
        Unwrapped(p)
  {
    AcceptedProp(props, supportsBits, p);
  }

  /** A property that is read and does not wrap is read with a legal request of its own. */
  lemma ReadableIsLegal(props: seq<PropMeta>, supportsBits: bool, p: PropMeta)
    requires ValidProps(props, supportsBits) && p in props && p.readFC > 0 && Unwrapped(p)
    ensures IsValidReadFC(p.readFC)
    ensures ValidReadRequest(p.readFC, p.registerBase + p.offset, p.UnitSpan(AddrSpaceOf(p.readFC)))
    ensures p.UnitSpan(AddrSpaceOf(p.readFC)) == p.registerCount && p.registerBase >= 0 && p.offset >= 0
  {
    AcceptedProp(props, supportsBits, p);
  }

  /** Two registers at the highest offset there is: accepted, because the sum wraps. */
  const HIGHEST := PropMeta("level", "p1", IntType, 0, 31, TWO63 - 1, 0, 3, 0, ABCD, R, None, 2)

  lemma WrappedAccepted()
    ensures ValidProps([HIGHEST], true) && !Unwrapped(HIGHEST)
    ensures !ValidReadRequest(3, Wrap64(HIGHEST.registerBase + HIGHEST.offset), 2)
  {
    NotBlank("level");
    NotBlank("p1");
  }

  /** A text that starts with a Latin letter is not blank. */
  lemma NotBlank(s: string)
    requires s != "" && 'a' <= s[0] <= 'z'
    ensures !Blank(s)
  {
    assert s[0] in s;
  }

  /**
   A coil write code fits a property exactly when the property is also read from a bit space, and a
   single-coil write when it also has a single bit.
  */
  lemma CoilWriteFitsIff(p: PropMeta)
    requires p.writeFC == 5 || p.writeFC == 15
    ensures WriteCodeFits(p.dataType, p.registerCount, p.writeFC, p.IsBitSpace()) <==>
              (p.readFC == 1 || p.readFC == 2) && (p.writeFC == 15 || p.registerCount <= 1)
  {
  }

  /** A coil that is only written. */
  const WRITE_ONLY_COIL := PropMeta("pump", "p1", BoolType, 0, 0, 0, 0, 0, 5, Unset, W, None, 1)

  /** So a coil that is only written is refused, and accepted once it is given a read code. */
  lemma WriteOnlyCoilRefused()
    ensures !ValidProps([WRITE_ONLY_COIL], true)
    ensures ValidProps([WRITE_ONLY_COIL.(readFC := 1)], true)
  {
    NotBlank("pump");
    NotBlank("p1");
    var p := WRITE_ONLY_COIL;
    assert [p][0] == p && !ValidProp(p, true);
  }
}
