/**
 Replies that come after their time-out. A frame time-out leads neither to a flush nor to a new
 connection (`pollOne` in internal/engine/worker.go, `IsFrameResetError` in
 internal/engine/converter/modbus/exception.go), so what an attempt receives can begin with replies
 to earlier requests. Over TCP the transaction id tells them apart; over RTU nothing does.
*/
module Late {
  import opened Bits
  import opened Crc
  import opened Pdu
  import opened Frames
  import opened Receive
  import opened Acceptance
  import opened Slave
  import opened Transact

  /** A reply some slave on the line has sent; the id only matters over TCP. */
  datatype Reply = Reply(unitID: byte, tid: u16, pdu: seq<byte>)
  {
    function Framed(link: Link): seq<byte> { BuildFrame(if link.Rtu? then Rtu else Tcp(tid), unitID, pdu) }

    /** What conforming slaves send: the reply to a read holds as many bytes as it announces. */
    predicate Proper() {
      0 < |pdu| < 0xFFFF && (IsValidReadFC(pdu[0]) ==> |pdu| >= 2 && |pdu| - 2 == pdu[1])
    }
  }

  /** Whatever request a slave serves, its reply is of that kind. */
  lemma ServedProper(dev: Device, request: seq<byte>, unitID: byte, tid: u16)
    requires dev.Valid() && request != [] && request[0] < 128
    ensures Reply(unitID, tid, Serve(dev, request).0).Proper()
  {
    var fc := request[0];
    if IsValidReadFC(fc) {
      ReadReplyIs(dev, request);
    } else if fc == WRITE_COILS {
      CoilsReplyIs(dev, request);
    } else if fc == WRITE_REGS {
      RegsReplyIs(dev, request);
    } else {
      OtherReplyIs(dev, request);
    }
  }

  lemma ReadReplyIs(dev: Device, request: seq<byte>)
    requires dev.Valid() && request != [] && IsValidReadFC(request[0])
    ensures var pdu := Serve(dev, request).0;
            2 <= |pdu| < 0xFFFF && (pdu[0] == request[0] + 128 || |pdu| - 2 == pdu[1])
  {
    ExceptionFlag(request[0]);
  }

  predicate NoReadReply(pdu: seq<byte>) { 0 < |pdu| < 0xFFFF && !IsValidReadFC(pdu[0]) }

  lemma CoilsReplyIs(dev: Device, request: seq<byte>)
    requires dev.Valid() && request != [] && request[0] == WRITE_COILS
    ensures NoReadReply(Serve(dev, request).0)
  {
    ExceptionFlag(15);
  }

  lemma RegsReplyIs(dev: Device, request: seq<byte>)
    requires dev.Valid() && request != [] && request[0] == WRITE_REGS
    ensures NoReadReply(Serve(dev, request).0)
  {
    ExceptionFlag(16);
  }

  lemma OtherReplyIs(dev: Device, request: seq<byte>)
    requires dev.Valid() && request != [] && request[0] < 128 && !IsValidReadFC(request[0])
    requires request[0] != WRITE_COILS && request[0] != WRITE_REGS
    ensures NoReadReply(Serve(dev, request).0)
  {
    ExceptionFlag(request[0]);
  }

  /** Replies one after the other. */
  function Replies(link: Link, late: seq<Reply>): seq<byte> {
    if late == [] then [] else late[0].Framed(link) + Replies(link, late[1..])
  }

  predicate AllProper(late: seq<Reply>) { forall r :: r in late ==> r.Proper() }

  /** What arrives is late replies and then the attempt's own, cut off anywhere: bytes are lost, never changed. */
  predicate Explains(late: seq<Reply>, link: Link, own: seq<byte>, t: Attempt) {
    AllProper(late) && Stream(t.events) <= Replies(link, late) + own
  }

  // ---- when a late reply is taken for the answer

  /**
   Over TCP the ids agree, and the reply is no longer than the awaited one. Over RTU as many bytes
   arrive as the awaited reply has, the late one is not longer than that, and the checksum over all
   of them fits.
  */
  predicate Taken(a: Await, r: Reply, s: seq<byte>)
    requires a.ReadReply? && r.Proper() && IsValidReadFC(a.fc)
  {
    && r.unitID == a.unitID && r.pdu[0] == a.fc
    && match a.link
       case Rtu => |r.pdu| + 3 <= a.RtuLen() <= |s| && CheckCRC(s[..a.RtuLen()])
       case Tcp(tid) => r.tid == tid && r.pdu[1] <= ReadRespByteCount(a.fc, a.quantity) && |r.pdu| + 7 <= |s|
  }

  /** One is a prefix of the other. */
  predicate Compatible(s: seq<byte>, f: seq<byte>) { s <= f || f <= s }

  /** A stream that begins with a reply is accepted exactly when the reply is taken, and with its data. */
  lemma TakenIff(a: Await, r: Reply, s: seq<byte>, data: seq<byte>)
    requires a.ReadReply? && r.Proper() && IsValidReadFC(a.fc) && Compatible(s, r.Framed(a.link))
    ensures a.Decode(s) == Ok(data) <==> Taken(a, r, s) && data == r.pdu[2..]
  {
    AcceptsIff(a, s, data);
    if pdu :| StartsWith(a, s, pdu) && Carries(a, pdu, data) {
      if a.link.Rtu? {
        RtuTaken(a, r, s, pdu, data);
      } else {
        TcpTaken(a, r, s, pdu, data);
      }
    }
    if Taken(a, r, s) {
      var pdu := TakenCarries(a, r, s);
      AcceptsIff(a, s, r.pdu[2..]);
    }
  }

  lemma RtuTaken(a: Await, r: Reply, s: seq<byte>, pdu: seq<byte>, data: seq<byte>)
    requires a.ReadReply? && a.link.Rtu? && r.Proper() && IsValidReadFC(a.fc) && Compatible(s, r.Framed(a.link))
    requires StartsWith(a, s, pdu) && Carries(a, pdu, data)
    ensures Taken(a, r, s) && data == r.pdu[2..]
  {
    var frame, late := RtuBuildFrame(a.unitID, pdu), r.Framed(Rtu);
    RtuBytes(a.unitID, pdu);
    RtuBytes(r.unitID, r.pdu);
    Meet(frame, late, s);
    CarriedBytes(a, pdu, data);
    SameData(frame, late, pdu, r.pdu, data);
    assert s[..a.RtuLen()] == frame;
  }

  /** Two frames that agree as far as both go, the one carrying data, the other a proper reply. */
  lemma SameData(f: seq<byte>, g: seq<byte>, p: seq<byte>, q: seq<byte>, data: seq<byte>)
    requires |f| == |p| + 3 && |g| == |q| + 3 && |p| >= 2 + |data|
    requires |q| > 0 && (IsValidReadFC(q[0]) ==> |q| >= 2 && |q| - 2 == q[1])
    requires IsValidReadFC(p[0]) && p[1] == |data|
    requires forall i :: 0 <= i < |p| ==> f[1 + i] == p[i]
    requires forall i :: 0 <= i < |q| ==> g[1 + i] == q[i]
    requires forall i :: 0 <= i < |f| && i < |g| ==> f[i] == g[i]
    requires forall i :: 0 <= i < |data| ==> p[2 + i] == data[i]
    ensures f[0] == g[0] && p[0] == q[0] && |q| == 2 + |data| && data == q[2..]
  {
    assert f[1 + 0] == g[1 + 0];
    assert f[1 + 1] == g[1 + 1];
    forall i | 0 <= i < |data| ensures data[i] == q[2 + i] {
      assert g[1 + (2 + i)] == f[1 + (2 + i)];
    }
  }

  lemma RtuBytes(unitID: byte, pdu: seq<byte>)
    ensures var f := RtuBuildFrame(unitID, pdu);
            |f| == |pdu| + 3 && f[0] == unitID && CheckCRC(f) && forall i :: 0 <= i < |pdu| ==> f[1 + i] == pdu[i]
  {
    AppendThenCheck([unitID] + pdu);
  }

  /** Two beginnings of compatible streams agree as far as both go. */
  lemma Meet(f: seq<byte>, g: seq<byte>, s: seq<byte>)
    requires f <= s && Compatible(s, g)
    ensures forall i :: 0 <= i < |f| && i < |g| ==> f[i] == g[i]
  {
  }

  lemma CarriedBytes(a: Await, pdu: seq<byte>, data: seq<byte>)
    requires a.ReadReply? && Carries(a, pdu, data)
    ensures |pdu| >= 2 + |data| && pdu[0] == a.fc && pdu[1] == |data|
    ensures forall i :: 0 <= i < |data| ==> pdu[2 + i] == data[i]
  {
    var head: seq<byte> := [a.fc, |data|] + data;
    assert forall i :: 0 <= i < |head| ==> head[i] == pdu[i];
    assert forall i :: 0 <= i < |data| ==> head[2 + i] == data[i];
  }

  lemma TcpTaken(a: Await, r: Reply, s: seq<byte>, pdu: seq<byte>, data: seq<byte>)
    requires a.ReadReply? && a.link.Tcp? && r.Proper() && IsValidReadFC(a.fc) && Compatible(s, r.Framed(a.link))
    requires StartsWith(a, s, pdu) && Carries(a, pdu, data)
    ensures Taken(a, r, s) && data == r.pdu[2..]
  {
    var frame, late := TcpBuildFrame(a.link.tid, a.unitID, pdu), r.Framed(a.link);
    TcpBytes(a.link.tid, a.unitID, pdu);
    TcpBytes(r.tid, r.unitID, r.pdu);
    Meet(frame, late, s);
    CarriedBytes(a, pdu, data);
    assert forall i :: 0 <= i < 8 ==> frame[i] == late[i];
    SameWord(a.link.tid, r.tid);
    SameWord(1 + |pdu|, 1 + |r.pdu|);
    assert late == frame;
    forall i | 0 <= i < |pdu| ensures pdu[i] == r.pdu[i] {
      assert late[7 + i] == frame[7 + i];
    }
    assert data == r.pdu[2..];
  }

  lemma TcpBytes(tid: u16, unitID: byte, pdu: seq<byte>)
    requires |pdu| < 0xFFFF
    ensures var f := TcpBuildFrame(tid, unitID, pdu);
            && |f| == |pdu| + 7 && f[6] == unitID && (forall i :: 0 <= i < |pdu| ==> f[7 + i] == pdu[i])
            && [f[0], f[1]] == PutU16(tid) && [f[4], f[5]] == PutU16(1 + |pdu|)
  {
    var t, n := PutU16(tid), PutU16(1 + |pdu|);
    var head: seq<byte> := t + [0, 0] + n + [unitID];
    assert head[0] == t[0] && head[1] == t[1] && head[4] == n[0] && head[5] == n[1] && head[6] == unitID;
    assert TcpBuildFrame(tid, unitID, pdu) == head + pdu;
    AfterHead(head, pdu);
  }

  lemma AfterHead(head: seq<byte>, pdu: seq<byte>)
    ensures forall i :: 0 <= i < |pdu| ==> (head + pdu)[|head| + i] == pdu[i]
    ensures forall i :: 0 <= i < |head| ==> (head + pdu)[i] == head[i]
  {
  }

  lemma SameWord(v: u16, w: u16)
    requires PutU16(v) == PutU16(w)
    ensures v == w
  {
    assert PutU16(v)[0] == PutU16(w)[0] && PutU16(v)[1] == PutU16(w)[1];
  }

  lemma TakenCarries(a: Await, r: Reply, s: seq<byte>) returns (pdu: seq<byte>)
    requires a.ReadReply? && r.Proper() && IsValidReadFC(a.fc) && Compatible(s, r.Framed(a.link)) && Taken(a, r, s)
    ensures StartsWith(a, s, pdu) && Carries(a, pdu, r.pdu[2..])
  {
    assert [r.pdu[0], r.pdu[1]] + r.pdu[2..] == r.pdu;
    if a.link.Rtu? {
      pdu := RtuCarries(a, r, s);
    } else {
      pdu := r.pdu;
    }
  }

  lemma RtuCarries(a: Await, r: Reply, s: seq<byte>) returns (pdu: seq<byte>)
    requires a.ReadReply? && a.link.Rtu? && r.Proper() && IsValidReadFC(a.fc)
    requires Compatible(s, r.Framed(Rtu)) && Taken(a, r, s)
    ensures StartsWith(a, s, pdu) && r.pdu <= pdu
  {
    var n, f := a.RtuLen(), r.Framed(Rtu);
    RtuBytes(r.unitID, r.pdu);
    assert s[0] == f[0];
    pdu := s[1..n - 2];
    CheckedStarts(a, s, pdu);
    assert forall i :: 0 <= i < |r.pdu| ==> pdu[i] == s[1 + i] == f[1 + i];
  }

  lemma CheckedStarts(a: Await, s: seq<byte>, pdu: seq<byte>)
    requires a.ReadReply? && a.link.Rtu? && a.RtuLen() <= |s| && CheckCRC(s[..a.RtuLen()])
    requires s[0] == a.unitID && pdu == s[1..a.RtuLen() - 2]
    ensures StartsWith(a, s, pdu)
  {
    var n := a.RtuLen();
    CheckedIsAppended(s[..n]);
    assert s[..n][..n - 2] == [a.unitID] + pdu;
  }

  // ---- the checksum over a late reply and what follows it

  /** The register c after some more bytes. */
  function Onward(c: nat, data: seq<byte>): nat {
    if data == [] then c
    else var n := |data| - 1; Feed(Onward(c, data[..n]), data[n])
  }

  function Feed(c: nat, b: byte): nat { Shift(Xor(c, b), 8) }

  lemma {:induction false} OnwardConcat(f: seq<byte>, x: seq<byte>)
    ensures SerialCrc(f + x) == Onward(SerialCrc(f), x)
  {
    if x == [] {
      assert f + x == f;
    } else {
      var n := |x| - 1;
      OnwardConcat(f, x[..n]);
      assert (f + x)[..|f| + n] == f + x[..n];
      assert (f + x)[|f| + n] == x[n];
    }
  }

  /** Feeding the same bytes to two registers keeps their difference, shifted. */
  lemma {:induction false} OnwardLinear(c: nat, d: nat, x: seq<byte>)
    ensures Onward(Xor(c, d), x) == Xor(Onward(c, x), Shift(d, 8 * |x|))
  {
    if x != [] {
      var n := |x| - 1;
      OnwardLinear(c, d, x[..n]);
      FeedDifference(Onward(c, x[..n]), d, x[n], 8 * n);
      assert 8 * |x| == 8 * n + 8;
    }
  }

  lemma FeedDifference(p: nat, d: nat, b: byte, k: nat)
    ensures Feed(Xor(p, Shift(d, k)), b) == Xor(Feed(p, b), Shift(d, k + 8))
  {
    var q := Shift(d, k);
    XorAssoc(p, q, b);
    XorComm(q, b);
    XorAssoc(p, b, q);
    ShiftLinear(Xor(p, b), q, 8);
    ShiftAdd(d, k, 8);
  }

  /** Over RTU a reply there whole is taken exactly when the bytes up to the awaited length divide without remainder. */
  lemma RtuTakenIff(a: Await, r: Reply, s: seq<byte>)
    requires a.ReadReply? && a.link.Rtu? && r.Proper() && IsValidReadFC(a.fc) && r.Framed(Rtu) <= s
    ensures Taken(a, r, s) <==>
            && r.unitID == a.unitID && r.pdu[0] == a.fc
            && |r.pdu| + 3 <= a.RtuLen() <= |s| && Onward(0, s[|r.pdu| + 3..a.RtuLen()]) == 0
  {
    var f, n := r.Framed(Rtu), a.RtuLen();
    RtuBytes(r.unitID, r.pdu);
    if |f| <= n <= |s| {
      var rest := s[|f|..n];
      assert s[..n] == f + rest;
      OnwardConcat(f, rest);
      CheckIsZeroResidue(f);
      CheckIsZeroResidue(s[..n]);
    }
  }

  /** So one of the awaited size is taken as soon as unit and code agree. */
  lemma SameSizeTaken(a: Await, r: Reply, s: seq<byte>)
    requires a.ReadReply? && a.link.Rtu? && r.Proper() && IsValidReadFC(a.fc) && r.Framed(Rtu) <= s
    requires |r.pdu| + 3 == a.RtuLen()
    ensures Taken(a, r, s) <==> r.unitID == a.unitID && r.pdu[0] == a.fc
  {
    RtuTakenIff(a, r, s);
    RtuBytes(r.unitID, r.pdu);
    assert s[a.RtuLen()..a.RtuLen()] == [];
  }

  /** One that is a byte or two shorter is not, as the next byte is a unit number. */
  lemma SlightlyShorterFails(a: Await, r: Reply, s: seq<byte>)
    requires a.ReadReply? && a.link.Rtu? && r.Proper() && IsValidReadFC(a.fc) && r.Framed(Rtu) <= s
    requires a.RtuLen() - 2 <= |r.pdu| + 3 < a.RtuLen() <= |s| && s[|r.pdu| + 3] != 0
    ensures !Taken(a, r, s)
  {
    RtuTakenIff(a, r, s);
    var rest := s[|r.pdu| + 3..a.RtuLen()];
    if |rest| == 1 {
      OneOnward(rest);
    } else {
      TwoOnward(rest);
    }
  }

  lemma OneOnward(x: seq<byte>)
    requires |x| == 1 && x[0] != 0
    ensures Onward(0, x) != 0
  {
    var k: nat := 8;
    XorZero(x[0]);
    assert x[..0] == [] && Onward(0, x) == Feed(0, x[0]);
    ShiftBound(x[0], k);
  }

  lemma TwoOnward(x: seq<byte>)
    requires |x| == 2 && x[0] != 0
    ensures Onward(0, x) != 0
  {
    var y := x[..1];
    assert y[..0] == [] && y[0] == x[0];
    assert Onward(0, y) == Feed(0, x[0]);
    assert Onward(0, x) == Feed(Onward(0, y), x[1]);
    TwoSteps(0, x[0], x[1]);
  }

  /** Nor one that is shorter by exactly one more whole frame. */
  lemma TwoFramesFail(a: Await, r: Reply, s: seq<byte>, g: seq<byte>)
    requires a.ReadReply? && a.link.Rtu? && r.Proper() && IsValidReadFC(a.fc) && r.Framed(Rtu) + g <= s
    requires |g| >= 3 && CheckCRC(g) && |r.pdu| + 3 + |g| == a.RtuLen()
    ensures !Taken(a, r, s)
  {
    RtuTakenIff(a, r, s);
    RtuBytes(r.unitID, r.pdu);
    assert s[|r.pdu| + 3..a.RtuLen()] == g;
    CheckIsZeroResidue(g);
    OnwardConcat([], g);
    assert [] + g == g;
    OnwardLinear(0xFFFF, 0xFFFF, g);
    XorEqual(0xFFFF, 0xFFFF);
    ShiftBound(0xFFFF, 8 * |g|);
    XorZero(Shift(0xFFFF, 8 * |g|));
  }

  // ---- one attempt

  predicate Hears(t: Attempt) { !t.stopBefore && t.sending.Sent? && !t.stopGap }

  /** The attempt takes the first late reply for the answer, and that holds other data. */
  predicate Misled(a: Await, own: seq<byte>, late: seq<Reply>, t: Attempt)
    requires a.ReadReply? && IsValidReadFC(a.fc) && AllProper(late)
  {
    Hears(t) && late != [] && Taken(a, late[0], Stream(t.events)) && late[0].pdu[2..] != own
  }

  predicate Wrong(v: Verdict, own: seq<byte>) { v.Got? && v.data != own }

  /** An attempt ends the read with wrong data exactly when it is misled. */
  lemma TryWrongIff(a: Await, start: int, dev: Device, late: seq<Reply>, t: Attempt)
    requires LegalRead(a, start) && dev.Valid() && Explains(late, a.link, ReadAnswer(a, start, dev), t)
    ensures var own := ReadData(dev, a.fc, start, a.quantity);
            Try(a, t).Over? && Wrong(Try(a, t).verdict, own) <==> Misled(a, own, late, t)
  {
    TryHears(a, t);
    if late == [] {
      OwnOnly(a, start, dev, Stream(t.events));
    } else {
      FirstDecides(a, late, ReadAnswer(a, start, dev), Stream(t.events));
    }
  }

  /** An attempt brings what the bytes it hears decode to. */
  lemma TryHears(a: Await, t: Attempt)
    ensures var d := a.Decode(Stream(t.events));
            if Hears(t) && d.Ok? then Try(a, t) == Over(Got(d.value))
            else Try(a, t).Over? ==> !Try(a, t).verdict.Got?
  {
    EndingBringsNothing(t.events);
  }

  /** Whatever else follows, the first late reply decides what the stream decodes to. */
  lemma FirstDecides(a: Await, late: seq<Reply>, reply: seq<byte>, s: seq<byte>)
    requires a.ReadReply? && IsValidReadFC(a.fc) && AllProper(late) && late != []
    requires s <= Replies(a.link, late) + reply
    ensures if Taken(a, late[0], s) then a.Decode(s) == Ok(late[0].pdu[2..]) else !a.Decode(s).Ok?
  {
    var r, rest := late[0], Replies(a.link, late[1..]) + reply;
    RepliesFirst(a.link, late, reply);
    FirstMeets(s, r.Framed(a.link), rest);
    TakenDecides(a, r, s);
  }

  lemma RepliesFirst(link: Link, late: seq<Reply>, reply: seq<byte>)
    requires late != []
    ensures Replies(link, late) + reply == late[0].Framed(link) + (Replies(link, late[1..]) + reply)
  {
  }

  lemma TakenDecides(a: Await, r: Reply, s: seq<byte>)
    requires a.ReadReply? && r.Proper() && IsValidReadFC(a.fc) && Compatible(s, r.Framed(a.link))
    ensures if Taken(a, r, s) then a.Decode(s) == Ok(r.pdu[2..]) else !a.Decode(s).Ok?
  {
    if a.Decode(s).Ok? {
      TakenIff(a, r, s, a.Decode(s).value);
    }
    if Taken(a, r, s) {
      TakenIff(a, r, s, r.pdu[2..]);
    }
  }

  lemma FirstMeets(s: seq<byte>, f: seq<byte>, rest: seq<byte>)
    requires s <= (f + rest)
    ensures Compatible(s, f)
  {
    if |s| < |f| {
      assert s == f[..|s|];
    } else {
      assert s[..|f|] == f;
    }
  }

  /** A beginning of the own answer brings its data or nothing. */
  lemma OwnOnly(a: Await, start: int, dev: Device, s: seq<byte>)
    requires LegalRead(a, start) && dev.Valid() && s <= [] + ReadAnswer(a, start, dev)
    ensures var d := a.Decode(s); d.Ok? ==> d.value == ReadData(dev, a.fc, start, a.quantity)
  {
    var reply := ReadAnswer(a, start, dev);
    var pdu := ReadAnswerIs(a, start, dev);
    assert [] + reply == reply;
    if |s| < |reply| {
      assert s == reply[..|s|];
      PrefixIsShort(a, pdu, |s|);
    } else {
      assert s == reply;
    }
  }

  // ---- a read with its resends

  /** Whether an attempt that is made is misled. */
  predicate SomeMisled(a: Await, own: seq<byte>, lates: seq<seq<Reply>>, tries: seq<Attempt>)
    requires a.ReadReply? && IsValidReadFC(a.fc) && |lates| == |tries|
    requires forall late :: late in lates ==> AllProper(late)
  {
    tries != [] && (Misled(a, own, lates[0], tries[0])
                    || (Try(a, tries[0]).Again? && SomeMisled(a, own, lates[1..], tries[1..])))
  }

  /**
   On a line that loses bytes and delays replies but alters nothing, a read brings wrong data exactly
   when one of its attempts is misled.
  */
  lemma {:induction false} ReadWrongIff(a: Await, start: int, dev: Device, lates: seq<seq<Reply>>,
                                        tries: seq<Attempt>)
    requires LegalRead(a, start) && dev.Valid() && |lates| == |tries|
    requires forall late :: late in lates ==> AllProper(late)
    requires forall i :: 0 <= i < |tries| ==> Explains(lates[i], a.link, ReadAnswer(a, start, dev), tries[i])
    ensures var own := ReadData(dev, a.fc, start, a.quantity);
            Wrong(Transaction(a, tries), own) <==> SomeMisled(a, own, lates, tries)
  {
    if tries != [] {
      TryWrongIff(a, start, dev, lates[0], tries[0]);
      ReadWrongIff(a, start, dev, lates[1..], tries[1..]);
    }
  }

  /** What arrives can be explained by late replies that do not mislead. */
  ghost predicate Sound(a: Await, start: int, dev: Device, t: Attempt)
    requires LegalRead(a, start) && dev.Valid()
  {
    exists late :: Explains(late, a.link, ReadAnswer(a, start, dev), t)
                   && !Misled(a, ReadData(dev, a.fc, start, a.quantity), late, t)
  }

  /** So a read none of whose attempts is misled brings the device's own data or nothing. */
  lemma {:induction false} ReadNeverWrong(a: Await, start: int, dev: Device, tries: seq<Attempt>)
    requires LegalRead(a, start) && dev.Valid()
    requires forall t :: t in tries ==> Sound(a, start, dev, t)
    ensures !Wrong(Transaction(a, tries), ReadData(dev, a.fc, start, a.quantity))
  {
    if tries != [] {
      assert Sound(a, start, dev, tries[0]);
      var late :| Explains(late, a.link, ReadAnswer(a, start, dev), tries[0])
                  && !Misled(a, ReadData(dev, a.fc, start, a.quantity), late, tries[0]);
      TryWrongIff(a, start, dev, late, tries[0]);
      ReadNeverWrong(a, start, dev, tries[1..]);
    }
  }

  // ---- TCP

  /** A codec's last 65536 transaction ids are all different. */
  lemma RecentIdsDiffer(counter: nat, i: nat, j: nat)
    requires i < j < i + 0x1_0000
    ensures (counter + i) % 0x1_0000_0000 % 0x1_0000 != (counter + j) % 0x1_0000_0000 % 0x1_0000
  {
  }

  /** After a reply of another unit or with another id, nothing whatever that follows is taken for the answer. */
  lemma TcpForeignNeverTaken(a: Await, r: Reply, s: seq<byte>)
    requires a.ReadReply? && a.link.Tcp? && r.Proper() && IsValidReadFC(a.fc) && r.Framed(a.link) <= s
    requires r.tid != a.link.tid || r.unitID != a.unitID
    ensures !a.Decode(s).Ok?
  {
    if a.Decode(s).Ok? {
      TakenIff(a, r, s, a.Decode(s).value);
    }
  }

  /** None is from this unit with this transaction's id. */
  predicate Foreign(link: Link, unitID: byte, late: seq<Reply>) {
    link.Tcp? && forall r :: r in late ==> r.tid != link.tid || r.unitID != unitID
  }

  /** So over TCP late replies never make a read wrong. */
  lemma TcpSound(a: Await, start: int, dev: Device, late: seq<Reply>, t: Attempt)
    requires LegalRead(a, start) && dev.Valid() && Foreign(a.link, a.unitID, late)
    requires Explains(late, a.link, ReadAnswer(a, start, dev), t)
    ensures Sound(a, start, dev, t)
  {
    assert !Misled(a, ReadData(dev, a.fc, start, a.quantity), late, t);
  }

  // ---- RTU

  /** The answer to one read, late, is taken for the answer to the next one of the same size. */
  lemma LateAnswerTaken(a: Await, earlier: int, start: int, dev: Device, t: Attempt, more: seq<Attempt>)
    requires a.link.Rtu? && LegalRead(a, earlier) && LegalRead(a, start) && dev.Valid()
    requires Hears(t) && Stream(t.events) == ReadAnswer(a, earlier, dev) + ReadAnswer(a, start, dev)
    ensures Transaction(a, [t] + more) == Got(ReadData(dev, a.fc, earlier, a.quantity))
  {
    var pdu := ReadAnswerIs(a, earlier, dev);
    DecodeStable(a, ReadAnswer(a, earlier, dev), ReadAnswer(a, start, dev));
    TryHears(a, t);
    assert ([t] + more)[0] == t;
  }

  /** Two registers with different contents: reading the second brings the first. */
  lemma LateRegister(dev: Device, t: Attempt)
    requires dev.Valid() && dev.holding[0] == 1 && dev.holding[1] == 0
    requires Hears(t)
    requires var a := ReadReply(Rtu, 1, READ_HOLDING, 1);
             Stream(t.events) == ReadAnswer(a, 0, dev) + ReadAnswer(a, 1, dev)
    ensures var a := ReadReply(Rtu, 1, READ_HOLDING, 1);
            Transaction(a, [t]) == Got([0, 1]) && ReadData(dev, READ_HOLDING, 1, 1) == [0, 0]
  {
    var a := ReadReply(Rtu, 1, READ_HOLDING, 1);
    LateAnswerTaken(a, 0, 1, dev, t, []);
    assert [t] + [] == [t];
    assert dev.holding[0..1] == [1] && dev.holding[1..2] == [0];
    assert RegisterBytes([1]) == [0, 1] && RegisterBytes([0]) == [0, 0];
  }

  /** Some two bytes make the checksum of anything come out. */
  lemma Closing(x: seq<byte>) returns (lo: byte, hi: byte)
    ensures Onward(0, x + [lo, hi]) == 0
  {
    OnwardBound(x);
    var c := Onward(0, x);
    lo, hi := c % 256, c / 256;
    OnwardTwo(0, x, lo, hi);
    TwoSteps(c, lo, hi);
  }

  lemma OnwardTwo(c: nat, x: seq<byte>, lo: byte, hi: byte)
    ensures Onward(c, x + [lo, hi]) == Feed(Feed(Onward(c, x), lo), hi)
  {
    var y, z := x + [lo], x + [lo, hi];
    assert y[..|x|] == x && z[..|x| + 1] == y;
    assert Onward(c, y) == Feed(Onward(c, x), lo);
    assert Onward(c, z) == Feed(Onward(c, y), hi);
  }

  lemma {:induction false} OnwardBound(x: seq<byte>)
    ensures Onward(0, x) < 0x1_0000
  {
    if x != [] {
      var n := |x| - 1;
      OnwardBound(x[..n]);
      StepBound(Onward(0, x[..n]), x[n]);
    }
  }

  /** The device whose first two holding registers are these. */
  ghost function TwoRegisters(first: u16, second: u16): (dev: Device)
    ensures dev.Valid()
  {
    var off := seq(MAX_ADDRESS + 1, i => false);
    Device(off, off, seq(MAX_ADDRESS + 1, i => if i == 0 then first else if i == 1 then second else 0),
           seq(MAX_ADDRESS + 1, i => 0))
  }

  /**
   Sizes need not agree: a late reply of one register can be taken for one of four, when the own
   answer behind it begins with the right data.
  */
  lemma ShorterTaken(a: Await, r: Reply) returns (dev: Device)
    requires a == ReadReply(Rtu, 1, READ_HOLDING, 4)
    requires r.unitID == 1 && |r.pdu| == 4 && r.pdu[0] == READ_HOLDING && r.pdu[1] == 2
    ensures dev.Valid() && LegalRead(a, 0) && r.Proper() && |r.pdu| + 3 < a.RtuLen()
    ensures Taken(a, r, r.Framed(Rtu) + ReadAnswer(a, 0, dev))
  {
    var head := [1, 3, 8, 0];
    var lo, hi := Closing(head);
    dev := TwoRegisters(lo, Word(0, hi));
    var reply, s := ReadAnswer(a, 0, dev), r.Framed(Rtu) + ReadAnswer(a, 0, dev);
    RtuBytes(1, r.pdu);
    AnswerBegins(a, lo, hi, dev);
    RtuTakenIff(a, r, s);
    assert s[7..13] == reply[..6] == head + [lo, hi];
  }

  lemma AnswerBegins(a: Await, lo: byte, hi: byte, dev: Device)
    requires a == ReadReply(Rtu, 1, READ_HOLDING, 4) && dev == TwoRegisters(lo, Word(0, hi))
    ensures LegalRead(a, 0) && |ReadAnswer(a, 0, dev)| == 13
    ensures ReadAnswer(a, 0, dev)[..6] == [1, 3, 8, 0] + [lo, hi]
  {
    var pdu := ReadAnswerIs(a, 0, dev);
    DataBegins(lo, hi, dev, ReadData(dev, READ_HOLDING, 0, 4));
    RtuBytes(1, pdu);
    var reply := ReadAnswer(a, 0, dev);
    assert forall i :: 0 <= i < 5 ==> reply[1 + i] == pdu[i];
  }

  lemma DataBegins(lo: byte, hi: byte, dev: Device, data: seq<byte>)
    requires dev == TwoRegisters(lo, Word(0, hi)) && data == ReadData(dev, READ_HOLDING, 0, 4)
    ensures data[0] == 0 && data[1] == lo && data[2] == hi
  {
    var regs := dev.holding[0..4];
    FirstTwo(regs);
    assert PutU16(regs[0]) == [0, lo] && PutU16(regs[1]) == [hi, 0];
  }

  lemma FirstTwo(regs: seq<u16>)
    requires |regs| >= 2
    ensures RegisterBytes(regs) == PutU16(regs[0]) + (PutU16(regs[1]) + RegisterBytes(regs[2..]))
  {
    assert regs[1..][0] == regs[1] && regs[1..][1..] == regs[2..];
  }
}
