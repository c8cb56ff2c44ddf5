/** What the receiver's test of a fragment lets through. The test turns a fragment away only if both
    checksum bytes are wrong, so it is weaker than the checksum. */
module FragmentChecks {
  import opened Bytes
  import opened Crc
  import opened Frame
  import opened Parser
  import opened Fragments
  import opened FragmentTheorems

  /** The fragment has both checksum bytes right. */
  predicate Intact(extra: ExtraTable, m: Message)
    requires |m.payload| == PAYLOAD_CELLS
  {
    && m.magic == STX && Val(m.len) == EXTENDED_HEADER_LEN && m.msgid == EXTENDED_MESSAGE
    && m.payload[EXTENDED_HEADER_LEN] == Lo(FragmentChecksum(extra, m))
    && m.payload[EXTENDED_HEADER_LEN + 1] == Hi(FragmentChecksum(extra, m))
  }

  const FRAGMENT_LEN := NUM_NON_PAYLOAD_BYTES + EXTENDED_HEADER_LEN

  function FlipByte(x: bv8, e: bv8): bv8 { x ^ e }

  /** The message with errors anywhere in the bytes of its frame, from start mark to checksum. */
  function FrameFlipped(m: Message, e: seq<bv8>): (m': Message)
    requires |m.payload| == PAYLOAD_CELLS && |e| == FRAGMENT_LEN
    ensures |m'.payload| == PAYLOAD_CELLS
  {
    m.(magic := FlipByte(m.magic, e[0]), len := FlipByte(m.len, e[1]), seqNo := FlipByte(m.seqNo, e[2]),
       sysid := FlipByte(m.sysid, e[3]), compid := FlipByte(m.compid, e[4]), msgid := FlipByte(m.msgid, e[5]),
       payload := Flip(m.payload[..EXTENDED_HEADER_LEN + 2], e[6..]) + m.payload[EXTENDED_HEADER_LEN + 2..])
  }

  /** What the receiver's checksum sees of an error: core header, extended header and the extra byte. */
  function FrameSyndrome(e: seq<bv8>): bv16
    requires |e| == FRAGMENT_LEN
  {
    Over(0, e[1..FRAGMENT_LEN - 2] + [0])
  }

  /** The bytes under the checksum, before the extra byte. */
  function Body(m: Message): seq<bv8>
    requires |m.payload| == PAYLOAD_CELLS
  {
    [m.len, m.seqNo, m.sysid, m.compid, m.msgid] + m.payload[..EXTENDED_HEADER_LEN]
  }

  lemma ChecksumOfBody(extra: ExtraTable, m: Message)
    requires |m.payload| == PAYLOAD_CELLS
    ensures FragmentChecksum(extra, m) == Accumulate(extra(m.msgid), Over(INIT, Body(m)))
  {
    hide Accumulate, Over;
    OverConcat(INIT, [m.len, m.seqNo, m.sysid, m.compid, m.msgid], m.payload[..EXTENDED_HEADER_LEN]);
  }

  lemma BodyFlipped(m: Message, e: seq<bv8>)
    requires |m.payload| == PAYLOAD_CELLS && |e| == FRAGMENT_LEN
    ensures Body(FrameFlipped(m, e)) == Flip(Body(m), e[1..FRAGMENT_LEN - 2])
  {
    hide Val;
  }

  lemma FlippedByte(x: bv8, e: bv8)
    ensures FlipByte(x, e) == x <==> e == 0
    ensures x ^ 0 == x
  {}

  lemma ChecksumShift(extra: ExtraTable, m: Message, e: seq<bv8>)
    requires |m.payload| == PAYLOAD_CELLS && |e| == FRAGMENT_LEN && e[5] == 0
    ensures FragmentChecksum(extra, FrameFlipped(m, e)) == Xor(FragmentChecksum(extra, m), FrameSyndrome(e))
  {
    hide Accumulate, Xor, Over, Body, FragmentChecksum;
    var e' := e[1..FRAGMENT_LEN - 2];
    FlippedByte(m.msgid, e[5]);
    ChecksumOfBody(extra, m);
    ChecksumOfBody(extra, FrameFlipped(m, e));
    BodyFlipped(m, e);
    assert |Body(m)| == |e'| by {
      BodyLength(m);
    }
    ErrorSyndrome(INIT, 0, Body(m), e');
    XorLaws(INIT, 0);
    var x := extra(m.msgid);
    FlippedByte(x, 0);
    AccumulateLinear(x, 0, Over(INIT, Body(m)), Over(0, e'));
    OverSnoc(0, e', 0);
  }

  lemma BodyLength(m: Message)
    requires |m.payload| == PAYLOAD_CELLS
    ensures |Body(m)| == CORE_HEADER_LEN + EXTENDED_HEADER_LEN
  {}

  lemma HalvesOfXor(c: bv16, s: bv16)
    ensures Lo(Xor(c, s)) == FlipByte(Lo(c), Lo(s))
    ensures Hi(Xor(c, s)) == FlipByte(Hi(c), Hi(s))
  {}

  lemma Cancel(a: bv8, b: bv8, x: bv8)
    ensures FlipByte(a, x) == FlipByte(a, b) <==> b == x
  {}

  lemma FlippedPayload(m: Message, e: seq<bv8>, i: nat)
    requires |m.payload| == PAYLOAD_CELLS && |e| == FRAGMENT_LEN && i < EXTENDED_HEADER_LEN + 2
    ensures FrameFlipped(m, e).payload[i] == FlipByte(m.payload[i], e[6 + i])
  {}

  lemma FramingFlipped(m: Message, e: seq<bv8>)
    requires |m.payload| == PAYLOAD_CELLS && |e| == FRAGMENT_LEN
    ensures var m' := FrameFlipped(m, e);
      && (m'.magic == m.magic <==> e[0] == 0)
      && (Val(m'.len) == Val(m.len) <==> e[1] == 0)
      && (m'.msgid == m.msgid <==> e[5] == 0)
  {
    hide Val, Flip, FlipByte;
    var m' := FrameFlipped(m, e);
    FlippedByte(m.magic, e[0]);
    FlippedByte(m.len, e[1]);
    FlippedByte(m.msgid, e[5]);
    if Val(m'.len) == Val(m.len) {
      ValInjective(m'.len, m.len);
    }
  }

  /** A half of the disturbed checksum agrees with the disturbed byte sent for it. */
  lemma ChecksumFlipped(m: Message, e: seq<bv8>, c: bv16, s: bv16)
    requires |m.payload| == PAYLOAD_CELLS && |e| == FRAGMENT_LEN
    requires m.payload[EXTENDED_HEADER_LEN] == Lo(c) && m.payload[EXTENDED_HEADER_LEN + 1] == Hi(c)
    ensures var m' := FrameFlipped(m, e);
      && (m'.payload[EXTENDED_HEADER_LEN] == Lo(Xor(c, s)) <==> Lo(s) == e[20])
      && (m'.payload[EXTENDED_HEADER_LEN + 1] == Hi(Xor(c, s)) <==> Hi(s) == e[21])
  {
    hide Lo, Hi, Xor, FlipByte, FrameFlipped;
    FlippedPayload(m, e, EXTENDED_HEADER_LEN);
    FlippedPayload(m, e, EXTENDED_HEADER_LEN + 1);
    HalvesOfXor(c, s);
    Cancel(Lo(c), Lo(s), e[20]);
    Cancel(Hi(c), Hi(s), e[21]);
  }

  /** A fragment with any error in its frame passes the test if and only if start mark, length and
      message type are right and one half of the error's syndrome is cancelled by the error in the
      checksum byte sent for it. */
  lemma FrameErrorPassesIff(extra: ExtraTable, m: Message, e: seq<bv8>)
    requires |m.payload| == PAYLOAD_CELLS && Intact(extra, m) && |e| == FRAGMENT_LEN
    ensures ValidFragment(extra, FrameFlipped(m, e)) <==>
      && e[0] == 0 && e[1] == 0 && e[5] == 0
      && (Lo(FrameSyndrome(e)) == e[20] || Hi(FrameSyndrome(e)) == e[21])
  {
    hide FragmentChecksum, FrameSyndrome, FrameFlipped, Lo, Hi, Xor, Val;
    FramingFlipped(m, e);
    if e[5] == 0 {
      ChecksumShift(extra, m, e);
      ChecksumFlipped(m, e, FragmentChecksum(extra, m), FrameSyndrome(e));
    }
  }

  /** The receiver's answer to a fragment with any error in its frame: it is accepted if and only if the
      error passes the test and leaves a type code in use. */
  lemma ErrorAcceptedIff(extra: ExtraTable, r: Reassembler, f: Fragment, e: seq<bv8>)
    requires r.Valid() && f.Sound() && Intact(extra, f.base) && |e| == FRAGMENT_LEN
    ensures Cache(extra, r, f.(base := FrameFlipped(f.base, e))).1 <==>
      && e[0] == 0 && e[1] == 0 && e[5] == 0
      && (Lo(FrameSyndrome(e)) == e[20] || Hi(FrameSyndrome(e)) == e[21])
      && Val(f.base.payload[2] ^ e[8]) < r.types
  {
    hide Cache, ValidFragment, Intact, FrameSyndrome, Lo, Hi, Val, FrameFlipped;
    FrameErrorPassesIff(extra, f.base, e);
    FlippedPayload(f.base, e, 2);
    AcceptedIff(extra, r, f.(base := FrameFlipped(f.base, e)));
  }

  /** The test in plain terms: start mark 254, length 14, message type 255, and at least one byte of the
      checksum (by its definition, from 0xffff, over core header, extended header and extra byte) right,
      the low byte standing first. */
  lemma FragmentTest(extra: ExtraTable, m: Message)
    requires |m.payload| == PAYLOAD_CELLS
    ensures var c := Defined(0xffff, [m.len, m.seqNo, m.sysid, m.compid, m.msgid] + m.payload[..14] + [extra(m.msgid)]);
      ValidFragment(extra, m) <==>
        && m.magic == 254 && Val(m.len) == 14 && m.msgid == 255
        && (m.payload[14] as bv16 == c & 0xff || m.payload[15] as bv16 == c >> 8)
  {
    hide Accumulate, Over, ShiftBits, Val, Lo, Hi, Defined;
    var core := [m.len, m.seqNo, m.sysid, m.compid, m.msgid];
    var x := extra(m.msgid);
    OverConcat(0xffff, core, m.payload[..14]);
    OverSnoc(0xffff, core + m.payload[..14], x);
    FastRefinesDefinition(0xffff, core + m.payload[..14] + [x]);
    SplitHalves(FragmentChecksum(extra, m), m.payload[14], m.payload[15]);
  }

  /** The error that turns the flag byte's lowest bit over, as 0x91 does. */
  function FlagError(): (e: seq<bv8>)
    ensures |e| == FRAGMENT_LEN
  {
    Zeros(FRAGMENT_LEN - 3) + [0x91, 0, 0]
  }

  lemma HighHalf(s: bv16)
    requires s == 0x85
    ensures Hi(s) == 0
  {}

  lemma FlagSyndrome()
    ensures Hi(FrameSyndrome(FlagError())) == 0
  {
    hide Over, Accumulate, ShiftByte, Hi;
    var e := FlagError();
    var n := FRAGMENT_LEN - 4;
    assert e[1..FRAGMENT_LEN - 2] + [0] == Zeros(n) + [0x91, 0];
    OverConcat(0, Zeros(n), [0x91, 0]);
    OverZeros(0, n);
    OverPair(0, 0x91, 0);
    FirstByte(0x91);
    ZeroByte(ShiftByte(0x91));
    TwoShifts(0x91, 0x85);
    HighHalf(FrameSyndrome(e));
  }

  /** One wrong byte can pass: this error turns a final fragment into one with more to follow, or the
      other way round, and the receiver accepts it. */
  lemma OneWrongByteCanPass(extra: ExtraTable, f: Fragment)
    requires f.Sound() && Intact(extra, f.base)
    ensures var f' := f.(base := FrameFlipped(f.base, FlagError()));
      ValidFragment(extra, f'.base) && f'.Sound() && f'.More() == !f.More()
  {
    hide FrameSyndrome, Lo, Hi, ValidFragment, Intact;
    FlagSyndrome();
    FrameErrorPassesIff(extra, f.base, FlagError());
    var b := f.base.payload[13];
    assert FrameFlipped(f.base, FlagError()).payload[13] == b ^ 0x91;
    LowBit(b);
  }

  lemma LowBit(b: bv8)
    ensures (b ^ 0x91) & 0x1 == 0x1 <==> b & 0x1 != 0x1
  {}

  // ---- The data bytes ----

  ghost predicate SameFrames(fs: seq<Fragment>, gs: seq<Fragment>) {
    |fs| == |gs| && AllSound(fs) && AllSound(gs) && forall k :: 0 <= k < |fs| ==> fs[k].base == gs[k].base
  }

  /** What the receiver reads off a frame of the message, whatever data came with it. */
  lemma SameFrameRead(extra: ExtraTable, t: Transfer, gs: seq<Fragment>, k: nat)
    requires t.Valid(extra) && SameFrames(t.fragments, gs) && k < t.Count()
    ensures var g := gs[k];
      && ValidFragment(extra, g.base) && g.StreamId() == t.sid && g.TypeCode() == t.typeCode
      && g.Offset() == t.cuts[k] && (g.More() <==> k + 1 < t.Count())
      && U32(g.Size() + g.Offset()) == t.cuts[k + 1]
  {
    hide ValidFragment, U32;
    assert t.Carried(extra, k);
    assert gs[k].base == t.fragments[k].base;
    CutsIncrease(extra, t, k + 1, t.Count());
    NoWrap(t.cuts[k + 1]);
  }

  lemma SameFramesExpect(extra: ExtraTable, t: Transfer, gs: seq<Fragment>, k: nat)
    requires t.Valid(extra) && SameFrames(t.fragments, gs) && k < t.Count()
    ensures Expects(gs[..k]) == t.cuts[k]
  {
    hide ValidFragment, U32, Transfer.Valid, Fragment.Offset, Fragment.Size;
    if k > 0 {
      SameFrameRead(extra, t, gs, k - 1);
    }
  }

  lemma SameFramesCached(extra: ExtraTable, r: Reassembler, t: Transfer, gs: seq<Fragment>, k: nat)
    requires t.Valid(extra) && SameFrames(t.fragments, gs) && k < t.Count()
    requires r.Valid() && t.typeCode < r.types && r.QueueOf(t.sid) == gs[..k]
    ensures var o := Cache(extra, r, gs[k]);
      if k + 1 < t.Count() then o.0.QueueOf(t.sid) == gs[..k + 1] && o.2 == []
      else o.2 == [Reassembled(t.sid, t.typeCode, Joined(gs))]
  {
    hide ValidFragment, Expects, Joined, Transfer.Valid;
    hide Fragment.StreamId, Fragment.TypeCode, Fragment.Offset, Fragment.Size, Fragment.More;
    SameFrameRead(extra, t, gs, k);
    SameFramesExpect(extra, t, gs, k);
    assert gs[..k] + [gs[k]] == gs[..k + 1] && gs[..t.Count()] == gs;
  }

  lemma {:induction false} SameFramesQueued(extra: ExtraTable, r: Reassembler, t: Transfer, gs: seq<Fragment>, k: nat)
    requires Ready(r, t) && t.Valid(extra) && SameFrames(t.fragments, gs) && k < t.Count()
    ensures Feed(extra, r, gs[..k]).QueueOf(t.sid) == gs[..k] && Delivered(extra, r, gs[..k]) == []
  {
    hide Cache, Transfer.Valid;
    if k > 0 {
      SameFramesQueued(extra, r, t, gs, k - 1);
      assert gs[..k - 1] + [gs[k - 1]] == gs[..k];
      FeedSnoc(extra, r, gs[..k - 1], gs[k - 1]);
      SameFramesCached(extra, Feed(extra, r, gs[..k - 1]), t, gs, k - 1);
    }
  }

  /** No checksum covers the data, nor its length: if the frames of a message's fragments arrive, then
      whatever data came with them is delivered. */
  lemma DataUnchecked(extra: ExtraTable, r: Reassembler, t: Transfer, gs: seq<Fragment>)
    requires Ready(r, t) && t.Valid(extra) && t.data != [] && SameFrames(t.fragments, gs)
    ensures Delivered(extra, r, gs) == [Reassembled(t.sid, t.typeCode, Joined(gs))]
  {
    hide Cache, Feed, Delivered, Joined;
    var n := t.Count() - 1;
    SameFramesQueued(extra, r, t, gs, n);
    assert gs[..n] + [gs[n]] == gs;
    FeedSnoc(extra, r, gs[..n], gs[n]);
    SameFramesCached(extra, Feed(extra, r, gs[..n]), t, gs, n);
  }
}
