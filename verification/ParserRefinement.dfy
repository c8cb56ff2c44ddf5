/** The state machine keeps exactly the recogniser's attempt. */
module ParserRefinement {
  import opened Bytes
  import opened Crc
  import opened Frame
  import opened Parser

  function MessagePacket(m: Message): (p: Packet)
    requires |m.payload| == PAYLOAD_CELLS
    ensures p.Fits()
  {
    Packet(m.seqNo, m.sysid, m.compid, m.msgid, m.payload[..Val(m.len)])
  }

  /** The bytes of a message that a sender would copy from memory: start mark to second checksum byte. */
  function Returned(m: Message): seq<bv8>
    requires |m.payload| == PAYLOAD_CELLS
  {
    m.Wire()[..NUM_NON_PAYLOAD_BYTES + Val(m.len)]
  }

  /** The recogniser's judgement, computed. */
  lemma JudgeByTest(extra: ExtraTable, a: seq<bv8>, c: bv8)
    requires a != []
    ensures Judge(extra, a, c) ==
      if !LooksLikePrefix(extra, a + [c]) then (if c == STX then Restarted else Dropped)
      else if |a| + 1 == FrameLength(a + [c]) then Accepted
      else Extended
  {
    hide LooksLikePrefix;
    PrefixTestExact(extra, a + [c]);
    FrameTestExact(extra, a + [c]);
  }

  /** The step is the one the recogniser takes, and it keeps the receiver consistent. */
  ghost predicate Refines(extra: ExtraTable, r: Receiver, c: bv8, r': Receiver)
    requires Consistent(extra, r) && r'.InRange()
  {
    var v := Judge(extra, Attempt(r), c);
    && Attempt(r') == Continue(Attempt(r), c, v)
    && r'.msgReceived == v.Accepted?
    && r'.parseError == (if v.Restarted? || v.Dropped? then 1 else 0)
    && Consistent(extra, r'.(parseError := 0))
    && (v.Accepted? ==>
          && Attempt(r) + [c] == Encode(extra, MessagePacket(r'.rx))
          && Attempt(r) + [c] == Returned(r'.rx)
          && r'.rx.checksum == Checksum(extra, MessagePacket(r'.rx)))
  }

  lemma TailSnoc(a: seq<bv8>, c: bv8)
    requires a != []
    ensures Over(INIT, (a + [c])[1..]) == Accumulate(c, Over(INIT, a[1..]))
  {
    assert (a + [c])[1..] == a[1..] + [c];
    OverSnoc(INIT, a[1..], c);
  }

  lemma RefinesIdle(extra: ExtraTable, r: Receiver, c: bv8)
    requires Consistent(extra, r) && !r.msgReceived && (r.state.Idle? || r.state.Uninit?)
    ensures Advance(extra, r, c).InRange() && Refines(extra, r, c, Advance(extra, r, c))
  {
    hide Val, Accumulate, IsFrame, IsFramePrefix;
    AdvanceInRange(extra, r, c);
    var r' := Advance(extra, r, c);
    if c == STX {
      assert Attempt(r') == [STX];
      assert Attempt(r')[1..] == [];
    }
  }

  lemma RefinesHeader(extra: ExtraTable, r: Receiver, c: bv8)
    requires Consistent(extra, r) && !r.msgReceived
    requires r.state in {GotStx, GotLength, GotSeq, GotSysid, GotCompid}
    ensures Advance(extra, r, c).InRange() && Refines(extra, r, c, Advance(extra, r, c))
  {
    hide Val, Accumulate, DueChecksum, Lo, Hi, Over, Judge;
    AdvanceInRange(extra, r, c);
    var a, r' := Attempt(r), Advance(extra, r, c);
    ValZero(r'.rx.len);
    assert Attempt(r') == a + [c];
    JudgeByTest(extra, a, c);
    TailSnoc(a, c);
  }

  lemma RefinesPayload(extra: ExtraTable, r: Receiver, c: bv8)
    requires Consistent(extra, r) && !r.msgReceived && r.state.GotMsgid?
    ensures Advance(extra, r, c).InRange() && Refines(extra, r, c, Advance(extra, r, c))
  {
    hide Val, Accumulate, DueChecksum, Lo, Hi, Over, Judge;
    AdvanceInRange(extra, r, c);
    var a, r' := Attempt(r), Advance(extra, r, c);
    assert r'.rx.payload[..r'.packetIdx] == r.rx.payload[..r.packetIdx] + [c];
    assert Attempt(r') == a + [c];
    JudgeByTest(extra, a, c);
    TailSnoc(a, c);
  }

  /** Giving up an attempt: the same for either checksum byte. */
  lemma RefinesReject(extra: ExtraTable, r: Receiver, c: bv8, r': Receiver)
    requires Consistent(extra, r) && !r.msgReceived && InAttempt(r)
    requires !LooksLikePrefix(extra, Attempt(r) + [c])
    requires exists crc :: r' == Reject(r.(rx := r.rx.(checksum := crc)), c)
    ensures Refines(extra, r, c, r')
  {
    hide Val, Accumulate, Lo, Hi, Over, Judge, LooksLikePrefix, DueChecksum;
    JudgeByTest(extra, Attempt(r), c);
    OverNil(INIT);
    if c == STX {
      assert Attempt(r') == [STX];
      assert Attempt(r')[1..] == [];
    }
  }

  lemma RefinesExtended(extra: ExtraTable, r: Receiver, c: bv8, r': Receiver)
    requires Consistent(extra, r) && r'.InRange()
    requires Attempt(r) != [] && LooksLikePrefix(extra, Attempt(r) + [c])
    requires |Attempt(r)| + 1 != FrameLength(Attempt(r) + [c])
    requires Attempt(r') == Attempt(r) + [c] && !r'.msgReceived && Consistent(extra, r')
    ensures Refines(extra, r, c, r')
  {
    hide LooksLikePrefix, Judge, Accumulate, Over, DueChecksum, Lo;
    JudgeByTest(extra, Attempt(r), c);
    assert r'.(parseError := 0) == r';
  }

  /** The first checksum byte arrives and is right. */
  lemma LowByteStored(extra: ExtraTable, r: Receiver, crc: bv16, r': Receiver)
    requires Consistent(extra, r) && !r.msgReceived && r.state.GotPayload?
    requires crc == DueChecksum(extra, Attempt(r))
    requires r' == r.(rx := r.rx.(checksum := crc, payload := r.rx.payload[r.packetIdx := Lo(crc)]), state := GotCrc1)
    ensures Attempt(r') == Attempt(r) + [Lo(crc)]
    ensures Consistent(extra, r')
  {
    hide Val, Accumulate, Lo, Over, DueChecksum;
    assert r'.rx.payload[..r'.packetIdx + 1] == r.rx.payload[..r.packetIdx] + [Lo(crc)];
    DueChecksumStable(extra, Attempt(r), Lo(crc));
  }

  lemma ChecksumDue(extra: ExtraTable, r: Receiver)
    requires Consistent(extra, r) && r.state.GotPayload?
    ensures |Attempt(r)| == FrameLength(Attempt(r)) - 2
    ensures DueChecksum(extra, Attempt(r)) == Accumulate(extra(r.rx.msgid), r.rx.checksum)
  {
    hide Val, Accumulate, Over;
    var a := Attempt(r);
    assert a[1..|a|] == a[1..];
  }

  lemma RefinesChecksumLow(extra: ExtraTable, r: Receiver, c: bv8)
    requires Consistent(extra, r) && !r.msgReceived && r.state.GotPayload?
    ensures Advance(extra, r, c).InRange() && Refines(extra, r, c, Advance(extra, r, c))
  {
    hide Val, Accumulate, Lo, Hi, Over, Judge, Refines, DueChecksum;
    AdvanceInRange(extra, r, c);
    var a, r' := Attempt(r), Advance(extra, r, c);
    var crc := Accumulate(extra(r.rx.msgid), r.rx.checksum);
    ChecksumDue(extra, r);
    DueChecksumStable(extra, a, c);
    if c == Lo(crc) {
      LowByteStored(extra, r, crc, r');
      hide Consistent, FrameLength;
      RefinesExtended(extra, r, c, r');
    } else {
      hide Consistent;
      RefinesReject(extra, r, c, r');
    }
  }

  lemma RefinesChecksumHigh(extra: ExtraTable, r: Receiver, c: bv8)
    requires Consistent(extra, r) && !r.msgReceived && r.state.GotCrc1?
    ensures Advance(extra, r, c).InRange() && Refines(extra, r, c, Advance(extra, r, c))
  {
    hide Val, Accumulate, Lo, Hi, Over, Judge, DueChecksum, Refines;
    AdvanceInRange(extra, r, c);
    var a, r' := Attempt(r), Advance(extra, r, c);
    DueChecksumStable(extra, a, c);
    if c == Hi(r.rx.checksum) {
      RefinesAccepted(extra, r, c, r');
    } else {
      RefinesReject(extra, r, c, r');
    }
  }

  /** The second checksum byte arrives and is right. */
  lemma FrameComplete(extra: ExtraTable, r: Receiver, c: bv8)
    requires Consistent(extra, r) && r.state.GotCrc1? && c == Hi(r.rx.checksum)
    ensures var f := Attempt(r) + [c]; |f| == FrameLength(f) && LooksLikePrefix(extra, f)
  {
    hide Val, Accumulate, Lo, Hi, Over, DueChecksum;
    DueChecksumStable(extra, Attempt(r), c);
  }

  lemma RefinesAccepted(extra: ExtraTable, r: Receiver, c: bv8, r': Receiver)
    requires Consistent(extra, r) && r.state.GotCrc1? && c == Hi(r.rx.checksum)
    requires r' == r.(rx := r.rx.(payload := r.rx.payload[r.packetIdx + 1 := c]), state := Idle, msgReceived := true)
    ensures r'.InRange() && Refines(extra, r, c, r')
  {
    hide Val, Accumulate, Lo, Hi, Over, Judge, DueChecksum, LooksLikePrefix, Encode, Checksum;
    var f := Attempt(r) + [c];
    FrameComplete(extra, r, c);
    JudgeByTest(extra, Attempt(r), c);
    FrameOfPacketOf(extra, f);
    assert f[6..|f| - 2] == r'.rx.payload[..Val(r'.rx.len)];
    assert PacketOf(f) == MessagePacket(r'.rx);
    DueChecksumStable(extra, Attempt(r), c);
    EncodeParts(extra, PacketOf(f));
    StoredWire(r, c, r');
  }

  /** With the second checksum byte stored, the message in memory begins with the bytes received. */
  lemma StoredWire(r: Receiver, c: bv8, r': Receiver)
    requires r.InRange() && r.state.GotCrc1? && r.rx.magic == STX && r.packetIdx == Val(r.rx.len)
    requires r' == r.(rx := r.rx.(payload := r.rx.payload[r.packetIdx + 1 := c]), state := Idle, msgReceived := true)
    ensures r'.InRange() && Returned(r'.rx) == Attempt(r) + [c]
  {
    hide Val;
    var n := r.packetIdx;
    assert r'.rx.payload[..n + 2] == r.rx.payload[..n + 1] + [c];
  }

  /** Every byte moves the receiver exactly as the recogniser judges it. */
  lemma AdvanceRefines(extra: ExtraTable, r: Receiver, c: bv8)
    requires Consistent(extra, r) && !r.msgReceived
    ensures Advance(extra, r, c).InRange() && Refines(extra, r, c, Advance(extra, r, c))
  {
    hide *;
    match r.state
    case Uninit | Idle => RefinesIdle(extra, r, c);
    case GotStx | GotLength | GotSeq | GotSysid | GotCompid => RefinesHeader(extra, r, c);
    case GotMsgid => RefinesPayload(extra, r, c);
    case GotPayload => RefinesChecksumLow(extra, r, c);
    case GotCrc1 => RefinesChecksumHigh(extra, r, c);
  }

  /** The invariants and the attempt do not depend on the counters. */
  lemma CountersAside(extra: ExtraTable, r: Receiver, r': Receiver)
    requires Consistent(extra, r) && r'.InRange() && r'.parseError == r.parseError
    requires r'.state == r.state && r'.packetIdx == r.packetIdx && r'.rx == r.rx
    ensures Consistent(extra, r') && Attempt(r') == Attempt(r)
  {
    hide Val, Accumulate, Lo, Hi, Over, DueChecksum;
  }

  lemma AttemptAside(r: Receiver, r': Receiver)
    requires r.InRange() && r'.InRange()
    requires r'.state == r.state && r'.packetIdx == r.packetIdx && r'.rx == r.rx
    ensures Attempt(r') == Attempt(r)
  {}

  /** The same for one whole call, with what it reports: 1 exactly when a frame is complete, one
      error exactly when an attempt is given up. */
  lemma StepRefines(extra: ExtraTable, r: Receiver, c: bv8)
    requires Consistent(extra, r)
    ensures Consistent(extra, Step(extra, r, c).0)
    ensures Attempt(Step(extra, r, c).0) == Continue(Attempt(r), c, Judge(extra, Attempt(r), c))
    ensures Step(extra, r, c).1.received == Judge(extra, Attempt(r), c).Accepted?
    ensures Step(extra, r, c).1.dropCount
      == (if Judge(extra, Attempt(r), c).Restarted? || Judge(extra, Attempt(r), c).Dropped? then 1 else 0)
    ensures Step(extra, r, c).1.received ==>
      Attempt(r) + [c] == Encode(extra, MessagePacket(Step(extra, r, c).0.rx)) == Returned(Step(extra, r, c).0.rx)
    ensures Step(extra, r, c).1.received ==>
      Step(extra, r, c).0.rx.checksum == Checksum(extra, MessagePacket(Step(extra, r, c).0.rx))
    ensures Step(extra, r, c).1.received ==>
      Step(extra, r, c).1.nextSeq == MessagePacket(Step(extra, r, c).0.rx).seqNo + 1
    ensures Step(extra, r, c).0.successCount
      == (if Step(extra, r, c).1.received then U16(r.successCount + 1) else r.successCount)
  {
    hide Consistent, Attempt, Judge, Advance, Encode, Returned, Checksum;
    var r0 := r.(msgReceived := false);
    CountersAside(extra, r, r0);
    AdvanceInRange(extra, r0, c);
    AdvanceRefines(extra, r0, c);
    var r1 := Advance(extra, r0, c).(parseError := 0);
    assert Step(extra, r, c).0 == Count(r1);
    CountersAside(extra, r1, Step(extra, r, c).0);
    AttemptAside(Advance(extra, r0, c), r1);
  }

  /** The attempt is empty exactly outside an attempt, and never as long as the longest frame. */
  lemma AttemptSize(extra: ExtraTable, r: Receiver)
    requires Consistent(extra, r)
    ensures Attempt(r) == [] <==> !InAttempt(r)
    ensures |Attempt(r)| < 263
    ensures InAttempt(r) ==> Attempt(r)[0] == STX
  {
    hide Val, Accumulate, Over, DueChecksum;
  }
}
