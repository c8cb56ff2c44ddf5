/** Which transmission errors the receiver catches. */
module ParserErrors {
  import opened Bytes
  import opened Crc
  import opened Frame
  import opened Parser
  import opened ParserRefinement
  import opened ParserRuns
  import opened ParserRoundTrip

  // ---- Frame-shaped bytes: a start mark and as many bytes as the length byte announces ----

  predicate FrameShaped(b: seq<bv8>) {
    |b| >= 2 && b[0] == STX && |b| == FrameLength(b)
  }

  /** The bytes under the checksum, the extra byte, and the checksum. */
  function Checked(extra: ExtraTable, b: seq<bv8>): (c: seq<bv8>)
    requires FrameShaped(b)
    ensures |c| == |b|
  {
    b[1..|b| - 2] + [extra(b[5])] + b[|b| - 2..]
  }

  /** Frame-shaped bytes are a frame exactly when the checksum over all of it comes out as zero. */
  lemma ResidueOfFrame(extra: ExtraTable, b: seq<bv8>)
    requires FrameShaped(b)
    ensures Over(INIT, Checked(extra, b)) == 0 <==> IsFrame(extra, b)
  {
    hide Accumulate, Lo, Hi, Val, Over;
    var n := |b|;
    var body := b[1..n - 2] + [extra(b[5])];
    OverConcat(INIT, body, b[n - 2..]);
    OverSnoc(INIT, b[1..n - 2], extra(b[5]));
    assert b[n - 2..] == [b[n - 2], b[n - 1]];
    ResidueZeroIffChecksum(Over(INIT, body), b[n - 2], b[n - 1]);
    FrameTestExact(extra, b);
  }

  lemma {:induction false} ShapedInProgress(extra: ExtraTable, r: Receiver, s: seq<bv8>, b: seq<bv8>, k: nat)
    requires Consistent(extra, r) && Between(Run(extra, r, s))
    requires FrameShaped(b) && k <= |b| - 2
    ensures Attempt(Run(extra, r, s + b[..k])) == b[..k]
    ensures Deliveries(extra, r, s + b[..k]) == Deliveries(extra, r, s)
    ensures ReportedDrops(extra, r, s + b[..k]) == ReportedDrops(extra, r, s)
    decreases k
  {
    hide Consistent, Run, Deliveries, ReportedDrops, Attempt, InAttempt, Judge, Encode;
    RunConsistent(extra, r, s);
    if k == 0 {
      assert s + b[..0] == s;
      AttemptSize(extra, Run(extra, r, s));
    } else {
      ShapedInProgress(extra, r, s, b, k - 1);
      assert b[..k - 1] + [b[k - 1]] == b[..k];
      assert s + b[..k] == (s + b[..k - 1]) + [b[k - 1]];
      ShapedJudged(extra, b, k - 1);
      RunStep(extra, r, s + b[..k - 1], b[k - 1]);
    }
  }

  lemma ShapedJudged(extra: ExtraTable, b: seq<bv8>, k: nat)
    requires FrameShaped(b) && k < |b| - 2
    ensures Judge(extra, b[..k], b[k]) == (if k == 0 then Started else Extended)
    ensures k == 0 ==> b[..1] == [STX]
  {
    hide Val, DueChecksum, Lo, Hi;
    assert b[..k] + [b[k]] == b[..k + 1];
    if k > 0 {
      JudgeByTest(extra, b[..k], b[k]);
    }
  }

  /** The judgement of the two checksum bytes of bytes that are not a frame. */
  lemma BadChecksumJudged(extra: ExtraTable, b: seq<bv8>)
    requires FrameShaped(b) && !IsFrame(extra, b)
    ensures var v := Judge(extra, b[..|b| - 2], b[|b| - 2]);
      && v in {Extended, Restarted, Dropped}
      && (v == Extended ==> Judge(extra, b[..|b| - 1], b[|b| - 1]) in {Restarted, Dropped})
  {
    hide Val, DueChecksum, Lo, Hi, Accumulate, IsFrame;
    var n := |b|;
    assert b[..n - 2] + [b[n - 2]] == b[..n - 1];
    assert b[..n - 1] + [b[n - 1]] == b;
    JudgeByTest(extra, b[..n - 2], b[n - 2]);
    JudgeByTest(extra, b[..n - 1], b[n - 1]);
    FrameTestExact(extra, b);
  }

  /** A byte that follows a byte on which an attempt was given up causes neither a delivery nor an error. */
  lemma AfterRejection(extra: ExtraTable, a: seq<bv8>, c: bv8)
    requires a == [] || a == [STX]
    ensures Judge(extra, a, c) in {Ignored, Started, Extended}
  {
    hide Val, DueChecksum, Lo, Hi, Accumulate;
    if a != [] {
      JudgeByTest(extra, a, c);
      assert !(|a + [c]| > FrameLength(a + [c]) - 2);
    }
  }

  lemma ShapedLength(b: seq<bv8>)
    requires FrameShaped(b)
    ensures |b| >= NUM_NON_PAYLOAD_BYTES
  {}

  /** The last two bytes, whichever of them is found wrong. */
  lemma BadChecksumFed(extra: ExtraTable, r: Receiver, t: seq<bv8>, b: seq<bv8>, a: seq<bv8>, x: bv8, y: bv8)
    requires Consistent(extra, r) && FrameShaped(b) && !IsFrame(extra, b)
    requires b == a + [x] + [y] && Attempt(Run(extra, r, t)) == a
    ensures Deliveries(extra, r, t + [x] + [y]) == Deliveries(extra, r, t)
    ensures ReportedDrops(extra, r, t + [x] + [y]) == ReportedDrops(extra, r, t) + 1
  {
    hide Consistent, Run, Deliveries, ReportedDrops, Attempt, Judge, Encode, IsFrame, FrameShaped;
    var n := |b|;
    assert a == b[..n - 2] && a + [x] == b[..n - 1];
    BadChecksumJudged(extra, b);
    RunStep(extra, r, t, x);
    RunStep(extra, r, t + [x], y);
    if !Judge(extra, a, x).Extended? {
      AfterRejection(extra, Attempt(Run(extra, r, t + [x])), y);
    }
  }

  /** Frame-shaped bytes that are not a frame: no delivery on any of them, and exactly one error. */
  lemma NotAFrame(extra: ExtraTable, r: Receiver, s: seq<bv8>, b: seq<bv8>)
    requires Consistent(extra, r) && Between(Run(extra, r, s))
    requires FrameShaped(b) && !IsFrame(extra, b)
    ensures Deliveries(extra, r, s + b) == Deliveries(extra, r, s)
    ensures ReportedDrops(extra, r, s + b) == ReportedDrops(extra, r, s) + 1
  {
    hide Consistent, Run, Deliveries, ReportedDrops, Attempt, InAttempt, IsFrame, FrameShaped;
    ShapedLength(b);
    var n := |b|;
    var a, x, y := b[..n - 2], b[n - 2], b[n - 1];
    assert b == a + [x] + [y];
    assert s + b == s + a + [x] + [y];
    ShapedInProgress(extra, r, s, b, n - 2);
    BadChecksumFed(extra, r, s + a, b, a, x, y);
  }

  // ---- Corrupted frames ----

  /** The error leaves start mark and length alone. */
  predicate KeepsFraming(e: seq<bv8>) {
    |e| >= NUM_NON_PAYLOAD_BYTES && e[0] == 0 && e[1] == 0
  }

  /** How the extra byte changes when the message type `msgid` is received with the error `x`. The
      extra byte itself is not sent. */
  function ExtraError(extra: ExtraTable, msgid: bv8, x: bv8): bv8 {
    extra(msgid) ^ extra(msgid ^ x)
  }

  /** What the checksum sees of an error in a frame of type `msgid`, extra byte included. */
  function ErrorSeen(extra: ExtraTable, msgid: bv8, e: seq<bv8>): (d: seq<bv8>)
    requires KeepsFraming(e)
    ensures |d| == |e|
  {
    e[1..|e| - 2] + [ExtraError(extra, msgid, e[5])] + e[|e| - 2..]
  }

  function Syndrome(extra: ExtraTable, msgid: bv8, e: seq<bv8>): bv16
    requires KeepsFraming(e)
  {
    Over(0, ErrorSeen(extra, msgid, e))
  }

  /** Flipping nothing in a byte leaves it alone. */
  lemma FlipAt(f: seq<bv8>, e: seq<bv8>, i: nat)
    requires |f| == |e| && i < |e| && e[i] == 0
    ensures Flip(f, e)[i] == f[i]
  {}

  lemma FlipParts(x: seq<bv8>, y: seq<bv8>, d: seq<bv8>, e: seq<bv8>)
    requires |x| == |d| && |y| == |e|
    ensures Flip(x + y, d + e) == Flip(x, d) + Flip(y, e)
  {}

  lemma FlipSlice(f: seq<bv8>, e: seq<bv8>, i: nat, j: nat)
    requires |f| == |e| && i <= j <= |f|
    ensures Flip(f, e)[i..j] == Flip(f[i..j], e[i..j])
  {}

  lemma FlipTwice(x: bv8, y: bv8)
    ensures x ^ (x ^ y) == y
  {}

  lemma FlipExtra(extra: ExtraTable, msgid: bv8, x: bv8)
    ensures Flip([extra(msgid)], [ExtraError(extra, msgid, x)]) == [extra(msgid ^ x)]
  {
    FlipTwice(extra(msgid), extra(msgid ^ x));
  }

  lemma FlipShaped(f: seq<bv8>, e: seq<bv8>)
    requires FrameShaped(f) && |e| == |f| && KeepsFraming(e)
    ensures FrameShaped(Flip(f, e)) && Flip(f, e)[5] == f[5] ^ e[5]
  {
    hide Val;
    FlipAt(f, e, 0);
    FlipAt(f, e, 1);
  }

  lemma FlipChecked(extra: ExtraTable, f: seq<bv8>, e: seq<bv8>)
    requires FrameShaped(f) && |e| == |f| && KeepsFraming(e)
    ensures FrameShaped(Flip(f, e))
    ensures Checked(extra, Flip(f, e)) == Flip(Checked(extra, f), ErrorSeen(extra, f[5], e))
  {
    hide Flip, Val, FrameShaped, ExtraError;
    FlipShaped(f, e);
    var n, d := |f|, ExtraError(extra, f[5], e[5]);
    FlipSlice(f, e, 1, n - 2);
    FlipSlice(f, e, n - 2, n);
    assert f[n - 2..n] == f[n - 2..] && e[n - 2..n] == e[n - 2..] && Flip(f, e)[n - 2..n] == Flip(f, e)[n - 2..];
    FlipExtra(extra, f[5], e[5]);
    FlipParts(f[1..n - 2], [extra(f[5])], e[1..n - 2], [d]);
    FlipParts(f[1..n - 2] + [extra(f[5])], f[n - 2..], e[1..n - 2] + [d], e[n - 2..]);
  }

  lemma FrameIsShaped(extra: ExtraTable, p: Packet)
    requires p.Fits()
    ensures FrameShaped(Encode(extra, p)) && Encode(extra, p)[5] == p.msgid
  {
    hide Encode;
    EncodeParts(extra, p);
  }

  /** The corrupted bytes are a frame again exactly when the error has syndrome zero. */
  lemma SyndromeDecides(extra: ExtraTable, p: Packet, e: seq<bv8>)
    requires p.Fits() && |e| == |Encode(extra, p)| && KeepsFraming(e)
    ensures FrameShaped(Flip(Encode(extra, p), e))
    ensures IsFrame(extra, Flip(Encode(extra, p), e)) <==> Syndrome(extra, p.msgid, e) == 0
  {
    hide Encode, Over, Xor, IsFrame, Checked, FrameShaped, ErrorSeen;
    var f := Encode(extra, p);
    FrameIsShaped(extra, p);
    FlipChecked(extra, f, e);
    IsOwnFrame(extra, p);
    ResidueOfFrame(extra, f);
    ResidueOfFrame(extra, Flip(f, e));
    var syndrome := Syndrome(extra, p.msgid, e);
    ErrorSyndrome(INIT, 0, Checked(extra, f), ErrorSeen(extra, p.msgid, e));
    XorLaws(INIT, 0);
    XorLaws(syndrome, 0);
    XorCommutes(syndrome, 0);
  }

  lemma IsOwnFrame(extra: ExtraTable, p: Packet)
    requires p.Fits()
    ensures IsFrame(extra, Encode(extra, p))
  {}

  /** Any error that leaves start mark and length alone, of any weight: the receiver delivers nothing and
      reports exactly one error if and only if the error's syndrome is not zero; otherwise it
      delivers the packet that the corrupted bytes carry. */
  lemma CorruptionDetectedIff(extra: ExtraTable, r: Receiver, s: seq<bv8>, p: Packet, e: seq<bv8>)
    requires Consistent(extra, r) && Between(Run(extra, r, s))
    requires p.Fits() && |e| == |Encode(extra, p)| && KeepsFraming(e)
    ensures FrameShaped(Flip(Encode(extra, p), e))
    ensures var t := s + Flip(Encode(extra, p), e);
      if Syndrome(extra, p.msgid, e) != 0 then
        && Deliveries(extra, r, t) == Deliveries(extra, r, s)
        && ReportedDrops(extra, r, t) == ReportedDrops(extra, r, s) + 1
      else
        && Deliveries(extra, r, t) == Deliveries(extra, r, s) + [Delivery(|t|, PacketOf(Flip(Encode(extra, p), e)))]
        && ReportedDrops(extra, r, t) == ReportedDrops(extra, r, s)
  {
    hide Encode, Syndrome, Consistent, Between, Run, Deliveries, ReportedDrops, FrameShaped;
    var f' := Flip(Encode(extra, p), e);
    SyndromeDecides(extra, p, e);
    if Syndrome(extra, p.msgid, e) == 0 {
      var q: Packet :| q.Fits() && f' == Encode(extra, q);
      EncodeParts(extra, q);
      FrameDelivered(extra, r, s, q);
    } else {
      hide IsFrame;
      NotAFrame(extra, r, s, f');
    }
  }

  /** An error confined to one byte or to two neighbouring bytes. */
  predicate ShortBurst(e: seq<bv8>, i: nat) {
    && i + 1 < |e|
    && (e[i] != 0 || e[i + 1] != 0)
    && (forall k :: 0 <= k < |e| && k != i && k != i + 1 ==> e[k] == 0)
  }

  /** The one short burst without a syndrome: it hits the last payload byte and the first checksum
      byte, between which the checksum has taken in the extra byte. */
  predicate Escapes(e: seq<bv8>, i: nat) {
    i + 1 < |e| && i == |e| - 3 && e[i] == 0x91 && e[i + 1] == 0x85
  }

  lemma NoExtraError(extra: ExtraTable, msgid: bv8)
    ensures ExtraError(extra, msgid, 0) == 0
  {
    var x := extra(msgid);
    assert msgid ^ 0 == msgid && x ^ x == 0;
  }

  lemma ShortBurstSyndromes(extra: ExtraTable, msgid: bv8, e: seq<bv8>, i: nat)
    requires KeepsFraming(e) && e[5] == 0 && ShortBurst(e, i)
    ensures Syndrome(extra, msgid, e) == 0 <==> Escapes(e, i)
  {
    hide Over, ExtraError;
    NoExtraError(extra, msgid);
    var n := |e|;
    var e' := ErrorSeen(extra, msgid, e);
    if i < n - 3 {
      assert e' == Zeros(i - 1) + [e[i], e[i + 1]] + Zeros(n - 1 - i);
      ShortBurstSyndrome(i - 1, e[i], e[i + 1], n - 1 - i);
    } else if i == n - 2 {
      assert e' == Zeros(n - 2) + [e[i], e[i + 1]] + Zeros(0);
      ShortBurstSyndrome(n - 2, e[i], e[i + 1], 0);
    } else {
      assert e' == Zeros(n - 4) + [e[i], 0, e[i + 1]] + Zeros(1);
      GappedPairSyndrome(n - 4, e[i], e[i + 1], 1);
    }
  }

  /** End to end: a receiver fed a frame with one wrong byte or two neighbouring wrong bytes (not in
      start mark, length or message type) delivers nothing on it and reports exactly one error, for
      every such error but one; that one makes it deliver a wrong packet. */
  lemma ShortBurstsDetectedIff(extra: ExtraTable, r: Receiver, s: seq<bv8>, p: Packet, e: seq<bv8>, i: nat)
    requires Consistent(extra, r) && Between(Run(extra, r, s))
    requires p.Fits() && |e| == |Encode(extra, p)| && KeepsFraming(e) && e[5] == 0 && ShortBurst(e, i)
    ensures var t := s + Flip(Encode(extra, p), e);
      if !Escapes(e, i) then
        && Deliveries(extra, r, t) == Deliveries(extra, r, s)
        && ReportedDrops(extra, r, t) == ReportedDrops(extra, r, s) + 1
      else
        && |Deliveries(extra, r, t)| == |Deliveries(extra, r, s)| + 1
        && ReportedDrops(extra, r, t) == ReportedDrops(extra, r, s)
  {
    hide *;
    ShortBurstSyndromes(extra, p.msgid, e, i);
    CorruptionDetectedIff(extra, r, s, p, e);
  }

  /** The pattern that escapes, for a frame of `n` bytes. */
  function EscapingError(n: nat): (e: seq<bv8>)
    requires n > NUM_NON_PAYLOAD_BYTES
    ensures |e| == n && KeepsFraming(e) && e[5] == 0 && ShortBurst(e, n - 3) && Escapes(e, n - 3)
  {
    Zeros(n - 3) + [0x91, 0x85, 0]
  }

  function Spoilt(x: bv8): bv8 { x ^ 0x91 }

  /** The packet with that error in its last payload byte. */
  function LastByteWrong(p: Packet): Packet
    requires p.payload != []
  {
    var n := |p.payload| - 1;
    p.(payload := p.payload[n := Spoilt(p.payload[n])])
  }

  lemma EscapingFlip(f: seq<bv8>)
    requires |f| > NUM_NON_PAYLOAD_BYTES
    ensures var n := |f| - 3;
      Flip(f, EscapingError(|f|)) == f[..n] + [Spoilt(f[n]), f[n + 1] ^ 0x85, f[n + 2]]
  {
    var n, e := |f| - 3, EscapingError(|f|);
    assert e[n] == 0x91 && e[n + 1] == 0x85;
    forall i | 0 <= i < |f| && i != n && i != n + 1 ensures Flip(f, e)[i] == f[i] {
      FlipAt(f, e, i);
    }
  }

  /** Replacing the last payload byte and the first checksum byte. */
  lemma PacketWithLast(f: seq<bv8>, x: bv8, y: bv8)
    requires FrameShaped(f) && |f| > NUM_NON_PAYLOAD_BYTES
    ensures var p, n := PacketOf(f), |f| - 3;
      var f' := f[..n] + [x, y, f[n + 2]];
      && p.payload != [] && p.payload[|p.payload| - 1] == f[n] && FrameShaped(f')
      && PacketOf(f') == p.(payload := p.payload[|p.payload| - 1 := x])
  {
    hide Val;
    var p, n := PacketOf(f), |f| - 3;
    var f' := f[..n] + [x, y, f[n + 2]];
    assert f'[6..|f| - 2] == f[6..|f| - 2][n - 6 := x];
  }

  lemma EscapingPacket(f: seq<bv8>)
    requires FrameShaped(f) && |f| > NUM_NON_PAYLOAD_BYTES
    ensures FrameShaped(Flip(f, EscapingError(|f|)))
    ensures PacketOf(f).payload != []
    ensures PacketOf(Flip(f, EscapingError(|f|))) == LastByteWrong(PacketOf(f))
  {
    hide Val, Flip, EscapingError, Spoilt, FrameShaped, PacketOf;
    var n := |f| - 3;
    EscapingFlip(f);
    PacketWithLast(f, Spoilt(f[n]), f[n + 1] ^ 0x85);
  }

  /** On every frame with a payload that pattern is delivered: as the packet sent, with a wrong last
      payload byte. */
  lemma WrongPacketDelivered(extra: ExtraTable, r: Receiver, s: seq<bv8>, p: Packet)
    requires Consistent(extra, r) && Between(Run(extra, r, s)) && p.Fits() && p.payload != []
    ensures var t := s + Flip(Encode(extra, p), EscapingError(|Encode(extra, p)|));
      Deliveries(extra, r, t) == Deliveries(extra, r, s) + [Delivery(|t|, LastByteWrong(p))]
  {
    hide Encode, Syndrome, Consistent, Between, Run, Deliveries, ReportedDrops, FrameShaped, Flip, PacketOf;
    hide KeepsFraming, ShortBurst, Escapes, EscapingError, LastByteWrong;
    var f := Encode(extra, p);
    FrameIsShaped(extra, p);
    EncodeParts(extra, p);
    ShortBurstSyndromes(extra, p.msgid, EscapingError(|f|), |f| - 3);
    CorruptionDetectedIff(extra, r, s, p, EscapingError(|f|));
    EscapingPacket(f);
  }
}
