/** Streams of frames come back as the packets that were put in, and a receiver that has lost the
    thread finds it again. */
module ParserRoundTrip {
  import opened Bytes
  import opened Crc
  import opened Frame
  import opened Parser
  import opened ParserRefinement
  import opened ParserRuns

  predicate Quiet(s: seq<bv8>) { STX !in s }

  /** Between frames: no attempt is under way. */
  predicate Between(r: Receiver) { r.InRange() && !InAttempt(r) }

  /** Bytes without a start mark leave a receiver between frames as it is. */
  lemma {:induction false} NoiseIgnored(extra: ExtraTable, r: Receiver, s: seq<bv8>, z: seq<bv8>)
    requires Consistent(extra, r) && Between(Run(extra, r, s)) && Quiet(z)
    ensures Between(Run(extra, r, s + z))
    ensures Deliveries(extra, r, s + z) == Deliveries(extra, r, s)
    ensures ReportedDrops(extra, r, s + z) == ReportedDrops(extra, r, s)
    decreases |z|
  {
    hide Consistent, Run, Deliveries, ReportedDrops, Attempt, InAttempt, IsFrame, IsFramePrefix;
    if z == [] {
      assert s + z == s;
    } else {
      var front, c := z[..|z| - 1], z[|z| - 1];
      NoiseIgnored(extra, r, s, front);
      assert s + z == (s + front) + [c];
      RunStep(extra, r, s + front, c);
      AttemptSize(extra, Run(extra, r, s + front));
      AttemptSize(extra, Run(extra, r, s + z));
    }
  }

  lemma JudgeFrame(extra: ExtraTable, p: Packet, k: nat)
    requires p.Fits() && k < |Encode(extra, p)|
    ensures var f := Encode(extra, p);
      var v := Judge(extra, f[..k], f[k]);
      && f[..k] + [f[k]] == f[..k + 1]
      && (if k == 0 then v == Started && f[..1] == [STX]
          else if k == |f| - 1 then v == Accepted
          else v == Extended)
  {
    hide Encode;
    EncodeParts(extra, p);
    var f := Encode(extra, p);
    assert f[..k] + [f[k]] == f[..k + 1];
    if k == |f| - 1 {
      assert f[..k + 1] == f;
    } else if IsFrame(extra, f[..k + 1]) {
      var q: Packet :| q.Fits() && f[..k + 1] == Encode(extra, q);
      PrefixFree(extra, q, p);
    }
    assert f[..k + 1] <= f;
  }

  /** A start mark begins a frame here: no attempt is under way, or the one under way cannot go on with
      a start mark. */
  ghost predicate StartTaken(extra: ExtraTable, r: Receiver)
    requires r.InRange()
  {
    Attempt(r) == [] || !IsFramePrefix(extra, Attempt(r) + [STX])
  }

  function GivenUp(r: Receiver): nat
    requires r.InRange()
  {
    if Attempt(r) == [] then 0 else 1
  }

  lemma StartJudged(extra: ExtraTable, a: seq<bv8>)
    requires a == [] || !IsFramePrefix(extra, a + [STX])
    ensures Judge(extra, a, STX) == if a == [] then Started else Restarted
  {
    hide LooksLikePrefix, IsFrame, IsFramePrefix;
    PrefixTestExact(extra, a + [STX]);
    FrameTestExact(extra, a + [STX]);
  }

  /** Inside a frame the attempt is what has arrived of it; an attempt given up for it is reported once. */
  lemma {:induction false} FrameInProgress(extra: ExtraTable, r: Receiver, s: seq<bv8>, p: Packet, k: nat)
    requires Consistent(extra, r) && StartTaken(extra, Run(extra, r, s))
    requires p.Fits() && 0 < k < |Encode(extra, p)|
    ensures Attempt(Run(extra, r, s + Encode(extra, p)[..k])) == Encode(extra, p)[..k]
    ensures Deliveries(extra, r, s + Encode(extra, p)[..k]) == Deliveries(extra, r, s)
    ensures ReportedDrops(extra, r, s + Encode(extra, p)[..k])
      == ReportedDrops(extra, r, s) + GivenUp(Run(extra, r, s))
    decreases k
  {
    hide Consistent, Run, Deliveries, ReportedDrops, Attempt, InAttempt, Judge, Encode, IsFramePrefix;
    var f := Encode(extra, p);
    JudgeFrame(extra, p, k - 1);
    if k == 1 {
      JudgeFrame(extra, p, 0);
      StartJudged(extra, Attempt(Run(extra, r, s)));
      assert f[..1] == [STX] && s + f[..1] == s + [STX];
      RunStep(extra, r, s, STX);
    } else {
      FrameInProgress(extra, r, s, p, k - 1);
      assert s + f[..k] == (s + f[..k - 1]) + [f[k - 1]];
      RunStep(extra, r, s + f[..k - 1], f[k - 1]);
    }
  }

  /** A frame is delivered, on its last byte and unchanged, to every receiver that takes its start mark
      as one: also in the middle of an attempt that the start mark ends, which is then reported. */
  lemma FrameDeliveredAfter(extra: ExtraTable, r: Receiver, s: seq<bv8>, p: Packet)
    requires Consistent(extra, r) && StartTaken(extra, Run(extra, r, s)) && p.Fits()
    ensures Between(Run(extra, r, s + Encode(extra, p)))
    ensures Deliveries(extra, r, s + Encode(extra, p))
      == Deliveries(extra, r, s) + [Delivery(|s + Encode(extra, p)|, p)]
    ensures ReportedDrops(extra, r, s + Encode(extra, p)) == ReportedDrops(extra, r, s) + GivenUp(Run(extra, r, s))
  {
    hide Consistent, Run, Deliveries, ReportedDrops, Attempt, InAttempt, Judge, Encode, StartTaken, GivenUp;
    var f := Encode(extra, p);
    var n := |f| - 1;
    FrameInProgress(extra, r, s, p, n);
    JudgeFrame(extra, p, n);
    assert f == f[..n + 1];
    assert s + f == (s + f[..n]) + [f[n]];
    RunStep(extra, r, s + f[..n], f[n]);
    PrefixFree(extra, p, MessagePacket(Run(extra, r, s + f).rx));
    AttemptSize(extra, Run(extra, r, s + f));
  }

  /** A frame fed to a receiver between frames is delivered, on its last byte and unchanged. */
  lemma FrameDelivered(extra: ExtraTable, r: Receiver, s: seq<bv8>, p: Packet)
    requires Consistent(extra, r) && Between(Run(extra, r, s)) && p.Fits()
    ensures Between(Run(extra, r, s + Encode(extra, p)))
    ensures Deliveries(extra, r, s + Encode(extra, p))
      == Deliveries(extra, r, s) + [Delivery(|s + Encode(extra, p)|, p)]
    ensures ReportedDrops(extra, r, s + Encode(extra, p)) == ReportedDrops(extra, r, s)
  {
    hide Consistent, Run, Deliveries, ReportedDrops, Attempt, InAttempt, Encode;
    RunConsistent(extra, r, s);
    AttemptSize(extra, Run(extra, r, s));
    FrameDeliveredAfter(extra, r, s, p);
  }

  lemma WrongStart(extra: ExtraTable, a: seq<bv8>)
    requires |a| >= 2 && |a| == FrameLength(a) - 2 && Lo(DueChecksum(extra, a)) != STX
    ensures !IsFramePrefix(extra, a + [STX])
  {
    hide Val, Lo, DueChecksum;
    DueChecksumStable(extra, a, STX);
    PrefixTestExact(extra, a + [STX]);
  }

  /** In particular where the first checksum byte is due: if a start mark comes instead, the frame it
      begins is not lost. */
  lemma ResyncDelivers(extra: ExtraTable, r: Receiver, s: seq<bv8>, a: seq<bv8>, p: Packet)
    requires Consistent(extra, r) && p.Fits() && Attempt(Run(extra, r, s)) == a
    requires |a| >= 2 && |a| == FrameLength(a) - 2 && Lo(DueChecksum(extra, a)) != STX
    ensures Deliveries(extra, r, s + Encode(extra, p))
      == Deliveries(extra, r, s) + [Delivery(|s + Encode(extra, p)|, p)]
    ensures ReportedDrops(extra, r, s + Encode(extra, p)) == ReportedDrops(extra, r, s) + 1
  {
    hide Consistent, Run, Deliveries, ReportedDrops, Attempt, Encode, DueChecksum, Lo, FrameLength, IsFramePrefix;
    WrongStart(extra, a);
    FrameDeliveredAfter(extra, r, s, p);
  }

  // ---- Streams ----

  /** A frame with the noise before it. */
  datatype Item = Item(noise: seq<bv8>, packet: Packet)

  ghost predicate Sendable(items: seq<Item>) {
    forall i :: 0 <= i < |items| ==> Quiet(items[i].noise) && items[i].packet.Fits()
  }

  function Stream(extra: ExtraTable, items: seq<Item>): seq<bv8>
    requires Sendable(items)
  {
    if items == [] then []
    else
      var last := items[|items| - 1];
      Stream(extra, items[..|items| - 1]) + last.noise + Encode(extra, last.packet)
  }

  /** One delivery for each item, at the end of its frame; the stream starts after `base` bytes. */
  function Expected(extra: ExtraTable, items: seq<Item>, base: nat): seq<Delivery>
    requires Sendable(items)
  {
    if items == [] then []
    else
      Expected(extra, items[..|items| - 1], base)
      + [Delivery(base + |Stream(extra, items)|, items[|items| - 1].packet)]
  }

  /** Whatever has been fed before: once the receiver is between frames, a stream of frames with
      start-mark-free noise around them is delivered exactly, in order, each on its last byte,
      with no error reported. */
  lemma {:induction false} StreamDelivered(extra: ExtraTable, r: Receiver, s: seq<bv8>, items: seq<Item>)
    requires Consistent(extra, r) && Between(Run(extra, r, s)) && Sendable(items)
    ensures Between(Run(extra, r, s + Stream(extra, items)))
    ensures Deliveries(extra, r, s + Stream(extra, items))
      == Deliveries(extra, r, s) + Expected(extra, items, |s|)
    ensures ReportedDrops(extra, r, s + Stream(extra, items)) == ReportedDrops(extra, r, s)
    decreases |items|
  {
    hide Consistent, Run, Deliveries, ReportedDrops, Between, Encode;
    if items == [] {
      assert s + Stream(extra, items) == s;
    } else {
      var front, last := items[..|items| - 1], items[|items| - 1];
      StreamDelivered(extra, r, s, front);
      var t := s + Stream(extra, front);
      var u := t + last.noise;
      var v := u + Encode(extra, last.packet);
      assert s + Stream(extra, items) == v;
      NoiseIgnored(extra, r, t, last.noise);
      FrameDelivered(extra, r, u, last.packet);
      assert Expected(extra, items, |s|) == Expected(extra, front, |s|) + [Delivery(|v|, last.packet)];
    }
  }

  lemma {:induction false} ExpectedPackets(extra: ExtraTable, items: seq<Item>, base: nat)
    requires Sendable(items)
    ensures |Expected(extra, items, base)| == |items|
    ensures forall i :: 0 <= i < |items| ==> Expected(extra, items, base)[i].packet == items[i].packet
  {
    hide Encode;
    if items != [] {
      ExpectedPackets(extra, items[..|items| - 1], base);
    }
  }

  // ---- Self-stabilisation ----

  /** While no start mark comes, an attempt only grows or ends. */
  lemma {:induction false} AttemptGrowsOrEnds(extra: ExtraTable, r: Receiver, s: seq<bv8>, z: seq<bv8>)
    requires Consistent(extra, r) && Quiet(z)
    ensures Between(Run(extra, r, s + z)) || Attempt(Run(extra, r, s + z)) == Attempt(Run(extra, r, s)) + z
    decreases |z|
  {
    hide Consistent, Run, Attempt, InAttempt, IsFrame, IsFramePrefix, Deliveries, ReportedDrops;
    RunConsistent(extra, r, s);
    if z == [] {
      assert s + z == s;
    } else {
      var front, c := z[..|z| - 1], z[|z| - 1];
      AttemptGrowsOrEnds(extra, r, s, front);
      assert s + z == (s + front) + [c];
      RunStep(extra, r, s + front, c);
      AttemptSize(extra, Run(extra, r, s + front));
      AttemptSize(extra, Run(extra, r, s + z));
    }
  }

  /** From any state, 262 bytes without a start mark leave the receiver between frames. */
  lemma QuietStabilises(extra: ExtraTable, r: Receiver, s: seq<bv8>, z: seq<bv8>)
    requires Consistent(extra, r) && Quiet(z) && |z| >= 262
    ensures Between(Run(extra, r, s + z))
  {
    hide Consistent, Run, Attempt, InAttempt;
    AttemptGrowsOrEnds(extra, r, s, z);
    RunConsistent(extra, r, s);
    RunConsistent(extra, r, s + z);
    AttemptSize(extra, Run(extra, r, s));
    AttemptSize(extra, Run(extra, r, s + z));
    if !Between(Run(extra, r, s + z)) {
      NeverFromBetween(extra, r, s, z);
    }
  }

  lemma NeverFromBetween(extra: ExtraTable, r: Receiver, s: seq<bv8>, z: seq<bv8>)
    requires Consistent(extra, r) && Quiet(z) && !Between(Run(extra, r, s + z))
    ensures InAttempt(Run(extra, r, s))
  {
    if Between(Run(extra, r, s)) {
      NoiseIgnored(extra, r, s, z);
    }
  }

  /** Recovery: whatever came first, after 262 quiet bytes every frame of a stream is delivered. */
  lemma Recovery(extra: ExtraTable, r: Receiver, junk: seq<bv8>, z: seq<bv8>, items: seq<Item>)
    requires Consistent(extra, r) && Quiet(z) && |z| >= 262 && Sendable(items)
    ensures Deliveries(extra, r, junk + z + Stream(extra, items))
      == Deliveries(extra, r, junk + z) + Expected(extra, items, |junk + z|)
  {
    QuietStabilises(extra, r, junk, z);
    StreamDelivered(extra, r, junk + z, items);
  }

  /** Every byte of `t` extends the attempt under way. */
  ghost predicate AllExtend(extra: ExtraTable, r: Receiver, t: seq<bv8>)
    requires r.InRange()
  {
    forall k :: 0 <= k < |t| ==> Judge(extra, Attempt(Run(extra, r, t[..k])), t[k]).Extended?
  }

  lemma FrontExtends(extra: ExtraTable, r: Receiver, t: seq<bv8>, c: bv8)
    requires r.InRange() && AllExtend(extra, r, t + [c])
    ensures AllExtend(extra, r, t) && Judge(extra, Attempt(Run(extra, r, t)), c).Extended?
  {
    hide Run, Attempt, Judge;
    forall k | 0 <= k < |t| ensures Judge(extra, Attempt(Run(extra, r, t[..k])), t[k]).Extended? {
      assert (t + [c])[..k] == t[..k] && (t + [c])[k] == t[k];
    }
    assert (t + [c])[..|t|] == t && (t + [c])[|t|] == c;
  }

  /** On any input, an attempt that holds `a` bytes is extended by fewer than 263 - a further
      bytes: the 262nd byte after a start mark, at the latest, ends the attempt. */
  lemma {:induction false} AttemptsEnd(extra: ExtraTable, r: Receiver, t: seq<bv8>)
    requires Consistent(extra, r) && InAttempt(r) && AllExtend(extra, r, t)
    ensures Attempt(Run(extra, r, t)) == Attempt(r) + t
    ensures |Attempt(r)| + |t| < 263
  {
    hide Consistent, Run, Attempt, InAttempt, Judge, Deliveries, ReportedDrops, AllExtend, Encode;
    RunConsistent(extra, r, t);
    if t == [] {
      RunNothing(extra, r);
    } else {
      var front, c := t[..|t| - 1], t[|t| - 1];
      assert t == front + [c];
      FrontExtends(extra, r, front, c);
      AttemptsEnd(extra, r, front);
      RunStep(extra, r, front, c);
    }
    AttemptSize(extra, Run(extra, r, t));
  }

  /** The bound is reached: 261 bytes after its start mark, the attempt at a frame with a full
      payload is still under way. */
  lemma BoundReached(extra: ExtraTable, r: Receiver, p: Packet)
    requires Consistent(extra, r) && Between(r) && |p.payload| == MAX_PAYLOAD_LEN
    ensures InAttempt(Run(extra, r, Encode(extra, p)[..262]))
  {
    hide Consistent, Run, Attempt, InAttempt, Encode;
    RunNothing(extra, r);
    AttemptSize(extra, r);
    FrameInProgress(extra, r, [], p, 262);
    var t := Encode(extra, p)[..262];
    assert [] + t == t;
    RunConsistent(extra, r, t);
    AttemptSize(extra, Run(extra, r, t));
  }
}
