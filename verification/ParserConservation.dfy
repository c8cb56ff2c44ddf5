/** Every start mark taken is accounted for. */
module ParserConservation {
  import opened Bytes
  import opened Crc
  import opened Frame
  import opened Parser
  import opened ParserRefinement
  import opened ParserRuns

  /** How often, over a run, a frame attempt was begun, ended well and ended badly. */
  datatype Tally = Tally(starts: nat, accepted: nat, rejected: nat)

  function One(b: bool): nat { if b then 1 else 0 }

  /** Counted on the parse states alone: entering GOT_STX begins an attempt; an attempt ends when
      the state leaves it or begins another. */
  function TallyOf(extra: ExtraTable, r: Receiver, s: seq<bv8>): Tally
    requires r.InRange()
  {
    if s == [] then Tally(0, 0, 0)
    else
      var t, p, p' := TallyOf(extra, r, s[..|s| - 1]), Run(extra, r, s[..|s| - 1]), Run(extra, r, s);
      var ended := InAttempt(p) && (!InAttempt(p') || p'.state.GotStx?);
      Tally(t.starts + One(p'.state.GotStx?),
            t.accepted + One(p'.msgReceived),
            t.rejected + One(ended && !p'.msgReceived))
  }

  lemma GotStxIsOneByte(extra: ExtraTable, r: Receiver)
    requires Consistent(extra, r)
    ensures r.state.GotStx? <==> |Attempt(r)| == 1
  {
    hide Val, Accumulate, Over, DueChecksum;
  }

  lemma ReceivedFlag(extra: ExtraTable, r: Receiver, c: bv8)
    requires r.InRange()
    ensures Step(extra, r, c).0.msgReceived == Step(extra, r, c).1.received
  {
    hide Advance;
  }

  lemma TallyNothing(extra: ExtraTable, r: Receiver)
    requires r.InRange()
    ensures TallyOf(extra, r, []) == Tally(0, 0, 0)
  {}

  /** One more byte: what each verdict does to the tally. */
  lemma TallyStep(extra: ExtraTable, r: Receiver, s: seq<bv8>, c: bv8)
    requires Consistent(extra, r)
    ensures var p := Run(extra, r, s);
      var v := Judge(extra, Attempt(p), c);
      var t := TallyOf(extra, r, s);
      && TallyOf(extra, r, s + [c]).starts == t.starts + One(v.Started? || v.Restarted?)
      && TallyOf(extra, r, s + [c]).accepted == t.accepted + One(v.Accepted?)
      && TallyOf(extra, r, s + [c]).rejected == t.rejected + One(v.Dropped? || v.Restarted?)
  {
    hide Consistent, Run, Step, Attempt, Encode, IsFrame, IsFramePrefix, Deliveries, ReportedDrops, LastReport;
    var p, p' := Run(extra, r, s), Run(extra, r, s + [c]);
    assert (s + [c])[..|s + [c]| - 1] == s;
    RunStep(extra, r, s, c);
    Snoc(extra, r, s, c);
    StepRefines(extra, p, c);
    ReceivedFlag(extra, p, c);
    AttemptSize(extra, p);
    AttemptSize(extra, p');
    GotStxIsOneByte(extra, p');
  }

  /** One more byte keeps the balance. */
  lemma BalanceStep(extra: ExtraTable, r: Receiver, s: seq<bv8>, c: bv8)
    requires Consistent(extra, r)
    ensures var t, t' := TallyOf(extra, r, s), TallyOf(extra, r, s + [c]);
      var p, p' := Run(extra, r, s), Run(extra, r, s + [c]);
      && t'.starts - t.starts
         == t'.accepted - t.accepted + t'.rejected - t.rejected + One(InAttempt(p')) - One(InAttempt(p))
      && ReportedDrops(extra, r, s + [c]) - ReportedDrops(extra, r, s) == t'.rejected - t.rejected
      && |Deliveries(extra, r, s + [c])| - |Deliveries(extra, r, s)| == t'.accepted - t.accepted
  {
    hide Consistent, Run, Attempt, InAttempt, TallyOf, Encode, IsFrame, IsFramePrefix, Deliveries, ReportedDrops;
    TallyStep(extra, r, s, c);
    RunStep(extra, r, s, c);
    AttemptSize(extra, Run(extra, r, s));
    AttemptSize(extra, Run(extra, r, s + [c]));
  }

  /** Starts are accepted, rejected or still open; the reported drops are the rejections. */
  lemma {:induction false} AttemptsConserved(extra: ExtraTable, r: Receiver, s: seq<bv8>)
    requires Consistent(extra, r)
    ensures TallyOf(extra, r, s).starts + One(InAttempt(r))
      == TallyOf(extra, r, s).accepted + TallyOf(extra, r, s).rejected + One(InAttempt(Run(extra, r, s)))
    ensures ReportedDrops(extra, r, s) == TallyOf(extra, r, s).rejected
    ensures |Deliveries(extra, r, s)| == TallyOf(extra, r, s).accepted
  {
    hide Consistent, Run, InAttempt, TallyOf, Deliveries, ReportedDrops;
    if s == [] {
      RunNothing(extra, r);
      NothingDelivered(extra, r);
      TallyNothing(extra, r);
    } else {
      var front, c := s[..|s| - 1], s[|s| - 1];
      assert s == front + [c];
      AttemptsConserved(extra, r, front);
      BalanceStep(extra, r, front, c);
    }
  }

  lemma NextCount(n: nat)
    ensures U16(n) == n % 0x1_0000 && (U16(n) + 1) % 0x1_0000 == (n + 1) % 0x1_0000
  {}

  /** One call: the counters of the status, and what of them is reported. */
  lemma CountersStep(extra: ExtraTable, r: Receiver, c: bv8)
    requires r.InRange()
    ensures var r', report := Step(extra, r, c).0, Step(extra, r, c).1;
      && r'.successCount == (r.successCount + One(report.received)) % 0x1_0000
      && r'.currentRxSeq == (if report.received then MessagePacket(r'.rx).seqNo else r.currentRxSeq)
      && (r.dropCount == 0 ==> r'.dropCount == 0)
      && report.successCount == r'.successCount && report.nextSeq == r'.currentRxSeq + 1
  {
    hide Advance;
    AdvanceInRange(extra, r.(msgReceived := false), c);
  }

  /** The sequence number of the last delivery, or `before` if there was none. */
  function LastSeq(ds: seq<Delivery>, before: bv8): bv8 {
    if ds == [] then before else ds[|ds| - 1].packet.seqNo
  }

  /** Over every run the success counter is the number of deliveries modulo 2^16, the sequence number
      kept is that of the last delivery, and the drop counter of the status stays 0. */
  lemma {:induction false} SuccessesCounted(extra: ExtraTable, r: Receiver, s: seq<bv8>)
    requires r.InRange()
    ensures var r', ds := Run(extra, r, s), Deliveries(extra, r, s);
      && r'.successCount == (r.successCount + |ds|) % 0x1_0000
      && r'.currentRxSeq == LastSeq(ds, r.currentRxSeq)
      && (r.dropCount == 0 ==> r'.dropCount == 0)
  {
    hide Step, Run, Deliveries, LastReport, ReportedDrops;
    if s == [] {
      RunNothing(extra, r);
      NothingDelivered(extra, r);
    } else {
      var front, c := s[..|s| - 1], s[|s| - 1];
      assert s == front + [c];
      SuccessesCounted(extra, r, front);
      Snoc(extra, r, front, c);
      CountersStep(extra, Run(extra, r, front), c);
      NextCount(r.successCount + |Deliveries(extra, r, front)|);
    }
  }

  /** And every call reports just that: how many messages were received, modulo 2^16, and the number
      that should follow the last of them. */
  lemma EveryReport(extra: ExtraTable, r: Receiver, s: seq<bv8>)
    requires r.InRange() && s != []
    ensures var report, ds := LastReport(extra, r, s), Deliveries(extra, r, s);
      && report.successCount == (r.successCount + |ds|) % 0x1_0000
      && Val(report.nextSeq) == (Val(LastSeq(ds, r.currentRxSeq)) + 1) % 0x100
      && (report.received <==> ds != [] && ds[|ds| - 1].end == |s|)
  {
    hide Step, Run, Deliveries, LastReport, ReportedDrops, Val, LastSeq;
    var front, c := s[..|s| - 1], s[|s| - 1];
    assert s == front + [c];
    Snoc(extra, r, front, c);
    CountersStep(extra, Run(extra, r, front), c);
    SuccessesCounted(extra, r, s);
    DeliveryEnds(extra, r, front);
    ByteIncrement(LastSeq(Deliveries(extra, r, s), r.currentRxSeq));
  }

  lemma {:induction false} DeliveryEnds(extra: ExtraTable, r: Receiver, s: seq<bv8>)
    requires r.InRange()
    ensures forall i :: 0 <= i < |Deliveries(extra, r, s)| ==> Deliveries(extra, r, s)[i].end <= |s|
  {
    hide Step;
    if s != [] {
      DeliveryEnds(extra, r, s[..|s| - 1]);
    }
  }
}
