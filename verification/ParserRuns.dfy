/** What the receiver does over whole byte streams. */
module ParserRuns {
  import opened Frame
  import opened Parser
  import opened ParserRefinement

  /** The receiver after the bytes `s`. */
  function Run(extra: ExtraTable, r: Receiver, s: seq<bv8>): (r': Receiver)
    requires r.InRange()
    ensures r'.InRange()
  {
    if s == [] then r else Step(extra, Run(extra, r, s[..|s| - 1]), s[|s| - 1]).0
  }

  /** What the call on the last byte of `s` reported. */
  function LastReport(extra: ExtraTable, r: Receiver, s: seq<bv8>): Report
    requires r.InRange() && s != []
  {
    Step(extra, Run(extra, r, s[..|s| - 1]), s[|s| - 1]).1
  }

  /** A call that returned 1: how many bytes had been fed, and the packet in the message. */
  datatype Delivery = Delivery(end: nat, packet: Packet)

  /** All calls over the bytes `s` that returned 1. */
  function Deliveries(extra: ExtraTable, r: Receiver, s: seq<bv8>): seq<Delivery>
    requires r.InRange()
  {
    if s == [] then []
    else Deliveries(extra, r, s[..|s| - 1])
         + (if LastReport(extra, r, s).received then [Delivery(|s|, MessagePacket(Run(extra, r, s).rx))] else [])
  }

  /** The drop counts reported over the bytes `s`, added up. */
  function ReportedDrops(extra: ExtraTable, r: Receiver, s: seq<bv8>): nat
    requires r.InRange()
  {
    if s == [] then 0
    else ReportedDrops(extra, r, s[..|s| - 1]) + LastReport(extra, r, s).dropCount
  }

  lemma RunNothing(extra: ExtraTable, r: Receiver)
    requires r.InRange()
    ensures Run(extra, r, []) == r
  {}

  lemma NothingDelivered(extra: ExtraTable, r: Receiver)
    requires r.InRange()
    ensures Deliveries(extra, r, []) == [] && ReportedDrops(extra, r, []) == 0
  {}

  lemma Snoc(extra: ExtraTable, r: Receiver, s: seq<bv8>, c: bv8)
    requires r.InRange()
    ensures Run(extra, r, s + [c]) == Step(extra, Run(extra, r, s), c).0
    ensures LastReport(extra, r, s + [c]) == Step(extra, Run(extra, r, s), c).1
    ensures Deliveries(extra, r, s + [c]) == Deliveries(extra, r, s)
      + (if LastReport(extra, r, s + [c]).received
         then [Delivery(|s| + 1, MessagePacket(Run(extra, r, s + [c]).rx))] else [])
    ensures ReportedDrops(extra, r, s + [c]) == ReportedDrops(extra, r, s) + LastReport(extra, r, s + [c]).dropCount
  {
    hide Step;
    assert (s + [c])[..|s + [c]| - 1] == s;
  }

  lemma {:induction false} RunConsistent(extra: ExtraTable, r: Receiver, s: seq<bv8>)
    requires Consistent(extra, r)
    ensures Consistent(extra, Run(extra, r, s))
  {
    hide Consistent, Step;
    if s != [] {
      RunConsistent(extra, r, s[..|s| - 1]);
      StepRefines(extra, Run(extra, r, s[..|s| - 1]), s[|s| - 1]);
    }
  }

  /** One more byte, in the recogniser's terms. */
  lemma RunStep(extra: ExtraTable, r: Receiver, s: seq<bv8>, c: bv8)
    requires Consistent(extra, r)
    ensures var p, p' := Run(extra, r, s), Run(extra, r, s + [c]);
      var v := Judge(extra, Attempt(p), c);
      && Consistent(extra, p) && Consistent(extra, p')
      && Attempt(p') == Continue(Attempt(p), c, v)
      && ReportedDrops(extra, r, s + [c])
         == ReportedDrops(extra, r, s) + (if v.Restarted? || v.Dropped? then 1 else 0)
      && Deliveries(extra, r, s + [c])
         == Deliveries(extra, r, s) + (if v.Accepted? then [Delivery(|s| + 1, MessagePacket(p'.rx))] else [])
      && (v.Accepted? ==> Attempt(p) + [c] == Encode(extra, MessagePacket(p'.rx)))
      && p'.successCount == (if v.Accepted? then U16(p.successCount + 1) else p.successCount)
  {
    hide *;
    RunConsistent(extra, r, s);
    Snoc(extra, r, s, c);
    StepRefines(extra, Run(extra, r, s), c);
  }

  // ---- Soundness ----

  /** The delivery is backed by the stream: the bytes up to it are exactly the frame of its packet. */
  ghost predicate Backed(extra: ExtraTable, s: seq<bv8>, d: Delivery) {
    && d.packet.Fits()
    && |Encode(extra, d.packet)| <= d.end <= |s|
    && s[d.end - |Encode(extra, d.packet)|..d.end] == Encode(extra, d.packet)
  }

  /** Every delivery is backed, and the frames lie in the stream one after the other. */
  ghost predicate BackedInOrder(extra: ExtraTable, s: seq<bv8>, ds: seq<Delivery>) {
    && (forall i :: 0 <= i < |ds| ==> Backed(extra, s, ds[i]))
    && (forall i, j :: 0 <= i < j < |ds| ==> ds[i].end + |Encode(extra, ds[j].packet)| <= ds[j].end)
  }

  /** Where the bytes of the attempt under way lie: at the end of the stream, after every delivery. */
  ghost predicate AttemptBacked(extra: ExtraTable, s: seq<bv8>, r: Receiver, ds: seq<Delivery>)
    requires r.InRange()
  {
    && |Attempt(r)| <= |s|
    && s[|s| - |Attempt(r)|..] == Attempt(r)
    && (forall i :: 0 <= i < |ds| ==> ds[i].end <= |s| - |Attempt(r)|)
  }

  lemma BackedStable(extra: ExtraTable, s: seq<bv8>, c: bv8, d: Delivery)
    requires Backed(extra, s, d)
    ensures Backed(extra, s + [c], d)
  {
    hide Encode;
    var n := |Encode(extra, d.packet)|;
    assert (s + [c])[d.end - n..d.end] == s[d.end - n..d.end];
  }

  lemma {:induction false} SoundnessInvariant(extra: ExtraTable, r: Receiver, s: seq<bv8>)
    requires Consistent(extra, r) && !InAttempt(r)
    ensures BackedInOrder(extra, s, Deliveries(extra, r, s))
    ensures AttemptBacked(extra, s, Run(extra, r, s), Deliveries(extra, r, s))
  {
    hide Consistent, Step, Encode, Attempt;
    if s == [] {
      AttemptSize(extra, r);
      assert Deliveries(extra, r, s) == [];
    } else {
      var front, c := s[..|s| - 1], s[|s| - 1];
      assert s == front + [c];
      SoundnessInvariant(extra, r, front);
      SoundnessStep(extra, r, front, c);
    }
  }

  lemma FrameAtEnd(extra: ExtraTable, s: seq<bv8>, c: bv8, a: seq<bv8>, p: Packet)
    requires |a| <= |s| && s[|s| - |a|..] == a
    requires p.Fits() && a + [c] == Encode(extra, p)
    ensures Backed(extra, s + [c], Delivery(|s| + 1, p))
  {
    hide Encode;
    var t := s + [c];
    assert t[|t| - |a + [c]|..|t|] == a + [c];
  }

  lemma SoundnessStep(extra: ExtraTable, r: Receiver, s: seq<bv8>, c: bv8)
    requires Consistent(extra, r)
    requires BackedInOrder(extra, s, Deliveries(extra, r, s))
    requires AttemptBacked(extra, s, Run(extra, r, s), Deliveries(extra, r, s))
    ensures BackedInOrder(extra, s + [c], Deliveries(extra, r, s + [c]))
    ensures AttemptBacked(extra, s + [c], Run(extra, r, s + [c]), Deliveries(extra, r, s + [c]))
  {
    hide Consistent, Encode, Judge, Attempt, Run, Deliveries, ReportedDrops, BackedInOrder;
    RunStep(extra, r, s, c);
    var p, p' := Run(extra, r, s), Run(extra, r, s + [c]);
    var a, ds, v := Attempt(p), Deliveries(extra, r, s), Judge(extra, Attempt(p), c);
    if v.Accepted? {
      DeliveryBacked(extra, s, c, a, ds, MessagePacket(p'.rx));
      AttemptEnded(extra, s + [c], p', ds + [Delivery(|s| + 1, MessagePacket(p'.rx))]);
    } else {
      NoDelivery(extra, s, c, ds);
      AttemptMoved(extra, s, c, p, p', ds);
    }
  }

  lemma NoDelivery(extra: ExtraTable, s: seq<bv8>, c: bv8, ds: seq<Delivery>)
    requires BackedInOrder(extra, s, ds)
    ensures BackedInOrder(extra, s + [c], ds + [])
  {
    hide Encode, Backed;
    assert ds + [] == ds;
    forall i | 0 <= i < |ds| ensures Backed(extra, s + [c], ds[i]) {
      BackedStable(extra, s, c, ds[i]);
    }
  }

  lemma DeliveryBacked(extra: ExtraTable, s: seq<bv8>, c: bv8, a: seq<bv8>, ds: seq<Delivery>, p: Packet)
    requires BackedInOrder(extra, s, ds)
    requires |a| <= |s| && s[|s| - |a|..] == a
    requires forall i :: 0 <= i < |ds| ==> ds[i].end <= |s| - |a|
    requires p.Fits() && a + [c] == Encode(extra, p)
    ensures BackedInOrder(extra, s + [c], ds + [Delivery(|s| + 1, p)])
  {
    hide Encode, Backed;
    NoDelivery(extra, s, c, ds);
    assert ds + [] == ds;
    FrameAtEnd(extra, s, c, a, p);
    assert |Encode(extra, p)| == |a| + 1;
  }

  lemma AttemptEnded(extra: ExtraTable, t: seq<bv8>, r: Receiver, ds: seq<Delivery>)
    requires r.InRange() && Attempt(r) == []
    requires BackedInOrder(extra, t, ds)
    ensures AttemptBacked(extra, t, r, ds)
  {
    hide Encode, Attempt;
    assert t[|t|..] == [];
  }

  lemma AttemptMoved(extra: ExtraTable, s: seq<bv8>, c: bv8, p: Receiver, p': Receiver, ds: seq<Delivery>)
    requires p.InRange() && p'.InRange() && AttemptBacked(extra, s, p, ds)
    requires !Judge(extra, Attempt(p), c).Accepted?
    requires Attempt(p') == Continue(Attempt(p), c, Judge(extra, Attempt(p), c))
    ensures AttemptBacked(extra, s + [c], p', ds + [])
  {
    hide Attempt, IsFrame, IsFramePrefix;
    var a, t := Attempt(p), s + [c];
    assert ds + [] == ds;
    assert t[|t| - |a + [c]|..] == a + [c];
    assert t[|t| - 1..] == [c];
    assert t[|t|..] == [];
  }

  /** Whenever a call returns 1, the message in memory, copied out as a sender would copy it, is
      exactly the last bytes fed, and these are the frame of the packet it carries. */
  lemma ReturnedIsReceived(extra: ExtraTable, r: Receiver, s: seq<bv8>)
    requires Consistent(extra, r) && !InAttempt(r) && s != [] && LastReport(extra, r, s).received
    ensures var f := Returned(Run(extra, r, s).rx);
      && |f| <= |s| && s[|s| - |f|..] == f
      && f == Encode(extra, MessagePacket(Run(extra, r, s).rx))
  {
    hide Consistent, Run, LastReport, Step, Encode, Returned, Attempt, Deliveries, BackedInOrder, Judge;
    var front, c := s[..|s| - 1], s[|s| - 1];
    assert s == front + [c];
    RunConsistent(extra, r, front);
    Snoc(extra, r, front, c);
    StepRefines(extra, Run(extra, r, front), c);
    SoundnessInvariant(extra, r, front);
    var a := Attempt(Run(extra, r, front));
    assert s[|s| - |a + [c]|..] == a + [c];
  }
}
