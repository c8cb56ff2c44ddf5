/** Fragmenting sender and reassembling receiver together. */
module ExtendedLink {
  import opened Channel
  import opened Frame
  import opened Fragments
  import opened FragmentTheorems
  import opened ProtobufManager

  /** Takes in fragments one after the other. */
  method ReceiveAll(receiver: ProtobufManager, fs: seq<Fragment>) returns (ghost delivered: seq<Reassembled>)
    requires receiver.Valid() && AllSound(fs)
    modifies receiver`fragmentQueue, receiver`messages, receiver`available
    ensures receiver.Valid()
    ensures receiver.View() == Feed(receiver.extra, old(receiver.View()), fs)
    ensures delivered == Delivered(receiver.extra, old(receiver.View()), fs)
  {
    hide Cache, Feed, Delivered, Fragment.Sound;
    ghost var start := receiver.View();
    FeedNothing(receiver.extra, start);
    delivered := [];
    for i := 0 to |fs|
      invariant receiver.Valid()
      invariant receiver.View() == Feed(receiver.extra, start, fs[..i])
      invariant delivered == Delivered(receiver.extra, start, fs[..i])
    {
      var _, completed := receiver.CacheFragment(fs[i]);
      FeedSnoc(receiver.extra, start, fs[..i], fs[i]);
      assert fs[..i + 1] == fs[..i] + [fs[i]];
      delivered := delivered + completed;
    }
    assert fs[..|fs|] == fs;
  }

  // ---- The table of messages ----

  /** The data of the last delivery of a type, or `before` if there was none. */
  function LastOf(ds: seq<Reassembled>, typeCode: nat, before: seq<bv8>): seq<bv8> {
    if ds == [] then before
    else if ds[|ds| - 1].typeCode == typeCode then ds[|ds| - 1].data
    else LastOf(ds[..|ds| - 1], typeCode, before)
  }

  predicate AnyOf(ds: seq<Reassembled>, typeCode: nat) {
    exists k :: 0 <= k < |ds| && ds[k].typeCode == typeCode
  }

  lemma LastOfSnoc(ds: seq<Reassembled>, d: Reassembled, typeCode: nat, before: seq<bv8>)
    ensures LastOf(ds + [d], typeCode, before)
      == if d.typeCode == typeCode then d.data else LastOf(ds, typeCode, before)
    ensures AnyOf(ds + [d], typeCode) <==> d.typeCode == typeCode || AnyOf(ds, typeCode)
  {
    assert (ds + [d])[..|ds + [d]| - 1] == ds;
    assert (ds + [d])[|ds|] == d;
    if AnyOf(ds, typeCode) {
      var k :| 0 <= k < |ds| && ds[k].typeCode == typeCode;
      assert (ds + [d])[k].typeCode == typeCode;
    }
  }

  lemma CacheStores(extra: ExtraTable, r: Reassembler, f: Fragment, c: nat)
    requires r.Valid() && f.Sound() && c < |r.messages|
    ensures var o := Cache(extra, r, f);
      && |o.2| <= 1 && |o.0.messages| == |r.messages|
      && o.0.messages[c] == (if |o.2| == 1 && o.2[0].typeCode == c then o.2[0].data else r.messages[c])
      && o.0.available[c] == (r.available[c] || (|o.2| == 1 && o.2[0].typeCode == c))
  {
    hide ValidFragment, EffectOn, Joined, Fragment.StreamId, Fragment.TypeCode;
  }

  /** Over every run, the table holds for each type the last message delivered, and its flag says
      whether there was one. */
  lemma {:induction false} TableHoldsLast(extra: ExtraTable, r: Reassembler, fs: seq<Fragment>, c: nat)
    requires r.Valid() && AllSound(fs) && c < |r.messages|
    ensures var r', ds := Feed(extra, r, fs), Delivered(extra, r, fs);
      && |r'.messages| == |r.messages|
      && r'.messages[c] == LastOf(ds, c, r.messages[c])
      && r'.available[c] == (r.available[c] || AnyOf(ds, c))
  {
    hide Cache, Feed, Delivered;
    if fs == [] {
      FeedNothing(extra, r);
    } else {
      var front, last := fs[..|fs| - 1], fs[|fs| - 1];
      assert fs == front + [last];
      TableHoldsLast(extra, r, front, c);
      FeedSnoc(extra, r, front, last);
      var ds, o := Delivered(extra, r, front), Cache(extra, Feed(extra, r, front), last);
      CacheStores(extra, Feed(extra, r, front), last, c);
      if o.2 == [] {
        assert ds + o.2 == ds;
      } else {
        LastOfSnoc(ds, o.2[0], c, r.messages[c]);
        assert o.2 == [o.2[0]];
      }
    }
  }

  // ---- A message from sender to receiver ----

  /** Fragments of a type that the receiver does not take are all refused. */
  lemma {:induction false} TypeRefused(extra: ExtraTable, r: Reassembler, t: Transfer, k: nat)
    requires r.Valid() && t.Valid(extra) && k <= t.Count() && t.typeCode >= r.types
    ensures Feed(extra, r, t.Upto(k)) == r && Delivered(extra, r, t.Upto(k)) == []
    ensures forall i :: 0 <= i < k ==> !Cache(extra, r, t.fragments[i]).1
  {
    hide ValidFragment, Cache, Feed, Delivered;
    if k == 0 {
      FeedNothing(extra, r);
    } else {
      TypeRefused(extra, r, t, k - 1);
      assert t.Carried(extra, k - 1);
      AcceptedIff(extra, r, t.fragments[k - 1]);
      assert t.Upto(k) == t.Upto(k - 1) + [t.fragments[k - 1]];
      FeedSnoc(extra, r, t.Upto(k - 1), t.fragments[k - 1]);
    }
  }

  /** What a receiver without an open message of the stream delivers of a message. */
  lemma DeliveredWhole(extra: ExtraTable, r: Reassembler, t: Transfer)
    requires r.Valid() && r.QueueOf(t.sid) == [] && t.Valid(extra)
    ensures Delivered(extra, r, t.fragments)
      == if t.data != [] && t.typeCode < r.types then [Reassembled(t.sid, t.typeCode, t.data)] else []
    ensures Feed(extra, r, t.fragments).QueueOf(t.sid) == []
  {
    hide Cache, Feed, Delivered;
    if t.typeCode >= r.types {
      TypeRefused(extra, r, t, t.Count());
      assert t.Upto(t.Count()) == t.fragments;
    } else {
      DeliveredIffNonEmpty(extra, r, t);
    }
  }

  /** Round trip: a message sent in fragments to a receiver that has no open message of the sender's
      stream arrives unchanged, in its type's place of the table, if it is not empty and the receiver
      takes its type code; otherwise nothing is delivered. */
  method Transmit(sender: ProtobufManager, channel: Channel, receiver: ProtobufManager, systemId: bv8, componentId: bv8,
                  targetSystem: bv8, targetComponent: bv8, typeName: string, data: seq<bv8>)
    returns (ok: bool, ghost delivered: seq<Reassembled>)
    requires sender.Valid() && sender.extra(EXTENDED_MESSAGE) == 0
    requires |data| + sender.extendedPayloadMaxSize - 1 <= 0x7fff_ffff
    requires receiver.Valid() && receiver.extra == sender.extra && receiver.View().QueueOf(sender.streamId) == []
    modifies channel`currentTxSeq, receiver`fragmentQueue, receiver`messages, receiver`available
    ensures receiver.Valid() && receiver.View().QueueOf(sender.streamId) == []
    ensures ok <==> typeName in sender.typeMap
    ensures delivered == (
      if ok && data != [] && sender.typeMap[typeName] < |receiver.typeMap|
      then [Reassembled(sender.streamId, sender.typeMap[typeName], data)] else [])
    ensures |receiver.messages| == old(|receiver.messages|)
    ensures forall c :: 0 <= c < |receiver.messages| ==>
      && receiver.messages[c] == LastOf(delivered, c, old(receiver.messages)[c])
      && receiver.available[c] == (old(receiver.available)[c] || AnyOf(delivered, c))
  {
    hide Feed, Delivered, Cache;
    ghost var r, cuts := receiver.View(), [];
    var fragments;
    ok, fragments, cuts := sender.FragmentMessage(
      channel, systemId, componentId, targetSystem, targetComponent, typeName, data);
    if ok {
      DeliveredWhole(sender.extra, r, Transfer(sender.streamId, sender.typeMap[typeName], data, cuts, fragments));
    } else {
      FeedNothing(sender.extra, r);
    }
    delivered := ReceiveAll(receiver, fragments);
    forall c | 0 <= c < |r.messages|
      ensures receiver.messages[c] == LastOf(delivered, c, r.messages[c])
      ensures receiver.available[c] == (r.available[c] || AnyOf(delivered, c))
    {
      TableHoldsLast(sender.extra, r, fragments, c);
    }
  }

  /** A type that was registered twice, alone: its messages are fragmented, and refused. */
  method RegisteredTwice(table: ExtraTable, streamId: nat, maxSize: nat, channel: Channel, systemId: bv8,
                         componentId: bv8, targetSystem: bv8, targetComponent: bv8, typeName: string,
                         prototype: seq<bv8>, data: seq<bv8>)
    returns (ok: bool, ghost delivered: seq<Reassembled>)
    requires streamId < 0x1_0000 && maxSize > 0 && table(EXTENDED_MESSAGE) == 0
    requires |data| + maxSize - 1 <= 0x7fff_ffff
    modifies channel`currentTxSeq
    ensures ok && delivered == []
  {
    hide LastOf, AnyOf;
    var manager := new ProtobufManager(table, streamId, maxSize);
    manager.RegisterType(typeName, prototype);
    manager.RegisterType(typeName, prototype);
    ok, delivered := Transmit(manager, channel, manager, systemId, componentId, targetSystem, targetComponent,
                              typeName, data);
  }

  // ---- Losing fragments of two messages ----

  /** All pieces but the last have the size `max`. */
  ghost predicate EvenlyCut(t: Transfer, max: nat) {
    |t.cuts| == t.Count() + 1 && forall k :: 0 <= k < t.Count() ==> t.cuts[k] == max * k
  }

  lemma EqualMultiples(max: nat, a: nat, b: nat)
    requires max > 0
    ensures max * a == max * b <==> a == b
  {
    if a < b {
      assert max * a < max * (a + 1) <= max * b by { MulMonotone(max, a + 1, b); }
    } else if b < a {
      assert max * b < max * (b + 1) <= max * a by { MulMonotone(max, b + 1, a); }
    }
  }

  /** Two messages of one stream, cut to the same size limit: if the fragments from `a` on of the first
      and those before `b` of the second are lost, a splice is delivered if and only if a = b. */
  lemma EvenSpliceIff(extra: ExtraTable, r: Reassembler, max: nat, t: Transfer, a: nat, u: Transfer, b: nat)
    requires max > 0 && Ready(r, t) && t.Valid(extra) && a < t.Count()
    requires Ready(r, u) && u.Valid(extra) && b < u.Count() && u.sid == t.sid
    requires EvenlyCut(t, max) && EvenlyCut(u, max)
    ensures AllSound(t.Upto(a) + u.From(b)) && max * a <= |t.data| && max * b <= |u.data|
    ensures Delivered(extra, r, t.Upto(a) + u.From(b))
      == if a == b then [Reassembled(t.sid, u.typeCode, t.data[..max * a] + u.data[max * a..])] else []
    ensures Ready(Feed(extra, r, t.Upto(a) + u.From(b)), t)
  {
    hide Feed, Delivered, Ready;
    SplicedIff(extra, r, t, a, u, b);
    EqualMultiples(max, a, b);
  }

  lemma PieceReached(n: nat, max: nat, k: nat)
    requires max > 0 && max * k < n
    ensures k < FragmentCount(n, max)
  {
    var count := FragmentCount(n, max);
    assert n + max - 1 < max * count + max;
    if count <= k {
      MulMonotone(max, count, k);
      assert false;
    }
  }

  lemma SentEvenly(t: Transfer, s: Sending)
    requires Sent(s, t.fragments, t.cuts)
    ensures EvenlyCut(t, s.max)
  {
    hide Addressed, HeaderIs;
    forall k | 0 <= k < t.Count() ensures t.cuts[k] == s.max * k {
      assert s.Sends(k, t.fragments[k], t.cuts[k], t.cuts[k + 1]);
    }
  }

  /** Such a splice from the sender itself: of any two messages that reach past the k-th cut, the first
      k fragments of one followed by the others of the other are delivered as one message. */
  method SpliceTwo(sender: ProtobufManager, channel: Channel, receiver: ProtobufManager,
                   systemId: bv8, componentId: bv8, targetSystem: bv8, targetComponent: bv8, typeName: string,
                   first: seq<bv8>, second: seq<bv8>, k: nat)
    returns (ghost delivered: seq<Reassembled>)
    requires sender.Valid() && sender.extra(EXTENDED_MESSAGE) == 0
    requires |first| + sender.extendedPayloadMaxSize - 1 <= 0x7fff_ffff
    requires |second| + sender.extendedPayloadMaxSize - 1 <= 0x7fff_ffff
    requires sender.extendedPayloadMaxSize * k < |first| && sender.extendedPayloadMaxSize * k < |second|
    requires typeName in sender.typeMap && sender.typeMap[typeName] < |receiver.typeMap|
    requires receiver.Valid() && receiver.extra == sender.extra && receiver.View().QueueOf(sender.streamId) == []
    modifies channel`currentTxSeq, receiver`fragmentQueue, receiver`messages, receiver`available
    ensures receiver.Valid() && receiver.View().QueueOf(sender.streamId) == []
    ensures var cut := sender.extendedPayloadMaxSize * k;
      delivered == [Reassembled(sender.streamId, sender.typeMap[typeName], first[..cut] + second[cut..])]
  {
    hide Feed, Delivered, Cache, FragmentCount, Sent, EvenlyCut;
    var max := sender.extendedPayloadMaxSize;
    ghost var r := receiver.View();
    var _, fs, fsCuts := sender.FragmentMessage(
      channel, systemId, componentId, targetSystem, targetComponent, typeName, first);
    ghost var start := channel.currentTxSeq;
    var _, gs, gsCuts := sender.FragmentMessage(
      channel, systemId, componentId, targetSystem, targetComponent, typeName, second);
    ghost var t := Transfer(sender.streamId, sender.typeMap[typeName], first, fsCuts, fs);
    ghost var u := Transfer(sender.streamId, sender.typeMap[typeName], second, gsCuts, gs);
    SentEvenly(t, Sending(max, |fs|, old(channel.currentTxSeq), systemId, componentId, targetSystem, targetComponent,
                          t.typeCode, t.sid));
    SentEvenly(u, Sending(max, |gs|, start, systemId, componentId, targetSystem, targetComponent, u.typeCode, u.sid));
    PieceReached(|first|, max, k);
    PieceReached(|second|, max, k);
    EvenSpliceIff(sender.extra, r, max, t, k, u, k);
    delivered := ReceiveAll(receiver, fs[..k] + gs[k..]);
  }
}
