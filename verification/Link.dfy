/** Sender and receiver together. A channel has two send paths, which share one sequence counter; what
    a run of sends puts on the line depends only on the first number and on what is sent, whichever
    path each of them takes. */
module Link {
  import opened Bytes
  import opened Channel
  import opened Frame
  import opened Parser
  import opened ParserRuns
  import opened ParserRoundTrip

  /** One request to send, by either path. */
  datatype Outgoing = Outgoing(sysid: bv8, compid: bv8, msgid: bv8, payload: seq<bv8>)

  function Numbered(seqNo: bv8, o: Outgoing): Packet {
    Packet(seqNo, o.sysid, o.compid, o.msgid, o.payload)
  }

  /** What the sends put on the line, one after the other; each is given its own type's extra byte. */
  function Emitted(extra: ExtraTable, start: bv8, outs: seq<Outgoing>): seq<bv8>
    requires forall i :: 0 <= i < |outs| ==> |outs[i].payload| <= MAX_PAYLOAD_LEN
  {
    if outs == [] then []
    else
      var n := |outs| - 1;
      Emitted(extra, start, outs[..n])
      + Encode(Only(extra(outs[n].msgid)), Numbered(TxSeqAfter(start, n), outs[n]))
  }

  lemma Regroup(a: seq<bv8>, b: seq<bv8>, c: seq<bv8>)
    ensures (a + b) + c == a + (b + c)
  {}

  lemma NothingEmitted(extra: ExtraTable, start: bv8)
    ensures Emitted(extra, start, []) == []
  {}

  lemma EmittedSnoc(extra: ExtraTable, start: bv8, outs: seq<Outgoing>, n: nat)
    requires n < |outs| && forall i :: 0 <= i < |outs| ==> |outs[i].payload| <= MAX_PAYLOAD_LEN
    ensures Emitted(extra, start, outs[..n + 1]) == Emitted(extra, start, outs[..n])
      + Encode(Only(extra(outs[n].msgid)), Numbered(TxSeqAfter(start, n), outs[n]))
  {
    hide Encode, TxSeqAfter, Numbered;
    assert outs[..n + 1][..n] == outs[..n];
  }

  // ---- The two send paths ----

  /** Packs a message, copies it into a buffer and writes the buffer to the line. */
  method SendBuffered(channel: Channel, msg: MessageBuffer, o: Outgoing)
    requires msg.Valid() && |o.payload| <= MAX_PAYLOAD_LEN
    modifies channel`currentTxSeq, channel`uart, msg, msg.payload
    ensures channel.currentTxSeq == old(channel.currentTxSeq) + 1
    ensures channel.uart == old(channel.uart)
      + Encode(Only(channel.extra(o.msgid)), Packet(old(channel.currentTxSeq), o.sysid, o.compid, o.msgid, o.payload))
  {
    hide Val, ByteOf, Encode;
    msg.msgid := o.msgid;
    forall i | 0 <= i < |o.payload| {
      msg.payload[i] := o.payload[i];
    }
    assert msg.payload[..|o.payload|] == o.payload;
    var size := channel.FinalizeMessage(msg, o.sysid, o.compid, ByteOf(|o.payload|), channel.extra(o.msgid));
    var buffer := new bv8[MAX_PACKET_LEN];
    var length := MsgToSendBuffer(buffer, msg);
    channel.SendUart(buffer[..], length);
    assert buffer[..][..length] == buffer[..length];
  }

  /** Sends the message in pieces, without building it in memory first. */
  method SendDirect(channel: Channel, o: Outgoing)
    requires |o.payload| <= MAX_PAYLOAD_LEN
    modifies channel`currentTxSeq, channel`uart
    ensures channel.currentTxSeq == old(channel.currentTxSeq) + 1
    ensures channel.uart == old(channel.uart)
      + Encode(Only(channel.extra(o.msgid)), Packet(old(channel.currentTxSeq), o.sysid, o.compid, o.msgid, o.payload))
  {
    hide Val, ByteOf, Encode;
    channel.FinalizeAndSend(o.msgid, o.payload, ByteOf(|o.payload|), channel.extra(o.msgid), o.sysid, o.compid);
    assert o.payload[..|o.payload|] == o.payload;
  }

  method Send(channel: Channel, msg: MessageBuffer, o: Outgoing, direct: bool)
    requires msg.Valid() && |o.payload| <= MAX_PAYLOAD_LEN
    modifies channel`currentTxSeq, channel`uart, msg, msg.payload
    ensures channel.currentTxSeq == old(channel.currentTxSeq) + 1
    ensures channel.uart == old(channel.uart)
      + Encode(Only(channel.extra(o.msgid)), Packet(old(channel.currentTxSeq), o.sysid, o.compid, o.msgid, o.payload))
  {
    if direct {
      SendDirect(channel, o);
    } else {
      SendBuffered(channel, msg, o);
    }
  }

  /** Any mix of the two paths: the line receives the frames in order, numbered one after the other. */
  method SendAll(channel: Channel, msg: MessageBuffer, outs: seq<Outgoing>, direct: seq<bool>)
    requires msg.Valid() && |direct| == |outs|
    requires forall i :: 0 <= i < |outs| ==> |outs[i].payload| <= MAX_PAYLOAD_LEN
    modifies channel`currentTxSeq, channel`uart, msg, msg.payload
    ensures channel.uart == old(channel.uart) + Emitted(channel.extra, old(channel.currentTxSeq), outs)
    ensures channel.currentTxSeq == TxSeqAfter(old(channel.currentTxSeq), |outs|)
  {
    hide Encode, Emitted, Only;
    ghost var start, before := channel.currentTxSeq, channel.uart;
    NothingEmitted(channel.extra, start);
    assert outs[..0] == [] && before + [] == before;
    for i := 0 to |outs|
      invariant channel.uart == before + Emitted(channel.extra, start, outs[..i])
      invariant channel.currentTxSeq == TxSeqAfter(start, i)
    {
      ghost var emitted := Emitted(channel.extra, start, outs[..i]);
      Send(channel, msg, outs[i], direct[i]);
      EmittedSnoc(channel.extra, start, outs, i);
      Regroup(before, emitted, Encode(Only(channel.extra(outs[i].msgid)), Numbered(TxSeqAfter(start, i), outs[i])));
    }
    assert outs[..|outs|] == outs;
  }

  // ---- What arrives ----

  function Items(start: bv8, outs: seq<Outgoing>): (items: seq<Item>)
    ensures |items| == |outs|
  {
    seq(|outs|, i requires 0 <= i < |outs| => Item([], Numbered(TxSeqAfter(start, i), outs[i])))
  }

  lemma {:induction false} EmittedIsStream(extra: ExtraTable, start: bv8, outs: seq<Outgoing>)
    requires forall i :: 0 <= i < |outs| ==> |outs[i].payload| <= MAX_PAYLOAD_LEN
    ensures Sendable(Items(start, outs)) && Emitted(extra, start, outs) == Stream(extra, Items(start, outs))
  {
    hide Encode, TxSeqAfter, Only;
    if outs != [] {
      var n := |outs| - 1;
      EmittedIsStream(extra, start, outs[..n]);
      EncodeLocal(extra, Numbered(TxSeqAfter(start, n), outs[n]));
      assert Items(start, outs)[..n] == Items(start, outs[..n]);
      assert Stream(extra, Items(start, outs[..n])) + [] == Stream(extra, Items(start, outs[..n]));
    }
  }

  /** Sender to receiver: every packet sent arrives once, in order and unchanged, the k-th of them
      numbered `start + k` modulo 256, and no error is reported. */
  lemma EverySendArrives(extra: ExtraTable, r: Receiver, start: bv8, outs: seq<Outgoing>)
    requires Consistent(extra, r) && Between(r)
    requires forall i :: 0 <= i < |outs| ==> |outs[i].payload| <= MAX_PAYLOAD_LEN
    ensures var ds := Deliveries(extra, r, Emitted(extra, start, outs));
      && |ds| == |outs|
      && (forall k :: 0 <= k < |outs| ==>
            && ds[k].packet
               == Packet(ds[k].packet.seqNo, outs[k].sysid, outs[k].compid, outs[k].msgid, outs[k].payload)
            && Val(ds[k].packet.seqNo) == (Val(start) + k) % 0x100)
    ensures ReportedDrops(extra, r, Emitted(extra, start, outs)) == 0
  {
    hide Consistent, Run, Deliveries, ReportedDrops, Encode, Emitted, Stream, Expected, TxSeqAfter, Val;
    var items := Items(start, outs);
    EmittedIsStream(extra, start, outs);
    RunNothing(extra, r);
    NothingDelivered(extra, r);
    StreamDelivered(extra, r, [], items);
    assert [] + Stream(extra, items) == Stream(extra, items);
    ExpectedPackets(extra, items, 0);
    assert [] + Expected(extra, items, 0) == Expected(extra, items, 0);
    forall k | 0 <= k < |outs|
      ensures Val(items[k].packet.seqNo) == (Val(start) + k) % 0x100
    {
      TxSeqCounts(start, k);
    }
  }
}
