/** The receiving loop: bytes from the radio go to the parser one at a time, and every message it
    completes is handled. */
module Radio {
  import opened Bytes
  import opened Frame
  import opened Parser
  import opened ParserRefinement
  import opened ParserRuns
  import opened ParserRoundTrip
  import opened Channel
  import opened Link

  /** Feeds bytes as they arrive and collects what each completed message carries. */
  method Pump(channel: Channel, bytes: seq<bv8>, msg: MessageBuffer) returns (received: seq<Delivery>, drops: nat)
    requires channel.Valid() && msg.Valid() && msg != channel.rx && msg.payload != channel.rx.payload
    modifies channel, channel.rx, channel.rx.payload, msg, msg.payload
    ensures channel.Valid()
    ensures channel.View() == Run(channel.extra, old(channel.View()), bytes)
    ensures received == Deliveries(channel.extra, old(channel.View()), bytes)
    ensures drops == ReportedDrops(channel.extra, old(channel.View()), bytes)
  {
    hide Step, Run, Deliveries, ReportedDrops, LastReport;
    ghost var start := channel.View();
    RunNothing(channel.extra, start);
    NothingDelivered(channel.extra, start);
    received, drops := [], 0;
    for i := 0 to |bytes|
      invariant channel.Valid() && channel.View() == Run(channel.extra, start, bytes[..i])
      invariant received == Deliveries(channel.extra, start, bytes[..i])
      invariant drops == ReportedDrops(channel.extra, start, bytes[..i])
    {
      var report := channel.ParseChar(bytes[i], msg);
      Snoc(channel.extra, start, bytes[..i], bytes[i]);
      assert bytes[..i + 1] == bytes[..i] + [bytes[i]];
      if report.received {
        received := received + [Delivery(i + 1, MessagePacket(msg.View()))];
      }
      drops := drops + report.dropCount;
    }
    assert bytes[..|bytes|] == bytes;
  }

  /** From one channel to another: whatever mix of the two send paths is used, the receiving loop gets
      every message once, in order and unchanged, the k-th numbered k after the first, and no error. */
  method SendAndPump(sender: Channel, out: MessageBuffer, outs: seq<Outgoing>, direct: seq<bool>,
                     receiver: Channel, msg: MessageBuffer)
    returns (received: seq<Delivery>, drops: nat)
    requires out.Valid() && |direct| == |outs| && forall i :: 0 <= i < |outs| ==> |outs[i].payload| <= MAX_PAYLOAD_LEN
    requires receiver.Valid() && msg.Valid() && msg != receiver.rx && msg.payload != receiver.rx.payload
    requires sender != receiver && out != receiver.rx && out.payload != receiver.rx.payload
    requires sender.extra == receiver.extra && Consistent(receiver.extra, receiver.View()) && Between(receiver.View())
    modifies sender`currentTxSeq, sender`uart, out, out.payload
    modifies receiver, receiver.rx, receiver.rx.payload, msg, msg.payload
    ensures receiver.Valid() && drops == 0 && |received| == |outs|
    ensures forall k :: 0 <= k < |outs| ==>
      && received[k].packet
         == Packet(received[k].packet.seqNo, outs[k].sysid, outs[k].compid, outs[k].msgid, outs[k].payload)
      && Val(received[k].packet.seqNo) == (Val(old(sender.currentTxSeq)) + k) % 0x100
  {
    hide Emitted, Run, Deliveries, ReportedDrops, Consistent, Between, Val, TxSeqAfter;
    ghost var start, r := sender.currentTxSeq, receiver.View();
    var n := |sender.uart|;
    SendAll(sender, out, outs, direct);
    assert receiver.View() == r;
    assert sender.uart[n..] == Emitted(sender.extra, start, outs);
    EverySendArrives(sender.extra, r, start, outs);
    received, drops := Pump(receiver, sender.uart[n..], msg);
  }
}
