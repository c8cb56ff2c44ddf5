/** One communication channel, as the program keeps it: a status record, a receive buffer and a
    serial line, all updated in place. The methods are proved against the functions of Crc, Frame
    and Parser. */
module Channel {
  import opened Bytes
  import opened Crc
  import opened Frame
  import opened Parser
  import opened ParserRefinement

  /** The checksum loop of the sender. */
  method CrcCalculate(buffer: seq<bv8>, length: nat) returns (crc: bv16)
    requires length <= |buffer|
    ensures crc == Over(INIT, buffer[..length]) == Defined(0xffff, buffer[..length])
  {
    hide Accumulate, Defined;
    FastRefinesDefinition(INIT, buffer[..length]);
    crc := INIT;
    var i, left := 0, length;
    while left != 0
      invariant i + left == length
      invariant crc == Over(INIT, buffer[..i])
      decreases left
    {
      crc := Accumulate(buffer[i], crc);
      assert buffer[..i + 1] == buffer[..i] + [buffer[i]];
      OverSnoc(INIT, buffer[..i], buffer[i]);
      i, left := i + 1, left - 1;
    }
  }

  method CrcAccumulateBuffer(crc0: bv16, buffer: seq<bv8>, length: nat) returns (crc: bv16)
    requires length <= |buffer|
    ensures crc == Over(crc0, buffer[..length]) == Defined(crc0, buffer[..length])
  {
    hide Accumulate, Defined;
    FastRefinesDefinition(crc0, buffer[..length]);
    crc := crc0;
    var i, left := 0, length;
    while left != 0
      invariant i + left == length
      invariant crc == Over(crc0, buffer[..i])
      decreases left
    {
      crc := Accumulate(buffer[i], crc);
      assert buffer[..i + 1] == buffer[..i] + [buffer[i]];
      OverSnoc(crc0, buffer[..i], buffer[i]);
      i, left := i + 1, left - 1;
    }
  }

  // ---- Sequence numbers ----

  /** The sequence counter after `k` sends. */
  function TxSeqAfter(start: bv8, k: nat): bv8 {
    if k == 0 then start else TxSeqAfter(start, k - 1) + 1
  }

  lemma TxSeqSteps(start: bv8, k: nat)
    ensures TxSeqAfter(start, 0) == start
    ensures TxSeqAfter(start, k + 1) == TxSeqAfter(start, k) + 1
  {}

  /** The numbers count up modulo 256. */
  lemma {:induction false} TxSeqCounts(start: bv8, k: nat)
    ensures Val(TxSeqAfter(start, k)) == (Val(start) + k) % 0x100
  {
    hide Val;
    if k > 0 {
      TxSeqCounts(start, k - 1);
      ByteIncrement(TxSeqAfter(start, k - 1));
    }
  }

  /** A message in memory. */
  class MessageBuffer {
    var checksum: bv16
    var magic: bv8
    var len: bv8
    var seqNo: bv8
    var sysid: bv8
    var compid: bv8
    var msgid: bv8
    const payload: array<bv8>

    ghost predicate Valid() { payload.Length == PAYLOAD_CELLS }

    constructor ()
      ensures Valid() && fresh(payload)
    {
      payload := new bv8[PAYLOAD_CELLS];
    }

    function View(): (m: Message)
      reads this, payload
    {
      Message(checksum, magic, len, seqNo, sysid, compid, msgid, payload[..])
    }

    /** The checksum goes right behind the payload bytes. */
    method StoreChecksum(n: nat, sum: bv16)
      requires Valid() && n + 1 < PAYLOAD_CELLS
      modifies payload
      ensures payload[..] == old(payload[..])[n := Lo(sum)][n + 1 := Hi(sum)]
    {
      payload[n] := Lo(sum);
      payload[n + 1] := Hi(sum);
    }

    /** Copies a whole message structure. */
    method CopyFrom(other: MessageBuffer)
      requires Valid() && other.Valid() && other != this && other.payload != payload
      modifies this, payload
      ensures View() == other.View()
    {
      checksum, magic, len := other.checksum, other.magic, other.len;
      seqNo, sysid, compid, msgid := other.seqNo, other.sysid, other.compid, other.msgid;
      forall i | 0 <= i < payload.Length {
        payload[i] := other.payload[i];
      }
      assert payload[..] == other.payload[..];
    }
  }

  lemma BodyOfWire(m: Message, p: Packet)
    requires |p.payload| <= |m.payload| && m.payload[..|p.payload|] == p.payload
    ensures m.Wire()[1..][..|p.payload| + CORE_HEADER_LEN] == [m.len, m.seqNo, m.sysid, m.compid, m.msgid] + p.payload
  {}

  /** With header, payload and checksum in place, the message in memory begins with the frame. */
  lemma FinishedWire(crcExtra: bv8, p: Packet, len: bv8, cells: seq<bv8>, sum: bv16)
    requires |p.payload| + 1 < |cells| && cells[..|p.payload|] == p.payload && Val(len) == |p.payload|
    requires sum == Accumulate(crcExtra, Over(INIT, [len, p.seqNo, p.sysid, p.compid, p.msgid] + p.payload))
    ensures ([STX, len, p.seqNo, p.sysid, p.compid, p.msgid]
               + cells[|p.payload| := Lo(sum)][|p.payload| + 1 := Hi(sum)])[..|p.payload| + NUM_NON_PAYLOAD_BYTES]
      == Encode(Only(crcExtra), p)
  {
    hide Val, Accumulate, Lo, Hi, Encode;
    var n := |p.payload|;
    FrameFromParts(Only(crcExtra), p, len, sum);
    assert cells[n := Lo(sum)][n + 1 := Hi(sum)][..n + 2] == p.payload + [Lo(sum), Hi(sum)];
  }

  class Channel {
    const extra: ExtraTable
    const rx: MessageBuffer
    var parseState: ParseState
    var packetIdx: nat
    var msgReceived: bool
    var parseError: nat
    var currentRxSeq: bv8
    var currentTxSeq: bv8
    var successCount: nat
    var dropCount: nat
    /** The bytes handed to the serial line so far. */
    var uart: seq<bv8>

    ghost predicate Valid()
      reads this, rx
    {
      rx.Valid()
      && packetIdx < 0x100 && parseError < 0x100 && successCount < 0x1_0000 && dropCount < 0x1_0000
    }

    /** The receiving side. */
    function View(): (r: Receiver)
      reads this, rx, rx.payload
    {
      Receiver(parseState, packetIdx, msgReceived, parseError, currentRxSeq, successCount, dropCount, rx.View())
    }

    /** The status record starts zeroed; the message buffer may hold anything. */
    constructor (table: ExtraTable)
      ensures Valid() && fresh(rx) && fresh(rx.payload)
      ensures extra == table && uart == [] && currentTxSeq == 0
      ensures !InAttempt(View()) && Consistent(extra, View()) && !msgReceived
      ensures successCount == 0 && dropCount == 0 && currentRxSeq == 0 && parseError == 0
    {
      extra := table;
      rx := new MessageBuffer();
      parseState, packetIdx, msgReceived, parseError := Uninit, 0, false, 0;
      currentRxSeq, currentTxSeq, successCount, dropCount, uart := 0, 0, 0, 0, [];
    }

    method UpdateChecksum(c: bv8)
      modifies rx`checksum
      ensures rx.checksum == Accumulate(c, old(rx.checksum))
    {
      rx.checksum := Accumulate(c, rx.checksum);
    }

    method StorePayload(i: nat, c: bv8)
      requires Valid() && i < PAYLOAD_CELLS
      modifies rx.payload
      ensures rx.payload[..] == old(rx.payload[..])[i := c]
    {
      rx.payload[i] := c;
    }

    /** A wrong checksum byte. */
    method RejectByte(c: bv8)
      requires Valid()
      modifies this`parseError, this`msgReceived, this`parseState, rx`len, rx`checksum
      ensures Valid()
      ensures View() == Reject(old(View()), c)
    {
      hide Accumulate;
      parseError := (parseError + 1) % 0x100;
      msgReceived := false;
      parseState := Idle;
      if c == STX {
        parseState := GotStx;
        rx.len := 0;
        rx.checksum := INIT;
      }
    }

    method HeaderByte(c: bv8)
      requires Valid() && !msgReceived && parseState in {GotStx, GotLength, GotSeq, GotSysid, GotCompid}
      modifies this`packetIdx, this`parseState, rx
      ensures Valid()
      ensures View() == Advance(extra, old(View()), c)
    {
      hide Accumulate;
      match parseState
      case GotStx =>
        rx.len := c;
        packetIdx := 0;
        UpdateChecksum(c);
        parseState := GotLength;
      case GotLength =>
        rx.seqNo := c;
        UpdateChecksum(c);
        parseState := GotSeq;
      case GotSeq =>
        rx.sysid := c;
        UpdateChecksum(c);
        parseState := GotSysid;
      case GotSysid =>
        rx.compid := c;
        UpdateChecksum(c);
        parseState := GotCompid;
      case GotCompid =>
        rx.msgid := c;
        UpdateChecksum(c);
        parseState := if rx.len == 0 then GotPayload else GotMsgid;
    }

    method PayloadByte(c: bv8)
      requires Valid() && !msgReceived && parseState.GotMsgid?
      modifies this, rx, rx.payload
      ensures Valid() && uart == old(uart) && currentTxSeq == old(currentTxSeq)
      ensures View() == Advance(extra, old(View()), c)
    {
      hide Accumulate, Lo, Hi, Reject, Val;
      AdvanceInRange(extra, View(), c);
      StorePayload(packetIdx, c);
      packetIdx := (packetIdx + 1) % 0x100;
      UpdateChecksum(c);
      if packetIdx == Val(rx.len) {
        parseState := GotPayload;
      }
    }

    method FirstChecksumByte(c: bv8)
      requires Valid() && !msgReceived && parseState.GotPayload?
      modifies this, rx, rx.payload
      ensures Valid() && uart == old(uart) && currentTxSeq == old(currentTxSeq)
      ensures View() == Advance(extra, old(View()), c)
    {
      hide Accumulate, Lo, Hi, Reject, Val;
      AdvanceInRange(extra, View(), c);
      UpdateChecksum(extra(rx.msgid));
      if c != Lo(rx.checksum) {
        RejectByte(c);
      } else {
        parseState := GotCrc1;
        StorePayload(packetIdx, c);
      }
    }

    method SecondChecksumByte(c: bv8)
      requires Valid() && !msgReceived && parseState.GotCrc1?
      modifies this, rx, rx.payload
      ensures Valid() && uart == old(uart) && currentTxSeq == old(currentTxSeq)
      ensures View() == Advance(extra, old(View()), c)
    {
      hide Accumulate, Lo, Hi, Reject, Val;
      AdvanceInRange(extra, View(), c);
      if c != Hi(rx.checksum) {
        RejectByte(c);
      } else {
        msgReceived := true;
        parseState := Idle;
        StorePayload(packetIdx + 1, c);
      }
    }

    /** The switch of the parser. The branch for an over-long length is compiled out for buffers of
        255 bytes. */
    method Switch(c: bv8)
      requires Valid() && !msgReceived
      modifies this, rx, rx.payload
      ensures Valid() && uart == old(uart) && currentTxSeq == old(currentTxSeq)
      ensures View() == Advance(extra, old(View()), c)
    {
      hide Accumulate, Lo, Hi, Reject, Val;
      AdvanceInRange(extra, View(), c);
      match parseState
      case Uninit | Idle =>
        if c == STX {
          parseState := GotStx;
          rx.len := 0;
          rx.magic := c;
          rx.checksum := INIT;
        }
      case GotStx | GotLength | GotSeq | GotSysid | GotCompid => HeaderByte(c);
      case GotMsgid => PayloadByte(c);
      case GotPayload => FirstChecksumByte(c);
      case GotCrc1 => SecondChecksumByte(c);
    }

    /** Counts a received message. */
    method CountMessage()
      requires Valid()
      modifies this`currentRxSeq, this`dropCount, this`successCount
      ensures Valid()
      ensures View() == Count(old(View()))
    {
      hide U16;
      if msgReceived {
        currentRxSeq := rx.seqNo;
        if successCount == 0 {
          dropCount := 0;
        }
        successCount := U16(successCount + 1);
      }
    }

    /** Reports to the caller and clears the pending error. */
    method Conclude() returns (report: Report)
      requires Valid()
      modifies this`parseError
      ensures Valid()
      ensures View() == old(View()).(parseError := 0)
      ensures report == ReportOf(old(View()))
    {
      report := Report(msgReceived, currentRxSeq + 1, successCount, parseError);
      parseError := 0;
    }

    method HandOver(out: MessageBuffer)
      requires Valid() && out.Valid() && out != rx && out.payload != rx.payload
      modifies out, out.payload
      ensures Valid() && View() == old(View())
      ensures out.View() == if msgReceived then rx.View() else old(out.View())
    {
      if msgReceived {
        out.CopyFrom(rx);
      }
    }

    /** Feeds one byte. On a complete frame the message is copied to `out` and 1 is returned; the bytes
        of the message in memory are then the bytes received. */
    method ParseChar(c: bv8, out: MessageBuffer) returns (report: Report)
      requires Valid() && out.Valid() && out != rx && out.payload != rx.payload
      modifies this, rx, rx.payload, out, out.payload
      ensures Valid() && uart == old(uart) && currentTxSeq == old(currentTxSeq)
      ensures View() == Step(extra, old(View()), c).0
      ensures report == Step(extra, old(View()), c).1
      ensures out.View() == if report.received then rx.View() else old(out.View())
      ensures old(Consistent(extra, View())) && report.received ==>
        Returned(out.View()) == old(Attempt(View())) + [c]
    {
      hide Advance, Consistent, Attempt, Returned, Encode, Judge;
      if Consistent(extra, View()) {
        StepRefines(extra, View(), c);
      }
      ghost var before := View().(msgReceived := false);
      AdvanceInRange(extra, before, c);
      msgReceived := false;
      assert View() == before;
      Switch(c);
      HandOver(out);
      CountMessage();
      report := Conclude();
    }

    // ---- Sending ----

    /** Fills in the header of a message and takes the next sequence number. */
    method WriteHeader(msg: MessageBuffer, systemId: bv8, componentId: bv8, length: bv8)
      modifies msg, this`currentTxSeq
      ensures currentTxSeq == old(currentTxSeq) + 1
      ensures msg.View() == Message(
        old(msg.checksum), STX, length, old(currentTxSeq), systemId, componentId, old(msg.msgid), msg.payload[..])
    {
      msg.magic := STX;
      msg.len := length;
      msg.sysid := systemId;
      msg.compid := componentId;
      msg.seqNo := currentTxSeq;
      currentTxSeq := currentTxSeq + 1;
    }

    /** Completes a message whose type and payload are already in place, and numbers it. */
    method FinalizeMessage(msg: MessageBuffer, systemId: bv8, componentId: bv8, length: bv8, crcExtra: bv8)
      returns (size: nat)
      requires msg.Valid()
      modifies msg, msg.payload, this`currentTxSeq
      ensures currentTxSeq == old(currentTxSeq) + 1
      ensures size == 8 + Val(length)
      ensures msg.magic == 254 && msg.len == length && msg.seqNo == old(currentTxSeq)
      ensures msg.sysid == systemId && msg.compid == componentId
      ensures msg.msgid == old(msg.msgid) && msg.checksum == old(msg.checksum)
      ensures var payload := old(msg.payload[..Val(length)]);
        var p := Packet(old(currentTxSeq), systemId, componentId, old(msg.msgid), payload);
        msg.View().Wire()[..size] == Encode(Only(crcExtra), p)
      ensures msg.payload[Val(length) + 2..] == old(msg.payload[Val(length) + 2..])
    {
      hide Val, Accumulate, Lo, Hi, Encode;
      var n := Val(length);
      ghost var p := Packet(currentTxSeq, systemId, componentId, msg.msgid, msg.payload[..n]);
      WriteHeader(msg, systemId, componentId, length);
      ghost var m := msg.View();
      var body := msg.View().Wire()[1..];
      BodyOfWire(m, p);
      var checksum := CrcCalculate(body, n + CORE_HEADER_LEN);
      checksum := Accumulate(crcExtra, checksum);
      FinishedWire(crcExtra, p, length, m.payload, checksum);
      msg.StoreChecksum(n, checksum);
      size := n + NUM_NON_PAYLOAD_BYTES;
      assert msg.View() == m.(payload := m.payload[n := Lo(checksum)][n + 1 := Hi(checksum)]);
      assert msg.payload[n + 2..] == m.payload[n + 2..];
    }

    /** Writes a message straight to the serial line, in three pieces. */
    method FinalizeAndSend(msgid: bv8, packet: seq<bv8>, length: bv8, crcExtra: bv8, systemId: bv8, componentId: bv8)
      requires Val(length) <= |packet|
      modifies this`currentTxSeq, this`uart
      ensures currentTxSeq == old(currentTxSeq) + 1
      ensures uart == old(uart)
        + Encode(Only(crcExtra), Packet(old(currentTxSeq), systemId, componentId, msgid, packet[..Val(length)]))
    {
      hide Val, Accumulate, Lo, Hi, Encode;
      var n := Val(length);
      var buf := [STX, length, currentTxSeq, systemId, componentId, msgid];
      ghost var p := Packet(currentTxSeq, systemId, componentId, msgid, packet[..n]);
      currentTxSeq := currentTxSeq + 1;
      var checksum := CrcCalculate(buf[1..], CORE_HEADER_LEN);
      assert buf[1..][..CORE_HEADER_LEN] == buf[1..] == [length, p.seqNo, systemId, componentId, msgid];
      checksum := CrcAccumulateBuffer(checksum, packet, n);
      OverConcat(INIT, buf[1..], packet[..n]);
      checksum := Accumulate(crcExtra, checksum);
      FrameFromParts(Only(crcExtra), p, length, checksum);
      SendUart(buf, NUM_HEADER_BYTES);
      SendUart(packet, n);
      SendUart([Lo(checksum), Hi(checksum)], 2);
      assert buf[..NUM_HEADER_BYTES] == buf;
      assert uart == old(uart) + (buf + packet[..n] + [Lo(checksum), Hi(checksum)]);
    }

    method SendUart(bytes: seq<bv8>, length: nat)
      requires length <= |bytes|
      modifies this`uart
      ensures uart == old(uart) + bytes[..length]
    {
      uart := uart + bytes[..length];
    }
  }

  /** Copies a finished message into a buffer for sending. */
  method MsgToSendBuffer(buffer: array<bv8>, msg: MessageBuffer) returns (size: nat)
    requires msg.Valid() && buffer != msg.payload
    requires 8 + Val(msg.len) <= buffer.Length
    modifies buffer
    ensures size == 8 + Val(msg.len)
    ensures buffer[..size] == msg.View().Wire()[..size]
    ensures buffer[size..] == old(buffer[size..])
  {
    hide Val;
    size := NUM_NON_PAYLOAD_BYTES + Val(msg.len);
    var wire := msg.View().Wire();
    forall i | 0 <= i < size {
      buffer[i] := wire[i];
    }
  }
}
