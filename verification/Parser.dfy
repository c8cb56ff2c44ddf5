/** The byte-at-a-time receiver, as a function from state and byte to state and report, and the
    declarative reading of it: a recogniser that keeps exactly the bytes that can still become a
    frame. */
module Parser {
  import opened Bytes
  import opened Crc
  import opened Frame

  datatype ParseState =
    | Uninit | Idle | GotStx | GotSeq | GotLength | GotSysid | GotCompid | GotMsgid | GotPayload | GotCrc1

  /** The fields of a message in memory; the payload cells also hold the two checksum bytes. */
  datatype Message = Message(
    checksum: bv16, magic: bv8, len: bv8, seqNo: bv8, sysid: bv8, compid: bv8, msgid: bv8, payload: seq<bv8>)
  {
    /** The bytes of the message as they lie in memory from `magic` on. */
    function Wire(): seq<bv8> { [magic, len, seqNo, sysid, compid, msgid] + payload }
  }

  /** The receiving side of one channel: its status record and its message buffer. */
  datatype Receiver = Receiver(
    state: ParseState, packetIdx: nat, msgReceived: bool, parseError: nat,
    currentRxSeq: bv8, successCount: nat, dropCount: nat, rx: Message)
  {
    /** The integer widths of the fields. */
    predicate InRange() {
      packetIdx < 0x100 && parseError < 0x100 && successCount < 0x1_0000 && dropCount < 0x1_0000
      && |rx.payload| == PAYLOAD_CELLS
    }
  }

  /** A 16-bit counter holds its value modulo its width. */
  function U16(n: nat): (r: nat)
    ensures r < 0x1_0000
  {
    n % 0x1_0000
  }

  /** What one call reports to its caller besides the message. */
  datatype Report = Report(received: bool, nextSeq: bv8, successCount: nat, dropCount: nat)

  function Checksummed(m: Message, c: bv8): Message { m.(checksum := Accumulate(c, m.checksum)) }

  /** A checksum byte was wrong: count it, and start over if the byte is a start mark. */
  function Reject(r: Receiver, c: bv8): (r': Receiver)
    requires r.InRange()
    ensures r'.InRange()
  {
    var r' := r.(parseError := (r.parseError + 1) % 0x100, msgReceived := false, state := Idle);
    if c == STX then r'.(state := GotStx, rx := r'.rx.(len := 0, checksum := INIT)) else r'
  }

  /** The state machine. */
  function Advance(extra: ExtraTable, r: Receiver, c: bv8): Receiver
    requires r.InRange()
  {
    match r.state
    case Uninit | Idle =>
      if c == STX then r.(state := GotStx, rx := r.rx.(len := 0, magic := c, checksum := INIT)) else r
    case GotStx => r.(rx := Checksummed(r.rx.(len := c), c), packetIdx := 0, state := GotLength)
    case GotLength => r.(rx := Checksummed(r.rx.(seqNo := c), c), state := GotSeq)
    case GotSeq => r.(rx := Checksummed(r.rx.(sysid := c), c), state := GotSysid)
    case GotSysid => r.(rx := Checksummed(r.rx.(compid := c), c), state := GotCompid)
    case GotCompid =>
      var rx := Checksummed(r.rx.(msgid := c), c);
      r.(rx := rx, state := if rx.len == 0 then GotPayload else GotMsgid)
    case GotMsgid =>
      var rx := Checksummed(r.rx.(payload := r.rx.payload[r.packetIdx := c]), c);
      var idx := (r.packetIdx + 1) % 0x100;
      r.(rx := rx, packetIdx := idx, state := if idx == Val(rx.len) then GotPayload else GotMsgid)
    case GotPayload =>
      var rx := Checksummed(r.rx, extra(r.rx.msgid));
      if c != Lo(rx.checksum) then Reject(r.(rx := rx), c)
      else r.(rx := rx.(payload := rx.payload[r.packetIdx := c]), state := GotCrc1)
    case GotCrc1 =>
      if c != Hi(r.rx.checksum) then Reject(r, c)
      else r.(rx := r.rx.(payload := r.rx.payload[r.packetIdx + 1 := c]), state := Idle, msgReceived := true)
  }

  lemma AdvanceInRange(extra: ExtraTable, r: Receiver, c: bv8)
    requires r.InRange()
    ensures Advance(extra, r, c).InRange()
    ensures Advance(extra, r, c).successCount == r.successCount
    ensures Advance(extra, r, c).dropCount == r.dropCount
    ensures Advance(extra, r, c).currentRxSeq == r.currentRxSeq
  {
    hide Val, Accumulate, Lo, Hi;
    match r.state
    case Uninit | Idle =>
    case GotStx =>
    case GotLength =>
    case GotSeq =>
    case GotSysid =>
    case GotCompid =>
    case GotMsgid =>
    case GotPayload =>
    case GotCrc1 =>
  }

  /** The counters that a received message changes. */
  function Count(r: Receiver): (r': Receiver)
    requires r.InRange()
    ensures r'.InRange()
  {
    if r.msgReceived then
      r.(currentRxSeq := r.rx.seqNo,
         dropCount := if r.successCount == 0 then 0 else r.dropCount,
         successCount := U16(r.successCount + 1))
    else r
  }

  function ReportOf(r: Receiver): Report {
    Report(r.msgReceived, r.currentRxSeq + 1, r.successCount, r.parseError)
  }

  /** One call of the parser. */
  function Step(extra: ExtraTable, r: Receiver, c: bv8): (o: (Receiver, Report))
    requires r.InRange()
    ensures o.0.InRange() && o.0.parseError == 0
  {
    AdvanceInRange(extra, r.(msgReceived := false), c);
    var r' := Count(Advance(extra, r.(msgReceived := false), c));
    (r'.(parseError := 0), ReportOf(r'))
  }

  // ---- The bytes of the frame attempt under way ----

  function Header(m: Message): (h: seq<bv8>)
    ensures |h| == NUM_HEADER_BYTES
  {
    [STX, m.len, m.seqNo, m.sysid, m.compid, m.msgid]
  }

  /** The bytes of the attempt under way, read back from the fields that hold them. */
  function Attempt(r: Receiver): seq<bv8>
    requires r.InRange()
  {
    match r.state
    case Uninit | Idle => []
    case GotStx => Header(r.rx)[..1]
    case GotLength => Header(r.rx)[..2]
    case GotSeq => Header(r.rx)[..3]
    case GotSysid => Header(r.rx)[..4]
    case GotCompid => Header(r.rx)[..5]
    case GotMsgid | GotPayload => Header(r.rx) + r.rx.payload[..r.packetIdx]
    case GotCrc1 => Header(r.rx) + r.rx.payload[..r.packetIdx + 1]
  }

  predicate InAttempt(r: Receiver) { !r.state.Uninit? && !r.state.Idle? }

  /** What every call keeps: the payload index stays below the length while payload is read, the
      running checksum is that of the attempt so far, and no error is pending. */
  predicate Consistent(extra: ExtraTable, r: Receiver): (b: bool)
    ensures b ==> r.InRange()
  {
    && r.InRange()
    && r.parseError == 0
    && (InAttempt(r) ==> r.rx.magic == STX)
    && (r.state.GotLength? || r.state.GotSeq? || r.state.GotSysid? || r.state.GotCompid? ==> r.packetIdx == 0)
    && (r.state.GotMsgid? ==> r.packetIdx < Val(r.rx.len))
    && (r.state.GotPayload? || r.state.GotCrc1? ==> r.packetIdx == Val(r.rx.len))
    && (InAttempt(r) && !r.state.GotCrc1? ==> r.rx.checksum == Over(INIT, Attempt(r)[1..]))
    && (r.state.GotCrc1? ==>
          && r.rx.checksum == DueChecksum(extra, Attempt(r))
          && r.rx.payload[r.packetIdx] == Lo(r.rx.checksum))
  }

  // ---- The recogniser ----

  datatype Verdict = Ignored | Started | Extended | Accepted | Restarted | Dropped

  /** Given the attempt so far and a byte: does the byte complete a frame, can the bytes still
      become one, or must the attempt be given up? */
  ghost function Judge(extra: ExtraTable, a: seq<bv8>, c: bv8): Verdict {
    if a == [] then (if c == STX then Started else Ignored)
    else if IsFrame(extra, a + [c]) then Accepted
    else if IsFramePrefix(extra, a + [c]) then Extended
    else if c == STX then Restarted
    else Dropped
  }

  function Continue(a: seq<bv8>, c: bv8, v: Verdict): seq<bv8> {
    match v
    case Started | Restarted => [STX]
    case Extended => a + [c]
    case Ignored | Accepted | Dropped => []
  }
}
