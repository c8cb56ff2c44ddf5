/** The MAVLink 1.0 frame: start mark, five core header bytes, payload, two checksum bytes. */
module Frame {
  import opened Bytes
  import opened Crc

  const STX: bv8 := 254
  const MAX_PAYLOAD_LEN := 255
  const CORE_HEADER_LEN := 5
  const NUM_HEADER_BYTES := CORE_HEADER_LEN + 1
  const NUM_CHECKSUM_BYTES := 2
  const NUM_NON_PAYLOAD_BYTES := NUM_HEADER_BYTES + NUM_CHECKSUM_BYTES
  const MAX_PACKET_LEN := MAX_PAYLOAD_LEN + NUM_NON_PAYLOAD_BYTES
  /** The payload buffer of a message is an array of 64-bit words. */
  const PAYLOAD_CELLS := 8 * ((MAX_PAYLOAD_LEN + NUM_CHECKSUM_BYTES + 7) / 8)

  /** The byte that each message type adds to the checksum. */
  type ExtraTable = bv8 -> bv8

  /** What a frame carries. */
  datatype Packet = Packet(seqNo: bv8, sysid: bv8, compid: bv8, msgid: bv8, payload: seq<bv8>) {
    predicate Fits() { |payload| <= MAX_PAYLOAD_LEN }
  }

  function CoreHeader(p: Packet): (h: seq<bv8>)
    requires p.Fits()
    ensures |h| == CORE_HEADER_LEN
  {
    [ByteOf(|p.payload|), p.seqNo, p.sysid, p.compid, p.msgid]
  }

  function Checksum(extra: ExtraTable, p: Packet): bv16
    requires p.Fits()
  {
    Accumulate(extra(p.msgid), Over(INIT, CoreHeader(p) + p.payload))
  }

  /** The frame that carries `p`. */
  function Encode(extra: ExtraTable, p: Packet): (f: seq<bv8>)
    requires p.Fits()
    ensures |f| == NUM_NON_PAYLOAD_BYTES + |p.payload|
  {
    var sum := Checksum(extra, p);
    [STX] + CoreHeader(p) + p.payload + [Lo(sum), Hi(sum)]
  }

  /** `b` is where a frame may stand after |b| bytes. */
  ghost predicate IsFramePrefix(extra: ExtraTable, b: seq<bv8>) {
    exists p: Packet :: p.Fits() && b <= Encode(extra, p)
  }

  ghost predicate IsFrame(extra: ExtraTable, b: seq<bv8>) {
    exists p: Packet :: p.Fits() && b == Encode(extra, p)
  }

  /** The length of the frame that begins with `b`. */
  function FrameLength(b: seq<bv8>): nat
    requires |b| >= 2
  {
    NUM_NON_PAYLOAD_BYTES + Val(b[1])
  }

  /** The checksum that the frame beginning with `b` has to end with. */
  function DueChecksum(extra: ExtraTable, b: seq<bv8>): bv16
    requires |b| >= 2 && |b| >= FrameLength(b) - 2
  {
    Accumulate(extra(b[5]), Over(INIT, b[1..FrameLength(b) - 2]))
  }

  /** A test, byte by byte, for being the beginning of a frame. */
  predicate LooksLikePrefix(extra: ExtraTable, b: seq<bv8>) {
    && (|b| >= 1 ==> b[0] == STX)
    && (|b| >= 2 ==> |b| <= FrameLength(b))
    && (|b| >= 2 && |b| > FrameLength(b) - 2 ==> b[FrameLength(b) - 2] == Lo(DueChecksum(extra, b)))
    && (|b| >= 2 && |b| > FrameLength(b) - 1 ==> b[FrameLength(b) - 1] == Hi(DueChecksum(extra, b)))
  }

  /** The packet read off the first bytes of a frame. */
  function PacketOf(b: seq<bv8>): (p: Packet)
    requires |b| >= 2 && |b| >= FrameLength(b) - 2
    ensures p.Fits()
  {
    Packet(b[2], b[3], b[4], b[5], b[6..FrameLength(b) - 2])
  }

  lemma EncodeParts(extra: ExtraTable, p: Packet)
    requires p.Fits()
    ensures var f := Encode(extra, p);
      && f[0] == STX && Val(f[1]) == |p.payload| && FrameLength(f) == |f|
      && f[1..|f| - 2] == CoreHeader(p) + p.payload
      && PacketOf(f) == p
      && DueChecksum(extra, f) == Checksum(extra, p)
      && f[|f| - 2] == Lo(Checksum(extra, p)) && f[|f| - 1] == Hi(Checksum(extra, p))
  {
    hide Val, Accumulate, Lo, Hi;
    var f := Encode(extra, p);
    assert f[1] == ByteOf(|p.payload|);
    assert f[1..|f| - 2] == CoreHeader(p) + p.payload;
    assert f[6..|f| - 2] == p.payload;
  }

  /** The frame in plain terms: 254, length, number, sender, type, payload, and the checksum by its
      definition, from 0xffff, over all of that behind the start mark and the type's extra byte, low
      byte first. */
  lemma FrameLayout(extra: ExtraTable, p: Packet)
    requires |p.payload| <= 255
    ensures var f, n := Encode(extra, p), |p.payload|;
      && |f| == 8 + n && f[0] == 254 && Val(f[1]) == n
      && f[2] == p.seqNo && f[3] == p.sysid && f[4] == p.compid && f[5] == p.msgid
      && f[6..6 + n] == p.payload
      && var c := Defined(0xffff, f[1..6 + n] + [extra(p.msgid)]);
         f[6 + n] as bv16 == c & 0xff && f[7 + n] as bv16 == c >> 8
  {
    hide Val, Accumulate, Over, Lo, Hi, Defined, Encode;
    var f, n := Encode(extra, p), |p.payload|;
    EncodeParts(extra, p);
    assert f[2..6] == [p.seqNo, p.sysid, p.compid, p.msgid] by {
      HeaderOf(extra, p);
    }
    assert f[1..6 + n] == CoreHeader(p) + p.payload;
    OverSnoc(0xffff, CoreHeader(p) + p.payload, extra(p.msgid));
    FastRefinesDefinition(0xffff, CoreHeader(p) + p.payload + [extra(p.msgid)]);
    SplitHalves(Checksum(extra, p), f[6 + n], f[7 + n]);
  }

  lemma HeaderOf(extra: ExtraTable, p: Packet)
    requires p.Fits()
    ensures Encode(extra, p)[2..6] == [p.seqNo, p.sysid, p.compid, p.msgid]
  {
    hide Checksum;
  }

  /** Once header and payload are complete, further bytes do not change the checksum due. */
  lemma DueChecksumStable(extra: ExtraTable, b: seq<bv8>, c: bv8)
    requires |b| >= 2 && |b| >= FrameLength(b) - 2
    ensures FrameLength(b + [c]) == FrameLength(b)
    ensures DueChecksum(extra, b + [c]) == DueChecksum(extra, b)
  {
    hide Val, Accumulate, Over;
    assert (b + [c])[1..FrameLength(b) - 2] == b[1..FrameLength(b) - 2];
  }

  /** Header and payload bytes may be anything: two checksum bytes make a frame of them. */
  lemma Complete(extra: ExtraTable, b: seq<bv8>)
    requires |b| >= 2 && |b| == FrameLength(b) - 2 && b[0] == STX
    ensures var sum := DueChecksum(extra, b); b + [Lo(sum), Hi(sum)] == Encode(extra, PacketOf(b))
  {
    hide Val, Accumulate, Lo, Hi, ByteOf, Over;
    ByteOfVal(b[1]);
    var p := PacketOf(b);
    assert b[1..] == CoreHeader(p) + p.payload;
    assert b[1..|b|] == b[1..];
    assert b == [b[0]] + b[1..];
  }

  /** Bytes that carry the right checksum in the right place are the frame of the packet read off them. */
  lemma FrameOfPacketOf(extra: ExtraTable, b: seq<bv8>)
    requires |b| >= 2 && |b| == FrameLength(b)
    requires LooksLikePrefix(extra, b)
    ensures b == Encode(extra, PacketOf(b))
  {
    hide Val, Accumulate, Lo, Hi, Encode, Over;
    var body := b[..|b| - 2];
    Complete(extra, body);
    assert body[1..|body|] == b[1..|b| - 2];
    assert body[6..|body|] == b[6..|b| - 2];
    assert b == body + [b[|b| - 2], b[|b| - 1]];
  }

  lemma FrameIsPrefix(extra: ExtraTable, p: Packet, k: nat)
    requires p.Fits() && k <= |Encode(extra, p)|
    ensures LooksLikePrefix(extra, Encode(extra, p)[..k])
  {
    hide Val, Accumulate, Lo, Hi, ByteOf, Over;
    EncodeParts(extra, p);
    var f := Encode(extra, p);
    var b := f[..k];
    if |b| > |f| - 2 {
      assert b[1..|f| - 2] == f[1..|f| - 2];
    }
  }

  lemma PrefixIsOfFrame(extra: ExtraTable, b: seq<bv8>)
    requires LooksLikePrefix(extra, b)
    ensures IsFramePrefix(extra, b)
  {
    hide Val, Accumulate, Lo, Hi, ByteOf, Over;
    if |b| < 2 {
      var p := Packet(0, 0, 0, 0, []);
      EncodeParts(extra, p);
      assert b <= Encode(extra, p);
    } else if |b| <= FrameLength(b) - 2 {
      hide Encode, DueChecksum;
      var full := b + Zeros(FrameLength(b) - 2 - |b|);
      Complete(extra, full);
      assert b <= Encode(extra, PacketOf(full));
    } else {
      hide Encode, PacketOf;
      var n := FrameLength(b);
      var full := b[..n - 2];
      Complete(extra, full);
      assert b[1..n - 2] == full[1..n - 2];
      assert b <= Encode(extra, PacketOf(full));
    }
  }

  /** The byte-by-byte test is exact. */
  lemma PrefixTestExact(extra: ExtraTable, b: seq<bv8>)
    ensures LooksLikePrefix(extra, b) <==> IsFramePrefix(extra, b)
  {
    hide LooksLikePrefix;
    if IsFramePrefix(extra, b) {
      var p: Packet :| p.Fits() && b <= Encode(extra, p);
      FrameIsPrefix(extra, p, |b|);
      assert b == Encode(extra, p)[..|b|];
    }
    if LooksLikePrefix(extra, b) {
      PrefixIsOfFrame(extra, b);
    }
  }

  lemma FrameTestExact(extra: ExtraTable, b: seq<bv8>)
    ensures IsFrame(extra, b) <==> LooksLikePrefix(extra, b) && |b| >= 2 && |b| == FrameLength(b)
  {
    hide LooksLikePrefix;
    if IsFrame(extra, b) {
      var p: Packet :| p.Fits() && b == Encode(extra, p);
      FrameIsPrefix(extra, p, |b|);
      assert b == b[..|b|];
      EncodeParts(extra, p);
    }
    if LooksLikePrefix(extra, b) && |b| >= 2 && |b| == FrameLength(b) {
      FrameOfPacketOf(extra, b);
    }
  }

  /** No frame is the beginning of a longer one, and a frame determines its packet. */
  lemma PrefixFree(extra: ExtraTable, p: Packet, q: Packet)
    requires p.Fits() && q.Fits() && Encode(extra, p) <= Encode(extra, q)
    ensures p == q
  {
    hide Encode, Checksum, ByteOf;
    EncodeParts(extra, p);
    EncodeParts(extra, q);
    assert Encode(extra, p) == Encode(extra, q);
  }

  /** A table that only knows the extra byte a sender was given. */
  function Only(x: bv8): ExtraTable { _ => x }

  /** A frame depends on the table through its own message type alone. */
  lemma EncodeLocal(extra: ExtraTable, p: Packet)
    requires p.Fits()
    ensures Encode(Only(extra(p.msgid)), p) == Encode(extra, p)
  {}

  /** The frame written down from its parts. */
  lemma FrameFromParts(extra: ExtraTable, p: Packet, len: bv8, sum: bv16)
    requires p.Fits() && Val(len) == |p.payload|
    requires sum == Accumulate(extra(p.msgid), Over(INIT, [len, p.seqNo, p.sysid, p.compid, p.msgid] + p.payload))
    ensures Encode(extra, p)
      == [STX, len, p.seqNo, p.sysid, p.compid, p.msgid] + p.payload + [Lo(sum), Hi(sum)]
  {
    hide Val, Accumulate, Lo, Hi, ByteOf;
    ByteOfVal(len);
    assert CoreHeader(p) == [len, p.seqNo, p.sysid, p.compid, p.msgid];
    assert [STX] + CoreHeader(p) == [STX, len, p.seqNo, p.sysid, p.compid, p.msgid];
  }
}
