/** Extended messages: byte strings cut into fragments that travel in frames of message type 255,
    and the receiver that queues and reassembles them, stream by stream. */
module Fragments {
  import opened Bytes
  import opened Crc
  import opened Frame
  import opened Parser

  const EXTENDED_MESSAGE: bv8 := 255
  const EXTENDED_HEADER_LEN := 14

  // ---- Little-endian numbers ----

  /** A 32-bit number holds its value modulo its width. */
  function U32(n: nat): (r: nat)
    ensures r < 0x1_0000_0000
  {
    n % 0x1_0000_0000
  }

  function Bytes16(n: nat): (b: seq<bv8>)
    ensures |b| == 2
  {
    [ByteOf(n % 0x100), ByteOf(n / 0x100 % 0x100)]
  }

  function Number16(b: seq<bv8>): nat
    requires |b| == 2
  {
    Val(b[0]) + 0x100 * Val(b[1])
  }

  function Bytes32(n: nat): (b: seq<bv8>)
    ensures |b| == 4
  {
    Bytes16(n % 0x1_0000) + Bytes16(n / 0x1_0000)
  }

  function Number32(b: seq<bv8>): nat
    requires |b| == 4
  {
    Number16(b[..2]) + 0x1_0000 * Number16(b[2..])
  }

  lemma Read16(n: nat)
    requires n < 0x1_0000
    ensures Number16(Bytes16(n)) == n
  {
    hide Val, ByteOf;
  }

  lemma Read32(n: nat)
    requires n < 0x1_0000_0000
    ensures Number32(Bytes32(n)) == n
  {
    hide Number16, Bytes16;
    Read16(n % 0x1_0000);
    Read16(n / 0x1_0000);
    assert Bytes32(n)[..2] == Bytes16(n % 0x1_0000) && Bytes32(n)[2..] == Bytes16(n / 0x1_0000);
  }

  /** Least significant byte first. */
  lemma Bytes16Places(n: nat)
    ensures Val(Bytes16(n)[0]) == n % 256 && Val(Bytes16(n)[1]) == n / 256 % 256
  {
    hide Val, ByteOf;
  }

  lemma Bytes32Places(n: nat)
    requires n < 0x1_0000_0000
    ensures Val(Bytes32(n)[0]) == n % 256 && Val(Bytes32(n)[1]) == n / 256 % 256
    ensures Val(Bytes32(n)[2]) == n / 0x1_0000 % 256 && Val(Bytes32(n)[3]) == n / 0x100_0000 % 256
  {
    hide Val, Bytes16;
    Bytes16Places(n % 0x1_0000);
    Bytes16Places(n / 0x1_0000);
    LowDigits(n);
    HighDigits(n);
  }

  lemma LowDigits(n: nat)
    ensures n % 0x1_0000 % 256 == n % 256 && n % 0x1_0000 / 256 % 256 == n / 256 % 256
  {
    assert n / 256 == 256 * (n / 0x1_0000) + n % 0x1_0000 / 256;
  }

  lemma HighDigits(n: nat)
    ensures n / 0x1_0000 / 256 == n / 0x100_0000
  {}

  // ---- Fragments ----

  /** A fragment as it lies in a queue: the frame with the extended header, and the data. */
  datatype Fragment = Fragment(base: Message, extLen: int, ext: seq<bv8>) {
    /** The data length is one the data array has. */
    predicate Sound() { |base.payload| == PAYLOAD_CELLS && 0 <= extLen <= |ext| }

    function TypeCode(): nat
      requires Sound()
    {
      Val(base.payload[2])
    }

    function Size(): nat
      requires Sound()
    {
      Number32(base.payload[3..7])
    }

    function StreamId(): nat
      requires Sound()
    {
      Number16(base.payload[7..9])
    }

    function Offset(): nat
      requires Sound()
    {
      Number32(base.payload[9..13])
    }

    /** Further fragments of the message follow. */
    predicate More()
      requires Sound()
    {
      base.payload[13] & 0x1 == 0x1
    }

    function Data(): seq<bv8>
      requires Sound()
    {
      ext[..extLen]
    }
  }

  /** Where the receiver finds the numbers of a header, byte by byte. */
  lemma HeaderPlaces(f: Fragment)
    requires f.Sound()
    ensures var p := f.base.payload;
      && f.TypeCode() == Val(p[2])
      && f.Size() == Val(p[3]) + 256 * Val(p[4]) + 0x1_0000 * Val(p[5]) + 0x100_0000 * Val(p[6])
      && f.StreamId() == Val(p[7]) + 256 * Val(p[8])
      && f.Offset() == Val(p[9]) + 256 * Val(p[10]) + 0x1_0000 * Val(p[11]) + 0x100_0000 * Val(p[12])
      && (f.More() <==> Val(p[13]) % 2 == 1)
  {
    hide Val;
    LowestBit(f.base.payload[13]);
  }

  lemma LowestBit(b: bv8)
    ensures b & 0x1 == 0x1 <==> Val(b) % 2 == 1
  {}

  /** The checksum the receiver computes over a fragment's frame. */
  function FragmentChecksum(extra: ExtraTable, m: Message): bv16
    requires |m.payload| == PAYLOAD_CELLS
  {
    Accumulate(extra(m.msgid),
               Over(Over(INIT, [m.len, m.seqNo, m.sysid, m.compid, m.msgid]), m.payload[..EXTENDED_HEADER_LEN]))
  }

  /** The receiver's test of a fragment. It turns a fragment away only if both checksum bytes differ. */
  predicate ValidFragment(extra: ExtraTable, m: Message)
    requires |m.payload| == PAYLOAD_CELLS
  {
    && m.magic == STX
    && Val(m.len) == EXTENDED_HEADER_LEN
    && m.msgid == EXTENDED_MESSAGE
    && !(m.payload[EXTENDED_HEADER_LEN] != Lo(FragmentChecksum(extra, m))
         && m.payload[EXTENDED_HEADER_LEN + 1] != Hi(FragmentChecksum(extra, m)))
  }

  // ---- The receiver ----

  /** The receiving side: below which bound type codes are taken, one queue per stream seen, and per
      type code the last message and whether it is new. */
  datatype Reassembler = Reassembler(
    types: nat, queues: map<nat, seq<Fragment>>, messages: seq<seq<bv8>>, available: seq<bool>)
  {
    ghost predicate Valid() {
      && |messages| == |available| >= types
      && forall sid :: sid in queues ==> AllSound(queues[sid])
    }

    /** A stream without a queue behaves as one with an empty queue. */
    function QueueOf(sid: nat): seq<Fragment> {
      if sid in queues then queues[sid] else []
    }
  }

  ghost predicate AllSound(fs: seq<Fragment>) {
    forall i :: 0 <= i < |fs| ==> fs[i].Sound()
  }

  /** The data of a run of fragments. */
  function Joined(fs: seq<Fragment>): seq<bv8>
    requires forall i :: 0 <= i < |fs| ==> fs[i].Sound()
  {
    if fs == [] then [] else Joined(fs[..|fs| - 1]) + fs[|fs| - 1].Data()
  }

  /** A reassembled message. */
  datatype Reassembled = Reassembled(stream: nat, typeCode: nat, data: seq<bv8>)

  /** What a fragment does to the queue of its stream. */
  datatype Effect = Wait | Clear | Append | Complete

  /** The offset at which the message in a queue goes on. */
  function Expects(q: seq<Fragment>): nat
    requires q != [] ==> q[|q| - 1].Sound()
  {
    if q == [] then 0 else U32(q[|q| - 1].Size() + q[|q| - 1].Offset())
  }

  /** A fragment opens an empty queue if it is the first of its message; it joins a non-empty one if
      it continues the last fragment there, and otherwise empties it. */
  function EffectOn(q: seq<Fragment>, f: Fragment): Effect
    requires f.Sound() && (q != [] ==> q[|q| - 1].Sound())
  {
    if Expects(q) != f.Offset() then (if q == [] then Wait else Clear)
    else if f.More() then Append
    else Complete
  }

  /** A fragment the receiver takes note of. */
  predicate Heard(extra: ExtraTable, r: Reassembler, f: Fragment)
    requires f.Sound()
  {
    ValidFragment(extra, f.base) && f.TypeCode() < r.types
  }

  /** One received fragment: the new state, whether it was accepted, and the message it completes. */
  function Cache(extra: ExtraTable, r: Reassembler, f: Fragment): (o: (Reassembler, bool, seq<Reassembled>))
    requires r.Valid() && f.Sound()
    ensures o.0.Valid() && o.0.types == r.types
  {
    hide ValidFragment, Joined, EffectOn, Fragment.StreamId, Fragment.Offset, Fragment.Size, Fragment.More;
    if !Heard(extra, r, f) then (r, false, [])
    else
      var sid, q := f.StreamId(), r.QueueOf(f.StreamId());
      match EffectOn(q, f)
      case Wait => (r, true, [])
      case Clear => (r.(queues := r.queues[sid := []]), true, [])
      case Append => (r.(queues := r.queues[sid := q + [f]]), true, [])
      case Complete =>
        var data := Joined(q + [f]);
        (r.(queues := r.queues[sid := []],
            messages := r.messages[f.TypeCode() := data],
            available := r.available[f.TypeCode() := true]),
         true,
         [Reassembled(sid, f.TypeCode(), data)])
  }

  /** The answer: true exactly for a valid fragment of a type code in use. A refused fragment changes
      nothing and delivers nothing. */
  lemma AcceptedIff(extra: ExtraTable, r: Reassembler, f: Fragment)
    requires r.Valid() && f.Sound()
    ensures Cache(extra, r, f).1 <==> ValidFragment(extra, f.base) && Val(f.base.payload[2]) < r.types
    ensures !Cache(extra, r, f).1 ==> Cache(extra, r, f).0 == r && Cache(extra, r, f).2 == []
  {
    hide ValidFragment, EffectOn, Joined;
  }

  /** The receiver after the fragments `fs`. */
  function Feed(extra: ExtraTable, r: Reassembler, fs: seq<Fragment>): (r': Reassembler)
    requires r.Valid() && AllSound(fs)
    ensures r'.Valid() && r'.types == r.types
  {
    if fs == [] then r else Cache(extra, Feed(extra, r, fs[..|fs| - 1]), fs[|fs| - 1]).0
  }

  /** The messages delivered while the fragments `fs` come in. */
  function Delivered(extra: ExtraTable, r: Reassembler, fs: seq<Fragment>): seq<Reassembled>
    requires r.Valid() && AllSound(fs)
  {
    if fs == [] then []
    else Delivered(extra, r, fs[..|fs| - 1]) + Cache(extra, Feed(extra, r, fs[..|fs| - 1]), fs[|fs| - 1]).2
  }

  lemma FeedNothing(extra: ExtraTable, r: Reassembler)
    requires r.Valid()
    ensures Feed(extra, r, []) == r && Delivered(extra, r, []) == []
  {}

  lemma FeedSnoc(extra: ExtraTable, r: Reassembler, fs: seq<Fragment>, f: Fragment)
    requires r.Valid() && AllSound(fs) && f.Sound()
    ensures AllSound(fs + [f])
    ensures Feed(extra, r, fs + [f]) == Cache(extra, Feed(extra, r, fs), f).0
    ensures Delivered(extra, r, fs + [f]) == Delivered(extra, r, fs) + Cache(extra, Feed(extra, r, fs), f).2
  {
    hide Cache;
    assert (fs + [f])[..|fs + [f]| - 1] == fs;
  }
}
