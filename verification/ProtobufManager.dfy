/** The fragmenting sender and the reassembling receiver, as the program keeps them: one object whose
    maps and lists are updated in place. A message is a byte string; what the bytes mean to the
    message library is not part of this model. */
module ProtobufManager {
  import opened Bytes
  import opened Crc
  import opened Frame
  import opened Parser
  import opened Channel
  import opened Fragments
  import opened FragmentTheorems

  /** The fourteen header bytes of a fragment. */
  function HeaderBytes(
    targetSystem: bv8, targetComponent: bv8, typeCode: nat, length: nat, streamId: nat, offset: nat, flags: bv8)
    : (h: seq<bv8>)
    requires typeCode <= 0xff
    ensures |h| == EXTENDED_HEADER_LEN
  {
    [targetSystem, targetComponent, ByteOf(typeCode)] + Bytes32(length) + Bytes16(streamId) + Bytes32(offset) + [flags]
  }

  lemma HeaderRead(f: Fragment, targetSystem: bv8, targetComponent: bv8, typeCode: nat, length: nat, streamId: nat,
                   offset: nat, flags: bv8)
    requires f.Sound() && typeCode <= 0xff
    requires length < 0x1_0000_0000 && streamId < 0x1_0000 && offset < 0x1_0000_0000
    requires f.base.payload[..EXTENDED_HEADER_LEN]
      == HeaderBytes(targetSystem, targetComponent, typeCode, length, streamId, offset, flags)
    ensures f.TypeCode() == typeCode && f.Size() == length && f.StreamId() == streamId && f.Offset() == offset
    ensures f.More() <==> flags & 0x1 == 0x1
    ensures f.base.payload[0] == targetSystem && f.base.payload[1] == targetComponent
  {
    hide Val, ByteOf, Bytes16, Bytes32, Number16, Number32;
    var h, p := HeaderBytes(targetSystem, targetComponent, typeCode, length, streamId, offset, flags), f.base.payload;
    assert p[0] == h[0] && p[1] == h[1] && p[2] == h[2] && p[13] == h[13];
    assert p[3..7] == h[3..7] == Bytes32(length);
    assert p[7..9] == h[7..9] == Bytes16(streamId);
    assert p[9..13] == h[9..13] == Bytes32(offset);
    Read32(length);
    Read16(streamId);
    Read32(offset);
  }

  /** The fourteen header bytes one by one, numbers with their least significant byte first. */
  predicate HeaderIs(p: seq<bv8>, targetSystem: bv8, targetComponent: bv8, typeCode: nat, length: nat, streamId: nat,
                     offset: nat, flags: bv8)
    requires |p| >= 14
  {
    && p[0] == targetSystem && p[1] == targetComponent && Val(p[2]) == typeCode
    && Val(p[3]) == length % 256 && Val(p[4]) == length / 256 % 256
    && Val(p[5]) == length / 0x1_0000 % 256 && Val(p[6]) == length / 0x100_0000 % 256
    && Val(p[7]) == streamId % 256 && Val(p[8]) == streamId / 256 % 256
    && Val(p[9]) == offset % 256 && Val(p[10]) == offset / 256 % 256
    && Val(p[11]) == offset / 0x1_0000 % 256 && Val(p[12]) == offset / 0x100_0000 % 256
    && p[13] == flags
  }

  lemma HeaderPlaced(p: seq<bv8>, targetSystem: bv8, targetComponent: bv8, typeCode: nat, length: nat, streamId: nat,
                     offset: nat, flags: bv8)
    requires |p| >= 14 && typeCode <= 0xff && length < 0x1_0000_0000 && offset < 0x1_0000_0000
    requires p[..14] == HeaderBytes(targetSystem, targetComponent, typeCode, length, streamId, offset, flags)
    ensures HeaderIs(p, targetSystem, targetComponent, typeCode, length, streamId, offset, flags)
  {
    hide Val, ByteOf, Bytes16, Bytes32;
    var h := HeaderBytes(targetSystem, targetComponent, typeCode, length, streamId, offset, flags);
    assert forall i :: 0 <= i < 14 ==> p[i] == h[i];
    assert h[3..7] == Bytes32(length) && h[7..9] == Bytes16(streamId) && h[9..13] == Bytes32(offset);
    Bytes32Places(length);
    Bytes16Places(streamId);
    Bytes32Places(offset);
  }

  /** Who a fragment is from and to, and its number on the channel. */
  predicate Addressed(f: Fragment, seqNo: bv8, systemId: bv8, componentId: bv8, targetSystem: bv8, targetComponent: bv8)
    requires f.Sound()
  {
    && f.base.seqNo == seqNo && f.base.sysid == systemId && f.base.compid == componentId
    && f.base.payload[0] == targetSystem && f.base.payload[1] == targetComponent
  }

  /** A message in memory that begins with a finished frame has the fields of its packet. */
  lemma WireFields(m: Message, p: Packet)
    requires p.Fits() && |m.payload| == PAYLOAD_CELLS
    requires m.Wire()[..NUM_NON_PAYLOAD_BYTES + |p.payload|] == Encode(Only(0), p)
    ensures m.magic == STX && Val(m.len) == |p.payload|
    ensures m.seqNo == p.seqNo && m.sysid == p.sysid && m.compid == p.compid && m.msgid == p.msgid
    ensures m.payload[..|p.payload|] == p.payload
    ensures m.payload[|p.payload|] == Lo(Checksum(Only(0), p)) && m.payload[|p.payload| + 1] == Hi(Checksum(Only(0), p))
  {
    hide Val, Encode, Checksum, Lo, Hi;
    EncodeParts(Only(0), p);
    var f, w, n := Encode(Only(0), p), m.Wire(), |p.payload|;
    assert forall i :: 0 <= i < |f| ==> w[i] == f[i];
    assert PacketOf(f) == p;
    assert m.payload[..n] == w[6..6 + n] == f[6..6 + n];
  }

  /** A frame finished with extra byte 0 passes the receiver's test, whose table has 0 for this type. */
  lemma FinishedIsValid(extra: ExtraTable, m: Message, p: Packet)
    requires |p.payload| == EXTENDED_HEADER_LEN && p.msgid == EXTENDED_MESSAGE && extra(EXTENDED_MESSAGE) == 0
    requires |m.payload| == PAYLOAD_CELLS
    requires m.Wire()[..NUM_NON_PAYLOAD_BYTES + |p.payload|] == Encode(Only(0), p)
    ensures ValidFragment(extra, m) && m.payload[..EXTENDED_HEADER_LEN] == p.payload
    ensures m.seqNo == p.seqNo && m.sysid == p.sysid && m.compid == p.compid
  {
    hide Val, Encode, Lo, Hi, Accumulate, Over, ByteOf;
    WireFields(m, p);
    var core := [m.len, m.seqNo, m.sysid, m.compid, m.msgid];
    OverConcat(INIT, core, p.payload);
    ByteOfVal(m.len);
    assert CoreHeader(p) == core;
  }

  /** How many pieces of at most `max` bytes `n` bytes are cut into. */
  function FragmentCount(n: nat, max: nat): (count: nat)
    requires max > 0
  {
    (n + max - 1) / max
  }

  lemma PieceCount(n: nat, max: nat, i: nat)
    requires n > 0 && max > 0
    ensures var count := FragmentCount(n, max);
      && count > 0 && max * (count - 1) < n <= max * (count - 1) + max
      && (i < count - 1 ==> max * i + max < n && max * (i + 1) == max * i + max)
  {
    var count := FragmentCount(n, max);
    assert max * count <= n + max - 1 < max * count + max;
    assert max * (count - 1) == max * count - max;
    if i < count - 1 {
      assert max * (i + 1) <= max * (count - 1) by { MulMonotone(max, i + 1, count - 1); }
      assert max * (i + 1) == max * i + max;
    }
  }

  lemma MulMonotone(m: nat, a: nat, b: nat)
    requires a <= b
    ensures m * a <= m * b
  {}

  /** The pieces cut so far, whose last cut is `offset`. */
  ghost predicate CutSoFar(extra: ExtraTable, t: Transfer, offset: nat) {
    && |t.cuts| == |t.fragments| + 1 && t.cuts[0] == 0 && t.cuts[|t.fragments|] == offset
    && AllSound(t.fragments)
    && forall k :: 0 <= k < |t.fragments| ==> t.Carried(extra, k)
  }

  /** What all fragments of a message have in common, and who sends them to whom. */
  datatype Sending = Sending(
    max: nat, count: nat, start: bv8, systemId: bv8, componentId: bv8, targetSystem: bv8, targetComponent: bv8,
    typeCode: nat, streamId: nat)
  {
    /** Fragment `k` is the k-th sent, is cut at `max * k`, is not larger than `max`, and its header has
        all the numbers in their places, with the flag 1 on all but the last. */
    ghost predicate Sends(k: nat, f: Fragment, from: nat, to: nat) {
      && f.Sound() && from == max * k && from <= to <= from + max
      && Addressed(f, TxSeqAfter(start, k), systemId, componentId, targetSystem, targetComponent)
      && HeaderIs(f.base.payload, targetSystem, targetComponent, typeCode, to - from, streamId, from,
                  if k + 1 < count then 1 else 0)
    }
  }

  ghost predicate Sent(s: Sending, fs: seq<Fragment>, cuts: seq<nat>) {
    |cuts| == |fs| + 1 && forall k :: 0 <= k < |fs| ==> s.Sends(k, fs[k], cuts[k], cuts[k + 1])
  }

  lemma NothingSent(s: Sending)
    ensures Sent(s, [], [0])
  {}

  lemma SentNext(s: Sending, fs: seq<Fragment>, cuts: seq<nat>, f: Fragment, to: nat)
    requires Sent(s, fs, cuts) && s.Sends(|fs|, f, cuts[|fs|], to)
    ensures Sent(s, fs + [f], cuts + [to])
  {
    hide Sending.Sends;
  }

  /** The fragment carries the bytes from `from` to `to` of a message. */
  ghost predicate Carries(extra: ExtraTable, sid: nat, typeCode: nat, data: seq<bv8>, f: Fragment, from: nat, to: nat) {
    Transfer(sid, typeCode, data, [from, to], [f]).Carried(extra, 0)
  }

  lemma CutNext(extra: ExtraTable, t: Transfer, f: Fragment, from: nat, to: nat)
    requires CutSoFar(extra, t, from) && Carries(extra, t.sid, t.typeCode, t.data, f, from, to)
    ensures CutSoFar(extra, t.(cuts := t.cuts + [to], fragments := t.fragments + [f]), to)
  {
    hide ValidFragment, Fragment.StreamId, Fragment.TypeCode, Fragment.Offset, Fragment.Size, Fragment.More;
    var t' := t.(cuts := t.cuts + [to], fragments := t.fragments + [f]);
    forall k | 0 <= k < |t'.fragments| ensures t'.Carried(extra, k) {
      if k < |t.fragments| {
        assert t.Carried(extra, k);
      }
    }
  }

  lemma NothingCut(extra: ExtraTable, sid: nat, typeCode: nat, data: seq<bv8>)
    ensures CutSoFar(extra, Transfer(sid, typeCode, data, [0], []), 0)
  {}

  lemma NoPieces(n: nat, max: nat)
    requires max > 0
    ensures FragmentCount(n, max) == 0 <==> n == 0
  {}

  lemma CutDone(extra: ExtraTable, t: Transfer)
    requires CutSoFar(extra, t, |t.data|) && |t.data| < 0x1_0000_0000
    ensures t.Valid(extra)
  {}

  class ProtobufManager {
    const extra: ExtraTable
    const streamId: nat
    const extendedPayloadMaxSize: nat
    var typeMap: map<string, nat>
    var registeredTypeCount: nat
    var messages: seq<seq<bv8>>
    var available: seq<bool>
    var fragmentQueue: map<nat, seq<Fragment>>

    ghost predicate Valid()
      reads this
    {
      && streamId < 0x1_0000 && extendedPayloadMaxSize > 0
      && |typeMap| <= registeredTypeCount == |messages|
      && (forall name :: name in typeMap ==> typeMap[name] <= 0xff && typeMap[name] < registeredTypeCount)
      && View().Valid()
    }

    /** The receiving side. Type codes are taken below the number of names in the map. */
    ghost function View(): Reassembler
      reads this
    {
      Reassembler(|typeMap|, fragmentQueue, messages, available)
    }

    constructor (table: ExtraTable, stream: nat, maxSize: nat)
      requires stream < 0x1_0000 && maxSize > 0
      ensures Valid() && extra == table && streamId == stream && extendedPayloadMaxSize == maxSize
      ensures typeMap == map[] && AllOpen(View()) && View() == Reassembler(0, map[], [], [])
    {
      extra, streamId, extendedPayloadMaxSize := table, stream, maxSize;
      typeMap, registeredTypeCount, messages, available, fragmentQueue := map[], 0, [], [], map[];
    }

    /** Gives a type the next code, in a byte. A name that is registered again gets a new code, while
        the number of names stays. */
    method RegisterType(name: string, prototype: seq<bv8>)
      requires Valid()
      modifies this
      ensures Valid()
      ensures typeMap == old(typeMap)[name := old(|messages|) % 0x100]
      ensures View() == Reassembler(
        old(|typeMap|) + (if name in old(typeMap) then 0 else 1), old(fragmentQueue),
        old(messages) + [prototype], old(available) + [false])
    {
      typeMap := typeMap[name := registeredTypeCount % 0x100];
      registeredTypeCount := registeredTypeCount + 1;
      messages := messages + [prototype];
      available := available + [false];
    }

    /** The header, the flag and the data of one fragment. */
    method BuildFragment(channel: Channel, systemId: bv8, componentId: bv8, targetSystem: bv8, targetComponent: bv8,
                         typeCode: nat, data: seq<bv8>, offset: nat, length: nat, flags: bv8)
      returns (fragment: Fragment)
      requires streamId < 0x1_0000 && typeCode <= 0xff && extra(EXTENDED_MESSAGE) == 0
      requires offset + length <= |data| < 0x1_0000_0000
      modifies channel`currentTxSeq
      ensures channel.currentTxSeq == old(channel.currentTxSeq) + 1
      ensures fragment.Sound() && ValidFragment(extra, fragment.base)
      ensures fragment.StreamId() == streamId && fragment.TypeCode() == typeCode
      ensures fragment.Offset() == offset && fragment.Size() == length
      ensures fragment.Data() == data[offset..offset + length]
      ensures fragment.More() <==> flags & 0x1 == 0x1
      ensures HeaderIs(fragment.base.payload, targetSystem, targetComponent, typeCode, length, streamId, offset, flags)
      ensures Addressed(fragment, old(channel.currentTxSeq), systemId, componentId, targetSystem, targetComponent)
    {
      hide ValidFragment, HeaderBytes, HeaderIs, Val, Encode, ByteOf;
      var header := HeaderBytes(targetSystem, targetComponent, typeCode, length, streamId, offset, flags);
      var msg := new MessageBuffer();
      forall i | 0 <= i < EXTENDED_HEADER_LEN {
        msg.payload[i] := header[i];
      }
      assert msg.payload[..EXTENDED_HEADER_LEN] == header;
      msg.msgid := EXTENDED_MESSAGE;
      ghost var packet := Packet(channel.currentTxSeq, systemId, componentId, EXTENDED_MESSAGE, header);
      HeaderLength();
      var size := channel.FinalizeMessage(msg, systemId, componentId, ByteOf(EXTENDED_HEADER_LEN), 0);
      FinishedIsValid(extra, msg.View(), packet);
      fragment := Fragment(msg.View(), length, data[offset..offset + length]);
      HeaderRead(fragment, targetSystem, targetComponent, typeCode, length, streamId, offset, flags);
      HeaderPlaced(fragment.base.payload, targetSystem, targetComponent, typeCode, length, streamId, offset, flags);
    }

    /** The piece of a message at `offset`, the i-th of `fragmentCount`. */
    method NextFragment(channel: Channel, systemId: bv8, componentId: bv8, targetSystem: bv8, targetComponent: bv8,
                        typeCode: nat, data: seq<bv8>, i: nat, fragmentCount: nat, offset: nat)
      returns (fragment: Fragment, length: nat)
      requires streamId < 0x1_0000 && typeCode <= 0xff && extra(EXTENDED_MESSAGE) == 0
      requires i < fragmentCount && offset == extendedPayloadMaxSize * i < |data| < 0x1_0000_0000
      requires if i + 1 < fragmentCount then 0 < extendedPayloadMaxSize < |data| - offset
               else |data| - offset <= extendedPayloadMaxSize
      modifies channel`currentTxSeq
      ensures channel.currentTxSeq == old(channel.currentTxSeq) + 1
      ensures length == if i + 1 < fragmentCount then extendedPayloadMaxSize else |data| - offset
      ensures fragment.Sound() && fragment.Size() == length <= extendedPayloadMaxSize
      ensures Carries(extra, streamId, typeCode, data, fragment, offset, offset + length)
      ensures HeaderIs(fragment.base.payload, targetSystem, targetComponent, typeCode, length, streamId, offset,
                       if i + 1 < fragmentCount then 1 else 0)
      ensures Addressed(fragment, old(channel.currentTxSeq), systemId, componentId, targetSystem, targetComponent)
    {
      hide ValidFragment, Addressed, HeaderIs;
      hide Fragment.StreamId, Fragment.TypeCode, Fragment.Offset, Fragment.Size, Fragment.More;
      var flags: bv8 := 0;
      if i < fragmentCount - 1 {
        length := extendedPayloadMaxSize;
        flags := flags | 0x1;
      } else {
        length := |data| - extendedPayloadMaxSize * (fragmentCount - 1);
      }
      fragment := BuildFragment(channel, systemId, componentId, targetSystem, targetComponent,
                                typeCode, data, offset, length, flags);
    }

    /** Cuts a message into fragments, the last of which alone is marked as final. */
    method FragmentMessage(channel: Channel, systemId: bv8, componentId: bv8, targetSystem: bv8, targetComponent: bv8,
                           typeName: string, data: seq<bv8>)
      returns (ok: bool, fragments: seq<Fragment>, ghost cuts: seq<nat>)
      requires Valid() && extra(EXTENDED_MESSAGE) == 0
      requires |data| + extendedPayloadMaxSize - 1 <= 0x7fff_ffff
      modifies channel`currentTxSeq
      ensures ok <==> typeName in typeMap
      ensures !ok ==> fragments == [] && channel.currentTxSeq == old(channel.currentTxSeq)
      ensures ok ==> Transfer(streamId, typeMap[typeName], data, cuts, fragments).Valid(extra)
      ensures ok ==> |fragments| == FragmentCount(|data|, extendedPayloadMaxSize)
      ensures ok ==> channel.currentTxSeq == TxSeqAfter(old(channel.currentTxSeq), |fragments|)
      ensures ok ==> Sent(
        Sending(extendedPayloadMaxSize, |fragments|, old(channel.currentTxSeq), systemId, componentId,
                targetSystem, targetComponent, typeMap[typeName], streamId),
        fragments, cuts)
    {
      hide ValidFragment, CutSoFar, Transfer.Carried, Transfer.Valid, Sent, Addressed, HeaderIs, Carries;
      hide TxSeqAfter, FragmentCount;
      hide Fragment.StreamId, Fragment.TypeCode, Fragment.Offset, Fragment.Size, Fragment.More;
      fragments, cuts := [], [0];
      if typeName !in typeMap {
        return false, fragments, cuts;
      }
      ok := true;
      var typeCode := typeMap[typeName];
      assert streamId < 0x1_0000 && typeCode <= 0xff && extendedPayloadMaxSize > 0;
      hide Valid;
      var max := extendedPayloadMaxSize;
      ghost var start := channel.currentTxSeq;
      var fragmentCount := FragmentCount(|data|, max);
      var offset := 0;
      NothingCut(extra, streamId, typeCode, data);
      TxSeqSteps(start, 0);
      ghost var sending := Sending(max, fragmentCount, start, systemId, componentId, targetSystem, targetComponent,
                                   typeCode, streamId);
      NothingSent(sending);
      NoPieces(|data|, max);
      for i := 0 to fragmentCount
        invariant |fragments| == i
        invariant offset == if i < fragmentCount then max * i else |data|
        invariant CutSoFar(extra, Transfer(streamId, typeCode, data, cuts, fragments), offset)
        invariant |cuts| == i + 1 && cuts[i] == offset
        invariant channel.currentTxSeq == TxSeqAfter(start, i)
        invariant Sent(sending, fragments, cuts)
      {
        PieceCount(|data|, max, i);
        TxSeqSteps(start, i);
        var fragment, length := NextFragment(channel, systemId, componentId, targetSystem, targetComponent,
                                             typeCode, data, i, fragmentCount, offset);
        CutNext(extra, Transfer(streamId, typeCode, data, cuts, fragments), fragment, offset, offset + length);
        SentNext(sending, fragments, cuts, fragment, offset + length);
        fragments := fragments + [fragment];
        offset := offset + length;
        cuts := cuts + [offset];
      }
      CutDone(extra, Transfer(streamId, typeCode, data, cuts, fragments));
    }

    /** The receiver's test of a fragment. */
    method IsValidFragment(m: Message) returns (ok: bool)
      requires |m.payload| == PAYLOAD_CELLS
      ensures ok == ValidFragment(extra, m)
    {
      hide Accumulate, Over, Lo, Hi, Val;
      if m.magic != STX || Val(m.len) != EXTENDED_HEADER_LEN || m.msgid != EXTENDED_MESSAGE {
        return false;
      }
      var core := [m.len, m.seqNo, m.sysid, m.compid, m.msgid];
      var checksum := CrcCalculate(core, CORE_HEADER_LEN);
      assert core[..CORE_HEADER_LEN] == core;
      checksum := CrcAccumulateBuffer(checksum, m.payload, EXTENDED_HEADER_LEN);
      checksum := Accumulate(extra(m.msgid), checksum);
      if m.payload[Val(m.len)] != Lo(checksum) && m.payload[Val(m.len) + 1] != Hi(checksum) {
        return false;
      }
      ok := true;
    }

    /** Appends the data of all queued fragments. */
    method Reassemble(queue: seq<Fragment>) returns (data: seq<bv8>)
      requires AllSound(queue)
      ensures data == Joined(queue)
    {
      data := [];
      for i := 0 to |queue|
        invariant data == Joined(queue[..i])
      {
        assert queue[..i + 1] == queue[..i] + [queue[i]];
        JoinedSnoc(queue[..i], queue[i]);
        data := data + queue[i].ext[..queue[i].extLen];
      }
      assert queue[..|queue|] == queue;
    }

    /** Puts a fragment of a registered type into the queue of its stream, if it belongs there. */
    method Enqueue(sid: nat, msg: Fragment) returns (reassemble: bool)
      requires Valid() && msg.Sound() && sid == msg.StreamId()
      modifies this`fragmentQueue
      ensures Valid()
      ensures var q := old(View()).QueueOf(sid);
        match EffectOn(q, msg)
        case Wait => !reassemble && fragmentQueue == old(fragmentQueue)
        case Clear => !reassemble && fragmentQueue == old(fragmentQueue)[sid := []]
        case Append => !reassemble && fragmentQueue == old(fragmentQueue)[sid := q + [msg]]
        case Complete => reassemble && fragmentQueue == old(fragmentQueue)[sid := q + [msg]]
    {
      hide Fragment.StreamId, Fragment.TypeCode, Fragment.Offset, Fragment.Size, Fragment.More, U32;
      reassemble := false;
      if sid !in fragmentQueue {
        if msg.Offset() == 0 {
          fragmentQueue := fragmentQueue[sid := [] + [msg]];
          reassemble := !msg.More();
        }
      } else {
        var queue := fragmentQueue[sid];
        if queue == [] {
          if msg.Offset() == 0 {
            fragmentQueue := fragmentQueue[sid := queue + [msg]];
            reassemble := !msg.More();
          }
        } else if U32(queue[|queue| - 1].Size() + queue[|queue| - 1].Offset()) != msg.Offset() {
          fragmentQueue := fragmentQueue[sid := []];
        } else {
          fragmentQueue := fragmentQueue[sid := queue + [msg]];
          reassemble := !msg.More();
        }
      }
    }

    /** Takes in one fragment; returns whether it was one, for a registered type. */
    method CacheFragment(msg: Fragment) returns (accepted: bool, ghost delivered: seq<Reassembled>)
      requires Valid() && msg.Sound()
      modifies this`fragmentQueue, this`messages, this`available
      ensures Valid()
      ensures (View(), accepted, delivered) == Cache(extra, old(View()), msg)
      ensures accepted <==> ValidFragment(extra, msg.base) && Val(msg.base.payload[2]) < |typeMap|
      ensures !accepted ==> View() == old(View()) && delivered == []
    {
      hide ValidFragment, Joined, EffectOn;
      hide Fragment.StreamId, Fragment.TypeCode, Fragment.Offset, Fragment.Size, Fragment.More;
      AcceptedIff(extra, View(), msg);
      delivered := [];
      var valid := IsValidFragment(msg.base);
      if !valid {
        return false, delivered;
      }
      var typeCode, sid := msg.TypeCode(), msg.StreamId();
      if typeCode >= |typeMap| {
        return false, delivered;
      }
      var reassemble := Enqueue(sid, msg);
      if reassemble {
        var data := Reassemble(fragmentQueue[sid]);
        messages := messages[typeCode := data];
        available := available[typeCode := true];
        fragmentQueue := fragmentQueue[sid := []];
        assert fragmentQueue == old(fragmentQueue)[sid := []];
        delivered := [Reassembled(sid, typeCode, data)];
      }
      accepted := true;
    }

    /** Hands out the new message of the first type that has one. */
    method GetMessage() returns (found: bool, typeCode: nat, msg: seq<bv8>)
      requires Valid()
      modifies this`available
      ensures Valid()
      ensures found <==> true in old(available)
      ensures found ==> typeCode < |messages| && old(available[typeCode]) && msg == messages[typeCode]
      ensures found ==> forall i :: 0 <= i < typeCode ==> !available[i]
      ensures available == if found then old(available)[typeCode := false] else old(available)
    {
      for i := 0 to |available|
        invariant forall j :: 0 <= j < i ==> !available[j]
        invariant available == old(available)
      {
        if available[i] {
          found, typeCode, msg := true, i, messages[i];
          available := available[i := false];
          return;
        }
      }
      found, typeCode, msg := false, 0, [];
    }
  }

  lemma HeaderLength()
    ensures Val(ByteOf(EXTENDED_HEADER_LEN)) == EXTENDED_HEADER_LEN
  {}
}
