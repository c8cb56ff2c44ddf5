/** What reassembly guarantees: over every run, for interleaved streams, for a message that arrives
    whole, and for messages that lose fragments. */
module FragmentTheorems {
  import opened Frame
  import opened Fragments

  // ---- One fragment ----

  /** The offset at which an open message goes on: 0 if there is none, and otherwise the end of its last
      fragment, modulo 2^32. */
  function GoesOnAt(q: seq<Fragment>): nat
    requires AllSound(q)
  {
    if q == [] then 0 else (q[|q| - 1].Size() + q[|q| - 1].Offset()) % 0x1_0000_0000
  }

  /** Any accepted fragment at all, honest or not: it joins the queue of its stream if it begins where
      the queue goes on, delivers the queue's data if it is final, and otherwise empties the queue. */
  lemma AcceptedEffect(extra: ExtraTable, r: Reassembler, f: Fragment)
    requires r.Valid() && f.Sound() && Cache(extra, r, f).1
    ensures var q, o := r.QueueOf(f.StreamId()), Cache(extra, r, f);
      && AllSound(q)
      && (if f.Offset() != GoesOnAt(q) then o.0.QueueOf(f.StreamId()) == [] && o.2 == []
          else if f.More() then o.0.QueueOf(f.StreamId()) == q + [f] && o.2 == []
          else o.0.QueueOf(f.StreamId()) == [] && o.2 == [Reassembled(f.StreamId(), f.TypeCode(), Joined(q + [f]))])
    ensures forall sid :: sid != f.StreamId() ==> Cache(extra, r, f).0.QueueOf(sid) == r.QueueOf(sid)
  {
    hide ValidFragment, Joined, Fragment.StreamId, Fragment.TypeCode, Fragment.Offset, Fragment.Size, Fragment.More;
  }

  // ---- The queues over every run ----

  /** An open message: from offset 0 on, without gaps (offsets modulo 2^32), not yet ended. */
  ghost predicate Contiguous(q: seq<Fragment>) {
    && AllSound(q)
    && (q != [] ==> q[0].Offset() == 0)
    && (forall i :: 0 < i < |q| ==> q[i].Offset() == (q[i - 1].Size() + q[i - 1].Offset()) % 0x1_0000_0000)
  }

  ghost predicate Open(q: seq<Fragment>) {
    Contiguous(q) && forall i :: 0 <= i < |q| ==> q[i].More()
  }

  ghost predicate AllOpen(r: Reassembler) {
    r.Valid() && forall sid :: Open(r.QueueOf(sid))
  }

  /** A delivery is the data of a contiguous run of fragments of its stream of which exactly the
      last is marked as final. */
  ghost predicate FromRun(d: Reassembled, run: seq<Fragment>) {
    && run != [] && Contiguous(run)
    && Open(run[..|run| - 1]) && !run[|run| - 1].More()
    && d.data == Joined(run)
    && d.stream == run[|run| - 1].StreamId() && d.typeCode == run[|run| - 1].TypeCode()
  }

  lemma OpenSnoc(q: seq<Fragment>, f: Fragment)
    requires Open(q) && f.Sound() && Expects(q) == f.Offset()
    ensures Contiguous(q + [f]) && (f.More() ==> Open(q + [f]))
  {
    hide Fragment.Offset, Fragment.Size, Fragment.More, Fragment.Sound;
  }

  /** The queues after a fragment: one may have grown, been emptied, or been completed. */
  lemma QueuesAfter(extra: ExtraTable, r: Reassembler, f: Fragment, sid: nat)
    requires r.Valid() && f.Sound()
    ensures var q, q' := r.QueueOf(sid), Cache(extra, r, f).0.QueueOf(sid);
      || q' == q || q' == []
      || (sid == f.StreamId() && q' == q + [f] && EffectOn(q, f).Append?)
  {
    hide ValidFragment, EffectOn, Joined;
  }

  lemma CacheKeepsOpen(extra: ExtraTable, r: Reassembler, f: Fragment)
    requires AllOpen(r) && f.Sound()
    ensures AllOpen(Cache(extra, r, f).0)
    ensures forall d :: d in Cache(extra, r, f).2 ==> FromRun(d, r.QueueOf(f.StreamId()) + [f])
  {
    forall sid ensures Open(Cache(extra, r, f).0.QueueOf(sid)) {
      hide Cache, Open, Expects;
      QueuesAfter(extra, r, f, sid);
      assert Open(r.QueueOf(sid));
      NothingOpen();
      if sid == f.StreamId() && EffectOn(r.QueueOf(sid), f).Append? {
        OpenSnoc(r.QueueOf(sid), f);
      }
    }
    DeliveryFromRun(extra, r, f);
  }

  lemma NothingOpen()
    ensures Open([])
  {}

  lemma DeliveryFromRun(extra: ExtraTable, r: Reassembler, f: Fragment)
    requires AllOpen(r) && f.Sound()
    ensures forall d :: d in Cache(extra, r, f).2 ==> FromRun(d, r.QueueOf(f.StreamId()) + [f])
  {
    hide ValidFragment, Contiguous, Expects, Open;
    var q := r.QueueOf(f.StreamId());
    assert Open(q);
    var run := q + [f];
    assert run[..|run| - 1] == q;
    if Heard(extra, r, f) && EffectOn(q, f).Complete? {
      OpenSnoc(q, f);
    }
  }

  /** Over every run of fragments, honest or not, every queue stays an open message. */
  lemma {:induction false} QueuesStayOpen(extra: ExtraTable, r: Reassembler, fs: seq<Fragment>)
    requires AllOpen(r) && AllSound(fs)
    ensures AllOpen(Feed(extra, r, fs))
  {
    hide Cache, Open;
    if fs != [] {
      QueuesStayOpen(extra, r, fs[..|fs| - 1]);
      CacheKeepsOpen(extra, Feed(extra, r, fs[..|fs| - 1]), fs[|fs| - 1]);
    }
  }

  // ---- Streams do not disturb each other ----

  /** The fragments of one stream. */
  function On(sid: nat, fs: seq<Fragment>): (s: seq<Fragment>)
    requires forall i :: 0 <= i < |fs| ==> fs[i].Sound()
    ensures forall i :: 0 <= i < |s| ==> s[i].Sound()
  {
    if fs == [] then []
    else
      var front, last := On(sid, fs[..|fs| - 1]), fs[|fs| - 1];
      if last.StreamId() == sid then front + [last] else front
  }

  /** The deliveries of one stream. */
  function DeliveredOn(sid: nat, ds: seq<Reassembled>): seq<Reassembled> {
    if ds == [] then []
    else
      var front, last := DeliveredOn(sid, ds[..|ds| - 1]), ds[|ds| - 1];
      if last.stream == sid then front + [last] else front
  }

  lemma {:induction false} DeliveredOnConcat(sid: nat, a: seq<Reassembled>, b: seq<Reassembled>)
    ensures DeliveredOn(sid, a + b) == DeliveredOn(sid, a) + DeliveredOn(sid, b)
  {
    if b == [] {
      assert a + b == a;
    } else {
      assert (a + b)[..|a + b| - 1] == a + b[..|b| - 1];
      DeliveredOnConcat(sid, a, b[..|b| - 1]);
    }
  }

  lemma CacheOther(extra: ExtraTable, r: Reassembler, f: Fragment, sid: nat)
    requires r.Valid() && f.Sound() && f.StreamId() != sid
    ensures Cache(extra, r, f).0.QueueOf(sid) == r.QueueOf(sid)
    ensures DeliveredOn(sid, Cache(extra, r, f).2) == []
  {
    hide ValidFragment, EffectOn, Joined;
  }

  lemma CacheSame(extra: ExtraTable, r: Reassembler, r': Reassembler, f: Fragment)
    requires r.Valid() && r'.Valid() && f.Sound() && r.types == r'.types
    requires r.QueueOf(f.StreamId()) == r'.QueueOf(f.StreamId())
    ensures Cache(extra, r, f).0.QueueOf(f.StreamId()) == Cache(extra, r', f).0.QueueOf(f.StreamId())
    ensures Cache(extra, r, f).2 == Cache(extra, r', f).2
    ensures DeliveredOn(f.StreamId(), Cache(extra, r, f).2) == Cache(extra, r, f).2
  {
    hide ValidFragment, EffectOn, Joined;
  }

  /** However the fragments of several streams are interleaved, each stream's queue and deliveries
      are those of feeding its own fragments alone. */
  lemma {:induction false} StreamsIndependent(extra: ExtraTable, r: Reassembler, fs: seq<Fragment>, sid: nat)
    requires r.Valid() && AllSound(fs)
    ensures Feed(extra, r, fs).QueueOf(sid) == Feed(extra, r, On(sid, fs)).QueueOf(sid)
    ensures DeliveredOn(sid, Delivered(extra, r, fs)) == Delivered(extra, r, On(sid, fs))
  {
    hide Cache;
    if fs != [] {
      var front, last := fs[..|fs| - 1], fs[|fs| - 1];
      StreamsIndependent(extra, r, front, sid);
      var r1 := Feed(extra, r, front);
      DeliveredOnConcat(sid, Delivered(extra, r, front), Cache(extra, r1, last).2);
      if last.StreamId() == sid {
        CacheSame(extra, r1, Feed(extra, r, On(sid, front)), last);
        FeedSnoc(extra, r, On(sid, front), last);
      } else {
        CacheOther(extra, r1, last, sid);
      }
    }
  }

  // ---- Where deliveries come from ----

  /** The fragments of one stream that the receiver takes note of. */
  function HeardOn(extra: ExtraTable, r: Reassembler, sid: nat, fs: seq<Fragment>): (h: seq<Fragment>)
    requires AllSound(fs)
    ensures AllSound(h)
  {
    if fs == [] then []
    else
      var front, last := HeardOn(extra, r, sid, fs[..|fs| - 1]), fs[|fs| - 1];
      if Heard(extra, r, last) && last.StreamId() == sid then front + [last] else front
  }

  /** A stretch of a sequence of fragments, from `from` up to but not including `to`. */
  datatype Span = Span(from: nat, to: nat)

  /** The deliveries come from stretches of `h`, one after the other and none overlapping the next;
      what is still queued is the end of `h`, after all of them. */
  ghost predicate Cover(h: seq<Fragment>, q: seq<Fragment>, ds: seq<Reassembled>, spans: seq<Span>) {
    && |spans| == |ds| && |q| <= |h| && h[|h| - |q|..] == q
    && (forall k :: 0 <= k < |ds| ==>
          && spans[k].from < spans[k].to <= |h| - |q|
          && FromRun(ds[k], h[spans[k].from..spans[k].to]))
    && (forall j, k :: 0 <= j < k < |ds| ==> spans[j].to <= spans[k].from)
  }

  ghost predicate Covered(h: seq<Fragment>, q: seq<Fragment>, ds: seq<Reassembled>) {
    exists spans :: Cover(h, q, ds, spans)
  }

  lemma CoverStays(h: seq<Fragment>, q: seq<Fragment>, ds: seq<Reassembled>, spans: seq<Span>, f: Fragment)
    requires Cover(h, q, ds, spans)
    ensures |q| <= |h|
    ensures Cover(h + [f], q + [f], ds, spans) && Cover(h + [f], [], ds, spans) && Cover(h, [], ds, spans)
  {
    hide FromRun;
    assert (h + [f])[|h| - |q|..] == q + [f];
    forall k | 0 <= k < |ds| ensures FromRun(ds[k], (h + [f])[spans[k].from..spans[k].to]) {
      assert (h + [f])[spans[k].from..spans[k].to] == h[spans[k].from..spans[k].to];
    }
  }

  lemma CoverGrows(h: seq<Fragment>, q: seq<Fragment>, ds: seq<Reassembled>, spans: seq<Span>, f: Fragment,
                   d: Reassembled)
    requires Cover(h, q, ds, spans) && FromRun(d, q + [f])
    ensures Cover(h + [f], [], ds + [d], spans + [Span(|h| - |q|, |h| + 1)])
  {
    hide FromRun;
    CoverStays(h, q, ds, spans, f);
    assert (h + [f])[|h| - |q|..|h| + 1] == q + [f];
  }

  /** One fragment: what it does to the stream's queue and deliveries. */
  lemma HeardCached(extra: ExtraTable, r: Reassembler, f: Fragment, sid: nat)
    requires AllOpen(r) && f.Sound()
    ensures var q, o := r.QueueOf(sid), Cache(extra, r, f);
      var q', ds := o.0.QueueOf(sid), DeliveredOn(sid, o.2);
      if Heard(extra, r, f) && f.StreamId() == sid then
        || (ds == [] && (q' == [] || q' == q + [f]))
        || (|ds| == 1 && FromRun(ds[0], q + [f]) && q' == [])
      else ds == [] && q' == q
  {
    hide ValidFragment, FromRun, Open, Joined;
    DeliveryFromRun(extra, r, f);
    if f.StreamId() != sid {
      CacheOther(extra, r, f, sid);
    } else {
      CacheSame(extra, r, r, f);
    }
  }

  lemma HeardSnoc(extra: ExtraTable, r: Reassembler, sid: nat, fs: seq<Fragment>, f: Fragment)
    requires AllSound(fs) && f.Sound()
    ensures AllSound(fs + [f])
    ensures HeardOn(extra, r, sid, fs + [f])
      == HeardOn(extra, r, sid, fs) + (if Heard(extra, r, f) && f.StreamId() == sid then [f] else [])
  {
    hide Heard;
    assert (fs + [f])[..|fs + [f]| - 1] == fs;
  }

  lemma CoveredNext(extra: ExtraTable, r: Reassembler, f: Fragment, sid: nat, h: seq<Fragment>, ds: seq<Reassembled>)
    requires AllOpen(r) && f.Sound() && Covered(h, r.QueueOf(sid), ds)
    ensures var h' := if Heard(extra, r, f) && f.StreamId() == sid then h + [f] else h;
      Covered(h', Cache(extra, r, f).0.QueueOf(sid), ds + DeliveredOn(sid, Cache(extra, r, f).2))
  {
    hide Cache, Cover, Heard, Open, FromRun, DeliveredOn;
    var q, ds' := r.QueueOf(sid), DeliveredOn(sid, Cache(extra, r, f).2);
    var spans :| Cover(h, q, ds, spans);
    HeardCached(extra, r, f, sid);
    CoverStays(h, q, ds, spans, f);
    if ds' == [] {
      assert ds + ds' == ds;
    } else {
      CoverGrows(h, q, ds, spans, f, ds'[0]);
      assert ds + ds' == ds + [ds'[0]];
    }
  }

  /** Over every run of fragments, honest or not: the deliveries of a stream are the data of disjoint,
      successive stretches of what the stream's queue held and then of what was heard on it, each
      contiguous from offset 0 and ended by the one fragment marked as final. What is queued at the
      end lies behind all of them. */
  lemma {:induction false} EveryDeliveryFromRun(extra: ExtraTable, r: Reassembler, sid: nat, fs: seq<Fragment>)
    requires AllOpen(r) && AllSound(fs)
    ensures Covered(r.QueueOf(sid) + HeardOn(extra, r, sid, fs), Feed(extra, r, fs).QueueOf(sid),
                    DeliveredOn(sid, Delivered(extra, r, fs)))
  {
    hide Cache, Covered, Heard, Open, HeardOn, DeliveredOn;
    if fs == [] {
      NothingHeard(extra, r, sid);
      assert r.QueueOf(sid) + [] == r.QueueOf(sid);
    } else {
      var front, last := fs[..|fs| - 1], fs[|fs| - 1];
      assert fs == front + [last];
      var r1, ds := Feed(extra, r, front), Delivered(extra, r, front);
      var q0, h := r.QueueOf(sid), HeardOn(extra, r, sid, front);
      EveryDeliveryFromRun(extra, r, sid, front);
      QueuesStayOpen(extra, r, front);
      CoveredNext(extra, r1, last, sid, q0 + h, DeliveredOn(sid, ds));
      HeardSame(extra, r, r1, last);
      HeardSnoc(extra, r, sid, front, last);
      FeedSnoc(extra, r, front, last);
      DeliveredOnConcat(sid, ds, Cache(extra, r1, last).2);
      assert (q0 + h) + [last] == q0 + (h + [last]) && h + [] == h;
    }
  }

  lemma NothingHeard(extra: ExtraTable, r: Reassembler, sid: nat)
    ensures HeardOn(extra, r, sid, []) == [] && DeliveredOn(sid, []) == []
    ensures Covered(r.QueueOf(sid), r.QueueOf(sid), [])
  {
    assert Cover(r.QueueOf(sid), r.QueueOf(sid), [], []);
  }

  lemma HeardSame(extra: ExtraTable, r: Reassembler, r': Reassembler, f: Fragment)
    requires f.Sound() && r.types == r'.types
    ensures Heard(extra, r, f) == Heard(extra, r', f)
  {}

  // ---- Messages in fragments ----

  /** A message of a stream, the offsets at which it is cut, and the fragments that carry the pieces. */
  datatype Transfer = Transfer(sid: nat, typeCode: nat, data: seq<bv8>, cuts: seq<nat>, fragments: seq<Fragment>) {
    /** Fragment `k` carries the data between cuts `k` and `k + 1`. */
    ghost predicate Carried(extra: ExtraTable, k: nat)
      requires k < |fragments| && |cuts| == |fragments| + 1
    {
      var f, from, to := fragments[k], cuts[k], cuts[k + 1];
      && f.Sound() && ValidFragment(extra, f.base)
      && f.StreamId() == sid && f.TypeCode() == typeCode
      && from < to <= |data|
      && f.Offset() == from && f.Size() == to - from
      && f.Data() == data[from..to]
      && (f.More() <==> to < |data|)
    }

    ghost predicate Valid(extra: ExtraTable): (b: bool)
      ensures b ==> |cuts| == |fragments| + 1 && cuts[0] == 0 && cuts[|fragments|] == |data| && AllSound(fragments)
    {
      && |cuts| == |fragments| + 1
      && cuts[0] == 0 && cuts[|fragments|] == |data| < 0x1_0000_0000
      && AllSound(fragments)
      && (forall k :: 0 <= k < |fragments| ==> Carried(extra, k))
    }

    function Count(): nat { |fragments| }

    function From(b: nat): seq<Fragment>
      requires b <= Count()
    {
      fragments[b..]
    }

    function Upto(k: nat): seq<Fragment>
      requires k <= Count()
    {
      fragments[..k]
    }
  }

  /** The receiver has the type, and no message of the stream is open. */
  ghost predicate Ready(r: Reassembler, t: Transfer) {
    r.Valid() && r.QueueOf(t.sid) == [] && t.typeCode < r.types
  }

  lemma {:induction false} CutsIncrease(extra: ExtraTable, t: Transfer, i: nat, j: nat)
    requires t.Valid(extra) && i <= j <= t.Count()
    ensures t.cuts[i] <= t.cuts[j] <= |t.data| && (i < j ==> t.cuts[i] < t.cuts[j])
    decreases t.Count() - j, j - i
  {
    hide ValidFragment;
    if j < t.Count() {
      assert t.Carried(extra, j);
    }
    if i < j {
      assert t.Carried(extra, j - 1);
      UpToLast(extra, t, i, j - 1);
    }
  }

  lemma {:induction false} UpToLast(extra: ExtraTable, t: Transfer, i: nat, j: nat)
    requires t.Valid(extra) && i <= j < t.Count()
    ensures t.cuts[i] <= t.cuts[j]
    decreases j - i
  {
    hide ValidFragment;
    if i < j {
      assert t.Carried(extra, j - 1);
      UpToLast(extra, t, i, j - 1);
    }
  }

  lemma NoWrap(n: nat)
    requires n < 0x1_0000_0000
    ensures U32(n) == n
  {}

  lemma {:induction false} FeedConcat(extra: ExtraTable, r: Reassembler, a: seq<Fragment>, b: seq<Fragment>)
    requires r.Valid() && AllSound(a) && AllSound(b)
    ensures AllSound(a + b)
    ensures Feed(extra, r, a + b) == Feed(extra, Feed(extra, r, a), b)
    ensures Delivered(extra, r, a + b) == Delivered(extra, r, a) + Delivered(extra, Feed(extra, r, a), b)
    decreases |b|
  {
    hide Cache, Feed, Delivered;
    if b == [] {
      assert a + b == a;
      FeedNothing(extra, Feed(extra, r, a));
    } else {
      var front, last := b[..|b| - 1], b[|b| - 1];
      FeedConcat(extra, r, a, front);
      assert a + b == (a + front) + [last] && b == front + [last];
      FeedSnoc(extra, r, a + front, last);
      FeedSnoc(extra, Feed(extra, r, a), front, last);
    }
  }

  lemma JoinedSnoc(q: seq<Fragment>, f: Fragment)
    requires AllSound(q) && f.Sound()
    ensures AllSound(q + [f]) && Joined(q + [f]) == Joined(q) + f.Data()
  {
    assert (q + [f])[..|q + [f]| - 1] == q;
  }

  /** After fragment `k - 1` of a message the next one is expected at cut `k`. */
  lemma ExpectsCut(extra: ExtraTable, t: Transfer, q: seq<Fragment>, k: nat)
    requires t.Valid(extra) && 0 < k <= t.Count()
    ensures Expects(q + [t.fragments[k - 1]]) == t.cuts[k]
  {
    hide ValidFragment, U32;
    assert t.Carried(extra, k - 1);
    NoWrap(t.cuts[k]);
  }

  /** Fragment `k` arrives: it is accepted, and what it does depends only on where the queue goes on. */
  lemma CarriedCached(extra: ExtraTable, r: Reassembler, t: Transfer, k: nat)
    requires t.Valid(extra) && k < t.Count() && r.Valid() && t.typeCode < r.types
    ensures var q, f, o := r.QueueOf(t.sid), t.fragments[k], Cache(extra, r, t.fragments[k]);
      && AllSound(q) && o.1
      && (if Expects(q) != t.cuts[k] then o.0.QueueOf(t.sid) == [] && o.2 == []
          else if k + 1 < t.Count() then o.0.QueueOf(t.sid) == q + [f] && o.2 == []
          else o.0.QueueOf(t.sid) == [] && o.2 == [Reassembled(t.sid, t.typeCode, Joined(q + [f]))])
  {
    hide ValidFragment, Expects;
    assert t.Carried(extra, k);
    CutsIncrease(extra, t, k + 1, t.Count());
  }

  /** What the queue of the stream holds after fragments `b` to `k` have joined the queue `q`. */
  ghost predicate Holds(q0: seq<Fragment>, q: seq<Fragment>, t: Transfer, b: nat, k: nat)
    requires b <= k < |t.cuts| && t.cuts[b] <= t.cuts[k] <= |t.data|
  {
    && AllSound(q0) && AllSound(q)
    && Expects(q) == t.cuts[k]
    && Joined(q) == Joined(q0) + t.data[t.cuts[b]..t.cuts[k]]
  }

  lemma CarriedData(extra: ExtraTable, t: Transfer, k: nat)
    requires t.Valid(extra) && k < t.Count()
    ensures t.cuts[k] < t.cuts[k + 1] <= |t.data|
    ensures t.fragments[k].Data() == t.data[t.cuts[k]..t.cuts[k + 1]]
  {
    hide ValidFragment;
    assert t.Carried(extra, k);
  }

  lemma Stretches(d: seq<bv8>, i: nat, j: nat, k: nat)
    requires i <= j <= k <= |d|
    ensures d[i..j] + d[j..k] == d[i..k]
  {}

  lemma HoldsNext(extra: ExtraTable, q0: seq<Fragment>, q: seq<Fragment>, t: Transfer, b: nat, k: nat)
    requires t.Valid(extra) && b <= k < t.Count()
    requires t.cuts[b] <= t.cuts[k] < t.cuts[k + 1] <= |t.data| && Holds(q0, q, t, b, k)
    ensures Holds(q0, q + [t.fragments[k]], t, b, k + 1)
  {
    hide Joined, Expects, Transfer.Valid;
    var x, y, z := Joined(q0), t.data[t.cuts[b]..t.cuts[k]], t.data[t.cuts[k]..t.cuts[k + 1]];
    CarriedData(extra, t, k);
    ExpectsCut(extra, t, q, k + 1);
    JoinedSnoc(q, t.fragments[k]);
    assert (x + y) + z == x + (y + z);
    Stretches(t.data, t.cuts[b], t.cuts[k], t.cuts[k + 1]);
  }

  lemma StretchSnoc(t: Transfer, b: nat, k: nat)
    requires b <= k < t.Count()
    ensures t.fragments[b..k + 1] == t.fragments[b..k] + [t.fragments[k]]
  {}

  lemma ResumeStep(extra: ExtraTable, r: Reassembler, t: Transfer, b: nat, k: nat, fs: seq<Fragment>)
    requires t.Valid(extra) && b <= k < t.Count() - 1 && r.Valid() && t.typeCode < r.types && AllSound(fs)
    requires t.cuts[b] <= t.cuts[k] < t.cuts[k + 1] <= |t.data|
    requires Holds(r.QueueOf(t.sid), Feed(extra, r, fs).QueueOf(t.sid), t, b, k) && Delivered(extra, r, fs) == []
    ensures AllSound(fs + [t.fragments[k]])
    ensures Holds(r.QueueOf(t.sid), Feed(extra, r, fs + [t.fragments[k]]).QueueOf(t.sid), t, b, k + 1)
    ensures Delivered(extra, r, fs + [t.fragments[k]]) == []
  {
    hide Cache, Feed, Delivered, Expects, Holds, Joined, Transfer.Valid;
    var r1 := Feed(extra, r, fs);
    FeedSnoc(extra, r, fs, t.fragments[k]);
    HoldsExpects(r.QueueOf(t.sid), r1.QueueOf(t.sid), t, b, k);
    CarriedCached(extra, r1, t, k);
    HoldsNext(extra, r.QueueOf(t.sid), r1.QueueOf(t.sid), t, b, k);
  }

  /** The fragments from `b` on continue what is queued, if it goes on where they begin: all but the
      last are queued without a delivery. */
  lemma {:induction false} Resume(extra: ExtraTable, r: Reassembler, t: Transfer, b: nat, k: nat)
    requires t.Valid(extra) && b <= k < t.Count() && r.Valid() && t.typeCode < r.types
    requires Expects(r.QueueOf(t.sid)) == t.cuts[b]
    ensures t.cuts[b] <= t.cuts[k] <= |t.data|
    ensures Holds(r.QueueOf(t.sid), Feed(extra, r, t.fragments[b..k]).QueueOf(t.sid), t, b, k)
    ensures Delivered(extra, r, t.fragments[b..k]) == []
    decreases k
  {
    hide Cache, Feed, Delivered, Expects, Holds, Joined, Transfer.Valid;
    CutsIncrease(extra, t, b, k);
    if b == k {
      ResumeHere(r, t, b);
      FeedNothing(extra, r);
      assert t.fragments[b..k] == [];
    } else {
      Resume(extra, r, t, b, k - 1);
      CutsIncrease(extra, t, k - 1, k);
      StretchSnoc(t, b, k - 1);
      ResumeStep(extra, r, t, b, k - 1, t.fragments[b..k - 1]);
    }
  }

  lemma ResumeHere(r: Reassembler, t: Transfer, b: nat)
    requires r.Valid() && b < |t.cuts| && t.cuts[b] <= |t.data| && Expects(r.QueueOf(t.sid)) == t.cuts[b]
    ensures Holds(r.QueueOf(t.sid), r.QueueOf(t.sid), t, b, b)
  {
    assert t.data[t.cuts[b]..t.cuts[b]] == [];
  }

  lemma HoldsExpects(q0: seq<Fragment>, q: seq<Fragment>, t: Transfer, b: nat, k: nat)
    requires b <= k < |t.cuts| && t.cuts[b] <= t.cuts[k] <= |t.data| && Holds(q0, q, t, b, k)
    ensures AllSound(q0) && AllSound(q) && Expects(q) == t.cuts[k]
    ensures Joined(q) == Joined(q0) + t.data[t.cuts[b]..t.cuts[k]]
  {}

  /** The last fragment arrives at a queue that holds all the others. */
  lemma LastCompletes(extra: ExtraTable, r: Reassembler, t: Transfer, b: nat, q0: seq<Fragment>)
    requires t.Valid(extra) && b < t.Count() && r.Valid() && t.typeCode < r.types
    requires t.cuts[b] <= t.cuts[t.Count() - 1] <= |t.data|
    requires Holds(q0, r.QueueOf(t.sid), t, b, t.Count() - 1)
    ensures var o := Cache(extra, r, t.fragments[t.Count() - 1]);
      && AllSound(q0) && o.0.QueueOf(t.sid) == []
      && o.2 == [Reassembled(t.sid, t.typeCode, Joined(q0) + t.data[t.cuts[b]..])]
  {
    hide Cache, Expects, Holds, Joined;
    var n := t.Count() - 1;
    var q := r.QueueOf(t.sid);
    HoldsExpects(q0, q, t, b, n);
    CarriedCached(extra, r, t, n);
    CutsIncrease(extra, t, n, n + 1);
    HoldsNext(extra, q0, q, t, b, n);
    HoldsExpects(q0, q + [t.fragments[n]], t, b, n + 1);
    assert t.data[t.cuts[b]..t.cuts[n + 1]] == t.data[t.cuts[b]..];
  }

  /** The last fragment then delivers what was queued, followed by what the fragments carry. */
  lemma ResumeToEnd(extra: ExtraTable, r: Reassembler, t: Transfer, b: nat)
    requires t.Valid(extra) && b < t.Count() && r.Valid() && t.typeCode < r.types
    requires Expects(r.QueueOf(t.sid)) == t.cuts[b]
    ensures t.cuts[b] <= |t.data| && AllSound(r.QueueOf(t.sid))
    ensures Feed(extra, r, t.From(b)).QueueOf(t.sid) == []
    ensures Delivered(extra, r, t.From(b))
      == [Reassembled(t.sid, t.typeCode, Joined(r.QueueOf(t.sid)) + t.data[t.cuts[b]..])]
  {
    hide Cache, Feed, Delivered, Expects, Holds, Joined;
    var n := t.Count() - 1;
    Resume(extra, r, t, b, n);
    StretchSnoc(t, b, n);
    assert t.fragments[b..n + 1] == t.From(b);
    FeedSnoc(extra, r, t.fragments[b..n], t.fragments[n]);
    LastCompletes(extra, Feed(extra, r, t.fragments[b..n]), t, b, r.QueueOf(t.sid));
  }

  /** Fragments that begin where the queue does not go on: the queue is emptied, and none of them
      delivers anything. */
  lemma {:induction false} Mismatch(extra: ExtraTable, r: Reassembler, t: Transfer, b: nat, k: nat)
    requires t.Valid(extra) && b < k <= t.Count() && r.Valid() && t.typeCode < r.types
    requires Expects(r.QueueOf(t.sid)) != t.cuts[b]
    ensures Feed(extra, r, t.fragments[b..k]).QueueOf(t.sid) == []
    ensures Delivered(extra, r, t.fragments[b..k]) == []
    decreases k
  {
    hide Cache, Feed, Delivered, Expects, Joined, Transfer.Valid;
    StretchSnoc(t, b, k - 1);
    var r1 := Feed(extra, r, t.fragments[b..k - 1]);
    FeedSnoc(extra, r, t.fragments[b..k - 1], t.fragments[k - 1]);
    CarriedCached(extra, r1, t, k - 1);
    if b == k - 1 {
      assert t.fragments[b..k - 1] == [];
      FeedNothing(extra, r);
    } else {
      Mismatch(extra, r, t, b, k - 1);
      NothingExpected();
      CutsIncrease(extra, t, 0, k - 1);
    }
  }

  lemma NothingExpected()
    ensures Expects([]) == 0 && Joined([]) == []
  {}

  // ---- A message that arrives whole ----

  /** Every fragment of a whole message is accepted; nothing is delivered before the last, which
      delivers exactly the message; and the queue is left empty. */
  lemma WholeMessageDelivered(extra: ExtraTable, r: Reassembler, t: Transfer)
    requires Ready(r, t) && t.Valid(extra) && t.data != []
    ensures forall k :: 0 <= k < t.Count() ==> Cache(extra, Feed(extra, r, t.Upto(k)), t.fragments[k]).1
    ensures forall k :: 0 <= k < t.Count() ==> Delivered(extra, r, t.Upto(k)) == []
    ensures Delivered(extra, r, t.fragments) == [Reassembled(t.sid, t.typeCode, t.data)]
    ensures Ready(Feed(extra, r, t.fragments), t)
  {
    hide Cache, Expects, Holds;
    NothingExpected();
    forall k | 0 <= k < t.Count()
      ensures Delivered(extra, r, t.Upto(k)) == [] && Cache(extra, Feed(extra, r, t.Upto(k)), t.fragments[k]).1
    {
      assert t.fragments[0..k] == t.Upto(k);
      Resume(extra, r, t, 0, k);
      CarriedCached(extra, Feed(extra, r, t.Upto(k)), t, k);
    }
    assert t.From(0) == t.fragments;
    ResumeToEnd(extra, r, t, 0);
    assert [] + t.data[0..] == t.data;
  }

  /** A message is delivered if and only if it is not empty: the empty message has no fragments. Either
      way the receiver is ready for the next one. */
  lemma DeliveredIffNonEmpty(extra: ExtraTable, r: Reassembler, t: Transfer)
    requires Ready(r, t) && t.Valid(extra)
    ensures Delivered(extra, r, t.fragments)
      == if t.data != [] then [Reassembled(t.sid, t.typeCode, t.data)] else []
    ensures Ready(Feed(extra, r, t.fragments), t)
  {
    hide Cache;
    if t.data == [] {
      CutsIncrease(extra, t, 0, t.Count());
      assert t.fragments == [];
    } else {
      WholeMessageDelivered(extra, r, t);
    }
  }

  // ---- Messages that lose fragments ----

  /** Two messages of one stream, of which the tail of the first and the head of the second are lost:
      something is delivered if and only if the second goes on at the offset where the first broke
      off, and then it is a splice of the two. Otherwise both are dropped. The queue ends empty. */
  lemma SplicedIff(extra: ExtraTable, r: Reassembler, t: Transfer, a: nat, u: Transfer, b: nat)
    requires Ready(r, t) && t.Valid(extra) && a < t.Count()
    requires Ready(r, u) && u.Valid(extra) && b < u.Count() && u.sid == t.sid
    ensures AllSound(t.Upto(a) + u.From(b)) && t.cuts[a] <= |t.data| && u.cuts[b] <= |u.data|
    ensures Delivered(extra, r, t.Upto(a) + u.From(b))
      == if t.cuts[a] == u.cuts[b] then [Reassembled(t.sid, u.typeCode, t.data[..t.cuts[a]] + u.data[u.cuts[b]..])]
         else []
    ensures Ready(Feed(extra, r, t.Upto(a) + u.From(b)), t)
  {
    hide Cache, Expects, Holds;
    NothingExpected();
    Resume(extra, r, t, 0, a);
    assert t.fragments[0..a] == t.Upto(a);
    assert [] + t.data[0..t.cuts[a]] == t.data[..t.cuts[a]];
    var r1 := Feed(extra, r, t.Upto(a));
    HoldsExpects([], r1.QueueOf(t.sid), t, 0, a);
    CutsIncrease(extra, u, b, u.Count());
    FeedConcat(extra, r, t.Upto(a), u.From(b));
    assert u.fragments[b..u.Count()] == u.From(b);
    if t.cuts[a] == u.cuts[b] {
      ResumeToEnd(extra, r1, u, b);
    } else {
      Mismatch(extra, r1, u, b, u.Count());
    }
  }

  /** If a message loses its tail, it and the whole next message of its stream are dropped; the
      message after that is delivered intact. */
  lemma TailLost(extra: ExtraTable, r: Reassembler, t: Transfer, a: nat, u: Transfer, v: Transfer)
    requires Ready(r, t) && t.Valid(extra) && 0 < a < t.Count()
    requires Ready(r, u) && u.Valid(extra) && u.data != [] && u.sid == t.sid
    requires Ready(r, v) && v.Valid(extra) && v.data != [] && v.sid == t.sid
    ensures AllSound(t.Upto(a) + u.fragments) && AllSound(t.Upto(a) + u.fragments + v.fragments)
    ensures Delivered(extra, r, t.Upto(a) + u.fragments) == []
    ensures Ready(Feed(extra, r, t.Upto(a) + u.fragments), t)
    ensures Delivered(extra, r, t.Upto(a) + u.fragments + v.fragments) == [Reassembled(v.sid, v.typeCode, v.data)]
    ensures Ready(Feed(extra, r, t.Upto(a) + u.fragments + v.fragments), t)
  {
    hide Cache;
    CutsIncrease(extra, t, 0, a);
    assert u.From(0) == u.fragments;
    SplicedIff(extra, r, t, a, u, 0);
    WholeMessageDelivered(extra, Feed(extra, r, t.Upto(a) + u.fragments), v);
    FeedConcat(extra, r, t.Upto(a) + u.fragments, v.fragments);
  }

  /** The fragments that get through. */
  function Kept(fs: seq<Fragment>, keep: seq<bool>): (s: seq<Fragment>)
    requires |fs| == |keep| && forall i :: 0 <= i < |fs| ==> fs[i].Sound()
    ensures forall i :: 0 <= i < |s| ==> s[i].Sound()
  {
    if fs == [] then []
    else
      var n := |fs| - 1;
      var front := Kept(fs[..n], keep[..n]);
      if keep[n] then front + [fs[n]] else front
  }

  lemma {:induction false} AllKept(fs: seq<Fragment>, keep: seq<bool>)
    requires |fs| == |keep| && AllSound(fs) && forall i :: 0 <= i < |keep| ==> keep[i]
    ensures Kept(fs, keep) == fs
  {
    if fs != [] {
      AllKept(fs[..|fs| - 1], keep[..|fs| - 1]);
    }
  }

  /** Up to fragment `k`, when `j` is the first fragment lost: nothing is delivered, and the queue
      holds either the fragments before `j` or nothing. */
  lemma {:induction false} LossInProgress(extra: ExtraTable, r: Reassembler, t: Transfer, keep: seq<bool>,
                                          j: nat, k: nat)
    requires Ready(r, t) && t.Valid(extra) && |keep| == t.Count()
    requires j < k <= t.Count() && !keep[j] && forall i :: 0 <= i < j ==> keep[i]
    ensures Delivered(extra, r, Kept(t.Upto(k), keep[..k])) == []
    ensures var q := Feed(extra, r, Kept(t.Upto(k), keep[..k])).QueueOf(t.sid);
      q == [] || Expects(q) == t.cuts[j]
    decreases k
  {
    hide Cache, Feed, Delivered, Expects, Holds, Transfer.Valid;
    var n := k - 1;
    assert t.Upto(k)[..n] == t.Upto(n) && keep[..k][..n] == keep[..n];
    var kept := Kept(t.Upto(n), keep[..n]);
    if n == j {
      NothingExpected();
      AllKept(t.Upto(j), keep[..j]);
      Resume(extra, r, t, 0, j);
      assert t.fragments[0..j] == t.Upto(j);
      HoldsExpects([], Feed(extra, r, kept).QueueOf(t.sid), t, 0, j);
    } else {
      LossInProgress(extra, r, t, keep, j, n);
      if keep[n] {
        FeedSnoc(extra, r, kept, t.fragments[n]);
        NothingExpected();
        CutsIncrease(extra, t, 0, n);
        CutsIncrease(extra, t, j, n);
        CarriedCached(extra, Feed(extra, r, kept), t, n);
      }
    }
  }

  /** A message of which any fragment at all is lost is never delivered, in whole or in part. */
  lemma LossNeverDelivers(extra: ExtraTable, r: Reassembler, t: Transfer, keep: seq<bool>)
    requires Ready(r, t) && t.Valid(extra) && |keep| == t.Count()
    requires exists j :: 0 <= j < |keep| && !keep[j]
    ensures Delivered(extra, r, Kept(t.fragments, keep)) == []
  {
    hide Cache;
    var j := FirstLost(keep);
    assert t.Upto(t.Count()) == t.fragments && keep[..t.Count()] == keep;
    LossInProgress(extra, r, t, keep, j, t.Count());
  }

  lemma {:induction false} FirstLost(keep: seq<bool>) returns (j: nat)
    requires exists j :: 0 <= j < |keep| && !keep[j]
    ensures j < |keep| && !keep[j] && forall i :: 0 <= i < j ==> keep[i]
  {
    j := 0;
    while keep[j]
      invariant j < |keep| && forall i :: 0 <= i < j ==> keep[i]
      decreases |keep| - j
    {
      j := j + 1;
    }
  }

  // ---- Interleaved streams ----

  /** A whole message is delivered intact however the fragments of other streams come in between. */
  lemma DeliveredAmidOthers(extra: ExtraTable, r: Reassembler, t: Transfer, fs: seq<Fragment>)
    requires Ready(r, t) && t.Valid(extra) && t.data != [] && AllSound(fs)
    requires On(t.sid, fs) == t.fragments
    ensures DeliveredOn(t.sid, Delivered(extra, r, fs)) == [Reassembled(t.sid, t.typeCode, t.data)]
    ensures Ready(Feed(extra, r, fs), t)
  {
    hide Cache;
    StreamsIndependent(extra, r, fs, t.sid);
    WholeMessageDelivered(extra, r, t);
  }
}
