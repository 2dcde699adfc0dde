/** The C writer against the sender's true stream: every write is one whole frame of the camera,
    and frames received in order are all written. */
module CTrueFrames {
  import opened Bytes
  import opened VideoFrames
  import opened Machine
  import opened CFrameWriter
  import opened CWrites

  /** The packet the sender puts under each (unbounded) index. */
  type Stream = nat -> Fragment

  ghost predicate IsStream(tx: Stream) {
    forall t: nat :: tx(t).index == t % 0x1_0000
  }

  ghost predicate IsFrame(tx: Stream, a: nat, b: nat)
  {
    && a < b && tx(a).announced.Some? && tx(b).announced.Some?
    && forall t: nat :: a < t < b ==> tx(t).announced.None?
  }

  /** Payload bytes of the packets a to b-1. */
  ghost function SentLength(tx: Stream, a: nat, b: nat): nat
    decreases b
  {
    if b <= a then 0 else SentLength(tx, a, b - 1) + |tx(b - 1).payload|
  }

  ghost predicate HasEnd(tx: Stream, a: nat)
  {
    exists b: nat :: IsFrame(tx, a, b)
  }

  /** Every frame ends, fits into the 32 slots and announces the length it has. */
  ghost predicate SendsExactFrames(tx: Stream)
  {
    && (forall a: nat {:trigger HasEnd(tx, a)} :: tx(a).announced.Some? ==> HasEnd(tx, a))
    && (forall a: nat, b: nat :: IsFrame(tx, a, b) ==>
          b - a <= 32 && tx(a).announced.value == SentLength(tx, a, b))
  }

  // ----- arbitrary arrival

  /** The observed writer and the true index of the packet it accepted last. */
  datatype Tracked = Tracked(o: Observed, last: Option<nat>)

  function Track(tx: Stream, k: Tracked, t: nat): (Tracked, Option<Event>) {
    var (o, e) := Observe(k.o, tx(t));
    (Tracked(o, if Accepts(k.o.writer, tx(t)) then Some(t) else k.last), e)
  }

  predicate Accepts(w: SaneWriter, p: Fragment) {
    w.running && !Skips(w, p)
  }

  function Tracker(tx: Stream): (Tracked, nat) -> (Tracked, Option<Event>) {
    (k: Tracked, t: nat) => Track(tx, k, t)
  }

  function Begin(w0: SaneWriter): Tracked {
    Tracked(Observed(w0, Unstarted), None)
  }

  /** The packet is not so late or so early that its 16-bit index could be mistaken for the next one. */
  predicate IsFresh(k: Tracked, t: nat) {
    k.last.Some? ==> -0x1_0000 < t - k.last.value - 1 < 0x1_0000
  }

  ghost predicate AllFresh(tx: Stream, w0: SaneWriter, ts: seq<nat>) {
    forall k :: 0 <= k < |ts| ==> IsFresh(Run(Tracker(tx), Begin(w0), ts[..k]).0, ts[k])
  }

  /** The chain consists of the packets from `first` on, without a gap in the true indices. */
  ghost predicate IsRunOf(tx: Stream, chain: seq<Fragment>, first: nat) {
    forall i :: 0 <= i < |chain| ==> chain[i] == tx(first + i)
  }

  /** The accepted chain is a run of true indices up to the last one. */
  ghost predicate IsTrueRun(tx: Stream, k: Tracked) {
    k.o.trace.Intact? ==>
      && k.last.Some? && 0 < |k.o.trace.chain| <= k.last.value + 1
      && IsRunOf(tx, k.o.trace.chain, k.last.value + 1 - |k.o.trace.chain|)
  }

  lemma NextIsTrueNext(a: nat, b: nat)
    requires b % 0x1_0000 == (a % 0x1_0000 + 1) % 0x1_0000 && -0x1_0000 < b - a - 1 < 0x1_0000
    ensures b == a + 1
  {
    assert (b - a - 1) % 0x1_0000 == 0;
  }

  lemma RunExtends(tx: Stream, chain: seq<Fragment>, first: nat)
    requires IsRunOf(tx, chain, first)
    ensures IsRunOf(tx, chain + [tx(first + |chain|)], first)
  {
  }

  /** The packet that is accepted in order is the one after the last. */
  lemma InOrderIsNext(tx: Stream, w: SaneWriter, chain: seq<Fragment>, last: nat, t: nat)
    requires IsStream(tx)
    requires 0 < |chain| <= last + 1 && IsRunOf(tx, chain, last + 1 - |chain|)
    requires w.prevIndex == chain[|chain| - 1].index && InOrder(w, tx(t))
    requires -0x1_0000 < t - last - 1 < 0x1_0000
    ensures t == last + 1
  {
    assert chain[|chain| - 1] == tx(last + 1 - |chain| + (|chain| - 1));
    assert last + 1 - |chain| + (|chain| - 1) == last;
    NextIsTrueNext(last, t);
  }

  lemma TrackTrueRun(tx: Stream, k: Tracked, t: nat)
    requires IsStream(tx)
    requires IsTrueRun(tx, k) && Follows(k.o) && IsFresh(k, t)
    ensures IsTrueRun(tx, Track(tx, k, t).0)
  {
    hide Follows, Step, Skips, InOrder;
    var w, tr, p := k.o.writer, k.o.trace, tx(t);
    if Accepts(w, p) && tr.Intact? {
      FollowsPrevious(k.o);
      AcceptedTrueRun(tx, w, tr, k.last.value, t);
    }
  }

  lemma FollowsPrevious(o: Observed)
    requires Follows(o) && o.writer.running && o.trace.Intact?
    ensures |o.trace.chain| > 0 && o.writer.prevIndex == o.trace.chain[|o.trace.chain| - 1].index
  {
  }

  lemma AcceptedTrueRun(tx: Stream, w: SaneWriter, tr: Trace, last: nat, t: nat)
    requires IsStream(tx)
    requires tr.Intact? && 0 < |tr.chain| <= last + 1 && IsRunOf(tx, tr.chain, last + 1 - |tr.chain|)
    requires w.prevIndex == tr.chain[|tr.chain| - 1].index && -0x1_0000 < t - last - 1 < 0x1_0000
    requires Accepts(w, tx(t))
    ensures var next := TraceStep(w, tr, tx(t));
            next.Intact? ==> 0 < |next.chain| <= t + 1 && IsRunOf(tx, next.chain, t + 1 - |next.chain|)
  {
    if tx(t).announced.None? && InOrder(w, tx(t)) {
      InOrderIsNext(tx, w, tr.chain, last, t);
      RunExtends(tx, tr.chain, t - |tr.chain|);
    }
  }

  /** In every reachable state. */
  lemma {:induction false} RunTracks(tx: Stream, w0: SaneWriter, ts: seq<nat>)
    requires IsStream(tx)
    requires AllFresh(tx, w0, ts)
    ensures Follows(Run(Tracker(tx), Begin(w0), ts).0.o) && IsTrueRun(tx, Run(Tracker(tx), Begin(w0), ts).0)
    decreases |ts|
  {
    if ts != [] {
      var before, t := ts[..|ts| - 1], ts[|ts| - 1];
      assert ts == before + [t];
      assert forall k :: 0 <= k < |before| ==> ts[..k] == before[..k] && ts[k] == before[k];
      RunTracks(tx, w0, before);
      var k := Run(Tracker(tx), Begin(w0), before).0;
      RunSnoc(Tracker(tx), Begin(w0), before, t);
      assert IsFresh(k, t);
      ObserveFollows(k.o, tx(t));
      TrackTrueRun(tx, k, t);
    }
  }

  lemma {:induction false} RunLength(tx: Stream, chain: seq<Fragment>, first: nat, n: nat)
    requires IsRunOf(tx, chain, first) && n <= |chain|
    ensures PayloadLength(chain, n) == SentLength(tx, first, first + n)
  {
    if n > 0 {
      RunLength(tx, chain, first, n - 1);
    }
  }

  lemma {:induction false} ShorterIsLess(tx: Stream, a: nat, m: nat, n: nat)
    requires a <= m < n
    ensures SentLength(tx, a, m) < SentLength(tx, a, n)
    decreases n
  {
    if m < n - 1 {
      ShorterIsLess(tx, a, m, n - 1);
    }
  }

  ghost predicate AreFrame(tx: Stream, frags: seq<Bytes>, a: nat, b: nat)
  {
    |frags| == b - a && forall i :: 0 <= i < |frags| ==> frags[i] == tx(a + i).payload
  }

  ghost predicate IsFrameEndingAt(tx: Stream, frags: seq<Bytes>, b: nat)
  {
    |frags| <= b && IsFrame(tx, b - |frags|, b) && AreFrame(tx, frags, b - |frags|, b)
  }

  lemma WriteIsAFrame(tx: Stream, k: Tracked, t: nat, frags: seq<Bytes>)
    requires IsStream(tx)
    requires SendsExactFrames(tx) && IsTrueRun(tx, k) && Follows(k.o) && IsFresh(k, t)
    requires Track(tx, k, t).1 == Some(Written(frags)) && !Track(tx, k, t).0.o.trace.Unstarted?
    ensures IsFrameEndingAt(tx, frags, t + 1)
  {
    hide Step, Skips, InOrder, Follows, SendsExactFrames, IsStream, IsFrameEndingAt, SendsChain, IsRunOf;
    WriteSendsChain(k.o, tx(t), frags);
    TrackTrueRun(tx, k, t);
    WriterAccepted(k.o.writer, tx(t));
    SentChainIsFrame(tx, Track(tx, k, t).0.o.trace, t, frags);
  }

  /** Only an accepted packet triggers a write. */
  lemma WriterAccepted(w: SaneWriter, p: Fragment)
    requires Step(w, p).1.Some?
    ensures Accepts(w, p)
  {
  }

  lemma SentChainIsFrame(tx: Stream, tr: Trace, t: nat, frags: seq<Bytes>)
    requires SendsExactFrames(tx) && tr.Intact? && SendsChain(tr, tx(t), frags)
    requires |tr.chain| <= t + 1 && IsRunOf(tx, tr.chain, t + 1 - |tr.chain|)
    ensures IsFrameEndingAt(tx, frags, t + 1)
  {
    FullChainIsFrame(tx, tr.chain, t + 1 - |tr.chain|, |frags|);
    RunPayloads(tx, tr.chain, t + 1 - |tr.chain|, frags);
  }

  /** Under any loss, repetition and reordering, every write after the first accepted start is
      exactly one frame of the sender: no fragment missing, none foreign, none twice. */
  lemma EveryWriteIsAFrame(tx: Stream, w0: SaneWriter, ts: seq<nat>, t: nat, frags: seq<Bytes>)
    requires IsStream(tx)
    requires SendsExactFrames(tx) && AllFresh(tx, w0, ts)
    requires var k := Run(Tracker(tx), Begin(w0), ts).0;
             && IsFresh(k, t)
             && Track(tx, k, t).1 == Some(Written(frags))
             && !Track(tx, k, t).0.o.trace.Unstarted?
    ensures IsFrameEndingAt(tx, frags, t + 1)
  {
    RunTracks(tx, w0, ts);
    WriteIsAFrame(tx, Run(Tracker(tx), Begin(w0), ts).0, t, frags);
  }

  ghost predicate IsWrittenFrame(tx: Stream, e: Event) {
    e.Written? ==> exists b: nat :: IsFrameEndingAt(tx, e.frags, b)
  }

  lemma StartsTrace(tx: Stream, k: Tracked, t: nat)
    requires !k.o.trace.Unstarted? || (Accepts(k.o.writer, tx(t)) && tx(t).announced.Some?)
    ensures !Track(tx, k, t).0.o.trace.Unstarted?
  {
  }

  /** A call whose first packet is an accepted start writes frames of the sender and nothing else. */
  lemma {:induction false} OnlyFramesAreWritten(tx: Stream, w0: SaneWriter, ts: seq<nat>)
    requires IsStream(tx) && SendsExactFrames(tx) && AllFresh(tx, w0, ts)
    requires ts != [] ==> Accepts(w0, tx(ts[0])) && tx(ts[0]).announced.Some?
    ensures ts != [] ==> !Run(Tracker(tx), Begin(w0), ts).0.o.trace.Unstarted?
    ensures forall e :: e in Run(Tracker(tx), Begin(w0), ts).1 ==> IsWrittenFrame(tx, e)
    decreases |ts|
  {
    hide Follows, IsTrueRun, IsFresh, Track, Run, IsFrameEndingAt, Accepts, SendsExactFrames;
    NothingTracked(tx, w0);
    if ts != [] {
      var before, t := ts[..|ts| - 1], ts[|ts| - 1];
      assert ts == before + [t];
      assert forall k :: 0 <= k < |before| ==> ts[..k] == before[..k] && ts[k] == before[k];
      OnlyFramesAreWritten(tx, w0, before);
      RunTracks(tx, w0, before);
      RunSnoc(Tracker(tx), Begin(w0), before, t);
      var k := Run(Tracker(tx), Begin(w0), before).0;
      assert ts[..|before|] == before && IsFresh(k, t);
      StartsTrace(tx, k, t);
      var e := Track(tx, k, t).1;
      if e.Some? && e.value.Written? {
        WriteIsAFrame(tx, k, t, e.value.frags);
      }
    }
  }

  lemma NothingTracked(tx: Stream, w0: SaneWriter)
    ensures Run(Tracker(tx), Begin(w0), []) == (Begin(w0), [])
  {
  }

  lemma NoStartInside(tx: Stream, chain: seq<Fragment>, a: nat, t: nat)
    requires IsChain(chain) && IsRunOf(tx, chain, a) && a < t < a + |chain|
    ensures tx(t).announced.None?
  {
    assert chain[t - a] == tx(a + (t - a));
  }

  lemma ChainWithinFrame(tx: Stream, chain: seq<Fragment>, a: nat, b: nat)
    requires IsChain(chain) && IsRunOf(tx, chain, a) && IsFrame(tx, a, b)
    ensures a + |chain| <= b
  {
    if b < a + |chain| {
      NoStartInside(tx, chain, a, b);
    }
  }

  lemma RunPayloads(tx: Stream, chain: seq<Fragment>, a: nat, frags: seq<Bytes>)
    requires IsRunOf(tx, chain, a) && ArePayloads(frags, chain)
    ensures AreFrame(tx, frags, a, a + |frags|)
  {
    forall i | 0 <= i < |frags| ensures frags[i] == tx(a + i).payload {
      assert chain[i] == tx(a + i);
    }
  }

  /** A chain whose payloads reach the announced length ends exactly where its frame ends. */
  lemma FullChainEnds(tx: Stream, chain: seq<Fragment>, a: nat, b: nat, n: nat)
    requires a + |chain| <= b && IsRunOf(tx, chain, a)
    requires n <= |chain| && PayloadLength(chain, n) >= SentLength(tx, a, b)
    ensures n == |chain| && a + n == b
  {
    RunLength(tx, chain, a, n);
    EnoughIsAll(tx, a, a + n, b);
  }

  lemma FullChainIsFrame(tx: Stream, chain: seq<Fragment>, a: nat, n: nat)
    requires SendsExactFrames(tx)
    requires IsChain(chain) && IsRunOf(tx, chain, a)
    requires n <= |chain| && PayloadLength(chain, n) >= chain[0].announced.value
    ensures n == |chain| && IsFrame(tx, a, a + n)
  {
    assert chain[0] == tx(a + 0);
    assert HasEnd(tx, a);
    var b: nat :| IsFrame(tx, a, b);
    assert chain[0].announced.value == SentLength(tx, a, b);
    ChainWithinFrame(tx, chain, a, b);
    FullChainEnds(tx, chain, a, b, n);
  }

  lemma EnoughIsAll(tx: Stream, a: nat, m: nat, b: nat)
    requires a <= m <= b && SentLength(tx, a, m) >= SentLength(tx, a, b)
    ensures m == b
  {
    if m < b {
      ShorterIsLess(tx, a, m, b);
    }
  }

  // ----- arrival in order

  ghost function Stretch(tx: Stream, a: nat, b: nat): seq<Fragment>
    requires a <= b
    decreases b
  {
    if a == b then [] else Stretch(tx, a, b - 1) + [tx(b - 1)]
  }

  ghost function FrameFrags(tx: Stream, a: nat, b: nat): (frags: seq<Bytes>)
    requires a <= b
    ensures AreFrame(tx, frags, a, b)
  {
    seq(b - a, i requires 0 <= i < b - a => tx(a + i).payload)
  }

  /** Fragments small enough for a slot; larger ones end the call. */
  ghost predicate FitsSlots(tx: Stream)
  {
    forall t: nat :: |tx(t).payload| <= 2048
  }

  lemma {:induction false} StretchIsRun(tx: Stream, a: nat, m: nat)
    requires a <= m
    ensures |Stretch(tx, a, m)| == m - a && IsRunOf(tx, Stretch(tx, a, m), a)
    decreases m
  {
    if a < m {
      StretchIsRun(tx, a, m - 1);
    }
  }

  lemma RunIsChain(tx: Stream, chain: seq<Fragment>, a: nat, b: nat)
    requires IsRunOf(tx, chain, a) && IsFrame(tx, a, b) && 0 < |chain| <= b - a
    ensures IsChain(chain) && chain[0] == tx(a) && chain[|chain| - 1] == tx(a + |chain| - 1)
  {
    assert chain[0] == tx(a + 0);
    forall i | 0 < i < |chain| ensures chain[i].announced.None? {
      assert chain[i] == tx(a + i);
    }
  }

  lemma WriteDecision(tx: Stream, v: SaneWriter, chain: seq<Fragment>, a: nat, b: nat)
    requires SendsExactFrames(tx) && IsFrame(tx, a, b) && IsRunOf(tx, chain, a) && 0 < |chain| <= b - a
    requires HoldsFrame(v, chain)
    ensures v.dataSum >= v.frameLen <==> |chain| == b - a
    ensures |chain| == b - a ==> v.slots[..v.nfrags] == FrameFrags(tx, a, b)
  {
    assert chain[0] == tx(a + 0);
    RunLength(tx, chain, a, |chain|);
    if v.dataSum >= v.frameLen {
      EnoughIsAll(tx, a, a + |chain|, b);
    }
    if |chain| == b - a {
      forall i | 0 <= i < |chain| ensures v.slots[i] == tx(a + i).payload {
        assert chain[i] == tx(a + i);
      }
    }
  }

  /** The state within a frame that arrives in order, after its packets a to m-1. */
  ghost predicate IsMidway(tx: Stream, u: Writer, a: nat, m: nat)
    requires a <= m
  {
    u.running && HoldsFrame(u, Stretch(tx, a, m)) && Awaits(u, Stretch(tx, a, m))
  }

  ghost function Due(tx: Stream, a: nat, b: nat, m: nat): Option<Event>
    requires a <= b
  {
    if m == b then Some(Written(FrameFrags(tx, a, b))) else None
  }

  lemma AcceptsRuns(v: SaneWriter, p: Fragment)
    requires Accepts(v, p)
    ensures v.running && !Skips(v, p)
  {
  }

  /** The first packet of a frame. */
  lemma FirstStep(tx: Stream, v: SaneWriter, a: nat, b: nat)
    requires SendsExactFrames(tx) && FitsSlots(tx) && IsFrame(tx, a, b)
    requires Accepts(v, tx(a))
    ensures IsMidway(tx, Step(v, tx(a)).0, a, a + 1) && Step(v, tx(a)).1 == Due(tx, a, b, a + 1)
  {
    assert Stretch(tx, a, a) == [] && Stretch(tx, a, a + 1) == [tx(a)];
    assert tx(a).announced.Some? && a < b && |tx(a).payload| <= 2048;
    AcceptsRuns(v, tx(a));
    hide Step, Accepts, SendsExactFrames, FitsSlots, IsFrame, HoldsFrame, Awaits, Stretch, Skips;
    StepRuns(v, tx(a));
    StartHolds(v, tx(a));
    InOrderWrites(tx, v, a, b, a + 1);
  }

  /** A further packet of it. */
  lemma FurtherStep(tx: Stream, v: SaneWriter, a: nat, b: nat, m: nat)
    requires IsStream(tx)
    requires SendsExactFrames(tx) && FitsSlots(tx) && IsFrame(tx, a, b) && a < m < b
    requires IsMidway(tx, v, a, m)
    ensures IsMidway(tx, Step(v, tx(m)).0, a, m + 1) && Step(v, tx(m)).1 == Due(tx, a, b, m + 1)
  {
    NextInOrder(tx, v, a, m);
    StepRuns(v, tx(m));
    NextHolds(v, Stretch(tx, a, m), tx(m));
    InOrderWrites(tx, v, a, b, m + 1);
  }

  lemma NextInOrder(tx: Stream, v: Writer, a: nat, m: nat)
    requires IsStream(tx)
    requires a < m && Awaits(v, Stretch(tx, a, m))
    ensures InOrder(v, tx(m))
  {
    StretchIsRun(tx, a, m);
    assert Stretch(tx, a, m)[0] == tx(a + 0);
    WrapAdd(a, m - a - 1);
    WrapAdd(m - 1, 1);
  }

  lemma InOrderWrites(tx: Stream, v: SaneWriter, a: nat, b: nat, m: nat)
    requires SendsExactFrames(tx) && IsFrame(tx, a, b) && a < m <= b
    requires Accepts(v, tx(m - 1)) && Step(v, tx(m - 1)).0.running
    requires HoldsFrame(Step(v, tx(m - 1)).0, Stretch(tx, a, m)) && Awaits(Step(v, tx(m - 1)).0, Stretch(tx, a, m))
    ensures Step(v, tx(m - 1)).1 == Due(tx, a, b, m)
  {
    var u, chain, p := Step(v, tx(m - 1)).0, Stretch(tx, a, m), tx(m - 1);
    StretchIsRun(tx, a, m);
    RunIsChain(tx, chain, a, b);
    WriteDecision(tx, u, chain, a, b);
    StepWrites(v, p);
    LastSlot(u, chain);
  }

  lemma LastSlot(u: Writer, chain: seq<Fragment>)
    requires Awaits(u, chain) && |chain| <= MAX_FRAGS
    ensures Distance(u.baseIndex, chain[|chain| - 1].index) == |chain| - 1
  {
    DistanceUnique(u.baseIndex, u.prevIndex, |chain| - 1);
  }

  lemma MidwayStep(tx: Stream, w: SaneWriter, v: SaneWriter, a: nat, b: nat, m: nat)
    requires IsStream(tx)
    requires SendsExactFrames(tx) && FitsSlots(tx) && IsFrame(tx, a, b) && a < m < b
    requires Run(Step, w, Stretch(tx, a, m)) == (v, []) && IsMidway(tx, v, a, m)
    ensures IsMidway(tx, Run(Step, w, Stretch(tx, a, m + 1)).0, a, m + 1)
    ensures Run(Step, w, Stretch(tx, a, m + 1)).1 == Listed(Due(tx, a, b, m + 1))
  {
    var (u, e) := Step(v, tx(m));
    assert Run(Step, w, Stretch(tx, a, m + 1)) == (u, Listed(e)) by {
      RunSnoc(Step, w, Stretch(tx, a, m), tx(m));
      assert [] + Listed(e) == Listed(e);
    }
    FurtherStep(tx, v, a, b, m);
  }

  lemma FirstInOrder(tx: Stream, w: SaneWriter, a: nat, b: nat)
    requires SendsExactFrames(tx) && FitsSlots(tx) && IsFrame(tx, a, b)
    requires Accepts(w, tx(a))
    ensures IsMidway(tx, Run(Step, w, Stretch(tx, a, a + 1)).0, a, a + 1)
    ensures Run(Step, w, Stretch(tx, a, a + 1)).1 == Listed(Due(tx, a, b, a + 1))
  {
    hide Step, IsMidway, SendsExactFrames, FitsSlots;
    assert Stretch(tx, a, a) == [];
    assert Stretch(tx, a, a + 1) == [tx(a)];
    RunOne(Step, w, tx(a));
    FirstStep(tx, w, a, b);
  }

  /** Within a frame that arrives in order, nothing is written before its last packet, and the whole
      frame is written with it. */
  lemma {:induction false} FrameInOrder(tx: Stream, w: SaneWriter, a: nat, b: nat, m: nat)
    requires IsStream(tx)
    requires SendsExactFrames(tx) && FitsSlots(tx) && IsFrame(tx, a, b) && a < m <= b
    requires Accepts(w, tx(a))
    ensures IsMidway(tx, Run(Step, w, Stretch(tx, a, m)).0, a, m)
    ensures Run(Step, w, Stretch(tx, a, m)).1 == Listed(Due(tx, a, b, m))
    decreases m
  {
    hide Run, Stretch, IsFrame, Accepts, HoldsFrame, Awaits, Step, IsMidway, SendsExactFrames, FitsSlots, IsStream;
    if m == a + 1 {
      FirstInOrder(tx, w, a, b);
    } else {
      FrameInOrder(tx, w, a, b, m - 1);
      MidwayStep(tx, w, Run(Step, w, Stretch(tx, a, m - 1)).0, a, b, m - 1);
    }
  }

  lemma StepRuns(w: SaneWriter, p: Fragment)
    requires w.running && |p.payload| <= 2048
    ensures Step(w, p).0.running
  {
  }

  /** Whether an accepted packet triggers a write can be read off the state it leads to. */
  lemma StepWrites(w: SaneWriter, p: Fragment)
    requires w.running && !Skips(w, p) && Step(w, p).0.running
    ensures var u := Step(w, p).0;
            Step(w, p).1 == if Distance(u.baseIndex, p.index) < MAX_FRAGS && u.dataSum >= u.frameLen
                            then Some(Written(u.slots[..u.nfrags])) else None
  {
  }

  // ----- whole streams in order

  lemma {:induction false} StretchSplit(tx: Stream, a: nat, b: nat, c: nat)
    requires a <= b <= c
    ensures Stretch(tx, a, c) == Stretch(tx, a, b) + Stretch(tx, b, c)
    decreases c
  {
    if b < c {
      StretchSplit(tx, a, b, c - 1);
    }
  }

  /** Consecutive frame starts. */
  ghost predicate AreStarts(tx: Stream, starts: seq<nat>) {
    forall i :: 0 <= i < |starts| - 1 ==> IsFrame(tx, starts[i], starts[i + 1])
  }

  ghost function Frames(tx: Stream, starts: seq<nat>): seq<Event>
    requires |starts| > 0 && AreStarts(tx, starts)
  {
    if |starts| == 1 then []
    else
      Frames(tx, starts[..|starts| - 1])
      + [Written(FrameFrags(tx, starts[|starts| - 2], starts[|starts| - 1]))]
  }

  lemma {:induction false} StartsOrdered(tx: Stream, starts: seq<nat>)
    requires |starts| > 0 && AreStarts(tx, starts)
    ensures starts[0] <= starts[|starts| - 1]
    decreases |starts|
  {
    if |starts| > 1 {
      StartsOrdered(tx, starts[..|starts| - 1]);
    }
  }

  /** A stream that arrives in order and without loss is written frame by frame, each frame once,
      across any number of index wraps. */
  lemma {:induction false} StreamInOrder(tx: Stream, w: SaneWriter, starts: seq<nat>)
    requires IsStream(tx)
    requires SendsExactFrames(tx) && FitsSlots(tx) && |starts| > 0 && AreStarts(tx, starts)
    requires Accepts(w, tx(starts[0]))
    ensures starts[0] <= starts[|starts| - 1]
    ensures var (u, out) := Run(Step, w, Stretch(tx, starts[0], starts[|starts| - 1]));
            out == Frames(tx, starts) && Accepts(u, tx(starts[|starts| - 1]))
    decreases |starts|
  {
    hide HoldsFrame, Step;
    if |starts| == 1 {
      assert Stretch(tx, starts[0], starts[0]) == [];
    } else {
      var before := starts[..|starts| - 1];
      var first, a, b := starts[0], starts[|starts| - 2], starts[|starts| - 1];
      StreamInOrder(tx, w, before);
      assert IsFrame(tx, a, b);
      var (v, out) := Run(Step, w, Stretch(tx, first, a));
      FrameInOrder(tx, v, a, b, b);
      StretchSplit(tx, first, a, b);
      RunAppend(Step, w, Stretch(tx, first, a), Stretch(tx, a, b));
      NextInOrder(tx, Run(Step, v, Stretch(tx, a, b)).0, a, b);
    }
  }
}
