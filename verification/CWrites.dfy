/** What the C writer sends to the viewer, for any order of arrival, loss or repetition. */
module CWrites {
  import opened Bytes
  import opened VideoFrames
  import opened Machine
  import opened CFrameWriter

  /** What a list of packets amounts to: no start accepted yet; the packets accepted one directly
      after the other since the last accepted start; or a gap since that start. */
  datatype Trace = Unstarted | Intact(chain: seq<Fragment>) | Broken

  function TraceStep(w: SaneWriter, t: Trace, p: Fragment): Trace {
    if !w.running || Skips(w, p) then t
    else if p.announced.Some? then Intact([p])
    else
      match t
      case Unstarted => Unstarted
      case Intact(chain) => if InOrder(w, p) then Intact(chain + [p]) else Broken
      case Broken => Broken
  }

  /** The writer together with the trace of what it was given. */
  datatype Observed = Observed(writer: SaneWriter, trace: Trace)

  function Observe(o: Observed, p: Fragment): (Observed, Option<Event>) {
    var (w, e) := Step(o.writer, p);
    (Observed(w, TraceStep(o.writer, o.trace, p)), e)
  }

  /** One start, then continuation packets. */
  ghost predicate IsChain(chain: seq<Fragment>) {
    && |chain| > 0
    && chain[0].announced.Some?
    && (forall i :: 0 < i < |chain| ==> chain[i].announced.None?)
  }

  /** Indices follow one another, modulo 2^16. */
  ghost predicate IsConsecutive(chain: seq<Fragment>) {
    forall i :: 0 <= i < |chain| ==> chain[i].index == (chain[0].index + i) % 0x1_0000
  }

  function FragCount(chain: seq<Fragment>): nat {
    if |chain| < 32 then |chain| else 32
  }

  /** Payload bytes of the first n packets. */
  function PayloadLength(chain: seq<Fragment>, n: nat): nat
    requires n <= |chain|
  {
    if n == 0 then 0 else PayloadLength(chain, n - 1) + |chain[n - 1].payload|
  }

  /** The first payloads of the chain, in order. */
  ghost predicate ArePayloads(frags: seq<Bytes>, chain: seq<Fragment>) {
    |frags| <= |chain| && forall i :: 0 <= i < |frags| ==> frags[i] == chain[i].payload
  }

  /** The slots hold the chain's first payloads in order, and nothing else. */
  ghost predicate HoldsSlots(w: Writer, chain: seq<Fragment>) {
    && |w.slots| == MAX_FRAGS
    && w.nfrags == FragCount(chain)
    && (forall i :: 0 <= i < w.nfrags ==> w.slots[i] == chain[i].payload)
    && (forall i :: w.nfrags <= i < MAX_FRAGS ==> w.slots[i] == [])
    && w.dataSum == PayloadLength(chain, w.nfrags)
  }

  ghost predicate HoldsFrame(w: Writer, chain: seq<Fragment>) {
    IsChain(chain) && HoldsSlots(w, chain) && w.frameLen == chain[0].announced.value
  }

  /** The next packet in order extends the chain. */
  ghost predicate Awaits(w: Writer, chain: seq<Fragment>) {
    && |chain| > 0
    && w.baseIndex == chain[0].index
    && w.prevIndex == chain[|chain| - 1].index == (w.baseIndex + |chain| - 1) % 0x1_0000
  }

  /** After a gap at most 31 further slots can fill, too little for the sentinel length. */
  ghost predicate Spoiled(w: Writer) {
    && |w.slots| == MAX_FRAGS
    && w.frameLen == 65535
    && w.dataSum + 2048 <= 2048 * Occupied(w.slots)
  }

  /** What the trace says about the writer's state, as long as the call goes on. */
  ghost predicate Follows(o: Observed) {
    o.writer.running ==>
      match o.trace
      case Unstarted => true
      case Intact(chain) => HoldsFrame(o.writer, chain) && Awaits(o.writer, chain) && IsConsecutive(chain)
      case Broken => Spoiled(o.writer)
  }

  // ----- one packet

  /** State after an accepted packet that does not end the call. */
  lemma StepStores(w: SaneWriter, p: Fragment)
    requires w.running && !Skips(w, p) && Step(w, p).0.running
    ensures var v := Prepare(w, p);
            var slot := Distance(v.baseIndex, p.index);
            && |v.slots| == MAX_FRAGS
            && Step(w, p).0 == if slot < MAX_FRAGS then Store(v, slot, p.payload) else v
  {
  }

  lemma StartStored(v: Writer, p: Fragment)
    requires p.announced.Some? && v.baseIndex == v.prevIndex == p.index && v.frameLen == p.announced.value
    requires v.dataSum == 0 && v.nfrags == 0 && v.slots == NoFrags()
    ensures HoldsFrame(Store(v, 0, p.payload), [p]) && Awaits(Store(v, 0, p.payload), [p])
  {
    assert PayloadLength([p], 1) == PayloadLength([p], 0) + |p.payload|;
  }

  lemma StartHolds(w: SaneWriter, p: Fragment)
    requires w.running && !Skips(w, p) && p.announced.Some? && Step(w, p).0.running
    ensures HoldsFrame(Step(w, p).0, [p]) && Awaits(Step(w, p).0, [p])
  {
    StepStores(w, p);
    StartStored(Prepare(w, p), p);
  }

  /** A packet that follows the chain belongs into the slot numbered by the chain's length. */
  lemma NextSlot(w: Writer, chain: seq<Fragment>, p: Fragment)
    requires Awaits(w, chain) && InOrder(w, p)
    ensures p.index == (w.baseIndex + |chain|) % 0x1_0000
    ensures Distance(w.baseIndex, p.index) == |chain| % 0x1_0000
  {
    var n := |chain|;
    WrapAdd(w.baseIndex + n - 1, 1);
    WrapAdd(n, w.baseIndex);
    DistanceUnique(w.baseIndex, p.index, n % 0x1_0000);
  }

  lemma ConsecutiveExtends(chain: seq<Fragment>, p: Fragment)
    requires |chain| > 0 && IsConsecutive(chain) && p.index == (chain[0].index + |chain|) % 0x1_0000
    ensures IsConsecutive(chain + [p])
  {
  }

  lemma {:induction false} PayloadLengthPrefix(chain: seq<Fragment>, p: Fragment, n: nat)
    requires n <= |chain|
    ensures PayloadLength(chain + [p], n) == PayloadLength(chain, n)
  {
    if n > 0 {
      PayloadLengthPrefix(chain, p, n - 1);
    }
  }

  /** The next packet in order takes the next slot, or none once all 32 are taken. */
  lemma NextStored(w: Writer, chain: seq<Fragment>, p: Fragment, slot: nat)
    requires HoldsSlots(w, chain) && slot == |chain| % 0x1_0000
    ensures HoldsSlots(if slot < MAX_FRAGS then Store(w, slot, p.payload) else w, chain + [p])
  {
    PayloadLengthPrefix(chain, p, FragCount(chain));
    var longer := chain + [p];
    if |chain| < MAX_FRAGS {
      assert PayloadLength(longer, |chain| + 1) == PayloadLength(longer, |chain|) + |p.payload|;
    } else if slot < MAX_FRAGS {
      assert w.slots[slot] == chain[slot].payload;
    }
  }

  lemma NextHolds(w: SaneWriter, chain: seq<Fragment>, p: Fragment)
    requires HoldsFrame(w, chain) && Awaits(w, chain)
    requires w.running && InOrder(w, p) && p.announced.None? && Step(w, p).0.running
    ensures HoldsFrame(Step(w, p).0, chain + [p]) && Awaits(Step(w, p).0, chain + [p])
  {
    NextSlot(w, chain, p);
    StepStores(w, p);
    var v := w.(prevIndex := p.index);
    assert Prepare(w, p) == v;
    NextStored(v, chain, p, |chain| % 0x1_0000);
    var longer := chain + [p];
    assert longer[0] == chain[0] && longer[|longer| - 1] == p;
  }

  lemma {:induction false} OccupiedPositive(slots: seq<Bytes>)
    requires |slots| > 0 && slots[0] != []
    ensures Occupied(slots) >= 1
    decreases |slots|
  {
    if |slots| > 1 {
      OccupiedPositive(slots[..|slots| - 1]);
    }
  }

  lemma StoreSpoiled(w: Writer, slot: nat, data: Payload)
    requires Spoiled(w) && slot < MAX_FRAGS && |data| <= 2048
    ensures Spoiled(Store(w, slot, data))
  {
    if w.slots[slot] == [] {
      OccupiedUpdate(w.slots, slot, data);
    }
  }

  /** A gap spoils a frame, and it stays spoiled until the next start. */
  lemma GapSpoils(w: SaneWriter, t: Trace, p: Fragment)
    requires w.running && !Skips(w, p) && p.announced.None?
    requires Follows(Observed(w, t)) && (t.Broken? || (t.Intact? && !InOrder(w, p)))
    ensures Spoiled(Step(w, p).0)
  {
    if t.Intact? {
      assert w.slots[0] == t.chain[0].payload;
      OccupiedPositive(w.slots);
    }
    var v := Prepare(w, p);
    assert Spoiled(v);
    var slot := Distance(v.baseIndex, p.index);
    if slot < MAX_FRAGS && |p.payload| <= FRAG_SPACE {
      StoreSpoiled(v, slot, p.payload);
    }
  }

  lemma ObserveFollows(o: Observed, p: Fragment)
    requires Follows(o)
    ensures Follows(Observe(o, p).0)
  {
    var w := o.writer;
    if w.running && !Skips(w, p) && Step(w, p).0.running {
      if p.announced.Some? {
        StartHolds(w, p);
      } else if o.trace.Broken? || (o.trace.Intact? && !InOrder(w, p)) {
        GapSpoils(w, o.trace, p);
      } else if o.trace.Intact? {
        NextHolds(w, o.trace.chain, p);
        NextSlot(w, o.trace.chain, p);
        ConsecutiveExtends(o.trace.chain, p);
      }
    }
  }

  // ----- every run

  lemma {:induction false} RunFollows(o: Observed, ps: seq<Fragment>)
    requires Follows(o)
    ensures Follows(Run(Observe, o, ps).0)
    decreases |ps|
  {
    if ps != [] {
      ObserveFollows(o, ps[0]);
      RunFollows(Observe(o, ps[0]).0, ps[1..]);
    }
  }

  /** A write sends the payloads of packets with consecutive indices, in order and from the last
      accepted start on, the present packet included, and they reach the announced length. After a
      gap nothing is written until the next start. */
  ghost predicate SendsChain(t: Trace, p: Fragment, frags: seq<Bytes>) {
    && !t.Broken?
    && (t.Intact? ==>
          && IsChain(t.chain) && IsConsecutive(t.chain) && t.chain[|t.chain| - 1] == p
          && |frags| == FragCount(t.chain) && ArePayloads(frags, t.chain)
          && PayloadLength(t.chain, |frags|) >= t.chain[0].announced.value)
  }

  lemma WriteSendsChain(o: Observed, p: Fragment, frags: seq<Bytes>)
    requires Follows(o) && Observe(o, p).1 == Some(Written(frags))
    ensures SendsChain(Observe(o, p).0.trace, p, frags)
  {
    ObserveFollows(o, p);
    if o.trace.Intact? && p.announced.None? && InOrder(o.writer, p) {
      assert (o.trace.chain + [p])[|o.trace.chain|] == p;
    }
  }

  /** Every write, from whatever state the call began in and whatever arrived. */
  lemma EveryWriteSendsChain(w0: SaneWriter, ps: seq<Fragment>, p: Fragment, frags: seq<Bytes>)
    requires Observe(Run(Observe, Observed(w0, Unstarted), ps).0, p).1 == Some(Written(frags))
    ensures SendsChain(Observe(Run(Observe, Observed(w0, Unstarted), ps).0, p).0.trace, p, frags)
  {
    RunFollows(Observed(w0, Unstarted), ps);
    WriteSendsChain(Run(Observe, Observed(w0, Unstarted), ps).0, p, frags);
  }
}
