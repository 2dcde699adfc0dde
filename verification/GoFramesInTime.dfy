/** Exactly which frames the Go assembler delivers, whatever is lost, repeated or reordered: those
    whose start is followed, before anything closes the frame, by all its other packets. */
module GoFramesInTime {
  import opened Bytes
  import opened VideoFrames
  import opened GoAssembler
  import opened Machine
  import opened GoTrueFrames
  import Safety = GoSafety
  import JpegTrim

  /** Continuation packets carry something. */
  ghost predicate NoEmptyPackets(tx: Stream) {
    forall t: nat :: !IsStart(tx(t)) ==> tx(t).data != []
  }

  /** A well-formed start, then no start and no packet beyond slot 128. */
  ghost predicate IsWindow(tx: Stream, us: seq<nat>) {
    && us != [] && IsGoodStart(tx(us[0]))
    && forall k :: 0 < k < |us| ==>
         !IsStart(tx(us[k])) && Distance(us[0] % 0x1_0000, us[k] % 0x1_0000) <= 128
  }

  ghost predicate AllIn(us: seq<nat>, a: nat, b: nat) {
    forall t: nat :: a <= t < b ==> t in us
  }

  /** The start of the frame arrives at i, and all its packets within the window from i to j-1. */
  ghost predicate IsDelivery(tx: Stream, ts: seq<nat>, i: nat, j: nat, a: nat, b: nat) {
    i < j <= |ts| && ts[i] == a && IsWindow(tx, ts[i..j]) && AllIn(ts[i..j], a, b)
  }

  ghost predicate InTime(tx: Stream, ts: seq<nat>, a: nat, b: nat) {
    IsFrame(tx, a, b) && exists i: nat, j: nat :: IsDelivery(tx, ts, i, j, a, b)
  }

  lemma WindowOfPackets(tx: Stream, us: seq<nat>)
    requires IsStream(tx)
    ensures IsWindow(tx, us) <==> Safety.IsWindow(Packets(tx, us))
  {
    var w := Packets(tx, us);
    if us != [] {
      forall k: nat | 0 < k < |us|
        ensures Safety.SlotOf(w, k) == Distance(us[0] % 0x1_0000, us[k] % 0x1_0000) && w[k] == tx(us[k])
      {
        assert w[0] == tx(us[0]) && w[k] == tx(us[k]);
      }
    }
  }

  // ----- completeness against the true frame

  /** The open frame's slots are the window's packets. */
  lemma SlotsOfWindow(tx: Stream, us: seq<nat>, f: Frame, s: nat)
    requires IsStream(tx) && WindowOf(tx, us) && Safety.Explains(Packets(tx, us), f)
    ensures s in f.chunks <==> us[0] + s in us
  {
    var w := Packets(tx, us);
    DistanceUnique(w[0].index, w[0].index, 0);
    if s in f.chunks {
      var j: nat :| Safety.FirstAt(w, s, j);
      SlotIsTrue(tx, us, j);
      assert us[j] == us[0] + s;
    }
    if us[0] + s in us {
      var j: nat :| j < |us| && us[j] == us[0] + s;
      SlotIsTrue(tx, us, j);
      var i := Safety.SomeFirst(w, j);
      assert Safety.FirstAt(w, s, i);
    }
  }

  lemma SlotIsTrue(tx: Stream, us: seq<nat>, j: nat)
    requires IsStream(tx) && WindowOf(tx, us) && j < |us|
    ensures us[j] == us[0] + Safety.SlotOf(Packets(tx, us), j)
  {
    var w := Packets(tx, us);
    assert w[0] == tx(us[0]) && w[j] == tx(us[j]);
    if j == 0 {
      DistanceUnique(w[0].index, w[0].index, 0);
    } else {
      SlotIsDifference(us[0], us[j]);
    }
  }

  lemma ShorterData(tx: Stream, a: nat, m: nat, b: nat)
    requires NoEmptyPackets(tx) && IsFrame(tx, a, b) && a < m < b
    ensures |FrameData(tx, a, m)| < |FrameData(tx, a, b)|
  {
    FrameDataGrows(tx, a, m + 1, b);
    assert PayloadOf(tx, a, m) != [];
  }

  lemma ReachIsLength(f: Frame, n: nat)
    requires n > 0 && (forall s: nat :: s < n ==> s in f.chunks) && forall s :: s in f.chunks ==> s <= f.maxSlot
    ensures Reach(f) >= n
  {
    assert n - 1 in f.chunks;
  }

  /** The leading slots hold a prefix of the true frame. */
  lemma BodyIsData(tx: Stream, us: seq<nat>, f: Frame, b: nat)
    requires IsStream(tx) && WindowOf(tx, us) && Safety.Explains(Packets(tx, us), f) && IsFrame(tx, us[0], b)
    ensures us[0] + Reach(f) <= b && Body(f) == FrameData(tx, us[0], us[0] + Reach(f))
  {
    hide Safety.Explains, WindowOf, IsStream, IsFrame, Safety.AreFirsts, TrueParts, FrameData, Safety.IsWindow;
    var parts := Safety.Parts(f.chunks, Reach(f));
    WindowIsNonempty(tx, us);
    ExplainedWindow(Packets(tx, us), f);
    Safety.PartsAreFirsts(Packets(tx, us), f, Reach(f));
    FirstsAreTrue(tx, us, parts);
    PartsAreData(tx, us[0], parts);
    Safety.FlattenParts(f.chunks, Reach(f));
    EndsBehind(tx, us[0], parts, b);
  }

  lemma WindowIsNonempty(tx: Stream, us: seq<nat>)
    requires WindowOf(tx, us)
    ensures us != [] && Safety.IsWindow(Packets(tx, us)) && IsGoodStart(tx(us[0]))
  {
    assert Packets(tx, us)[0] == tx(us[0]);
  }

  lemma ExplainedWindow(w: seq<Packet>, f: Frame)
    requires Safety.Explains(w, f)
    ensures |w| > 0 && Safety.IsWindow(w) && IsGoodStart(w[0]) && f.expectedLength == Announced(w[0])
  {
  }

  /** The occupied slots are those of the packets in the window. */
  ghost predicate Mirrors(f: Frame, us: seq<nat>, a: nat) {
    forall s: nat :: s in f.chunks <==> a + s in us
  }

  lemma ReachesTheEnd(f: Frame, us: seq<nat>, a: nat, b: nat)
    requires FrameOk(f) && Mirrors(f, us, a) && a < b && a + Reach(f) <= b
    ensures a + Reach(f) == b <==> AllIn(us, a, b)
    ensures Reach(f) >= 1
  {
    ReachIsLength(f, 1);
    if AllIn(us, a, b) {
      forall s: nat | s < b - a ensures s in f.chunks {
        assert a + s in us;
      }
      ReachIsLength(f, b - a);
    }
    if a + Reach(f) == b {
      forall t: nat | a <= t < b ensures t in us {
        assert t - a in f.chunks;
        assert a + (t - a) in us;
      }
    }
  }

  lemma MirrorsWindow(tx: Stream, us: seq<nat>, f: Frame)
    requires IsStream(tx) && WindowOf(tx, us) && Safety.Explains(Packets(tx, us), f)
    ensures us != [] && Mirrors(f, us, us[0])
  {
    hide IsStream, Safety.Explains;
    forall s: nat ensures s in f.chunks <==> us[0] + s in us {
      SlotsOfWindow(tx, us, f, s);
    }
  }

  /** An open frame is complete exactly when all packets of the true frame are in its window. */
  lemma CompleteIffAllIn(tx: Stream, us: seq<nat>, f: Frame, b: nat)
    requires IsStream(tx) && SendsExactFrames(tx) && NoEmptyPackets(tx) && WindowOf(tx, us)
    requires Safety.Explains(Packets(tx, us), f) && FrameOk(f) && IsFrame(tx, us[0], b)
    ensures IsComplete(f) <==> AllIn(us, us[0], b)
    ensures IsComplete(f) ==> Image(f) == FrameData(tx, us[0], b)
  {
    hide IsStream, SendsExactFrames, NoEmptyPackets, WindowOf, Safety.Explains, FrameData, Mirrors, AllIn, IsFrame,
      FrameOk, Reach, Body, IsComplete, Image, Packets;
    WindowIsNonempty(tx, us);
    var a, n := us[0], Reach(f);
    BodyIsData(tx, us, f, b);
    ExpectsTheFrame(tx, us, f, b);
    MirrorsWindow(tx, us, f);
    FrameGoesOn(tx, a, b);
    ReachesTheEnd(f, us, a, b);
    if a + n < b {
      ShorterData(tx, a, a + n, b);
    }
    CompleteByLength(f);
  }

  lemma FrameGoesOn(tx: Stream, a: nat, b: nat)
    requires IsFrame(tx, a, b)
    ensures a < b
  {
  }

  lemma CompleteByLength(f: Frame)
    requires FrameOk(f)
    ensures IsComplete(f) <==> |Body(f)| >= f.expectedLength
    ensures IsComplete(f) && |Body(f)| == f.expectedLength ==> Image(f) == Body(f)
  {
  }

  lemma ExpectsTheFrame(tx: Stream, us: seq<nat>, f: Frame, b: nat)
    requires SendsExactFrames(tx) && WindowOf(tx, us) && Safety.Explains(Packets(tx, us), f) && IsFrame(tx, us[0], b)
    ensures f.expectedLength == |FrameData(tx, us[0], b)|
  {
    WindowIsNonempty(tx, us);
    assert Packets(tx, us)[0] == tx(us[0]);
    ExplainedWindow(Packets(tx, us), f);
    hide Announced, IsGoodStart, IsFrame, FrameData, HasEnd;
    assert Announced(tx(us[0])) == |FrameData(tx, us[0], b)|;
  }

  // ----- the state within a window

  /** Within a window of frame us[0] to b-1: what is open is explained by the window, and the frame has
      come out or is held back once all of it is in, and is open before. */
  ghost predicate Stands(tx: Stream, us: seq<nat>, b: nat, st: Option<Frame>, out: seq<Emission>)
    requires us != []
  {
    && (st.Some? ==> Safety.Explains(Packets(tx, us), st.value) && FrameOk(st.value))
    && (AllIn(us, us[0], b) ==> Full(FrameData(tx, us[0], b)) in out + Listed(Flush(st)))
    && (!AllIn(us, us[0], b) ==> st.Some?)
  }

  ghost predicate Sends(tx: Stream) {
    IsStream(tx) && SendsExactFrames(tx) && NoEmptyPackets(tx)
  }

  /** A frame that is stored into either stays open or comes out. */
  lemma StandsAfterStoring(tx: Stream, us: seq<nat>, b: nat, f: Frame, out: seq<Emission>)
    requires Sends(tx) && WindowOf(tx, us) && IsFrame(tx, us[0], b)
    requires Safety.Explains(Packets(tx, us), f) && FrameOk(f)
    ensures Stands(tx, us, b, Settle(f).0, out + Listed(Settle(f).1))
    ensures Stands(tx, us, b, Some(f), out)
  {
    CompleteIffAllIn(tx, us, f, b);
    hide Sends, WindowOf, IsFrame, Safety.Explains, FrameOk, FrameData, AllIn, IsComplete, Image, Packets;
    var whole := Full(FrameData(tx, us[0], b));
    if IsComplete(f) {
      assert Flush(Some(f)) == Some(whole) && Settle(f) == (None, Some(whole));
      assert whole in Listed(Some(whole));
    }
  }

  /** A packet in the window, with nothing open: the frame is out already. */
  lemma StandsWithNoneOpen(tx: Stream, us: seq<nat>, b: nat, t: nat, out: seq<Emission>)
    requires us != [] && Stands(tx, us, b, None, out)
    ensures Stands(tx, us + [t], b, None, out)
  {
    hide FrameData;
    assert AllIn(us, us[0], b);
    assert forall x :: x in us ==> x in us + [t];
    assert AllIn(us + [t], us[0], b);
  }

  lemma StandsAtStart(tx: Stream, a: nat, b: nat, st: Option<Frame>, out: seq<Emission>)
    requires Sends(tx) && WindowOf(tx, [a]) && IsFrame(tx, a, b) && IsGoodStart(tx(a))
    ensures var (after, e) := Step(st, tx(a)); Stands(tx, [a], b, after, out + Listed(e))
  {
    hide Sends, WindowOf, IsFrame, Stands, IsComplete, Settle, Flush, Safety.Explains, FrameOk;
    var p := tx(a);
    var f := Insert(Opened(p), 0, p.data[HEADER_SIZE..]);
    Safety.OpenedExplained(p);
    OpenedOk(p);
    assert Packets(tx, [a]) == [p];
    StandsAfterStoring(tx, [a], b, f, out);
    StandsAfterStoring(tx, [a], b, f, out + Listed(Flush(st)));
  }

  lemma StandsAfterPacket(tx: Stream, us: seq<nat>, b: nat, t: nat, st: Option<Frame>, out: seq<Emission>)
    requires us != [] && Sends(tx) && WindowOf(tx, us + [t]) && IsFrame(tx, us[0], b)
    requires Stands(tx, us, b, st, out)
    requires !IsStart(tx(t)) && Distance(us[0] % 0x1_0000, t % 0x1_0000) <= 128
    ensures var (after, e) := Step(st, tx(t)); Stands(tx, us + [t], b, after, out + Listed(e))
  {
    if st == None {
      StandsWithNoneOpen(tx, us, b, t, out);
      assert out + Listed<Emission>(None) == out;
    } else {
      StoringExplained(tx, us, t, st.value);
      hide Sends, WindowOf, IsFrame, Stands, Settle, Safety.Explains, FrameOk, IsStart;
      var slot := Distance(st.value.startIndex, tx(t).index);
      StandsAfterStoring(tx, us + [t], b, Insert(st.value, slot, tx(t).data), out);
    }
  }

  lemma StoringExplained(tx: Stream, us: seq<nat>, t: nat, f: Frame)
    requires IsStream(tx) && us != [] && Safety.Explains(Packets(tx, us), f) && FrameOk(f)
    requires !IsStart(tx(t)) && Distance(us[0] % 0x1_0000, t % 0x1_0000) <= 128
    ensures Distance(f.startIndex, tx(t).index) <= 128
    ensures var g := Insert(f, Distance(f.startIndex, tx(t).index), tx(t).data);
            Safety.Explains(Packets(tx, us + [t]), g) && FrameOk(g)
  {
    assert Packets(tx, us)[0] == tx(us[0]);
    assert Packets(tx, us + [t]) == Packets(tx, us) + [tx(t)];
    Safety.InsertExplained(Packets(tx, us), f, tx(t));
    InsertOk(f, Distance(f.startIndex, tx(t).index), tx(t).data);
  }

  lemma PacketsSnoc(tx: Stream, ts: seq<nat>, t: nat)
    ensures Packets(tx, ts + [t]) == Packets(tx, ts) + [tx(t)]
  {
  }

  lemma IsWindowOf(tx: Stream, ts: seq<nat>, i: nat)
    requires Sends(tx) && AllNear(tx, ts) && i < |ts| && IsWindow(tx, ts[i..])
    ensures WindowOf(tx, ts[i..]) && IsGoodStart(tx(ts[i]))
  {
    WindowOfPackets(tx, ts[i..]);
    WindowIsNear(tx, ts, i);
  }

  /** In every run, from the arrival of a start on until something closes the window. */
  lemma {:induction false} StandsThroughWindow(tx: Stream, ts: seq<nat>, i: nat, b: nat)
    requires Sends(tx) && AllNear(tx, ts) && i < |ts| && IsWindow(tx, ts[i..]) && IsFrame(tx, ts[i], b)
    ensures var (st, out) := Run(Step, None, Packets(tx, ts)); Stands(tx, ts[i..], b, st, out)
    decreases |ts|
  {
    hide Stands, Step, Run, WindowOf, IsFrame, AllNear, Sends, IsWindow, Packets;
    var before, t := ts[..|ts| - 1], ts[|ts| - 1];
    var us := ts[i..];
    assert ts == before + [t];
    PacketsSnoc(tx, before, t);
    IsWindowOf(tx, ts, i);
    RunSnoc(Step, None, Packets(tx, before), tx(t));
    var (st, out) := Run(Step, None, Packets(tx, before));
    if i == |before| {
      assert us == [t];
      StandsAtStart(tx, t, b, st, out);
    } else {
      var vs := before[i..];
      assert us == vs + [t];
      WindowWithout(tx, vs, t);
      NearPrefix(tx, before, t);
      StandsThroughWindow(tx, before, i, b);
      StandsAfterPacket(tx, vs, b, t, st, out);
    }
  }

  lemma WindowWithout(tx: Stream, us: seq<nat>, t: nat)
    requires us != [] && IsWindow(tx, us + [t])
    ensures IsWindow(tx, us) && !IsStart(tx(t)) && Distance(us[0] % 0x1_0000, t % 0x1_0000) <= 128
  {
    var all := us + [t];
    assert all[|us|] == t && all[0] == us[0];
    assert forall k :: 0 <= k < |us| ==> all[k] == us[k];
  }

  // ----- what has come out stays out

  ghost predicate OutOrHeld(st: Option<Frame>, out: seq<Emission>, e: Emission) {
    e in out + Listed(Flush(st))
  }

  /** A frame that is held back comes out with the next packet, whatever it is. */
  lemma HeldComesOut(st: Option<Frame>, p: Packet)
    requires Flush(st).Some? && Flush(st).value.Full?
    ensures Step(st, p).1 == Flush(st)
  {
    if !IsStart(p) && Distance(st.value.startIndex, p.index) <= 128 {
      CompleteStays(st.value, Distance(st.value.startIndex, p.index), p.data);
    }
  }

  lemma {:induction false} StaysOut(st: Option<Frame>, ps: seq<Packet>, out: seq<Emission>, e: Emission)
    requires e.Full? && OutOrHeld(st, out, e)
    ensures OutOrHeld(Run(Step, st, ps).0, out + Run(Step, st, ps).1, e)
    decreases |ps|
  {
    hide Step, Flush;
    if ps == [] {
      assert out + [] == out;
    } else {
      var (st1, e1) := Step(st, ps[0]);
      if e in Listed(Flush(st)) {
        HeldComesOut(st, ps[0]);
      }
      assert e in out + Listed(e1);
      StaysOut(st1, ps[1..], out + Listed(e1), e);
      assert out + Listed(e1) + Run(Step, st1, ps[1..]).1 == out + (Listed(e1) + Run(Step, st1, ps[1..]).1);
    }
  }

  lemma PacketsSplit(tx: Stream, ts: seq<nat>, j: nat)
    requires j <= |ts|
    ensures Packets(tx, ts) == Packets(tx, ts[..j]) + Packets(tx, ts[j..])
  {
  }

  lemma InTimeComesOut(tx: Stream, ts: seq<nat>, a: nat, b: nat)
    requires Sends(tx) && AllNear(tx, ts) && InTime(tx, ts, a, b)
    ensures var (st, out) := Run(Step, None, Packets(tx, ts)); OutOrHeld(st, out, Full(FrameData(tx, a, b)))
  {
    hide Sends, AllNear, IsFrame, Step, Run, FrameData, IsDelivery, Packets, Stands, OutOrHeld;
    var i: nat, j: nat :| IsDelivery(tx, ts, i, j, a, b);
    DeliveredAt(tx, ts, i, j, a, b);
    PacketsSplit(tx, ts, j);
    var (st, out) := Run(Step, None, Packets(tx, ts[..j]));
    RunAppend(Step, None, Packets(tx, ts[..j]), Packets(tx, ts[j..]));
    StaysOut(st, Packets(tx, ts[j..]), out, Full(FrameData(tx, a, b)));
  }

  lemma DeliveredAt(tx: Stream, ts: seq<nat>, i: nat, j: nat, a: nat, b: nat)
    requires Sends(tx) && AllNear(tx, ts) && IsFrame(tx, a, b) && IsDelivery(tx, ts, i, j, a, b)
    ensures j <= |ts|
    ensures var (st, out) := Run(Step, None, Packets(tx, ts[..j]));
            && OutOrHeld(st, out, Full(FrameData(tx, a, b)))
            && (b >= a + 2 ==> Full(FrameData(tx, a, b)) in out)
  {
    hide Sends, AllNear, IsFrame, Step, Run, FrameData, Packets, AllIn, IsWindow;
    var first := ts[..j];
    assert first[i..] == ts[i..j] && first[i] == a && ts[i..j][0] == a;
    NearTake(tx, ts, j);
    StandsThroughWindow(tx, first, i, b);
    var (st, out) := Run(Step, None, Packets(tx, first));
    if b >= a + 2 && st.Some? {
      IsWindowOf(tx, first, i);
      MoreThanOneSlot(tx, first[i..], st.value, b);
      HeldHasOneSlot(Packets(tx, first));
      assert false;
    }
  }

  lemma MoreThanOneSlot(tx: Stream, us: seq<nat>, f: Frame, b: nat)
    requires Sends(tx) && WindowOf(tx, us) && IsFrame(tx, us[0], b) && b >= us[0] + 2 && AllIn(us, us[0], b)
    requires Safety.Explains(Packets(tx, us), f) && FrameOk(f)
    ensures IsComplete(f) && f.maxSlot >= 1
  {
    CompleteIffAllIn(tx, us, f, b);
    assert us[0] + 1 in us;
    SlotsOfWindow(tx, us, f, 1);
  }

  /** Only a frame of one packet is ever held back complete. */
  lemma {:induction false} HeldHasOneSlot(ps: seq<Packet>)
    ensures var st := Run(Step, None, ps).0; st.Some? && IsComplete(st.value) ==> st.value.maxSlot == 0
    decreases |ps|
  {
    if ps != [] {
      var before, p := ps[..|ps| - 1], ps[|ps| - 1];
      assert ps == before + [p];
      RunSnoc(Step, None, before, p);
      hide IsComplete, Image, JpegTrim.Trim;
    }
  }

  /** A frame of two or more packets that is in time has come out. */
  lemma MultiPacketComesOut(tx: Stream, ts: seq<nat>, a: nat, b: nat)
    requires Sends(tx) && AllNear(tx, ts) && InTime(tx, ts, a, b) && b >= a + 2
    ensures Full(FrameData(tx, a, b)) in Run(Step, None, Packets(tx, ts)).1
  {
    hide Sends, AllNear, IsFrame, Step, Run, FrameData, IsDelivery, Packets, OutOrHeld;
    var i: nat, j: nat :| IsDelivery(tx, ts, i, j, a, b);
    DeliveredAt(tx, ts, i, j, a, b);
    PacketsSplit(tx, ts, j);
    RunAppend(Step, None, Packets(tx, ts[..j]), Packets(tx, ts[j..]));
  }

  // ----- nothing else comes out

  ghost predicate IsDelivered(tx: Stream, ts: seq<nat>, d: Bytes) {
    exists a: nat, b: nat :: InTime(tx, ts, a, b) && d == FrameData(tx, a, b)
  }

  lemma InTimeGrows(tx: Stream, ts: seq<nat>, t: nat, a: nat, b: nat)
    requires InTime(tx, ts, a, b)
    ensures InTime(tx, ts + [t], a, b)
  {
    var i: nat, j: nat :| IsDelivery(tx, ts, i, j, a, b);
    assert (ts + [t])[i..j] == ts[i..j];
    assert IsDelivery(tx, ts + [t], i, j, a, b);
  }

  lemma DeliveredGrows(tx: Stream, ts: seq<nat>, t: nat, d: Bytes)
    requires IsDelivered(tx, ts, d)
    ensures IsDelivered(tx, ts + [t], d)
  {
    var a: nat, b: nat :| InTime(tx, ts, a, b) && d == FrameData(tx, a, b);
    InTimeGrows(tx, ts, t, a, b);
  }

  /** A window with an explained, complete frame delivers it. */
  lemma CompleteIsDelivered(tx: Stream, ts: seq<nat>, i: nat, f: Frame)
    requires Sends(tx) && AllNear(tx, ts) && i < |ts| && FrameOk(f)
    requires Safety.Explains(Packets(tx, ts[i..]), f) && IsComplete(f)
    ensures IsDelivered(tx, ts, Image(f))
  {
    var us := ts[i..];
    ExplainedWindow(Packets(tx, us), f);
    WindowIsNear(tx, ts, i);
    WindowOfPackets(tx, us);
    WindowIsNonempty(tx, us);
    var b := FrameEnd(tx, us[0]);
    CompleteIffAllIn(tx, us, f, b);
    assert ts[i..|ts|] == us;
    assert IsDelivery(tx, ts, i, |ts|, us[0], b);
  }

  lemma FullEmissionIsDelivered(tx: Stream, ts: seq<nat>, t: nat, d: Bytes)
    requires Sends(tx) && AllNear(tx, ts + [t])
    requires Step(Run(Step, None, Packets(tx, ts)).0, tx(t)).1 == Some(Full(d))
    ensures IsDelivered(tx, ts + [t], d)
  {
    hide Sends, AllNear, Step, Run, IsDelivered, Packets, Safety.Explains, FrameOk, IsComplete, Image, JpegTrim.Trim;
    var all := ts + [t];
    var w, f := Safety.EmissionFrame(Packets(tx, ts), tx(t));
    assert IsComplete(f) && d == Image(f);
    assert |Packets(tx, ts)| == |ts|;
    var k: nat :| k <= |ts| && (w == Packets(tx, ts)[k..] || w == Packets(tx, ts)[k..] + [tx(t)]);
    PacketsOfParts(tx, ts, t, k);
    NearPrefix(tx, ts, t);
    ExplainedNonempty(w, f);
    if w == Packets(tx, ts)[k..] {
      CompleteIsDelivered(tx, ts, k, f);
      DeliveredGrows(tx, ts, t, d);
    } else {
      CompleteIsDelivered(tx, all, k, f);
    }
  }

  lemma ExplainedNonempty(w: seq<Packet>, f: Frame)
    requires Safety.Explains(w, f)
    ensures |w| > 0
  {
  }

  lemma {:induction false} AllFullAreDelivered(tx: Stream, ts: seq<nat>, d: Bytes)
    requires Sends(tx) && AllNear(tx, ts) && Full(d) in Run(Step, None, Packets(tx, ts)).1
    ensures IsDelivered(tx, ts, d)
    decreases |ts|
  {
    hide Sends, AllNear, Step, IsDelivered;
    if ts != [] {
      var before, t := ts[..|ts| - 1], ts[|ts| - 1];
      assert ts == before + [t];
      PacketsSnoc(tx, before, t);
      NearPrefix(tx, before, t);
      RunSnoc(Step, None, Packets(tx, before), tx(t));
      if Full(d) in Run(Step, None, Packets(tx, before)).1 {
        AllFullAreDelivered(tx, before, d);
        DeliveredGrows(tx, before, t, d);
      } else {
        FullEmissionIsDelivered(tx, before, t, d);
      }
    }
  }

  lemma HeldIsDelivered(tx: Stream, ts: seq<nat>, d: Bytes)
    requires Sends(tx) && AllNear(tx, ts) && Flush(Run(Step, None, Packets(tx, ts)).0) == Some(Full(d))
    ensures IsDelivered(tx, ts, d)
  {
    hide Sends, AllNear, Step, Run, IsDelivered, Packets, Safety.Explains, FrameOk, IsComplete, Image, JpegTrim.Trim;
    var f := Run(Step, None, Packets(tx, ts)).0.value;
    assert IsComplete(f) && d == Image(f);
    var k := Safety.OpenFrameExplained(Packets(tx, ts));
    Safety.OpenFrameOk(Packets(tx, ts));
    PacketsOfParts(tx, ts, 0, k);
    CompleteIsDelivered(tx, ts, k, f);
  }

  /** For any arrivals: a full frame has come out, or is held back for the next packet, if and only if
      it is a frame of the camera that was in time: after its start no other start and no packet beyond
      slot 128 arrived before all the rest of it had. */
  lemma FullIffInTime(tx: Stream, ts: seq<nat>, d: Bytes)
    requires Sends(tx) && AllNear(tx, ts)
    ensures var (st, out) := Run(Step, None, Packets(tx, ts));
            Full(d) in out + Listed(Flush(st))
            <==> exists a: nat, b: nat :: InTime(tx, ts, a, b) && d == FrameData(tx, a, b)
  {
    hide Sends, AllNear, Step, Run, Packets, Flush, FrameData, InTime;
    var (st, out) := Run(Step, None, Packets(tx, ts));
    if Full(d) in out {
      AllFullAreDelivered(tx, ts, d);
    } else if Full(d) in Listed(Flush(st)) {
      HeldIsDelivered(tx, ts, d);
    }
    if a: nat, b: nat :| InTime(tx, ts, a, b) && d == FrameData(tx, a, b) {
      InTimeComesOut(tx, ts, a, b);
    }
  }
}
