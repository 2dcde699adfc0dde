/** Unwrapping of 16-bit packet indices into epochs in the Python session, and the session's whole
    video path: unwrapping followed by frame cutting. */
module PySession {
  import opened Bytes
  import opened Machine
  import Cutting = PyFrameCutter
  import True = PyTrueFrames

  const EPOCH: nat := 0x1_0000

  /** Number of index overflows seen, and the highest index seen since the last of them. */
  datatype Unwrapper = Unwrapper(epoch: nat, last: Index)

  /** A packet close behind the upper end belongs to the next epoch, one close before the lower end
      to the previous one. */
  function PacketEpoch(s: Unwrapper, idx: Index): nat {
    if s.last > 0xff00 && idx < 0x100 then s.epoch + 1
    else if s.epoch != 0 && s.last < 0x100 && idx > 0xff00 then s.epoch - 1
    else s.epoch
  }

  function Unwrapped(s: Unwrapper, idx: Index): nat {
    idx + EPOCH * PacketEpoch(s, idx)
  }

  function Advance(s: Unwrapper, idx: Index): Unwrapper {
    var e := PacketEpoch(s, idx);
    if e > s.epoch then Unwrapper(e, idx)
    else if s.last < idx then s.(last := idx)
    else s
  }

  // ----- one packet

  ghost predicate Represents(s: Unwrapper, highest: nat) {
    s.epoch == highest / EPOCH && s.last == highest % EPOCH
  }

  function Max(a: nat, b: nat): nat {
    if a >= b then a else b
  }

  ghost predicate Near(t: nat, highest: nat) {
    -255 <= t - highest <= 255
  }

  /** The index looks as if it had just wrapped. */
  predicate LooksWrapped(highest: nat, t: nat) {
    highest % EPOCH > 0xff00 && t % EPOCH < 0x100
  }

  /** The index looks as if it came from just before the last wrap. */
  predicate LooksBack(highest: nat, t: nat) {
    highest / EPOCH != 0 && highest % EPOCH < 0x100 && t % EPOCH > 0xff00
  }

  /** The session takes the packet for one of its own epoch. */
  predicate Unwraps(highest: nat, t: nat) {
    t / EPOCH == if LooksWrapped(highest, t) then highest / EPOCH + 1
                 else if LooksBack(highest, t) then highest / EPOCH - 1
                 else highest / EPOCH
  }

  /** The session still knows the highest index after the packet: a wrap is noticed and nothing is
      taken for one, and a packet of an epoch left does not lie above the last index. */
  predicate KeepsTrack(highest: nat, t: nat) {
    if LooksWrapped(highest, t) then t / EPOCH == highest / EPOCH + 1
    else t / EPOCH == highest / EPOCH || (t / EPOCH < highest / EPOCH && t % EPOCH <= highest % EPOCH)
  }

  /** For any packet, however far from the highest index: exactly when it is unwrapped to its true
      index, and exactly when the highest index is tracked after it. */
  lemma UnwrapsExactly(s: Unwrapper, highest: nat, t: nat)
    requires Represents(s, highest)
    ensures Unwrapped(s, t % EPOCH) == t <==> Unwraps(highest, t)
    ensures Represents(Advance(s, t % EPOCH), Max(highest, t)) <==> KeepsTrack(highest, t)
  {
    var e, f := highest / EPOCH, t / EPOCH;
    assert highest == EPOCH * e + highest % EPOCH && t == EPOCH * f + t % EPOCH;
  }

  /** The packet is unwrapped and tracked: it is of the current epoch, or of the next one where the
      wrap shows, and does not look like what it is not. */
  predicate Tame(highest: nat, t: nat) {
    if LooksWrapped(highest, t) then t / EPOCH == highest / EPOCH + 1
    else t / EPOCH == highest / EPOCH && !LooksBack(highest, t)
  }

  lemma TameIsBoth(highest: nat, t: nat)
    ensures Tame(highest, t) <==> Unwraps(highest, t) && KeepsTrack(highest, t)
  {
  }

  /** A packet near the highest index is of an epoch that its index tells; it is tame if and only if
      its epoch has not been left. */
  lemma NearIsTame(highest: nat, t: nat)
    requires Near(t, highest)
    ensures Unwraps(highest, t)
    ensures Tame(highest, t) <==> t / EPOCH >= highest / EPOCH
  {
    var e, f := highest / EPOCH, t / EPOCH;
    assert highest == EPOCH * e + highest % EPOCH && t == EPOCH * f + t % EPOCH;
    assert f == e || f == e + 1 || f == e - 1;
  }

  /** So a packet near the highest index seen is always unwrapped to its true index, and the session
      keeps track if and only if the packet is not one of an epoch already left. */
  lemma UnwrapExact(s: Unwrapper, highest: nat, t: nat)
    requires Represents(s, highest) && Near(t, highest)
    ensures Unwrapped(s, t % EPOCH) == t
    ensures Represents(Advance(s, t % EPOCH), Max(highest, t)) <==> t / EPOCH >= highest / EPOCH
  {
    UnwrapsExactly(s, highest, t);
    NearIsTame(highest, t);
    TameIsBoth(highest, t);
  }

  /** The first packet of a session may carry any index. */
  lemma FirstUnwrapExact(t: nat)
    requires t < EPOCH
    ensures Unwrapped(Unwrapper(0, 0), t) == t && Represents(Advance(Unwrapper(0, 0), t), t)
  {
  }

  /** After a late packet of the epoch just left, the next low-numbered packet of the current epoch
      is taken for one of the epoch after it. */
  lemma LatePacketShiftsEpoch(s: Unwrapper, highest: nat, late: nat, next: nat)
    requires Represents(s, highest) && Near(late, highest) && late / EPOCH < highest / EPOCH
    requires next / EPOCH == highest / EPOCH && next % EPOCH < 0x100
    ensures Unwrapped(Advance(s, late % EPOCH), next % EPOCH) == next + EPOCH
  {
    UnwrapExact(s, highest, late);
    assert late == EPOCH * (late / EPOCH) + late % EPOCH && highest == EPOCH * (highest / EPOCH) + highest % EPOCH;
    assert late / EPOCH == highest / EPOCH - 1;
    assert next == EPOCH * (next / EPOCH) + next % EPOCH;
  }

  /** Indices 65534, 65536, 65535 and 65537 in this order: the last is placed one epoch too far. */
  lemma LatePacketWitness()
    ensures var s := Advance(Advance(Advance(Unwrapper(0, 0), 0xfffe), 0), 0xffff);
            Unwrapped(s, 1) == 2 * EPOCH + 1
  {
  }

  // ----- whole sessions

  /** A packet under its true, unbounded index. */
  datatype Sent = Sent(index: nat, isVideo: bool)

  datatype Drw = Drw(cmdIdx: Index, isVideo: bool, raw: Bytes)

  datatype State = State(unwrapper: Unwrapper, cutter: Cutting.Cutter)

  ghost function Step(s: State, p: Drw): (State, Option<Cutting.VideoFrame>) {
    var unwrapper := Advance(s.unwrapper, p.cmdIdx);
    if p.isVideo then
      var (cutter, e) := Cutting.Step(s.cutter, Cutting.Arrival(Unwrapped(s.unwrapper, p.cmdIdx), p.raw));
      (State(unwrapper, cutter), e)
    else (State(unwrapper, s.cutter), None)
  }

  const FRESH := State(Unwrapper(0, 0), Cutting.EMPTY)

  function Highest(ts: seq<Sent>): nat
    requires ts != []
  {
    if |ts| == 1 then ts[0].index else Max(Highest(ts[..|ts| - 1]), ts[|ts| - 1].index)
  }

  /** The first packet is of epoch 0, and each later one is tame after those before it. */
  ghost predicate IsOrderly(ts: seq<Sent>) {
    && (ts != [] ==> ts[0].index < EPOCH)
    && forall k :: 1 <= k < |ts| ==> Tame(Highest(ts[..k]), ts[k].index)
  }

  /** Each later packet lies within 255 of the highest index before it and in no epoch already left. */
  ghost predicate StaysNear(ts: seq<Sent>) {
    forall k :: 1 <= k < |ts| ==>
      Near(ts[k].index, Highest(ts[..k])) && ts[k].index / EPOCH >= Highest(ts[..k]) / EPOCH
  }

  lemma NearIsOrderly(ts: seq<Sent>)
    requires StaysNear(ts) && (ts != [] ==> ts[0].index < EPOCH)
    ensures IsOrderly(ts)
  {
    forall k | 1 <= k < |ts| ensures Tame(Highest(ts[..k]), ts[k].index) {
      NearIsTame(Highest(ts[..k]), ts[k].index);
    }
  }

  function UnwrapperAfter(ts: seq<Sent>): Unwrapper {
    if ts == [] then Unwrapper(0, 0)
    else Advance(UnwrapperAfter(ts[..|ts| - 1]), ts[|ts| - 1].index % EPOCH)
  }

  /** The k-th packet is unwrapped to its true index, and the highest index is known after it. */
  ghost predicate TrueAt(ts: seq<Sent>, k: nat)
    requires k < |ts|
  {
    && Unwrapped(UnwrapperAfter(ts[..k]), ts[k].index % EPOCH) == ts[k].index
    && Represents(UnwrapperAfter(ts[..k + 1]), Highest(ts[..k + 1]))
  }

  ghost predicate TrueThroughout(ts: seq<Sent>) {
    forall k :: 0 <= k < |ts| ==> TrueAt(ts, k)
  }

  lemma TrueSnoc(before: seq<Sent>, t: Sent)
    ensures TrueThroughout(before + [t]) <==> TrueThroughout(before) && TrueAt(before + [t], |before|)
  {
    var ts := before + [t];
    forall k | 0 <= k < |before| ensures TrueAt(ts, k) <==> TrueAt(before, k) {
      assert ts[..k] == before[..k] && ts[..k + 1] == before[..k + 1];
    }
  }

  lemma OrderlySnoc(before: seq<Sent>, t: Sent)
    ensures IsOrderly(before + [t])
            <==> IsOrderly(before) && if before == [] then t.index < EPOCH else Tame(Highest(before), t.index)
  {
    var ts := before + [t];
    assert forall k :: 0 <= k <= |before| ==> ts[..k] == before[..k];
    assert before[..|before|] == before;
    if before != [] && IsOrderly(ts) {
      assert Tame(Highest(ts[..|before|]), ts[|before|].index);
    }
  }

  lemma LastTrueAt(before: seq<Sent>, t: Sent)
    requires before != [] ==> Represents(UnwrapperAfter(before), Highest(before))
    ensures TrueAt(before + [t], |before|)
            <==> if before == [] then t.index < EPOCH else Tame(Highest(before), t.index)
  {
    var ts := before + [t];
    assert ts[..|before|] == before && ts[..|before| + 1] == ts && ts[..|ts| - 1] == before;
    if before != [] {
      UnwrapsExactly(UnwrapperAfter(before), Highest(before), t.index);
      TameIsBoth(Highest(before), t.index);
    } else if t.index < EPOCH {
      FirstUnwrapExact(t.index);
    }
  }

  /** Over any run, however far its packets jump: all packets are unwrapped to their true indices and
      the highest is tracked throughout if and only if the run is orderly. */
  lemma {:induction false} TrueThroughoutExactly(ts: seq<Sent>)
    ensures TrueThroughout(ts) <==> IsOrderly(ts)
    ensures ts != [] && IsOrderly(ts) ==> Represents(UnwrapperAfter(ts), Highest(ts))
    decreases |ts|
  {
    if ts != [] {
      var before, t := ts[..|ts| - 1], ts[|ts| - 1];
      assert ts == before + [t];
      TrueThroughoutExactly(before);
      TrueSnoc(before, t);
      OrderlySnoc(before, t);
      if IsOrderly(before) {
        LastTrueAt(before, t);
      }
      assert ts[..|before| + 1] == ts;
    }
  }

  function OnWire(tx: True.Stream, t: Sent): Drw {
    Drw(t.index % EPOCH, t.isVideo, tx(t.index))
  }

  ghost function Wire(tx: True.Stream, ts: seq<Sent>): seq<Drw> {
    if ts == [] then [] else Wire(tx, ts[..|ts| - 1]) + [OnWire(tx, ts[|ts| - 1])]
  }

  /** The video packets under their true indices. */
  ghost function VideoArrivals(tx: True.Stream, ts: seq<Sent>): seq<Cutting.Arrival> {
    if ts == [] then []
    else
      var t := ts[|ts| - 1];
      VideoArrivals(tx, ts[..|ts| - 1]) + if t.isVideo then [Cutting.Arrival(t.index, tx(t.index))] else []
  }

  /** Over any number of index overflows the session behaves as if packets carried their true
      indices, and it tracks the quotient and remainder of the highest. */
  lemma {:induction false} SessionUnwraps(tx: True.Stream, ts: seq<Sent>)
    requires IsOrderly(ts)
    ensures var (after, out) := Run(Step, FRESH, Wire(tx, ts));
            && (if ts == [] then after == FRESH else Represents(after.unwrapper, Highest(ts)))
            && (after.cutter, out) == Run(Cutting.Step, Cutting.EMPTY, VideoArrivals(tx, ts))
    decreases |ts|
  {
    if ts != [] {
      var before, t := ts[..|ts| - 1], ts[|ts| - 1];
      assert forall k :: 0 <= k < |before| ==> ts[..k] == before[..k];
      SessionUnwraps(tx, before);
      var (mid, out) := Run(Step, FRESH, Wire(tx, before));
      RunSnoc(Step, FRESH, Wire(tx, before), OnWire(tx, t));
      if before == [] {
        FirstUnwrapExact(t.index);
      } else {
        UnwrapsExactly(mid.unwrapper, Highest(before), t.index);
        TameIsBoth(Highest(before), t.index);
      }
      if t.isVideo {
        RunSnoc(Cutting.Step, Cutting.EMPTY, VideoArrivals(tx, before), Cutting.Arrival(t.index, tx(t.index)));
      } else {
        assert VideoArrivals(tx, ts) == VideoArrivals(tx, before);
        assert out + [] == out;
      }
    }
  }

  lemma {:induction false} UnwrapperOfRun(tx: True.Stream, ts: seq<Sent>)
    ensures Run(Step, FRESH, Wire(tx, ts)).0.unwrapper == UnwrapperAfter(ts)
    decreases |ts|
  {
    if ts != [] {
      var before, t := ts[..|ts| - 1], ts[|ts| - 1];
      UnwrapperOfRun(tx, before);
      RunSnoc(Step, FRESH, Wire(tx, before), OnWire(tx, t));
    }
  }

  lemma {:induction false} VideoArrivalsSent(tx: True.Stream, ts: seq<Sent>)
    ensures True.Sent(tx, VideoArrivals(tx, ts))
    decreases |ts|
  {
    if ts != [] {
      VideoArrivalsSent(tx, ts[..|ts| - 1]);
    }
  }

  /** End to end: a camera frame comes out of an orderly session if and only if its packets and the
      next start were in time, and nothing else ever comes out. */
  lemma SessionPublishes(tx: True.Stream, ts: seq<Sent>)
    requires IsOrderly(ts)
    ensures var out := Run(Step, FRESH, Wire(tx, ts)).1;
            var ps := VideoArrivals(tx, ts);
            && True.Increasing(out)
            && (forall e :: e in out ==>
                  exists b: nat :: True.IsFrame(tx, e.idx, b) && e.data == True.FrameData(tx, e.idx, b))
            && (forall a: nat, b: nat :: True.IsFrame(tx, a, b) ==>
                  (True.IsPublished(tx, out, a, b) <==> exists k :: 0 <= k <= |ps| && True.InTime(tx, ps[..k], a, b)))
  {
    SessionUnwraps(tx, ts);
    VideoArrivalsSent(tx, ts);
    var ps := VideoArrivals(tx, ts);
    True.AllPublishedAreTrue(tx, ps);
    forall a: nat, b: nat | True.IsFrame(tx, a, b)
      ensures True.IsPublished(tx, Run(Cutting.Step, Cutting.EMPTY, ps).1, a, b)
         <==> exists k :: 0 <= k <= |ps| && True.InTime(tx, ps[..k], a, b)
    {
      True.PublishedIffInTime(tx, ps, a, b);
    }
  }

  // ----- the imperative session

  class Session {
    var videoEpoch: nat
    var lastDrwPktIdx: Index
    const queue: Cutting.VideoQueue

    ghost function View(): State
      reads this, queue
    {
      State(Unwrapper(videoEpoch, lastDrwPktIdx), queue.View())
    }

    constructor ()
      ensures View() == FRESH && fresh(queue)
    {
      videoEpoch, lastDrwPktIdx := 0, 0;
      queue := new Cutting.VideoQueue();
    }

    method GetDrwEpoch(cmdIdx: Index) returns (epoch: nat)
      ensures epoch == PacketEpoch(View().unwrapper, cmdIdx)
      ensures forall highest: nat, t: nat ::
                Represents(View().unwrapper, highest) && Near(t, highest) && t % EPOCH == cmdIdx ==> epoch == t / EPOCH
    {
      forall highest: nat, t: nat | Represents(View().unwrapper, highest) && Near(t, highest) && t % EPOCH == cmdIdx
        ensures PacketEpoch(View().unwrapper, cmdIdx) == t / EPOCH
      {
        UnwrapExact(View().unwrapper, highest, t);
      }
      if lastDrwPktIdx > 0xff00 && cmdIdx < 0x100 {
        return videoEpoch + 1;
      }
      if videoEpoch != 0 && lastDrwPktIdx < 0x100 && cmdIdx > 0xff00 {
        return videoEpoch - 1;
      }
      return videoEpoch;
    }

    method HandleDrw(p: Drw) returns (published: Option<Cutting.VideoFrame>)
      modifies this, queue
      ensures (View(), published) == Step(old(View()), p)
    {
      var pktEpoch := GetDrwEpoch(p.cmdIdx);
      if pktEpoch > videoEpoch {
        videoEpoch := pktEpoch;
        lastDrwPktIdx := p.cmdIdx;
      } else if lastDrwPktIdx < p.cmdIdx {
        lastDrwPktIdx := p.cmdIdx;
      }
      published := None;
      if p.isVideo {
        published := queue.HandleIncomingVideoPacket(Cutting.Arrival(p.cmdIdx + EPOCH * pktEpoch, p.raw));
      }
    }
  }
}
