/** Which packets the C writer accepts, by their true indices, and what it makes of a loss or a
    straggler at the wrap of the 16-bit index. */
module CLosses {
  import opened Bytes
  import opened Machine
  import opened CFrameWriter
  import opened CTrueFrames

  const WRAP: int := 0x1_0000

  /** The writer goes on, and the packet it accepted last had this true index. */
  predicate LastIs(w: Writer, last: nat) {
    w.running && w.prevIndex == last % WRAP
  }

  predicate SameEpoch(t: nat, u: nat) {
    t / WRAP == u / WRAP
  }

  /** High indices are refused while the last index is still low. */
  predicate AtTheEdge(last: nat, t: nat) {
    t % WRAP > 65400 && last % WRAP < 32
  }

  /** Which true indices get past the skip test: the next one; of the newer ones those that come
      before the wrap; of the older ones those from before it. */
  predicate Passes(last: nat, t: nat) {
    t == last + 1 || ((t > last <==> SameEpoch(t, last)) && t != last && !AtTheEdge(last, t))
  }

  /** The skip test on 16-bit indices, told by true ones. It takes newer packets and only those
      as long as no wrap lies between them and the last packet. */
  lemma AcceptedExactly(tx: Stream, w: SaneWriter, last: nat, t: nat)
    requires IsStream(tx) && LastIs(w, last) && -WRAP + 1 < t - last < WRAP
    ensures Accepts(w, tx(t)) <==> Passes(last, t)
  {
    var d := t / WRAP - last / WRAP;
    assert t == WRAP * (t / WRAP) + t % WRAP && last == WRAP * (last / WRAP) + last % WRAP;
    assert t - last == WRAP * d + t % WRAP - last % WRAP;
    assert d == -1 || d == 0 || d == 1;
    assert tx(t).index == t % WRAP;
    assert InOrder(w, tx(t)) <==> t == last + 1;
  }

  /** A newer packet is accepted, as it should be, exactly when it is the next one or no wrap lies in
      between and it is not refused at the edge. */
  lemma NewerAcceptedExactly(tx: Stream, w: SaneWriter, last: nat, t: nat)
    requires IsStream(tx) && LastIs(w, last) && last < t < last + WRAP
    ensures Accepts(w, tx(t)) <==> t == last + 1 || (SameEpoch(t, last) && !AtTheEdge(last, t))
  {
    AcceptedExactly(tx, w, last, t);
  }

  /** An older packet is skipped, as it should be, exactly when no wrap lies in between or it is
      refused at the edge. */
  lemma OlderSkippedExactly(tx: Stream, w: SaneWriter, last: nat, t: nat)
    requires IsStream(tx) && LastIs(w, last) && last - WRAP + 1 < t <= last
    ensures !Accepts(w, tx(t)) <==> SameEpoch(t, last) || AtTheEdge(last, t)
  {
    AcceptedExactly(tx, w, last, t);
  }

  /** A new call takes no packet but one with index 0. */
  lemma CallBeginsAtZero(w: SaneWriter, p: Fragment)
    requires IsNewCall(w)
    ensures Accepts(w, p) <==> p.index == 0
  {
  }

  function Packets(tx: Stream, ts: seq<nat>): (ps: seq<Fragment>)
    ensures |ps| == |ts|
  {
    if ts == [] then [] else [tx(ts[0])] + Packets(tx, ts[1..])
  }

  predicate Refused(tx: Stream, w: SaneWriter, ts: seq<nat>) {
    forall k :: 0 <= k < |ts| ==> !Accepts(w, tx(ts[k]))
  }

  lemma {:induction false} RefusedChangesNothing(tx: Stream, w: SaneWriter, ts: seq<nat>)
    requires w.running && Refused(tx, w, ts)
    ensures Run(Step, w, Packets(tx, ts)) == (w, [])
    decreases |ts|
  {
    if ts != [] {
      assert !Accepts(w, tx(ts[0]));
      assert Packets(tx, ts)[1..] == Packets(tx, ts[1..]);
      RefusedChangesNothing(tx, w, ts[1..]);
      assert Listed<Event>(None) + [] == [];
    }
  }

  /** The true indices accepted from a list, one after the other. */
  function Taken(last: nat, ts: seq<nat>): seq<nat>
    decreases |ts|
  {
    if ts == [] then []
    else if Passes(last, ts[0]) then [ts[0]] + Taken(ts[0], ts[1..])
    else Taken(last, ts[1..])
  }

  function LastTaken(last: nat, ts: seq<nat>): nat
    decreases |ts|
  {
    if ts == [] then last else LastTaken(if Passes(last, ts[0]) then ts[0] else last, ts[1..])
  }

  /** Every packet is less than a cycle away from the last one accepted before it. */
  predicate Ranged(last: nat, ts: seq<nat>)
    decreases |ts|
  {
    ts != [] ==>
      -WRAP + 1 < ts[0] - last < WRAP && Ranged(if Passes(last, ts[0]) then ts[0] else last, ts[1..])
  }

  /** Over any run the writer follows the true indices that pass. */
  lemma {:induction false} RunFollowsTaken(tx: Stream, w: SaneWriter, last: nat, ts: seq<nat>)
    requires IsStream(tx) && FitsSlots(tx) && LastIs(w, last) && Ranged(last, ts)
    ensures LastIs(Run(Step, w, Packets(tx, ts)).0, LastTaken(last, ts))
    decreases |ts|
  {
    hide Step, Passes, LastIs, FitsSlots;
    if ts != [] {
      assert Packets(tx, ts)[1..] == Packets(tx, ts[1..]);
      OnePacket(tx, w, last, ts[0]);
      RunFollowsTaken(tx, Step(w, tx(ts[0])).0, if Passes(last, ts[0]) then ts[0] else last, ts[1..]);
    }
  }

  lemma OnePacket(tx: Stream, w: SaneWriter, last: nat, t: nat)
    requires IsStream(tx) && FitsSlots(tx) && LastIs(w, last) && -WRAP + 1 < t - last < WRAP
    ensures LastIs(Step(w, tx(t)).0, if Passes(last, t) then t else last)
  {
    AcceptedExactly(tx, w, last, t);
    if Passes(last, t) {
      AcceptedMoves(tx, w, t);
    }
  }

  /** None of the packets that could follow the last one passes. */
  predicate NonePasses(last: nat, ts: seq<nat>) {
    forall k :: 0 <= k < |ts| ==> !Passes(last, ts[k])
  }

  predicate Within(last: nat, ts: seq<nat>) {
    forall k :: 0 <= k < |ts| ==> -WRAP + 1 < ts[k] - last < WRAP
  }

  /** The writer stands still over a run, nothing stored and nothing written, exactly when none of its
      packets passes by the last index before the run. */
  lemma StallsExactly(tx: Stream, w: SaneWriter, last: nat, ts: seq<nat>)
    requires IsStream(tx) && LastIs(w, last) && Within(last, ts)
    ensures Refused(tx, w, ts) <==> NonePasses(last, ts)
    ensures NonePasses(last, ts) ==> Run(Step, w, Packets(tx, ts)) == (w, [])
  {
    forall k | 0 <= k < |ts| ensures Accepts(w, tx(ts[k])) <==> Passes(last, ts[k]) {
      AcceptedExactly(tx, w, last, ts[k]);
    }
    if NonePasses(last, ts) {
      assert Refused(tx, w, ts) by {
        forall k | 0 <= k < |ts| ensures !Accepts(w, tx(ts[k])) {
          assert !Passes(last, ts[k]);
        }
      }
      RefusedChangesNothing(tx, w, ts);
    }
    if Refused(tx, w, ts) {
      forall k | 0 <= k < |ts| ensures !Passes(last, ts[k]) {
        assert !Accepts(w, tx(ts[k]));
      }
    }
  }

  /** Packets from the next wrap on, up to one cycle after the last packet, but not the next one. */
  predicate BehindTheWrap(last: nat, ts: seq<nat>) {
    forall k :: 0 <= k < |ts| ==> last + 1 < ts[k] <= last + WRAP && !SameEpoch(ts[k], last)
  }

  lemma BehindIsRefused(tx: Stream, w: SaneWriter, last: nat, t: nat)
    requires IsStream(tx) && LastIs(w, last) && last + 1 < t <= last + WRAP && !SameEpoch(t, last)
    ensures !Accepts(w, tx(t))
  {
    if t < last + WRAP {
      NewerAcceptedExactly(tx, w, last, t);
    } else {
      WrapMultiple(last, 1);
      assert tx(t).index == t % WRAP == w.prevIndex;
    }
  }

  lemma NextIsAccepted(tx: Stream, w: SaneWriter, last: nat)
    requires IsStream(tx) && LastIs(w, last)
    ensures Accepts(w, tx(last + 1)) && Accepts(w, tx(last + WRAP + 1))
  {
    WrapMultiple(last + 1, 1);
    WrapAdd(last, 1);
    assert tx(last + 1).index == (last + 1) % WRAP == tx(last + WRAP + 1).index;
  }

  /** When the packets from the last accepted one up to the wrap, the wrapping one included, do not
      arrive, everything up to a whole cycle later is skipped, and the packet after that cycle is
      taken for the one that was lost. */
  lemma LossAtWrapStalls(tx: Stream, w: SaneWriter, last: nat, ts: seq<nat>)
    requires IsStream(tx) && LastIs(w, last) && BehindTheWrap(last, ts)
    ensures Run(Step, w, Packets(tx, ts)) == (w, [])
    ensures Accepts(w, tx(last + WRAP + 1))
  {
    hide IsStream, LastIs, Accepts, SameEpoch;
    forall k | 0 <= k < |ts| ensures !Accepts(w, tx(ts[k])) {
      BehindIsRefused(tx, w, last, ts[k]);
    }
    assert Refused(tx, w, ts);
    NextIsAccepted(tx, w, last);
    assert w.running by {
      Running(w, last);
    }
    RefusedChangesNothing(tx, w, ts);
  }

  lemma Running(w: Writer, last: nat)
    requires LastIs(w, last)
    ensures w.running
  {
  }

  lemma AcceptedMoves(tx: Stream, w: SaneWriter, t: nat)
    requires IsStream(tx) && FitsSlots(tx) && Accepts(w, tx(t))
    ensures LastIs(Step(w, tx(t)).0, t)
  {
  }

  /** A straggler from before the wrap that is not refused at the edge sets the writer back: all newer
      packets up to the straggler's own index are skipped from then on. */
  lemma StragglerStalls(tx: Stream, w: SaneWriter, last: nat, late: nat, ts: seq<nat>)
    requires IsStream(tx) && FitsSlots(tx) && LastIs(w, last)
    requires last - WRAP + 1 < late < last && !SameEpoch(late, last) && !AtTheEdge(last, late)
    requires forall k :: 0 <= k < |ts| ==> last < ts[k] <= late + WRAP
    ensures Accepts(w, tx(late))
    ensures var u := Step(w, tx(late)).0; Run(Step, u, Packets(tx, ts)) == (u, [])
  {
    OlderSkippedExactly(tx, w, last, late);
    AcceptedMoves(tx, w, late);
    EpochBefore(last, late, ts);
    LossAtWrapStalls(tx, Step(w, tx(late)).0, late, ts);
  }

  lemma EpochBefore(last: nat, late: nat, ts: seq<nat>)
    requires last - WRAP + 1 < late < last && !SameEpoch(late, last)
    requires forall k :: 0 <= k < |ts| ==> last < ts[k] <= late + WRAP
    ensures BehindTheWrap(late, ts)
  {
    assert late / WRAP < last / WRAP;
    forall k | 0 <= k < |ts| ensures late / WRAP < ts[k] / WRAP {
      assert last / WRAP <= ts[k] / WRAP;
    }
  }

  // ----- the next whole frame

  lemma NoLaterPasses(last: nat, a: nat, t: nat)
    requires last < a <= t < last + WRAP && !Passes(last, a)
    ensures !Passes(last, t)
  {
  }

  /** After any loss, the next frame that arrives whole and in order is written if and only if its
      start is accepted; otherwise nothing of it is, and the writer stays as it was. */
  lemma NextFrameWrittenIffStartPasses(tx: Stream, w: SaneWriter, last: nat, a: nat, b: nat)
    requires IsStream(tx) && SendsExactFrames(tx) && FitsSlots(tx) && IsFrame(tx, a, b)
    requires LastIs(w, last) && last < a < b <= last + WRAP
    ensures Run(Step, w, Stretch(tx, a, b)).1 == if Passes(last, a) then [Written(FrameFrags(tx, a, b))] else []
    ensures !Passes(last, a) ==> Run(Step, w, Stretch(tx, a, b)).0 == w
    ensures Passes(last, a) <==> a == last + 1 || (SameEpoch(a, last) && !AtTheEdge(last, a))
  {
    AcceptedExactly(tx, w, last, a);
    if Passes(last, a) {
      FrameInOrder(tx, w, a, b, b);
    } else {
      SkippedStretch(tx, w, last, a, b);
    }
  }

  lemma NotTaken(tx: Stream, w: SaneWriter, last: nat, a: nat, t: nat)
    requires IsStream(tx) && LastIs(w, last) && last < a <= t < last + WRAP && !Passes(last, a)
    ensures Step(w, tx(t)) == (w, None)
  {
    NoLaterPasses(last, a, t);
    AcceptedExactly(tx, w, last, t);
  }

  lemma {:induction false} SkippedStretch(tx: Stream, w: SaneWriter, last: nat, a: nat, b: nat)
    requires IsStream(tx) && LastIs(w, last) && last < a <= b <= last + WRAP && !Passes(last, a)
    ensures Run(Step, w, Stretch(tx, a, b)) == (w, [])
    decreases b
  {
    hide IsStream, LastIs, Passes, Step;
    if a < b {
      SkippedStretch(tx, w, last, a, b - 1);
      NotTaken(tx, w, last, a, b - 1);
      RunSnoc(Step, w, Stretch(tx, a, b - 1), tx(b - 1));
      assert [] + Listed<Event>(None) == [];
    }
  }

  // ----- the two stalls from the beginning of a call

  /** A camera that sends frames of one packet and one byte. */
  function Tiny(t: nat): Fragment {
    Fragment(t % WRAP, Some(1), [7])
  }

  lemma TinyFrame(a: nat)
    ensures IsFrame(Tiny, a, a + 1) && SentLength(Tiny, a, a + 1) == 1
  {
    assert SentLength(Tiny, a, a) == 0;
  }

  lemma TinyFrameIsOne(a: nat, b: nat)
    requires IsFrame(Tiny, a, b)
    ensures b == a + 1
  {
    assert a + 1 < b ==> Tiny(a + 1).announced.None?;
  }

  lemma TinyIsExact()
    ensures IsStream(Tiny) && SendsExactFrames(Tiny) && FitsSlots(Tiny)
  {
    forall a: nat ensures HasEnd(Tiny, a) {
      TinyFrame(a);
    }
    forall a: nat, b: nat | IsFrame(Tiny, a, b) ensures b == a + 1 && SentLength(Tiny, a, b) == 1 {
      TinyFrameIsOne(a, b);
      TinyFrame(a);
    }
  }

  const ONE := Written([[7]])

  lemma TinyAccepted(w: SaneWriter, t: nat)
    requires Accepts(w, Tiny(t))
    ensures LastIs(Step(w, Tiny(t)).0, t) && Step(w, Tiny(t)).1 == Some(ONE)
  {
    TinyIsExact();
    AcceptedMoves(Tiny, w, t);
    TinyFrame(t);
    FirstStep(Tiny, w, t, t + 1);
    assert FrameFrags(Tiny, t, t + 1) == [[7]];
  }

  /** One more packet of that camera: a frame is written exactly when it passes. */
  lemma TinyStep(w: SaneWriter, last: nat, t: nat)
    requires LastIs(w, last) && -WRAP + 1 < t - last < WRAP
    ensures var (u, e) := Step(w, Tiny(t));
            if Passes(last, t) then LastIs(u, t) && e == Some(ONE) else u == w && e.None?
  {
    TinyIsExact();
    AcceptedExactly(Tiny, w, last, t);
    if Passes(last, t) {
      TinyAccepted(w, t);
    }
  }

  function Ones(n: nat): seq<Event> {
    if n == 0 then [] else [ONE] + Ones(n - 1)
  }

  lemma {:induction false} TinyRun(w: SaneWriter, last: nat, ts: seq<nat>)
    requires LastIs(w, last) && Ranged(last, ts)
    ensures Run(Step, w, Packets(Tiny, ts)).1 == Ones(|Taken(last, ts)|)
    ensures LastIs(Run(Step, w, Packets(Tiny, ts)).0, LastTaken(last, ts))
    decreases |ts|
  {
    hide Step, Passes, LastIs;
    if ts != [] {
      assert Packets(Tiny, ts)[1..] == Packets(Tiny, ts[1..]);
      TinyStep(w, last, ts[0]);
      var (u, e) := Step(w, Tiny(ts[0]));
      TinyRun(u, if Passes(last, ts[0]) then ts[0] else last, ts[1..]);
      assert Listed<Event>(None) + Ones(|Taken(last, ts)|) == Ones(|Taken(last, ts)|);
    }
  }

  /** The whole call, whose first packet must have index 0. */
  lemma TinyCall(w: SaneWriter, ts: seq<nat>)
    requires IsNewCall(w) && Ranged(0, ts)
    ensures var (u, out) := Run(Step, w, Packets(Tiny, [0] + ts));
            out == Ones(1 + |Taken(0, ts)|) && LastIs(u, LastTaken(0, ts))
  {
    hide Step, LastIs, Ranged, Taken, LastTaken, Passes, Accepts;
    var zero: seq<nat> := [0];
    CallBeginsAtZero(w, Tiny(0));
    TinyAccepted(w, 0);
    TinyRun(Step(w, Tiny(0)).0, 0, ts);
    assert (zero + ts)[0] == 0 && (zero + ts)[1..] == ts;
    assert Packets(Tiny, zero + ts) == [Tiny(0)] + Packets(Tiny, ts);
    assert Packets(Tiny, zero + ts)[1..] == Packets(Tiny, ts);
  }

  /** The packets 65401 to 65536 are lost: packets 65537 and 65600 are newer and are not written. */
  lemma WrapLossWitness(w: SaneWriter)
    requires IsNewCall(w)
    ensures var (u, out) := Run(Step, w, Packets(Tiny, [0, 65400, 65537, 65600]));
            out == [ONE, ONE] && LastIs(u, 65400)
  {
    hide Run, Step;
    var ts: seq<nat> := [65400, 65537, 65600];
    assert ts[1..] == [65537, 65600] && ts[1..][1..] == [65600];
    assert Taken(0, ts) == [65400] + Taken(65400, [65537, 65600]);
    assert Taken(65400, [65537, 65600]) == Taken(65400, [65600]) == [];
    assert LastTaken(0, ts) == LastTaken(65400, [65537, 65600]) == LastTaken(65400, [65600]) == 65400;
    TinyCall(w, ts);
    assert [0] + ts == [0, 65400, 65537, 65600];
    assert Ones(2) == [ONE] + Ones(1) && Ones(1) == [ONE] + Ones(0);
  }

  /** Packet 65530 comes after packet 65576: it is taken, and packet 65577, which passes without it, is
      not written. */
  lemma StragglerWitness(w: SaneWriter)
    requires IsNewCall(w)
    ensures var start := [0, 65400, 65535, 65536, 65576];
            && LastIs(Run(Step, w, Packets(Tiny, start + [65577])).0, 65577)
            && LastIs(Run(Step, w, Packets(Tiny, start + [65530, 65577])).0, 65530)
            && Run(Step, w, Packets(Tiny, start + [65530, 65577])).1 == Ones(6)
  {
    hide Run, Step;
    var a: seq<nat>, b: seq<nat> := [65400, 65535, 65536, 65576, 65577], [65400, 65535, 65536, 65576, 65530, 65577];
    TinyCall(w, a);
    TinyCall(w, b);
    assert [0] + a == [0, 65400, 65535, 65536, 65576] + [65577];
    assert [0] + b == [0, 65400, 65535, 65536, 65576] + [65530, 65577];
  }
}
