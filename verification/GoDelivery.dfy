/** End-to-end delivery of video frames through the Go assembler: a sender cuts frames into indexed
    packets and the channel loses, repeats and reorders them between one start and the next. */
module GoDelivery {
  import opened Bytes
  import opened VideoFrames
  import opened GoAssembler
  import opened Machine
  import JpegTrim

  /** What the camera puts in front of a frame. */
  const CAMERA_MARK: Bytes := [0x55, 0xaa, 0x15, 0xa8, 0x03, 0x00]

  /** A frame as the camera sends it: the free header bytes around the length field, and the
      payload of each packet. */
  datatype SentFrame = SentFrame(head: Bytes, tail: Bytes, chunks: seq<Bytes>)

  ghost predicate IsSent(f: SentFrame) {
    && |f.head| == 10 && |f.tail| == 12
    && 1 <= |f.chunks| <= 129
    && (forall s :: 0 <= s < |f.chunks| ==> f.chunks[s] != [])
    && (forall s :: 1 <= s < |f.chunks| ==> !(CAMERA_MARK <= f.chunks[s]))
    && |Flatten(f.chunks)| <= 0x8_0000
  }

  /** One start packet of a frame and the slots of the continuation packets that arrive before the
      next start packet, in the order of arrival. A repeated start packet begins a new window of
      the same frame. */
  datatype Window = Window(frame: SentFrame, base: Index, arrivals: seq<nat>)

  ghost predicate IsWindow(w: Window) {
    IsSent(w.frame) && forall i :: 0 <= i < |w.arrivals| ==> 1 <= w.arrivals[i] < |w.frame.chunks|
  }

  function StartPacket(w: Window): Packet
    requires |w.frame.chunks| > 0 && |Flatten(w.frame.chunks)| <= 0x8_0000
  {
    Packet(w.base, CAMERA_MARK + w.frame.head + PutLe32(|Flatten(w.frame.chunks)|) + w.frame.tail + w.frame.chunks[0])
  }

  function Continuation(w: Window, slot: nat): Packet
    requires slot < |w.frame.chunks|
  {
    Packet((w.base + slot) % 0x1_0000, w.frame.chunks[slot])
  }

  ghost function Continuations(w: Window, j: nat): (ps: seq<Packet>)
    requires IsWindow(w) && j <= |w.arrivals|
    ensures |ps| == j
  {
    if j == 0 then [] else Continuations(w, j - 1) + [Continuation(w, w.arrivals[j - 1])]
  }

  ghost function PacketsOf(w: Window): seq<Packet>
    requires IsWindow(w)
  {
    [StartPacket(w)] + Continuations(w, |w.arrivals|)
  }

  ghost function Wire(ws: seq<Window>): seq<Packet>
    requires forall i :: 0 <= i < |ws| ==> IsWindow(ws[i])
  {
    if ws == [] then [] else Wire(ws[..|ws| - 1]) + PacketsOf(ws[|ws| - 1])
  }

  /** The number of leading slots, slot 0 included, that the given arrivals fill without a hole. */
  function Leading(arrivals: seq<nat>, n: nat): (e: nat)
    requires n >= 1
    ensures 1 <= e <= n
    ensures forall k :: 1 <= k < e ==> k in arrivals
    ensures e == n || e !in arrivals
  {
    var slots := set s | s in arrivals;
    assert forall k :: k in arrivals <==> k in slots;
    RunEnd(slots, 1, n)
  }

  /** Every continuation slot is among the first j arrivals. */
  ghost predicate Covered(w: Window, j: nat)
    requires j <= |w.arrivals|
  {
    forall s :: 1 <= s < |w.frame.chunks| ==> s in w.arrivals[..j]
  }

  /** What a window must contribute: the whole frame when every packet of it arrived; otherwise the
      JPEG inside the leading packets, provided nothing arrived behind the first hole. */
  ghost function Outcome(w: Window): seq<Emission>
    requires IsWindow(w)
  {
    var n := |w.frame.chunks|;
    var m := Leading(w.arrivals, n);
    var image := JpegTrim.Trim(Flatten(w.frame.chunks[..m]));
    if Covered(w, |w.arrivals|) then [Full(Flatten(w.frame.chunks))]
    else if (forall i :: 0 <= i < |w.arrivals| ==> w.arrivals[i] < m) && image != [] then [Trimmed(image)]
    else []
  }

  ghost function Outcomes(ws: seq<Window>): seq<Emission>
    requires forall i :: 0 <= i < |ws| ==> IsWindow(ws[i])
  {
    if ws == [] then [] else Outcomes(ws[..|ws| - 1]) + Outcome(ws[|ws| - 1])
  }

  // ----- frames that hold only what was sent

  /** The frame under assembly holds exactly slot 0 and the given slots, each with its sent payload. */
  ghost predicate Holds(f: Frame, w: Window, slots: seq<nat>)
    requires IsWindow(w)
  {
    && f.startIndex == w.base
    && f.expectedLength == |Flatten(w.frame.chunks)|
    && (forall s: nat :: s in f.chunks <==> s == 0 || s in slots)
    && (forall s :: s in f.chunks ==> s < |w.frame.chunks| && f.chunks[s] == w.frame.chunks[s])
    && f.maxSlot in f.chunks && (forall s :: s in f.chunks ==> s <= f.maxSlot)
  }

  lemma {:induction false} JoinedIsFlatten(chunks: map<nat, Bytes>, sent: seq<Bytes>, n: nat)
    requires n <= |sent| && Filled(chunks, n) && forall s: nat :: s < n ==> chunks[s] == sent[s]
    ensures Joined(chunks, n) == Flatten(sent[..n])
  {
    if n > 0 {
      JoinedIsFlatten(chunks, sent, n - 1);
      assert sent[..n] == sent[..n - 1] + [sent[n - 1]];
      FlattenAppend(sent[..n - 1], [sent[n - 1]]);
      assert Flatten([sent[n - 1]]) == sent[n - 1] + Flatten([sent[n - 1]][1..]);
    }
  }

  lemma ProperPrefixShorter(sent: seq<Bytes>, n: nat)
    requires n < |sent| && forall s :: 0 <= s < |sent| ==> sent[s] != []
    ensures |Flatten(sent[..n])| < |Flatten(sent)|
  {
    assert sent == sent[..n] + sent[n..];
    FlattenAppend(sent[..n], sent[n..]);
    assert Flatten(sent[n..]) == sent[n] + Flatten(sent[n..][1..]);
  }

  lemma HeldBody(f: Frame, w: Window, slots: seq<nat>)
    requires IsWindow(w) && Holds(f, w, slots)
    ensures 1 <= Reach(f) <= |w.frame.chunks|
    ensures Body(f) == Flatten(w.frame.chunks[..Reach(f)])
    ensures Reach(f) == Leading(slots, |w.frame.chunks|)
    ensures IsComplete(f) <==> Reach(f) == |w.frame.chunks|
    ensures IsComplete(f) ==> Image(f) == Flatten(w.frame.chunks)
  {
    var n := |w.frame.chunks|;
    var r := Reach(f);
    JoinedIsFlatten(f.chunks, w.frame.chunks, r);
    var m := Leading(slots, n);
    assert m - 1 in f.chunks;
    RunEndUnique(f.chunks.Keys, 0, f.maxSlot + 1, m);
    assert w.frame.chunks[..n] == w.frame.chunks;
    if r < n {
      ProperPrefixShorter(w.frame.chunks, r);
    } else {
      ProperPrefixShorter(w.frame.chunks, 0);
    }
  }

  lemma StartOpens(w: Window)
    requires IsWindow(w)
    ensures var p := StartPacket(w);
            && IsGoodStart(p)
            && Holds(Insert(Opened(p), 0, p.data[HEADER_SIZE..]), w, [])
  {
    var p := StartPacket(w);
    var total := |Flatten(w.frame.chunks)|;
    ProperPrefixShorter(w.frame.chunks, 0);
    assert p.data[..6] == CAMERA_MARK;
    assert p.data[16..20] == PutLe32(total);
    Le32RoundTrip(total);
    assert p.data[HEADER_SIZE..] == w.frame.chunks[0];
  }

  /** A continuation packet is recognised, lands in its own slot and is stored there. */
  lemma ContinuationLands(f: Frame, w: Window, slots: seq<nat>, slot: nat)
    requires IsWindow(w) && Holds(f, w, slots) && 1 <= slot < |w.frame.chunks|
    ensures Step(Some(f), Continuation(w, slot)) == Settle(Insert(f, slot, w.frame.chunks[slot]))
    ensures Holds(Insert(f, slot, w.frame.chunks[slot]), w, slots + [slot])
  {
    DistanceUnique(w.base, Continuation(w, slot).index, slot);
  }

  lemma CoveredIsComplete(f: Frame, w: Window, j: nat)
    requires IsWindow(w) && j <= |w.arrivals| && Holds(f, w, w.arrivals[..j])
    ensures IsComplete(f) <==> Covered(w, j)
  {
    HeldBody(f, w, w.arrivals[..j]);
  }

  /** One arrival, while the frame is still incomplete: it is stored, and the frame is handed on
      if this was the last one missing. */
  lemma ArrivalStep(f: Frame, w: Window, j: nat)
    requires IsWindow(w) && |w.frame.chunks| >= 2 && j < |w.arrivals|
    requires Holds(f, w, w.arrivals[..j]) && !Covered(w, j)
    ensures var slot := w.arrivals[j];
            var g := Insert(f, slot, w.frame.chunks[slot]);
            && Holds(g, w, w.arrivals[..j + 1])
            && Step(Some(f), Continuation(w, slot))
            == if Covered(w, j + 1) then (None, Some(Full(Flatten(w.frame.chunks)))) else (Some(g), None)
  {
    var slot := w.arrivals[j];
    var g := Insert(f, slot, w.frame.chunks[slot]);
    assert w.arrivals[..j + 1] == w.arrivals[..j] + [slot];
    ContinuationLands(f, w, w.arrivals[..j], slot);
    CoveredIsComplete(g, w, j + 1);
    HeldBody(g, w, w.arrivals[..j + 1]);
  }

  /** Once the frame has been handed on, further packets of it are ignored. */
  lemma LateArrivalIgnored(w: Window, j: nat)
    requires IsWindow(w) && j < |w.arrivals| && Covered(w, j)
    ensures Covered(w, j + 1)
    ensures Step(None, Continuation(w, w.arrivals[j])) == (None, None)
  {
    assert w.arrivals[..j + 1] == w.arrivals[..j] + [w.arrivals[j]];
  }

  /** After the first j arrivals the frame has been handed on if and only if they cover it. */
  lemma {:induction false} ArrivalsRun(f: Frame, w: Window, j: nat) returns (g: Frame)
    requires IsWindow(w) && Holds(f, w, []) && |w.frame.chunks| >= 2 && j <= |w.arrivals|
    ensures Holds(g, w, w.arrivals[..j]) || Covered(w, j)
    ensures Run(Step, Some(f), Continuations(w, j))
         == if Covered(w, j) then (None, [Full(Flatten(w.frame.chunks))]) else (Some(g), [])
    decreases j
  {
    assert w.arrivals[..0] == [] && 1 !in w.arrivals[..0];
    assert !Covered(w, 0);
    hide Step, Holds, Covered, IsWindow;
    if j == 0 {
      g := f;
    } else {
      var e := ArrivalsRun(f, w, j - 1);
      var slot := w.arrivals[j - 1];
      var p := Continuation(w, slot);
      var (st, out) := Run(Step, Some(f), Continuations(w, j - 1));
      var (after, emitted) := Step(st, p);
      assert Run(Step, Some(f), Continuations(w, j)) == (after, out + Listed(emitted)) by {
        RunSnoc(Step, Some(f), Continuations(w, j - 1), p);
      }
      if Covered(w, j - 1) {
        LateArrivalIgnored(w, j - 1);
        g := e;
        assert out + Listed(emitted) == out;
      } else {
        ArrivalStep(e, w, j - 1);
        g := Insert(e, slot, w.frame.chunks[slot]);
        assert out + Listed(emitted) == Listed(emitted);
      }
    }
  }

  /** The whole frame leaves on the arrival that completes it, and on no other. */
  lemma EmittedOnLastDistinctArrival(f: Frame, w: Window, j: nat)
    requires IsWindow(w) && Holds(f, w, []) && |w.frame.chunks| >= 2 && j < |w.arrivals|
    ensures Step(Run(Step, Some(f), Continuations(w, j)).0, Continuation(w, w.arrivals[j])).1
         == if Covered(w, j + 1) && !Covered(w, j) then Some(Full(Flatten(w.frame.chunks))) else None
  {
    var g := ArrivalsRun(f, w, j);
    if Covered(w, j) {
      assert w.arrivals[..j + 1] == w.arrivals[..j] + [w.arrivals[j]];
      assert Covered(w, j + 1);
    } else {
      ArrivalStep(g, w, j);
    }
  }

  lemma FlushIsOutcome(f: Frame, w: Window)
    requires IsWindow(w) && Holds(f, w, w.arrivals)
    ensures Listed(Boundary(f)) == Outcome(w)
  {
    HeldBody(f, w, w.arrivals);
    assert w.arrivals[..|w.arrivals|] == w.arrivals;
    CoveredIsComplete(f, w, |w.arrivals|);
    var m := Reach(f);
    if m == f.maxSlot + 1 {
      forall i | 0 <= i < |w.arrivals| ensures w.arrivals[i] < m {
        assert w.arrivals[i] in f.chunks;
      }
    } else {
      assert f.maxSlot != 0 && f.maxSlot in w.arrivals && f.maxSlot >= m;
    }
  }

  /** One window, from any state: what was pending comes out first, then the window's own
      contribution, the last of which may still be pending. */
  lemma WindowRun(st: Option<Frame>, w: Window)
    requires IsWindow(w)
    ensures var (after, out) := Run(Step, st, PacketsOf(w));
            && out + Listed(Flush(after)) == Listed(Flush(st)) + Outcome(w)
            && (st == None && Covered(w, |w.arrivals|) ==> after == None)
  {
    assert IsSent(w.frame);
    StartOpens(w);
    var p := StartPacket(w);
    var f := Insert(Opened(p), 0, p.data[HEADER_SIZE..]);
    HeldBody(f, w, []);
    RunAppend(Step, st, [p], Continuations(w, |w.arrivals|));
    RunOne(Step, st, p);
    if |w.frame.chunks| == 1 {
      assert |w.arrivals| == 0;
      FlushIsOutcome(f, w);
    } else {
      assert Leading([], |w.frame.chunks|) == 1;
      var n := |w.arrivals|;
      assert w.arrivals[..n] == w.arrivals;
      var g := ArrivalsRun(f, w, n);
      if !Covered(w, n) {
        FlushIsOutcome(g, w);
      }
    }
  }

  /** Delivery over any channel that keeps start packets in place: the emitted frames, followed by
      the one that a further boundary would release, are the contributions of the windows in order,
      byte for byte, whatever was lost, repeated or reordered inside them. */
  lemma {:induction false} Delivery(ws: seq<Window>)
    requires forall i :: 0 <= i < |ws| ==> IsWindow(ws[i])
    ensures var (after, out) := Run(Step, None, Wire(ws));
            out + Listed(Flush(after)) == Outcomes(ws)
    decreases |ws|
  {
    if ws != [] {
      var before, w := ws[..|ws| - 1], ws[|ws| - 1];
      Delivery(before);
      DeliveryStep(Wire(before), w, Outcomes(before));
    }
  }

  lemma DeliveryStep(ps: seq<Packet>, w: Window, due: seq<Emission>)
    requires IsWindow(w)
    requires var (mid, out) := Run(Step, None, ps); out + Listed(Flush(mid)) == due
    ensures var (after, out) := Run(Step, None, ps + PacketsOf(w));
            out + Listed(Flush(after)) == due + Outcome(w)
  {
    var (mid, out) := Run(Step, None, ps);
    var (after, more) := Run(Step, mid, PacketsOf(w));
    RunAppend(Step, None, ps, PacketsOf(w));
    WindowRun(mid, w);
    var pending, last, contribution := Listed(Flush(mid)), Listed(Flush(after)), Outcome(w);
    calc {
      (out + more) + last;
      out + (more + last);
      out + (pending + contribution);
      (out + pending) + contribution;
    }
  }

  ghost function SentImages(ws: seq<Window>): seq<Emission> {
    if ws == [] then [] else SentImages(ws[..|ws| - 1]) + [Full(Flatten(ws[|ws| - 1].frame.chunks))]
  }

  /** Without loss the assembler emits exactly the list of frames that was sent and ends idle. */
  lemma {:induction false} LosslessDelivery(ws: seq<Window>)
    requires forall i :: 0 <= i < |ws| ==> IsWindow(ws[i]) && Covered(ws[i], |ws[i].arrivals|)
    ensures Run(Step, None, Wire(ws)) == (None, SentImages(ws))
    decreases |ws|
  {
    if ws != [] {
      var before, w := ws[..|ws| - 1], ws[|ws| - 1];
      LosslessDelivery(before);
      RunAppend(Step, None, Wire(before), PacketsOf(w));
      WindowRun(None, w);
      var (after, more) := Run(Step, None, PacketsOf(w));
      assert more == more + Listed(Flush(after)) == Outcome(w);
    }
  }

  // ----- why start packets and earlier frames' packets must stay in place

  ghost predicate NoStarts(ps: seq<Packet>) {
    forall i :: 0 <= i < |ps| ==> !IsStart(ps[i])
  }

  /** Without an open frame, everything but a start packet is ignored. */
  lemma {:induction false} IdleIgnores(ps: seq<Packet>)
    requires NoStarts(ps)
    ensures Run(Step, None, ps) == (None, [])
    decreases |ps|
  {
    if ps != [] {
      assert Step(None, ps[0]) == (None, None);
      IdleIgnores(ps[1..]);
      assert Listed<Emission>(None) + [] == [];
    }
  }

  /** A packet of an earlier frame that turns up inside a window closes the open frame: the rest of
      the window can then arrive in full and still not bring the image out. */
  lemma StragglerLosesFrame(f: Frame, w: Window, j: nat, straggler: Packet, rest: seq<Packet>)
    requires IsWindow(w) && j <= |w.arrivals| && Holds(f, w, w.arrivals[..j]) && !Covered(w, j)
    requires !IsStart(straggler) && Distance(w.base, straggler.index) > 128 && NoStarts(rest)
    ensures Run(Step, Some(f), [straggler] + rest) == (None, Listed(Boundary(f)))
    ensures Boundary(f).Some? ==> Boundary(f).value.Trimmed?
  {
    CoveredIsComplete(f, w, j);
    RunAppend(Step, Some(f), [straggler], rest);
    RunOne(Step, Some(f), straggler);
    IdleIgnores(rest);
  }

  /** A packet sent before the frame's start is too far back for its slots, and so such a straggler,
      exactly when it was sent at most 65407 packets earlier. */
  lemma EarlierIsFar(t: nat, base: nat)
    requires t < base < t + 0x1_0000
    ensures Distance(base % 0x1_0000, t % 0x1_0000) > 128 <==> base - t <= 65407
  {
    WrapAdd(base, 0x1_0000 - (base - t));
    WrapMultiple(t, 1);
    assert base + (0x1_0000 - (base - t)) == t + 0x1_0000;
    DistanceUnique(base % 0x1_0000, t % 0x1_0000, 0x1_0000 - (base - t));
  }

  /** A frame that is hit by a straggler comes out in full if and only if all of it was there before,
      whatever else arrives of it afterwards. */
  lemma StragglerDecides(f: Frame, w: Window, j: nat, straggler: Packet, rest: seq<Packet>)
    requires IsWindow(w) && |w.frame.chunks| >= 2 && j <= |w.arrivals| && Holds(f, w, [])
    requires !IsStart(straggler) && Distance(w.base, straggler.index) > 128 && NoStarts(rest)
    ensures Full(Flatten(w.frame.chunks)) in Run(Step, Some(f), Continuations(w, j) + ([straggler] + rest)).1
            <==> Covered(w, j)
  {
    hide Step, Holds, Covered;
    var g := ArrivalsRun(f, w, j);
    RunAppend(Step, Some(f), Continuations(w, j), [straggler] + rest);
    if Covered(w, j) {
      NoStartsCons(straggler, rest);
      IdleIgnores([straggler] + rest);
    } else {
      StragglerLosesFrame(g, w, j, straggler, rest);
    }
  }

  lemma NoStartsCons(p: Packet, rest: seq<Packet>)
    requires !IsStart(p) && NoStarts(rest)
    ensures NoStarts([p] + rest)
  {
  }

  // ----- the loss on concrete packets

  function Zeros(n: nat): (z: Bytes)
    ensures |z| == n
  {
    seq(n, _ => 0)
  }

  /** A frame of two packets with one byte each, under the indices 10 and 11. */
  const SMALL := Window(SentFrame(Zeros(10), Zeros(12), [[1], [2]]), 10, [1])

  lemma SmallIsWindow()
    ensures IsWindow(SMALL) && Flatten(SMALL.frame.chunks) == [1, 2]
    ensures Covered(SMALL, 1) && !Covered(SMALL, 0) && Continuations(SMALL, 1) == [Packet(11, [2])]
  {
    var chunks: seq<Bytes> := [[1], [2]];
    var one: Bytes, two: Bytes := [1], [2];
    assert chunks[1..] == [two];
    FlattenOne(two);
    assert Flatten(chunks) == one + Flatten([two]) == [1, 2];
    assert SMALL.arrivals[..0] == [] && SMALL.arrivals[..1] == [1];
    assert 1 !in SMALL.arrivals[..0] && 1 in SMALL.arrivals[..1];
    assert Continuations(SMALL, 0) == [];
    assert Continuation(SMALL, 1) == Packet(11, [2]);
  }

  /** Packet 9, the last of the frame before, arrives between the two, and the frame does not come out. Without it
      it does. */
  lemma StragglerWitness()
    ensures IsWindow(SMALL)
    ensures Run(Step, None, [StartPacket(SMALL), Packet(11, [2])]).1 == [Full([1, 2])]
    ensures Full([1, 2]) !in Run(Step, None, [StartPacket(SMALL), Packet(9, [3]), Packet(11, [2])]).1
  {
    SmallIsWindow();
    hide Step, StartPacket, IsWindow, Covered;
    var w, p := SMALL, StartPacket(SMALL);
    SmallOpens();
    var f := Insert(Opened(p), 0, p.data[HEADER_SIZE..]);
    RunOne(Step, None, p);
    RunAppend(Step, None, [p], [Packet(11, [2])]);
    var g := ArrivalsRun(f, w, 1);
    assert [p] + [Packet(11, [2])] == [p, Packet(11, [2])];
    var hit := [Packet(9, [3])] + [Packet(11, [2])];
    StragglerDecides(f, w, 0, Packet(9, [3]), [Packet(11, [2])]);
    assert Continuations(w, 0) + hit == hit;
    RunAppend(Step, None, [p], hit);
    assert [p] + hit == [p, Packet(9, [3]), Packet(11, [2])];
  }

  lemma SmallOpens()
    ensures IsWindow(SMALL)
    ensures var p := StartPacket(SMALL);
            && IsGoodStart(p)
            && var f := Insert(Opened(p), 0, p.data[HEADER_SIZE..]);
               Holds(f, SMALL, []) && Step(None, p) == (Some(f), None)
  {
    SmallIsWindow();
    StartOpens(SMALL);
    var p := StartPacket(SMALL);
    var f := Insert(Opened(p), 0, p.data[HEADER_SIZE..]);
    HeldBody(f, SMALL, []);
    assert Leading([], 2) == 1;
  }
}
