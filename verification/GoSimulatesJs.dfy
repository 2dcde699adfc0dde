/** Both clients, fed the same packets: the full frames the Go client emits, and at most one it
    still holds back, are exactly the frames the JavaScript client emits. */
module GoSimulatesJs {
  import opened Bytes
  import opened VideoFrames
  import opened Machine
  import Go = GoAssembler
  import Js = JsAssembler
  import GoDelivery

  /** The clients have the same incomplete frame open or none, or the Go client holds a complete
      frame back that the JavaScript client has already emitted. */
  ghost predicate Related(go: Option<Frame>, js: Option<Frame>) {
    && (go.Some? ==> FrameOk(go.value))
    && (js.Some? ==> go == js && !IsComplete(go.value))
    && (js.None? && go.Some? ==> IsComplete(go.value))
  }

  ghost function HeldBack(go: Option<Frame>, js: Option<Frame>): seq<Bytes>
    requires Related(go, js)
  {
    if js.None? && go.Some? then [Image(go.value)] else []
  }

  function Fulls(es: seq<Emission>): seq<Bytes> {
    if es == [] then []
    else Fulls(es[..|es| - 1]) + if es[|es| - 1].Full? then [es[|es| - 1].data] else []
  }

  /** A start packet whose header is cut short or announces an unacceptable length. */
  predicate IsMalformed(p: Packet) {
    IsStart(p) && !IsGoodStart(p)
  }

  /** One packet keeps the clients together if and only if it is not a malformed start that meets
      an open frame: there the Go client drops the frame and the JavaScript client keeps it. */
  lemma StepRelated(go: Option<Frame>, js: Option<Frame>, p: Packet)
    requires Related(go, js)
    ensures Related(Go.Step(go, p).0, Js.Step(js, p).0) <==> !(IsMalformed(p) && js.Some?)
  {
    Prepare(go, p);
    HeldStays(go, p);
  }

  /** A frame that is held back keeps its image when a further packet is stored in it. */
  lemma HeldStays(go: Option<Frame>, p: Packet)
    ensures go.Some? && IsComplete(go.value) ==>
              var f := Insert(go.value, Distance(go.value.startIndex, p.index), p.data);
              IsComplete(f) && Image(f) == Image(go.value)
  {
    if go.Some? && IsComplete(go.value) {
      CompleteStays(go.value, Distance(go.value.startIndex, p.index), p.data);
    }
  }

  /** Whatever frame the packet leads to is in order, and the JavaScript client's byte count agrees. */
  lemma Prepare(go: Option<Frame>, p: Packet)
    requires go.Some? ==> FrameOk(go.value)
    ensures IsGoodStart(p) ==>
              var f := Insert(Opened(p), 0, p.data[HEADER_SIZE..]);
              FrameOk(f) && (IsComplete(f) ==> f.receivedLength >= f.expectedLength)
    ensures go.Some? && Distance(go.value.startIndex, p.index) <= 128 ==>
              var f := Insert(go.value, Distance(go.value.startIndex, p.index), p.data);
              FrameOk(f) && (IsComplete(f) ==> f.receivedLength >= f.expectedLength)
  {
    if IsGoodStart(p) {
      OpenedOk(p);
      var f := Insert(Opened(p), 0, p.data[HEADER_SIZE..]);
      if IsComplete(f) { Js.CompleteIsReceived(f); }
    }
    if go.Some? && Distance(go.value.startIndex, p.index) <= 128 {
      var slot := Distance(go.value.startIndex, p.index);
      InsertOk(go.value, slot, p.data);
      var f := Insert(go.value, slot, p.data);
      if IsComplete(f) { Js.CompleteIsReceived(f); }
    }
  }

  /** What the Go client releases in full on one packet, together with what it then holds back,
      is what it held back before and what the JavaScript client releases. */
  lemma StepEmissions(go: Option<Frame>, js: Option<Frame>, p: Packet)
    requires Related(go, js) && !(IsMalformed(p) && js.Some?)
    ensures Related(Go.Step(go, p).0, Js.Step(js, p).0)
    ensures Fulls(Listed(Go.Step(go, p).1)) + HeldBack(Go.Step(go, p).0, Js.Step(js, p).0)
         == HeldBack(go, js) + Listed(Js.Step(js, p).1)
  {
    StepRelated(go, js, p);
    Prepare(go, p);
    HeldStays(go, p);
  }

  /** No malformed start packet arrives while the JavaScript client has a frame open. */
  ghost predicate Benign(ps: seq<Packet>) {
    forall k :: 0 <= k < |ps| && IsMalformed(ps[k]) ==> Run(Js.Step, None, ps[..k]).0 == None
  }

  lemma {:induction false} FullsAppend(a: seq<Emission>, b: seq<Emission>)
    ensures Fulls(a + b) == Fulls(a) + Fulls(b)
    decreases |b|
  {
    if b == [] {
      assert a + b == a;
    } else {
      FullsAppend(a, b[..|b| - 1]);
      assert (a + b)[..|a + b| - 1] == a + b[..|b| - 1];
    }
  }

  /** The simulation over every benign packet sequence. */
  lemma {:induction false} Simulation(ps: seq<Packet>)
    requires Benign(ps)
    ensures Related(Run(Go.Step, None, ps).0, Run(Js.Step, None, ps).0)
    ensures Fulls(Run(Go.Step, None, ps).1) + HeldBack(Run(Go.Step, None, ps).0, Run(Js.Step, None, ps).0)
         == Run(Js.Step, None, ps).1
    decreases |ps|
  {
    if ps != [] {
      var before, p := ps[..|ps| - 1], ps[|ps| - 1];
      assert ps == before + [p];
      assert Benign(before) by {
        forall k | 0 <= k < |before| && IsMalformed(before[k]) ensures Run(Js.Step, None, before[..k]).0 == None {
          assert ps[..k] == before[..k] && ps[k] == before[k];
        }
      }
      Simulation(before);
      var (go, goOut) := Run(Go.Step, None, before);
      var (js, jsOut) := Run(Js.Step, None, before);
      RunSnoc(Go.Step, None, before, p);
      RunSnoc(Js.Step, None, before, p);
      assert before == ps[..|before|];
      SimulationStep(go, goOut, js, jsOut, p);
    }
  }

  lemma Reassociate(a: seq<Bytes>, b: seq<Bytes>, c: seq<Bytes>, d: seq<Bytes>, e: seq<Bytes>)
    requires b + c == d + e
    ensures (a + b) + c == (a + d) + e
  {
    assert (a + b) + c == a + (b + c);
    assert (a + d) + e == a + (d + e);
  }

  lemma SimulationStep(go: Option<Frame>, goOut: seq<Emission>, js: Option<Frame>, jsOut: seq<Bytes>, p: Packet)
    requires Related(go, js) && Fulls(goOut) + HeldBack(go, js) == jsOut
    requires IsMalformed(p) ==> js == None
    ensures Related(Go.Step(go, p).0, Js.Step(js, p).0)
    ensures Fulls(goOut + Listed(Go.Step(go, p).1)) + HeldBack(Go.Step(go, p).0, Js.Step(js, p).0)
         == jsOut + Listed(Js.Step(js, p).1)
  {
    StepEmissions(go, js, p);
    var goEmit, jsEmit := Listed(Go.Step(go, p).1), Listed(Js.Step(js, p).1);
    FullsAppend(goOut, goEmit);
    var held, heldNow := HeldBack(go, js), HeldBack(Go.Step(go, p).0, Js.Step(js, p).0);
    Reassociate(Fulls(goOut), Fulls(goEmit), heldNow, held, jsEmit);
  }

  /** A malformed start that meets an incomplete frame costs the Go client that frame, whatever
      continuation packets follow. */
  lemma MalformedStartDropsInGo(f: Frame, bad: Packet, rest: seq<Packet>)
    requires !IsComplete(f) && IsMalformed(bad) && forall i :: 0 <= i < |rest| ==> !IsStart(rest[i])
    ensures Run(Go.Step, Some(f), [bad] + rest).0 == None
    ensures Fulls(Run(Go.Step, Some(f), [bad] + rest).1) == []
  {
    var flushed := Listed(Go.Boundary(f));
    assert Fulls(flushed) == [];
    RunAppend(Go.Step, Some(f), [bad], rest);
    RunOne(Go.Step, Some(f), bad);
    GoDelivery.IdleIgnores(rest);
  }

  /** The JavaScript client goes on with the frame and emits it when it becomes complete. */
  lemma MalformedStartKeptByJs(f: Frame, bad: Packet, slot: nat, last: Packet)
    requires FrameOk(f) && IsMalformed(bad) && !IsStart(last)
    requires Distance(f.startIndex, last.index) == slot <= 128
    requires IsComplete(Insert(f, slot, last.data))
    ensures Run(Js.Step, Some(f), [bad] + [last]) == (None, [Image(Insert(f, slot, last.data))])
  {
    Prepare(Some(f), last);
    RunAppend(Js.Step, Some(f), [bad], [last]);
    RunOne(Js.Step, Some(f), bad);
    RunOne(Js.Step, Some(f), last);
    assert [] + [Image(Insert(f, slot, last.data))] == [Image(Insert(f, slot, last.data))];
  }

  /** The separation on concrete packets, from the beginning: the start of a frame of two bytes, a
      start packet cut off after its marker, and the missing byte. Only the JavaScript client emits
      the frame. */
  lemma SeparationWitness()
    ensures GoDelivery.IsWindow(GoDelivery.SMALL)
    ensures var ps := [GoDelivery.StartPacket(GoDelivery.SMALL), Packet(11, MARKER), Packet(11, [2])];
            Fulls(Run(Go.Step, None, ps).1) == [] && Run(Js.Step, None, ps).1 == [[1, 2]]
  {
    var start, bad, last := SmallStart(), Packet(11, MARKER), Packet(11, [2]);
    hide GoDelivery.StartPacket, Go.Step, Js.Step, IsComplete, FrameOk, IsGoodStart;
    var f := Insert(Opened(start), 0, start.data[HEADER_SIZE..]);
    SmallPending();
    MalformedStartDropsInGo(f, bad, [last]);
    MalformedStartKeptByJs(f, bad, 1, last);
    RunAppend(Go.Step, None, [start], [bad] + [last]);
    RunOne(Go.Step, None, start);
    RunAppend(Js.Step, None, [start], [bad] + [last]);
    RunOne(Js.Step, None, start);
    assert [start] + ([bad] + [last]) == [start, bad, last];
    var go := Run(Go.Step, Some(f), [bad] + [last]).1;
    assert Listed<Emission>(None) + go == go;
    assert Listed<Bytes>(None) + [[1, 2]] == [[1, 2]];
  }

  function SmallStart(): (p: Packet)
    ensures IsGoodStart(p)
    ensures GoDelivery.IsWindow(GoDelivery.SMALL) && p == GoDelivery.StartPacket(GoDelivery.SMALL)
  {
    GoDelivery.SmallOpens();
    GoDelivery.StartPacket(GoDelivery.SMALL)
  }

  /** Both clients hold the incomplete frame after its start, and the missing byte completes it. */
  lemma SmallPending()
    ensures var start, last := SmallStart(), Packet(11, [2]);
            var f := Insert(Opened(start), 0, start.data[HEADER_SIZE..]);
            && Go.Step(None, start) == (Some(f), None) && Js.Step(None, start) == (Some(f), None)
            && FrameOk(f) && !IsComplete(f) && Distance(f.startIndex, last.index) == 1
            && IsComplete(Insert(f, 1, last.data)) && Image(Insert(f, 1, last.data)) == [1, 2]
  {
    var w, start := GoDelivery.SMALL, SmallStart();
    var f := Insert(Opened(start), 0, start.data[HEADER_SIZE..]);
    GoDelivery.SmallOpens();
    GoDelivery.SmallIsWindow();
    OpenedOk(start);
    GoDelivery.CoveredIsComplete(f, w, 0);
    DistanceUnique(10, 11, 1);
    SmallCompletes(f);
  }

  lemma SmallCompletes(f: Frame)
    requires GoDelivery.IsWindow(GoDelivery.SMALL) && GoDelivery.Holds(f, GoDelivery.SMALL, [])
    ensures IsComplete(Insert(f, 1, [2])) && Image(Insert(f, 1, [2])) == [1, 2]
  {
    var w, g := GoDelivery.SMALL, Insert(f, 1, [2]);
    GoDelivery.SmallIsWindow();
    GoDelivery.ContinuationLands(f, w, [], 1);
    assert [] + [1] == w.arrivals[..1];
    GoDelivery.CoveredIsComplete(g, w, 1);
    GoDelivery.HeldBody(g, w, w.arrivals[..1]);
  }
}
