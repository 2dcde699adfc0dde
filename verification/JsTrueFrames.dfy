/** The JavaScript assembler against the camera's true stream, for every packet sequence: what it emits,
    and exactly when. It follows from the Go results, as it does what the Go client does with the
    malformed starts left out. */
module JsTrueFrames {
  import opened Bytes
  import opened VideoFrames
  import opened Machine
  import opened GoTrueFrames
  import opened GoFramesInTime
  import opened GoSimulatesJs
  import Go = GoAssembler
  import Js = JsAssembler
  import Safety = GoSafety

  /** The arrivals without the malformed starts. */
  function Kept(tx: Stream, ts: seq<nat>): seq<nat> {
    if ts == [] then []
    else (if IsMalformed(tx(ts[0])) then [] else [ts[0]]) + Kept(tx, ts[1..])
  }

  lemma {:induction false} KeptAreSound(tx: Stream, ts: seq<nat>)
    ensures forall k :: 0 <= k < |Kept(tx, ts)| ==> !IsMalformed(tx(Kept(tx, ts)[k]))
  {
    hide IsMalformed;
    if ts != [] {
      KeptAreSound(tx, ts[1..]);
    }
  }

  lemma MalformedIsSkipped(st: Option<Frame>, p: Packet)
    requires IsMalformed(p)
    ensures Js.Step(st, p) == (st, None)
  {
  }

  /** The JavaScript client does not see malformed starts. */
  lemma {:induction false} KeptIsTheSame(tx: Stream, st: Option<Frame>, ts: seq<nat>)
    ensures Run(Js.Step, st, Packets(tx, ts)) == Run(Js.Step, st, Packets(tx, Kept(tx, ts)))
    decreases |ts|
  {
    hide Js.Step, IsMalformed;
    if ts == [] {
      assert Packets(tx, ts) == Packets(tx, Kept(tx, ts));
    } else {
      var t, rest := ts[0], ts[1..];
      assert Packets(tx, ts)[0] == tx(t) && Packets(tx, ts)[1..] == Packets(tx, rest);
      var (st1, e) := Js.Step(st, tx(t));
      KeptIsTheSame(tx, st1, rest);
      if IsMalformed(tx(t)) {
        MalformedIsSkipped(st, tx(t));
        assert Listed<Bytes>(None) + Run(Js.Step, st, Packets(tx, rest)).1 == Run(Js.Step, st, Packets(tx, rest)).1;
        assert Kept(tx, ts) == Kept(tx, rest);
      } else {
        var kept := Kept(tx, ts);
        assert kept == [t] + Kept(tx, rest) && kept[1..] == Kept(tx, rest);
        assert Packets(tx, kept)[0] == tx(t) && Packets(tx, kept)[1..] == Packets(tx, kept[1..]);
      }
    }
  }

  lemma {:induction false} FullsHold(es: seq<Emission>, d: Bytes)
    ensures d in Fulls(es) <==> Full(d) in es
  {
    if es != [] {
      FullsHold(es[..|es| - 1], d);
      assert es == es[..|es| - 1] + [es[|es| - 1]];
    }
  }

  lemma HeldBackIsFlush(go: Option<Frame>, js: Option<Frame>, d: Bytes)
    requires Related(go, js)
    ensures d in HeldBack(go, js) <==> Go.Flush(go) == Some(Full(d))
  {
  }

  /** What the JavaScript client emits are the full frames the Go client emits or holds back when it is
      given the same packets without the malformed starts. */
  lemma EmitsWhatGoDoes(tx: Stream, ts: seq<nat>, d: Bytes)
    ensures var (st, out) := Run(Go.Step, None, Packets(tx, Kept(tx, ts)));
            d in Run(Js.Step, None, Packets(tx, ts)).1 <==> Full(d) in out || Go.Flush(st) == Some(Full(d))
  {
    var kept := Kept(tx, ts);
    KeptAreSound(tx, ts);
    KeptIsTheSame(tx, None, ts);
    hide Go.Step, Js.Step, Run, IsMalformed, Related, Go.Flush;
    assert Benign(Packets(tx, kept));
    Simulation(Packets(tx, kept));
    var (st, out) := Run(Go.Step, None, Packets(tx, kept));
    FullsHold(out, d);
    HeldBackIsFlush(st, Run(Js.Step, None, Packets(tx, kept)).0, d);
  }

  // ----- truth

  lemma NearWithStart(tx: Stream, ts: seq<nat>, t: nat)
    requires AllNear(tx, ts) && IsStart(tx(t))
    ensures AllNear(tx, ts + [t])
  {
    var all := ts + [t];
    forall i, j | 0 <= i < j < |all| && IsStart(tx(all[i])) && NoStartsIn(tx, all[i + 1..j + 1])
      ensures IsNear(all[i], all[j])
    {
      assert all[i + 1..j + 1][j - i - 1] == all[j];
      assert j < |ts|;
      assert all[i + 1..j + 1] == ts[i + 1..j + 1];
    }
  }

  lemma FullIsTrue(tx: Stream, d: Bytes)
    requires IsTrue(tx, Full(d))
    ensures exists a: nat, b: nat :: IsFrameData(tx, d, a, b)
  {
  }

  lemma HeldIsTrue(tx: Stream, ts: seq<nat>, d: Bytes)
    requires IsStream(tx) && SendsExactFrames(tx) && AllNear(tx, ts)
    requires Go.Flush(Run(Go.Step, None, Packets(tx, ts)).0) == Some(Full(d))
    ensures IsTrue(tx, Full(d))
  {
    hide IsStream, SendsExactFrames, AllNear, Run, IsTrue, Safety.Explains, Packets;
    var k := Safety.OpenFrameExplained(Packets(tx, ts));
    PacketsOfParts(tx, ts, 0, k);
    ExplainedWindow(Packets(tx, ts[k..]), Run(Go.Step, None, Packets(tx, ts)).0.value);
    var t := ts[k];
    FirstOfWindow(tx, ts, k);
    NearWithStart(tx, ts, t);
    EmissionIsTrue(tx, ts, t);
  }

  lemma FirstOfWindow(tx: Stream, ts: seq<nat>, k: nat)
    requires k < |ts| && IsGoodStart(Packets(tx, ts[k..])[0])
    ensures IsStart(tx(ts[k]))
  {
  }

  /** Every frame that comes out is one whole frame of the camera, byte for byte, whatever is lost, starts
      included, repeated, reordered or malformed. */
  lemma AllFramesAreTrue(tx: Stream, ts: seq<nat>, d: Bytes)
    requires IsStream(tx) && SendsExactFrames(tx) && AllNear(tx, Kept(tx, ts))
    requires d in Run(Js.Step, None, Packets(tx, ts)).1
    ensures exists a: nat, b: nat :: IsFrameData(tx, d, a, b)
  {
    hide IsStream, SendsExactFrames, AllNear, Run, IsTrue, Packets, Go.Flush, IsFrameData;
    EmitsWhatGoDoes(tx, ts, d);
    AllEmissionsAreTrue(tx, Kept(tx, ts));
    if Full(d) !in Run(Go.Step, None, Packets(tx, Kept(tx, ts))).1 {
      HeldIsTrue(tx, Kept(tx, ts), d);
    }
    FullIsTrue(tx, d);
  }

  /** Exactly those come out that are in time once the malformed starts are left out. */
  lemma EmittedIffInTime(tx: Stream, ts: seq<nat>, d: Bytes)
    requires Sends(tx) && AllNear(tx, Kept(tx, ts))
    ensures d in Run(Js.Step, None, Packets(tx, ts)).1
            <==> exists a: nat, b: nat :: InTime(tx, Kept(tx, ts), a, b) && d == FrameData(tx, a, b)
  {
    hide Sends, AllNear, Run, Packets, Go.Flush, FrameData, InTime;
    EmitsWhatGoDoes(tx, ts, d);
    FullIffInTime(tx, Kept(tx, ts), d);
  }
}
