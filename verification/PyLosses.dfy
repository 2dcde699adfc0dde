/** What a wrap of the index that goes unnoticed does to the Python session: packets of the new epoch
    are filed under the old one, and no video comes out until they pass the frames cut before. */
module PyLosses {
  import opened Bytes
  import opened Machine
  import opened PySession
  import Cutting = PyFrameCutter
  import True = PyTrueFrames

  // ----- the cutter

  lemma TopTwoUnique(s: set<nat>, a: nat, b: nat, c: nat, d: nat)
    requires Cutting.IsTopTwo(s, a, b) && Cutting.IsTopTwo(s, c, d)
    ensures a == c && b == d
  {
    assert b == d;
  }

  /** Which two boundaries the cut looks at is determined. */
  lemma CutBetween(c: Cutting.Cutter, a: nat, b: nat)
    requires Cutting.IsTopTwo(c.boundaries, a, b)
    ensures Cutting.Process(c)
            == if a == c.last || !Cutting.HasAll(c.received, a, b) then (c, None)
               else (Cutting.Prune(c, a), Some(Cutting.VideoFrame(a, Cutting.Cut(c.received, a, b))))
  {
    forall x, y | Cutting.IsTopTwo(c.boundaries, x, y) ensures x == a && y == b {
      TopTwoUnique(c.boundaries, a, b, x, y);
    }
    assert a in c.boundaries - {b} && b in c.boundaries;
    assert |c.boundaries - {b}| == |c.boundaries| - 1 && |c.boundaries - {b}| > 0;
  }

  /** The frame between the two highest boundaries is out. */
  ghost predicate HasCut(c: Cutting.Cutter, a: nat, b: nat) {
    Cutting.IsTopTwo(c.boundaries, a, b) && c.last == a
  }

  /** A packet from before the frame cut last changes neither its boundaries nor the output. */
  lemma OldPacketCutsNothing(c: Cutting.Cutter, a: nat, b: nat, p: Cutting.Arrival)
    requires HasCut(c, a, b) && p.index < a
    ensures HasCut(Cutting.Step(c, p).0, a, b) && Cutting.Step(c, p).1.None?
  {
    var d := Cutting.Accept(c, p);
    assert a in c.boundaries - {b} && a < b;
    assert forall x :: x in d.boundaries ==> x in c.boundaries || x == p.index;
    assert forall x :: x in d.boundaries - {b} ==> x in c.boundaries - {b} || x == p.index;
    assert a in d.boundaries - {b};
    CutBetween(d, a, b);
  }

  predicate AllBelow(ps: seq<Cutting.Arrival>, a: nat) {
    forall k :: 0 <= k < |ps| ==> ps[k].index < a
  }

  /** However many come. */
  lemma {:induction false} OldPacketsCutNothing(c: Cutting.Cutter, a: nat, b: nat, ps: seq<Cutting.Arrival>)
    requires HasCut(c, a, b) && AllBelow(ps, a)
    ensures HasCut(Run(Cutting.Step, c, ps).0, a, b) && Run(Cutting.Step, c, ps).1 == []
    decreases |ps|
  {
    hide Cutting.Step, HasCut;
    if ps != [] {
      OldPacketCutsNothing(c, a, b, ps[0]);
      OldPacketsCutNothing(Cutting.Step(c, ps[0]).0, a, b, ps[1..]);
      assert Listed<Cutting.VideoFrame>(None) + [] == [];
    }
  }

  // ----- the session

  /** Packets of the next epoch, behind the last index by less than a cycle, whose wrap does not show. */
  predicate Unnoticed(highest: nat, ts: seq<Sent>) {
    forall k :: 0 <= k < |ts| ==>
      && ts[k].index / EPOCH == highest / EPOCH + 1 && ts[k].index % EPOCH <= highest % EPOCH
      && !LooksWrapped(highest, ts[k].index) && !LooksBack(highest, ts[k].index)
  }

  /** Such a packet is filed one epoch too low, and the session does not notice. */
  lemma UnnoticedWrap(s: Unwrapper, highest: nat, t: nat)
    requires Represents(s, highest) && t / EPOCH == highest / EPOCH + 1 && t % EPOCH <= highest % EPOCH
    requires !LooksWrapped(highest, t) && !LooksBack(highest, t)
    ensures Unwrapped(s, t % EPOCH) == t - EPOCH && Advance(s, t % EPOCH) == s
  {
    assert t == EPOCH * (t / EPOCH) + t % EPOCH;
  }

  /** Packets as they come from the sender. */
  ghost function Coming(tx: True.Stream, ts: seq<Sent>): (ps: seq<Drw>)
    ensures |ps| == |ts|
  {
    if ts == [] then [] else [OnWire(tx, ts[0])] + Coming(tx, ts[1..])
  }

  /** When the packets around a wrap are lost so that it goes unnoticed, no video comes out of the
      packets of the new epoch as long as they lie below the frame cut last, one epoch earlier; the
      session still counts in the old epoch afterwards. */
  lemma {:induction false} LostWrapStalls(tx: True.Stream, s: State, highest: nat, a: nat, b: nat, ts: seq<Sent>)
    requires Represents(s.unwrapper, highest) && HasCut(s.cutter, a, b)
    requires Unnoticed(highest, ts) && forall k :: 0 <= k < |ts| ==> ts[k].index - EPOCH < a
    ensures var (after, out) := Run(Step, s, Coming(tx, ts));
            out == [] && after.unwrapper == s.unwrapper && HasCut(after.cutter, a, b)
    decreases |ts|
  {
    hide HasCut, Cutting.Step;
    if ts != [] {
      var t := ts[0];
      UnnoticedWrap(s.unwrapper, highest, t.index);
      OldPacketCutsNothing(s.cutter, a, b, Cutting.Arrival(t.index - EPOCH, tx(t.index)));
      assert Coming(tx, ts)[1..] == Coming(tx, ts[1..]);
      var (s1, e) := Step(s, OnWire(tx, t));
      assert e.None? && s1.unwrapper == s.unwrapper && HasCut(s1.cutter, a, b);
      LostWrapStalls(tx, s1, highest, a, b, ts[1..]);
      assert Listed<Cutting.VideoFrame>(None) + [] == [];
    }
  }

  // ----- from the beginning of a session

  /** A camera whose frames are single packets without a payload. */
  function Starts(t: nat): Bytes {
    Cutting.MEDIA_MARKER
  }

  /** Two consecutive starts at the beginning publish the frame of the first. */
  lemma FirstTwoStarts(a: nat)
    ensures var (c, none) := Cutting.Step(Cutting.EMPTY, Cutting.Arrival(a, Cutting.MEDIA_MARKER));
            var (d, e) := Cutting.Step(c, Cutting.Arrival(a + 1, Cutting.MEDIA_MARKER));
            none.None? && e == Some(Cutting.VideoFrame(a, [])) && HasCut(d, a, a + 1)
  {
    var first, second := Cutting.Arrival(a, Cutting.MEDIA_MARKER), Cutting.Arrival(a + 1, Cutting.MEDIA_MARKER);
    var c := Cutting.Accept(Cutting.EMPTY, first);
    assert c.boundaries == {a};
    assert Cutting.Step(Cutting.EMPTY, first) == (c, None);
    var d := Cutting.Accept(c, second);
    assert d.boundaries == {a, a + 1} && d.boundaries - {a + 1} == {a};
    assert Cutting.IsTopTwo(d.boundaries, a, a + 1);
    CutBetween(d, a, a + 1);
    assert Cutting.Cut(d.received, a, a + 1) == Cutting.Cut(d.received, a, a) + d.received[a] == [];
    assert Cutting.Prune(d, a).boundaries == d.boundaries;
  }

  lemma TwoComing(tx: True.Stream, s: State, t: Sent, u: Sent)
    ensures var (s1, e1) := Step(s, OnWire(tx, t));
            var (s2, e2) := Step(s1, OnWire(tx, u));
            Run(Step, s, Coming(tx, [t, u])) == (s2, Listed(e1) + Listed(e2))
  {
    var p, q := OnWire(tx, t), OnWire(tx, u);
    assert [t, u][1..] == [u] && [u][1..] == [];
    assert Coming(tx, [u]) == [q] + Coming(tx, []) == [q];
    assert Coming(tx, [t, u]) == [p] + [q];
    RunAppend(Step, s, [p], [q]);
    RunOne(Step, s, p);
    RunOne(Step, Step(s, p).0, q);
  }

  lemma FirstFrame()
    ensures var (mid, out) := Run(Step, FRESH, Coming(Starts, [Sent(64999, true), Sent(65000, true)]));
            && out == [Cutting.VideoFrame(64999, [])]
            && mid.unwrapper == Unwrapper(0, 65000) && HasCut(mid.cutter, 64999, 65000)
  {
    var t, u := Sent(64999, true), Sent(65000, true);
    TwoComing(Starts, FRESH, t, u);
    FirstTwoStarts(64999);
    hide Cutting.Step, HasCut, Coming, Run;
    assert [] + [Cutting.VideoFrame(64999, [])] == [Cutting.VideoFrame(64999, [])];
  }

  /** Packets 64999 and 65000 arrive, and then, the wrap being lost, 65600 and 65601: frame 64999 is
      published, and 65600 is not, although the next start is there. */
  lemma LostWrapWitness()
    ensures var first, second := [Sent(64999, true), Sent(65000, true)], [Sent(65600, true), Sent(65601, true)];
            var (mid, out) := Run(Step, FRESH, Coming(Starts, first));
            && out == [Cutting.VideoFrame(64999, [])]
            && Run(Step, mid, Coming(Starts, second)).1 == []
            && Unwrapped(mid.unwrapper, 65600 % EPOCH) == 64
            && True.IsFrame(Starts, 65600, 65601)
  {
    FirstFrame();
    hide Step, HasCut, Coming, Run;
    var mid := Run(Step, FRESH, Coming(Starts, [Sent(64999, true), Sent(65000, true)])).0;
    LostWrapStalls(Starts, mid, 65000, 64999, 65000, [Sent(65600, true), Sent(65601, true)]);
  }
}
