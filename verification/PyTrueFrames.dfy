/** The Python cutter against the true stream: whatever is lost, repeated or reordered, what it
    publishes are frames of the sender, and exactly those whose packets were in time. */
module PyTrueFrames {
  import opened Bytes
  import opened Machine
  import opened PyFrameCutter

  /** The sender's stream: the payload it sends under each (unbounded) index. */
  type Stream = nat -> Bytes

  ghost predicate IsFrame(tx: Stream, a: nat, b: nat) {
    && a < b && IsBoundary(tx(a)) && IsBoundary(tx(b))
    && forall i: nat :: a < i < b ==> !IsBoundary(tx(i))
  }

  function FrameData(tx: Stream, a: nat, b: nat): Bytes
    decreases b
  {
    if b <= a then [] else FrameData(tx, a, b - 1) + Stripped(tx(b - 1))
  }

  ghost predicate Sent(tx: Stream, ps: seq<Arrival>) {
    forall k :: 0 <= k < |ps| ==> ps[k].raw == tx(ps[k].index)
  }

  ghost predicate Arrived(ps: seq<Arrival>, i: nat) {
    exists k :: 0 <= k < |ps| && ps[k].index == i
  }

  /** All packets of the frame and the start of the next one are in, and no later start is. */
  ghost predicate InTime(tx: Stream, ps: seq<Arrival>, a: nat, b: nat) {
    && (forall i: nat :: a <= i <= b ==> Arrived(ps, i))
    && (forall i: nat :: b < i && IsBoundary(tx(i)) ==> !Arrived(ps, i))
  }

  // ----- what every reachable state satisfies

  ghost predicate Inv(tx: Stream, ps: seq<Arrival>, c: Cutter) {
    && (forall i :: i in c.received ==> Arrived(ps, i) && c.received[i] == Stripped(tx(i)))
    && (forall i :: i in c.boundaries <==> i in c.received && IsBoundary(tx(i)))
    && (forall i: nat :: Arrived(ps, i) && c.last <= i ==> i in c.received)
    && -1 <= c.last
    && (c.last >= 0 ==> c.last in c.boundaries && exists b :: b in c.boundaries && c.last < b)
  }

  lemma ArrivedSnoc(ps: seq<Arrival>, p: Arrival)
    ensures forall i: nat :: Arrived(ps + [p], i) <==> Arrived(ps, i) || i == p.index
  {
    forall i: nat ensures Arrived(ps + [p], i) <==> Arrived(ps, i) || i == p.index {
      if Arrived(ps, i) {
        var k :| 0 <= k < |ps| && ps[k].index == i;
        assert (ps + [p])[k].index == i;
      }
      if i == p.index {
        assert (ps + [p])[|ps|].index == i;
      }
    }
  }

  lemma AcceptKeepsInv(tx: Stream, ps: seq<Arrival>, c: Cutter, p: Arrival)
    requires Inv(tx, ps, c) && p.raw == tx(p.index)
    ensures Inv(tx, ps + [p], Accept(c, p))
  {
    ArrivedSnoc(ps, p);
    var d := Accept(c, p);
    if c.last >= 0 {
      var b :| b in c.boundaries && c.last < b;
      assert b in d.boundaries;
    }
  }

  lemma {:induction false} CutIsFrameData(tx: Stream, received: map<nat, Bytes>, a: nat, b: nat)
    requires HasAll(received, a, b) && forall i :: a <= i < b ==> received[i] == Stripped(tx(i))
    ensures Cut(received, a, b) == FrameData(tx, a, b)
    decreases b
  {
    if b > a {
      CutIsFrameData(tx, received, a, b - 1);
    }
  }

  /** The two highest boundaries enclose one frame of the sender once everything between is in. */
  lemma TopTwoEncloseFrame(tx: Stream, ps: seq<Arrival>, c: Cutter, a: nat, b: nat)
    requires Inv(tx, ps, c) && IsTopTwo(c.boundaries, a, b) && HasAll(c.received, a, b) && a != c.last
    ensures IsFrame(tx, a, b) && c.last < a
    ensures Cut(c.received, a, b) == FrameData(tx, a, b)
  {
    assert a in c.boundaries - {b} && b in c.boundaries;
    forall i: nat | a < i < b ensures !IsBoundary(tx(i)) {
      assert i in c.received;
      assert i in c.boundaries ==> i in c.boundaries - {b};
    }
    CutIsFrameData(tx, c.received, a, b);
    if c.last >= 0 {
      var later :| later in c.boundaries && c.last < later;
      assert c.last != b ==> c.last in c.boundaries - {b};
    }
  }

  lemma TopTwoInTime(tx: Stream, ps: seq<Arrival>, c: Cutter, a: nat, b: nat)
    requires Inv(tx, ps, c) && IsTopTwo(c.boundaries, a, b) && HasAll(c.received, a, b) && c.last < a
    ensures InTime(tx, ps, a, b)
  {
    forall i: nat | a <= i <= b ensures Arrived(ps, i) {
      assert i in c.received;
    }
    forall i: nat | b < i && IsBoundary(tx(i)) ensures !Arrived(ps, i) {
      assert i !in c.boundaries;
    }
  }

  /** Forgetting what lies before the published frame loses nothing that a later frame needs. */
  lemma PruneKeepsInv(tx: Stream, ps: seq<Arrival>, c: Cutter, a: nat, b: nat)
    requires Inv(tx, ps, c) && IsTopTwo(c.boundaries, a, b) && c.last < a
    ensures Inv(tx, ps, Prune(c, a))
  {
    assert a in c.boundaries - {b} && b in c.boundaries && a < b;
    var d := Prune(c, a);
    assert b in d.boundaries && a in d.boundaries;
  }

  /** A published frame is a frame of the sender, newer than the one before, and in time. */
  lemma PublishedIsTrue(tx: Stream, ps: seq<Arrival>, c: Cutter) returns (b: nat)
    requires Inv(tx, ps, c) && Process(c).1.Some?
    ensures var e := Process(c).1.value;
            && IsFrame(tx, e.idx, b) && e.data == FrameData(tx, e.idx, b)
            && c.last < e.idx == Process(c).0.last
            && InTime(tx, ps, e.idx, b)
    ensures Inv(tx, ps, Process(c).0)
  {
    var a;
    a, b := PublishedTopTwo(c);
    TopTwoEncloseFrame(tx, ps, c, a, b);
    TopTwoInTime(tx, ps, c, a, b);
    PruneKeepsInv(tx, ps, c, a, b);
  }

  lemma PublishedTopTwo(c: Cutter) returns (a: nat, b: nat)
    requires Process(c).1.Some?
    ensures IsTopTwo(c.boundaries, a, b) && HasAll(c.received, a, b) && a != c.last
    ensures Process(c) == (Prune(c, a), Some(VideoFrame(a, Cut(c.received, a, b))))
  {
    TopTwoExist(c.boundaries);
    a, b :| IsTopTwo(c.boundaries, a, b) && HasAll(c.received, a, b) && a != c.last
            && Process(c) == (Prune(c, a), Some(VideoFrame(a, Cut(c.received, a, b))));
  }

  ghost predicate Increasing(es: seq<VideoFrame>) {
    forall i, j :: 0 <= i < j < |es| ==> es[i].idx < es[j].idx
  }

  ghost predicate IsPublished(tx: Stream, es: seq<VideoFrame>, a: nat, b: nat) {
    VideoFrame(a, FrameData(tx, a, b)) in es
  }

  /** Every published frame is a frame of the sender, none is older than the last, and the last
      one is among them. */
  ghost predicate AreTrue(tx: Stream, c: Cutter, es: seq<VideoFrame>) {
    && (forall e :: e in es ==>
          e.idx <= c.last && exists b: nat :: IsFrame(tx, e.idx, b) && e.data == FrameData(tx, e.idx, b))
    && (c.last >= 0 ==> exists e :: e in es && e.idx == c.last)
  }

  lemma PublishStep(tx: Stream, ps: seq<Arrival>, c: Cutter, es: seq<VideoFrame>)
    requires Inv(tx, ps, c) && AreTrue(tx, c, es) && Increasing(es)
    ensures var (d, e) := Process(c);
            Inv(tx, ps, d) && AreTrue(tx, d, es + Listed(e)) && Increasing(es + Listed(e))
  {
    if Process(c).1.Some? {
      var e := Process(c).1.value;
      var b := PublishedIsTrue(tx, ps, c);
      assert (es + [e])[|es|] == e;
    } else {
      assert es + [] == es;
    }
  }

  /** Everything published is a whole true frame: no chunk missing, no neighbours merged. The
      published indices strictly increase. */
  lemma {:induction false} AllPublishedAreTrue(tx: Stream, ps: seq<Arrival>)
    requires Sent(tx, ps)
    ensures var (c, es) := Run(Step, EMPTY, ps);
            Inv(tx, ps, c) && AreTrue(tx, c, es) && Increasing(es)
    decreases |ps|
  {
    if ps != [] {
      var before, p := ps[..|ps| - 1], ps[|ps| - 1];
      assert ps == before + [p];
      AllPublishedAreTrue(tx, before);
      var (c, es) := Run(Step, EMPTY, before);
      RunSnoc(Step, EMPTY, before, p);
      AcceptKeepsInv(tx, before, c, p);
      PublishStep(tx, ps, Accept(c, p), es);
    }
  }

  // ----- exactly which frames are published

  /** Two frames of the sender with the same first index are the same. */
  lemma FrameEndUnique(tx: Stream, a: nat, b: nat, b': nat)
    requires IsFrame(tx, a, b) && IsFrame(tx, a, b')
    ensures b == b'
  {
  }

  /** While a frame is in time, nothing newer has been published, so none of it is pruned. */
  lemma LastNotBeyond(tx: Stream, ps: seq<Arrival>, c: Cutter, a: nat, b: nat)
    requires Inv(tx, ps, c) && IsFrame(tx, a, b) && InTime(tx, ps, a, b)
    ensures c.last <= a
  {
    if c.last >= 0 {
      var later :| later in c.boundaries && c.last < later;
      assert Arrived(ps, later) && IsBoundary(tx(later));
      assert later <= b;
      assert !(a < c.last < b);
    }
  }

  /** A state in which a frame is in time has published it already or publishes it now. */
  lemma InTimeIsCut(tx: Stream, ps: seq<Arrival>, c: Cutter, a: nat, b: nat)
    requires Inv(tx, ps, c) && IsFrame(tx, a, b) && InTime(tx, ps, a, b)
    ensures c.last == a || Process(c).1 == Some(VideoFrame(a, FrameData(tx, a, b)))
  {
    LastNotBeyond(tx, ps, c, a, b);
    assert Arrived(ps, a) && Arrived(ps, b);
    assert a in c.boundaries && b in c.boundaries;
    assert IsTop(c.boundaries, b);
    forall x | x in c.boundaries - {b} ensures x <= a {
      assert IsBoundary(tx(x)) && Arrived(ps, x);
    }
    assert IsTopTwo(c.boundaries, a, b);
    assert {a, b} <= c.boundaries && |{a, b}| == 2;
    SubsetSize({a, b}, c.boundaries);
    assert HasAll(c.received, a, b) by {
      forall i | a <= i < b ensures i in c.received {
        assert Arrived(ps, i);
      }
    }
    CutIsFrameData(tx, c.received, a, b);
    forall x: nat, y: nat | IsTopTwo(c.boundaries, x, y) ensures x == a && y == b {
    }
  }

  lemma SubsetSize(s: set<nat>, t: set<nat>)
    requires s <= t
    ensures |s| <= |t|
  {
    assert t == s + (t - s);
  }

  /** A frame of the sender is published if and only if, at some moment of the run, all its packets
      and the next frame's start had arrived while no later start had. */
  lemma {:induction false} PublishedIffInTime(tx: Stream, ps: seq<Arrival>, a: nat, b: nat)
    requires Sent(tx, ps) && IsFrame(tx, a, b)
    ensures IsPublished(tx, Run(Step, EMPTY, ps).1, a, b)
       <==> exists k :: 0 <= k <= |ps| && InTime(tx, ps[..k], a, b)
    decreases |ps|
  {
    if ps == [] {
      assert !Arrived(ps[..0], a);
    } else {
      var before, p := ps[..|ps| - 1], ps[|ps| - 1];
      assert ps == before + [p];
      PublishedIffInTime(tx, before, a, b);
      AllPublishedAreTrue(tx, before);
      var (c, es) := Run(Step, EMPTY, before);
      assert Run(Step, EMPTY, ps).1 == es + Listed(Step(c, p).1) by {
        RunSnoc(Step, EMPTY, before, p);
      }
      PublishedStep(tx, before, c, es, p, a, b);
      InTimePrefixes(tx, before, p, a, b);
    }
  }

  lemma InTimePrefixes(tx: Stream, ps: seq<Arrival>, p: Arrival, a: nat, b: nat)
    ensures (exists k :: 0 <= k <= |ps + [p]| && InTime(tx, (ps + [p])[..k], a, b))
       <==> (exists k :: 0 <= k <= |ps| && InTime(tx, ps[..k], a, b)) || InTime(tx, ps + [p], a, b)
  {
    var qs := ps + [p];
    assert qs[..|qs|] == qs;
    assert forall k :: 0 <= k <= |ps| ==> qs[..k] == ps[..k];
    if k :| 0 <= k <= |qs| && InTime(tx, qs[..k], a, b) {
      assert k <= |ps| ==> InTime(tx, ps[..k], a, b);
    }
    if k :| 0 <= k <= |ps| && InTime(tx, ps[..k], a, b) {
      assert InTime(tx, qs[..k], a, b);
    }
    if InTime(tx, qs, a, b) {
      assert InTime(tx, qs[..|qs|], a, b);
    }
  }

  lemma PublishedStep(tx: Stream, ps: seq<Arrival>, c: Cutter, es: seq<VideoFrame>, p: Arrival, a: nat, b: nat)
    requires Inv(tx, ps, c) && p.raw == tx(p.index) && IsFrame(tx, a, b) && AreTrue(tx, c, es)
    ensures Step(c, p).1 == Some(VideoFrame(a, FrameData(tx, a, b))) ==> InTime(tx, ps + [p], a, b)
    ensures InTime(tx, ps + [p], a, b) ==> IsPublished(tx, es + Listed(Step(c, p).1), a, b)
  {
    AcceptKeepsInv(tx, ps, c, p);
    var d := Accept(c, p);
    if Process(d).1.Some? {
      var b' := PublishedIsTrue(tx, ps + [p], d);
      if Process(d).1.value.idx == a {
        FrameEndUnique(tx, a, b, b');
      }
    }
    if InTime(tx, ps + [p], a, b) {
      InTimeIsCut(tx, ps + [p], d, a, b);
      if c.last == a {
        var e :| e in es && e.idx == a;
        var b': nat :| IsFrame(tx, e.idx, b') && e.data == FrameData(tx, e.idx, b');
        FrameEndUnique(tx, a, b, b');
      }
    }
  }
}
