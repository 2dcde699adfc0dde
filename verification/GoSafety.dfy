/** What holds of the Go assembler on every packet sequence whatsoever: where each stored chunk and
    each emitted byte comes from, and how many frames can come out. */
module GoSafety {
  import opened Bytes
  import opened VideoFrames
  import opened GoAssembler
  import opened Machine
  import JpegTrim

  /** Slot of the j-th packet of a window, counted from the window's first packet. */
  function SlotOf(w: seq<Packet>, j: nat): nat
    requires j < |w|
  {
    Distance(w[0].index, w[j].index)
  }

  function Payload(w: seq<Packet>, j: nat): Bytes
    requires j < |w| && IsGoodStart(w[0])
  {
    if j == 0 then w[0].data[32..] else w[j].data
  }

  /** Packet j is the first of the window to fall into slot s. */
  ghost predicate FirstAt(w: seq<Packet>, s: nat, j: nat) {
    && j < |w|
    && SlotOf(w, j) == s
    && forall i: nat :: i < j ==> SlotOf(w, i) != s
  }

  /** The packets since the frame's start packet: one good start, then only continuation packets
      that lie within reach of it. */
  ghost predicate IsWindow(w: seq<Packet>) {
    && |w| > 0
    && IsGoodStart(w[0])
    && forall j: nat :: 0 < j < |w| ==> !IsStart(w[j]) && SlotOf(w, j) <= 128
  }

  /** Every stored chunk is the payload that first reached its slot. */
  ghost predicate FirstsStored(w: seq<Packet>, chunks: map<nat, Bytes>)
    requires IsWindow(w)
  {
    forall s: nat, j: nat :: FirstAt(w, s, j) ==> s in chunks && chunks[s] == Payload(w, j)
  }

  ghost predicate OnlyFirstsStored(w: seq<Packet>, chunks: map<nat, Bytes>) {
    forall s :: s in chunks ==> exists j: nat :: FirstAt(w, s, j)
  }

  /** The frame holds, for exactly the slots the window touches, the payload that touched it first. */
  ghost predicate Explains(w: seq<Packet>, f: Frame) {
    && IsWindow(w)
    && f.startIndex == w[0].index
    && f.expectedLength == Le32(w[0].data[16..20])
    && FirstsStored(w, f.chunks)
    && OnlyFirstsStored(w, f.chunks)
  }

  lemma OpenedExplained(p: Packet)
    requires IsGoodStart(p)
    ensures Explains([p], Insert(Opened(p), 0, p.data[HEADER_SIZE..]))
  {
    assert FirstAt([p], 0, 0);
  }

  /** Whatever touches a slot, some packet of the window touched it first. */
  lemma {:induction false} SomeFirst(w: seq<Packet>, j: nat) returns (i: nat)
    requires j < |w|
    ensures i <= j && FirstAt(w, SlotOf(w, j), i)
    decreases j
  {
    if FirstAt(w, SlotOf(w, j), j) {
      i := j;
    } else {
      var k: nat :| k < j && SlotOf(w, k) == SlotOf(w, j);
      i := SomeFirst(w, k);
    }
  }

  lemma FirstAtSnoc(w: seq<Packet>, p: Packet, s: nat, j: nat)
    requires |w| > 0
    ensures j < |w| ==> (FirstAt(w + [p], s, j) <==> FirstAt(w, s, j))
    ensures FirstAt(w + [p], s, |w|)
       <==> Distance(w[0].index, p.index) == s && forall i: nat :: !FirstAt(w, s, i)
  {
    var v := w + [p];
    assert forall i: nat :: i < |w| ==> SlotOf(v, i) == SlotOf(w, i);
    assert SlotOf(v, |w|) == Distance(w[0].index, p.index);
    if FirstAt(v, s, |w|) {
      forall i: nat ensures !FirstAt(w, s, i) {
        assert i < |w| ==> SlotOf(v, i) != s;
      }
    }
    if SlotOf(v, |w|) == s && forall i: nat :: !FirstAt(w, s, i) {
      forall i: nat | i < |w| ensures SlotOf(v, i) != s {
        var k := SomeFirst(w, i);
      }
    }
  }

  lemma InsertExplained(w: seq<Packet>, f: Frame, p: Packet)
    requires Explains(w, f) && !IsStart(p)
    requires Distance(f.startIndex, p.index) <= 128
    ensures Explains(w + [p], Insert(f, Distance(f.startIndex, p.index), p.data))
  {
    var v := w + [p];
    var slot := Distance(f.startIndex, p.index);
    var g := Insert(f, slot, p.data);
    assert IsWindow(v) by {
      assert forall i: nat :: i < |w| ==> SlotOf(v, i) == SlotOf(w, i);
    }
    forall s | s in g.chunks ensures exists j: nat :: FirstAt(v, s, j) {
      if s in f.chunks {
        var j: nat :| FirstAt(w, s, j);
        FirstAtSnoc(w, p, s, j);
      } else {
        assert forall i: nat :: !FirstAt(w, s, i);
        FirstAtSnoc(w, p, s, |w|);
      }
    }
    forall s: nat, j: nat | FirstAt(v, s, j) ensures s in g.chunks && g.chunks[s] == Payload(v, j) {
      FirstAtSnoc(w, p, s, j);
    }
  }

  /** A start packet opens a window of its own, any other packet extends the current one. */
  lemma StepExplained(st: Option<Frame>, w: seq<Packet>, p: Packet)
    requires Step(st, p).0.Some?
    ensures IsStart(p) ==> Explains([p], Step(st, p).0.value)
    ensures !IsStart(p) ==> st.Some?
    ensures !IsStart(p) && Explains(w, st.value) ==> Explains(w + [p], Step(st, p).0.value)
  {
    if IsStart(p) {
      OpenedExplained(p);
    } else if Explains(w, st.value) {
      InsertExplained(w, st.value, p);
    }
  }

  /** In every reachable state, the open frame is explained by the packets since its start. */
  lemma {:induction false} OpenFrameExplained(ps: seq<Packet>) returns (k: nat)
    requires Run(Step, None, ps).0.Some?
    ensures k < |ps| && Explains(ps[k..], Run(Step, None, ps).0.value)
    decreases |ps|
  {
    assert ps != [];
    hide Explains, Step, Run, IsStart;
    var before, p := ps[..|ps| - 1], ps[|ps| - 1];
    assert ps == before + [p];
    var st := Run(Step, None, before).0;
    assert Run(Step, None, ps).0 == Step(st, p).0 by {
      RunSnoc(Step, None, before, p);
    }
    StepExplained(st, [], p);
    if IsStart(p) {
      k := |ps| - 1;
      assert ps[k..] == [p];
    } else {
      k := OpenFrameExplained(before);
      StepExplained(st, before[k..], p);
      assert before[k..] + [p] == ps[k..];
    }
  }

  /** In every reachable state the slots lie in 0 to 128 with slot 0 present, `maxSlot` is the
      greatest of them and `receivedLength` counts the stored bytes. */
  lemma {:induction false} OpenFrameOk(ps: seq<Packet>)
    requires Run(Step, None, ps).0.Some?
    ensures FrameOk(Run(Step, None, ps).0.value)
    decreases |ps|
  {
    assert ps != [];
    var before, p := ps[..|ps| - 1], ps[|ps| - 1];
    assert ps == before + [p];
    RunSnoc(Step, None, before, p);
    if IsStart(p) {
      OpenedOk(p);
    } else {
      OpenFrameOk(before);
      var f := Run(Step, None, before).0.value;
      InsertOk(f, Distance(f.startIndex, p.index), p.data);
    }
  }

  // ----- provenance of what is emitted

  /** The payload that reached slot s first. */
  ghost predicate IsFirstPayload(w: seq<Packet>, s: nat, part: Bytes)
    requires IsWindow(w)
  {
    exists j: nat :: FirstAt(w, s, j) && part == Payload(w, j)
  }

  ghost predicate AreFirsts(w: seq<Packet>, parts: seq<Bytes>)
    requires IsWindow(w)
  {
    forall s: nat :: s < |parts| ==> IsFirstPayload(w, s, parts[s])
  }

  /** Nothing of the window lies at or behind slot n. */
  ghost predicate NothingBehind(w: seq<Packet>, n: nat) {
    forall s: nat, j: nat :: FirstAt(w, s, j) ==> s < n
  }

  /** The emission is made of the payloads that first reached slots 0, 1, 2, ... of the window
      without a hole: cut to the announced length, or, when they are too few and nothing arrived
      behind them, the JPEG inside them. */
  ghost predicate MadeFrom(w: seq<Packet>, parts: seq<Bytes>, e: Emission) {
    && IsWindow(w)
    && AreFirsts(w, parts)
    && var announced := Le32(w[0].data[16..20]);
       match e
       case Full(d) => |d| == announced && d <= Flatten(parts)
       case Trimmed(d) =>
         && |Flatten(parts)| < announced && NothingBehind(w, |parts|)
         && d == JpegTrim.Trim(Flatten(parts)) && d != []
  }

  function Parts(chunks: map<nat, Bytes>, n: nat): (parts: seq<Bytes>)
    requires Filled(chunks, n)
    ensures |parts| == n && forall s: nat :: s < n ==> parts[s] == chunks[s]
  {
    seq(n, s requires 0 <= s < n => chunks[s])
  }

  lemma {:induction false} FlattenParts(chunks: map<nat, Bytes>, n: nat)
    requires Filled(chunks, n)
    ensures Flatten(Parts(chunks, n)) == Joined(chunks, n)
  {
    if n > 0 {
      FlattenParts(chunks, n - 1);
      assert Parts(chunks, n) == Parts(chunks, n - 1) + [chunks[n - 1]];
      FlattenAppend(Parts(chunks, n - 1), [chunks[n - 1]]);
      assert Flatten([chunks[n - 1]]) == chunks[n - 1] + Flatten([chunks[n - 1]][1..]);
    }
  }

  lemma PartsAreFirsts(w: seq<Packet>, f: Frame, n: nat)
    requires Explains(w, f) && Filled(f.chunks, n)
    ensures AreFirsts(w, Parts(f.chunks, n))
  {
    forall s: nat | s < n ensures IsFirstPayload(w, s, Parts(f.chunks, n)[s]) {
      assert s in f.chunks;
      var j: nat :| FirstAt(w, s, j);
    }
  }

  lemma BoundaryExplained(w: seq<Packet>, f: Frame)
    requires Explains(w, f) && FrameOk(f) && Boundary(f).Some?
    ensures MadeFrom(w, Parts(f.chunks, Reach(f)), Boundary(f).value)
  {
    var parts := Parts(f.chunks, Reach(f));
    assert AreFirsts(w, parts) by {
      PartsAreFirsts(w, f, Reach(f));
    }
    assert Flatten(parts) == Body(f) by {
      FlattenParts(f.chunks, Reach(f));
    }
    if Boundary(f).value.Trimmed? {
      forall s: nat, j: nat | FirstAt(w, s, j) ensures s < Reach(f) {
        assert s in f.chunks;
      }
    }
  }

  /** Every emission, after whatever packets, is that of a frame explained by one window of the packets
      that arrived: a window that ends just before the packet that triggered it, or with it. */
  lemma EmissionFrame(ps: seq<Packet>, p: Packet) returns (w: seq<Packet>, f: Frame)
    requires Step(Run(Step, None, ps).0, p).1.Some?
    ensures exists k: nat :: k <= |ps| && (w == ps[k..] || w == ps[k..] + [p])
    ensures Explains(w, f) && FrameOk(f) && Step(Run(Step, None, ps).0, p).1 == Boundary(f)
  {
    var st := Run(Step, None, ps).0;
    if Flush(st).Some? && (IsStart(p) || Distance(st.value.startIndex, p.index) > 128) {
      var k := OpenFrameExplained(ps);
      OpenFrameOk(ps);
      f, w := st.value, ps[k..];
    } else if IsStart(p) {
      f, w := Insert(Opened(p), 0, p.data[HEADER_SIZE..]), [p];
      OpenedExplained(p);
      OpenedOk(p);
      assert w == ps[|ps|..] + [p];
    } else {
      var k := OpenFrameExplained(ps);
      OpenFrameOk(ps);
      var slot := Distance(st.value.startIndex, p.index);
      InsertExplained(ps[k..], st.value, p);
      InsertOk(st.value, slot, p.data);
      f, w := Insert(st.value, slot, p.data), ps[k..] + [p];
    }
  }

  /** And so it is made from the payloads that reached the slots of that window first. */
  lemma EmissionExplained(ps: seq<Packet>, p: Packet) returns (w: seq<Packet>, parts: seq<Bytes>)
    requires Step(Run(Step, None, ps).0, p).1.Some?
    ensures exists k: nat :: k <= |ps| && (w == ps[k..] || w == ps[k..] + [p])
    ensures MadeFrom(w, parts, Step(Run(Step, None, ps).0, p).1.value)
  {
    var f;
    w, f := EmissionFrame(ps, p);
    parts := Parts(f.chunks, Reach(f));
    BoundaryExplained(w, f);
  }

  /** A full frame has the announced length, and a trimmed one is a whole JPEG that trimming
      leaves as it is. */
  lemma EmissionShape(w: seq<Packet>, parts: seq<Bytes>, e: Emission)
    requires MadeFrom(w, parts, e)
    ensures e.Full? ==> 0 < |e.data| <= 0x8_0000
    ensures e.Trimmed? ==>
              && JpegTrim.SoiAt(e.data, 0) && |e.data| >= 4
              && JpegTrim.EoiAt(e.data, |e.data| - 2)
              && JpegTrim.Trim(e.data) == e.data
  {
    if e.Trimmed? {
      var bytes := Flatten(parts);
      JpegTrim.TrimIdempotent(bytes);
      var a := JpegTrim.FirstSoi(bytes, 0).value;
      var b := JpegTrim.LastEoi(bytes, a + 2, |bytes|).value;
      JpegTrim.TrimIsWidestImage(bytes, a, b);
    }
  }

  // ----- frames out against starts in

  function GoodStarts(ps: seq<Packet>): nat {
    if ps == [] then 0
    else GoodStarts(ps[..|ps| - 1]) + if IsGoodStart(ps[|ps| - 1]) then 1 else 0
  }

  /** Frames emitted, together with the one still open, never outnumber the good start packets. */
  lemma {:induction false} EmissionsBoundedByStarts(ps: seq<Packet>)
    ensures |Run(Step, None, ps).1| + (if Run(Step, None, ps).0.Some? then 1 else 0) <= GoodStarts(ps)
    decreases |ps|
  {
    if ps != [] {
      var before, p := ps[..|ps| - 1], ps[|ps| - 1];
      assert ps == before + [p];
      RunSnoc(Step, None, before, p);
      EmissionsBoundedByStarts(before);
    }
  }
}
