/** The Go assembler against a camera's true stream: whatever is lost, starts included, repeated or
    reordered, every frame that comes out in full is one whole frame of the camera. */
module GoTrueFrames {
  import opened Bytes
  import opened VideoFrames
  import opened GoAssembler
  import opened GoSafety
  import opened Machine
  import JpegTrim

  /** The packet the camera sends under each (unbounded) index. */
  type Stream = nat -> Packet

  ghost predicate IsStream(tx: Stream) {
    forall t: nat :: tx(t).index == t % 0x1_0000
  }

  ghost predicate IsFrame(tx: Stream, a: nat, b: nat) {
    && a < b && IsStart(tx(a)) && IsStart(tx(b))
    && forall t: nat :: a < t < b ==> !IsStart(tx(t))
  }

  /** Payload of packet t of the frame that starts with packet a. */
  function PayloadOf(tx: Stream, a: nat, t: nat): Bytes {
    if t == a && |tx(a).data| >= 32 then tx(a).data[32..] else tx(t).data
  }

  /** What the packets a to b-1 carry. */
  function FrameData(tx: Stream, a: nat, b: nat): Bytes
    decreases b
  {
    if b <= a then [] else FrameData(tx, a, b - 1) + PayloadOf(tx, a, b - 1)
  }

  function Announced(p: Packet): nat
    requires IsGoodStart(p)
  {
    Le32(p.data[16..20])
  }

  ghost predicate HasEnd(tx: Stream, a: nat) {
    exists b: nat :: IsFrame(tx, a, b)
  }

  /** Every frame ends, and a well-formed start announces the length its frame has. */
  ghost predicate SendsExactFrames(tx: Stream) {
    && (forall a: nat {:trigger HasEnd(tx, a)} :: IsStart(tx(a)) ==> HasEnd(tx, a))
    && (forall a: nat, b: nat :: IsFrame(tx, a, b) && IsGoodStart(tx(a)) ==>
          Announced(tx(a)) == |FrameData(tx, a, b)|)
  }

  function Packets(tx: Stream, ts: seq<nat>): (ps: seq<Packet>)
    ensures |ps| == |ts| && forall i :: 0 <= i < |ps| ==> ps[i] == tx(ts[i])
  {
    seq(|ts|, i requires 0 <= i < |ts| => tx(ts[i]))
  }

  /** Close enough to a start for the 16-bit index to tell the slot. */
  predicate IsNear(start: nat, t: nat) {
    -65407 <= t - start < 0x1_0000
  }

  /** Every packet is near the last start that arrived before it. */
  ghost predicate AllNear(tx: Stream, ts: seq<nat>) {
    forall i, j :: 0 <= i < j < |ts| && IsStart(tx(ts[i])) && NoStartsIn(tx, ts[i + 1..j + 1]) ==> IsNear(ts[i], ts[j])
  }

  ghost predicate NoStartsIn(tx: Stream, ts: seq<nat>) {
    forall k :: 0 <= k < |ts| ==> !IsStart(tx(ts[k]))
  }

  /** A slot within reach is the difference of the true indices. */
  lemma SlotIsDifference(start: nat, t: nat)
    requires IsNear(start, t) && Distance(start % 0x1_0000, t % 0x1_0000) <= 128
    ensures t >= start && Distance(start % 0x1_0000, t % 0x1_0000) == t - start
  {
    var d := if t >= start then t - start else t - start + 0x1_0000;
    WrapAdd(start, d);
    WrapMultiple(t, 1);
    DistanceUnique(start % 0x1_0000, t % 0x1_0000, d);
  }

  /** The true indices of a window that the assembler put a frame together from. */
  ghost predicate WindowOf(tx: Stream, us: seq<nat>) {
    && us != [] && GoSafety.IsWindow(Packets(tx, us))
    && forall j :: 0 <= j < |us| ==> IsNear(us[0], us[j])
  }

  /** The payload that reached a slot first is that of the packet the slot stands for. */
  lemma FirstIsTrue(tx: Stream, us: seq<nat>, s: nat, part: Bytes)
    requires IsStream(tx) && WindowOf(tx, us)
    requires IsFirstPayload(Packets(tx, us), s, part)
    ensures s > 0 ==> !IsStart(tx(us[0] + s))
    ensures part == PayloadOf(tx, us[0], us[0] + s)
  {
    var w := Packets(tx, us);
    var j: nat :| FirstAt(w, s, j) && part == Payload(w, j);
    assert w[j] == tx(us[j]) && w[0] == tx(us[0]);
    DistanceUnique(w[0].index, w[0].index, 0);
    assert SlotOf(w, 0) == 0 && SlotOf(w, j) == s;
    if j > 0 {
      SlotIsDifference(us[0], us[j]);
      assert us[j] == us[0] + s;
    }
  }

  /** The payloads of packet a and the packets behind it, none of which is a start. */
  ghost predicate TrueParts(tx: Stream, a: nat, parts: seq<Bytes>) {
    && (forall s :: 0 <= s < |parts| ==> parts[s] == PayloadOf(tx, a, a + s))
    && (forall t: nat :: a < t < a + |parts| ==> !IsStart(tx(t)))
  }

  lemma FirstsAreTrue(tx: Stream, us: seq<nat>, parts: seq<Bytes>)
    requires IsStream(tx) && WindowOf(tx, us) && AreFirsts(Packets(tx, us), parts)
    ensures TrueParts(tx, us[0], parts)
  {
    assert us != [];
    hide IsStart, PayloadOf, IsStream, WindowOf, IsFirstPayload, GoSafety.IsWindow;
    forall s | 0 <= s < |parts| ensures parts[s] == PayloadOf(tx, us[0], us[0] + s) {
      FirstIsTrue(tx, us, s, parts[s]);
    }
    forall t: nat | us[0] < t < us[0] + |parts| ensures !IsStart(tx(t)) {
      FirstIsTrue(tx, us, t - us[0], parts[t - us[0]]);
    }
  }

  lemma {:induction false} PartsAreData(tx: Stream, a: nat, parts: seq<Bytes>)
    requires TrueParts(tx, a, parts)
    ensures Flatten(parts) == FrameData(tx, a, a + |parts|)
    decreases |parts|
  {
    hide PayloadOf, IsStart;
    if parts != [] {
      var n := |parts| - 1;
      var before := parts[..n];
      assert TrueParts(tx, a, before) && parts[n] == PayloadOf(tx, a, a + n);
      hide TrueParts, Flatten;
      PartsAreData(tx, a, before);
      assert parts == before + [parts[n]];
      FlattenAppend(before, [parts[n]]);
      FlattenOne(parts[n]);
    }
  }

  lemma {:induction false} FrameDataGrows(tx: Stream, a: nat, m: nat, n: nat)
    requires a <= m <= n
    ensures FrameData(tx, a, m) <= FrameData(tx, a, n)
    decreases n
  {
    if m < n {
      FrameDataGrows(tx, a, m, n - 1);
    }
  }

  ghost predicate IsFrameData(tx: Stream, d: Bytes, a: nat, b: nat) {
    IsFrame(tx, a, b) && d == FrameData(tx, a, b)
  }

  /** The JPEG inside the packets a to m-1 of a frame of which at least one more packet is to come. */
  ghost predicate IsPartOfFrame(tx: Stream, d: Bytes, a: nat, m: nat, b: nat) {
    IsFrame(tx, a, b) && a <= m < b && d == JpegTrim.Trim(FrameData(tx, a, m))
  }

  ghost predicate IsTrue(tx: Stream, e: Emission) {
    match e
    case Full(d) => exists a: nat, b: nat :: IsFrameData(tx, d, a, b)
    case Trimmed(d) => exists a: nat, m: nat, b: nat :: IsPartOfFrame(tx, d, a, m, b)
  }

  /** What an emission is, given the announced length and the bytes up to the first hole. */
  ghost predicate IsCut(announced: nat, bytes: Bytes, e: Emission) {
    match e
    case Full(d) => |d| == announced && d <= bytes
    case Trimmed(d) => |bytes| < announced && d == JpegTrim.Trim(bytes)
  }

  lemma MadeFromFirsts(w: seq<Packet>, parts: seq<Bytes>, e: Emission)
    requires MadeFrom(w, parts, e)
    ensures |w| > 0 && GoSafety.IsWindow(w) && IsGoodStart(w[0]) && AreFirsts(w, parts)
    ensures IsCut(Announced(w[0]), Flatten(parts), e)
  {
  }

  /** What is made from the packets of one window belongs to one frame of the camera. */
  lemma MadeFromIsTrue(tx: Stream, us: seq<nat>, parts: seq<Bytes>, e: Emission)
    requires IsStream(tx) && SendsExactFrames(tx) && WindowOf(tx, us)
    requires MadeFrom(Packets(tx, us), parts, e)
    ensures IsTrue(tx, e)
  {
    hide WindowOf, IsStream, MadeFrom, AreFirsts, SendsExactFrames, IsTrue, IsCut, TrueParts, GoSafety.IsWindow;
    MadeFromFirsts(Packets(tx, us), parts, e);
    assert Packets(tx, us)[0] == tx(us[0]);
    FirstsAreTrue(tx, us, parts);
    CutIsTrue(tx, us[0], parts, e);
  }

  lemma FrameEnd(tx: Stream, a: nat) returns (b: nat)
    requires SendsExactFrames(tx) && IsGoodStart(tx(a))
    ensures IsFrame(tx, a, b)
  {
    assert HasEnd(tx, a);
    b :| IsFrame(tx, a, b);
  }

  lemma CutIsTrue(tx: Stream, a: nat, parts: seq<Bytes>, e: Emission)
    requires SendsExactFrames(tx) && TrueParts(tx, a, parts) && IsGoodStart(tx(a))
    requires IsCut(Announced(tx(a)), Flatten(parts), e)
    ensures IsTrue(tx, e)
  {
    hide SendsExactFrames, FrameData, Flatten, IsFrame, IsGoodStart, TrueParts, IsFrameData, IsPartOfFrame, Announced,
      JpegTrim.Trim;
    var b := FrameEnd(tx, a);
    PartsAreData(tx, a, parts);
    EndsBehind(tx, a, parts, b);
    match e
    case Full(d) => WholeFrame(tx, d, a, a + |parts|, b);
    case Trimmed(d) =>
      PartOfFrame(tx, d, a, a + |parts|, b);
  }

  lemma WholeFrame(tx: Stream, d: Bytes, a: nat, m: nat, b: nat)
    requires SendsExactFrames(tx) && IsFrame(tx, a, b) && IsGoodStart(tx(a)) && a <= m <= b
    requires d <= FrameData(tx, a, m) && |d| == Announced(tx(a))
    ensures IsFrameData(tx, d, a, b)
  {
    hide FrameData, Announced, IsFrame, IsGoodStart, HasEnd;
    assert Announced(tx(a)) == |FrameData(tx, a, b)|;
    FrameDataGrows(tx, a, m, b);
  }

  lemma PartOfFrame(tx: Stream, d: Bytes, a: nat, m: nat, b: nat)
    requires SendsExactFrames(tx) && IsFrame(tx, a, b) && IsGoodStart(tx(a)) && a <= m <= b
    requires |FrameData(tx, a, m)| < Announced(tx(a)) && d == JpegTrim.Trim(FrameData(tx, a, m))
    ensures IsPartOfFrame(tx, d, a, m, b)
  {
    hide FrameData, Announced, JpegTrim.Trim, IsFrame, IsGoodStart, HasEnd;
    assert Announced(tx(a)) == |FrameData(tx, a, b)|;
  }

  lemma EndsBehind(tx: Stream, a: nat, parts: seq<Bytes>, b: nat)
    requires IsFrame(tx, a, b) && TrueParts(tx, a, parts)
    ensures a + |parts| <= b
  {
  }

  lemma WindowIsNear(tx: Stream, ts: seq<nat>, k: nat)
    requires AllNear(tx, ts) && k < |ts| && GoSafety.IsWindow(Packets(tx, ts[k..]))
    ensures WindowOf(tx, ts[k..])
  {
    var us := ts[k..];
    var w := Packets(tx, us);
    assert IsStart(w[0]) && w[0] == tx(ts[k]);
    forall j | 0 < j < |us| ensures IsNear(us[0], us[j]) {
      var between := ts[k + 1..k + j + 1];
      forall i | 0 <= i < |between| ensures !IsStart(tx(between[i])) {
        assert between[i] == us[i + 1] && w[i + 1] == tx(us[i + 1]);
      }
      assert NoStartsIn(tx, between);
    }
  }

  lemma PacketsOfParts(tx: Stream, ts: seq<nat>, t: nat, k: nat)
    requires k <= |ts|
    ensures Packets(tx, ts)[k..] == Packets(tx, ts[k..])
    ensures Packets(tx, ts)[k..] + [tx(t)] == Packets(tx, (ts + [t])[k..])
  {
  }

  /** What comes out on one packet, after whatever packets. */
  lemma EmissionIsTrue(tx: Stream, ts: seq<nat>, t: nat)
    requires IsStream(tx) && SendsExactFrames(tx) && AllNear(tx, ts + [t])
    requires Step(Run(Step, None, Packets(tx, ts)).0, tx(t)).1.Some?
    ensures IsTrue(tx, Step(Run(Step, None, Packets(tx, ts)).0, tx(t)).1.value)
  {
    hide Step, Run, IsTrue, MadeFrom, AllNear, SendsExactFrames, IsStream, AreFirsts, IsCut, GoSafety.IsWindow,
      IsGoodStart, WindowOf, Packets;
    var ps, all := Packets(tx, ts), ts + [t];
    var w, parts := EmissionExplained(ps, tx(t));
    var e := Step(Run(Step, None, ps).0, tx(t)).1.value;
    MadeFromFirsts(w, parts, e);
    assert |ps| == |ts|;
    var k: nat :| k <= |ps| && (w == ps[k..] || w == ps[k..] + [tx(t)]);
    PacketsOfParts(tx, ts, t, k);
    if w == ps[k..] {
      NearPrefix(tx, ts, t);
      WindowIsNear(tx, ts, k);
      MadeFromIsTrue(tx, ts[k..], parts, e);
    } else {
      WindowIsNear(tx, all, k);
      MadeFromIsTrue(tx, all[k..], parts, e);
    }
  }

  lemma NearPrefix(tx: Stream, ts: seq<nat>, t: nat)
    requires AllNear(tx, ts + [t])
    ensures AllNear(tx, ts)
  {
    assert (ts + [t])[..|ts|] == ts;
    NearTake(tx, ts + [t], |ts|);
  }

  lemma NearTake(tx: Stream, ts: seq<nat>, n: nat)
    requires AllNear(tx, ts) && n <= |ts|
    ensures AllNear(tx, ts[..n])
  {
    var us := ts[..n];
    forall i, j | 0 <= i < j < n && IsStart(tx(us[i])) && NoStartsIn(tx, us[i + 1..j + 1])
      ensures IsNear(us[i], us[j])
    {
      assert us[i + 1..j + 1] == ts[i + 1..j + 1] && us[i] == ts[i] && us[j] == ts[j];
    }
  }

  /** Under any loss, repetition and reordering, of starts as well, a frame that comes out in full is
      one whole frame of the camera, byte for byte, and a trimmed one is the JPEG in the first packets
      of one frame. */
  lemma {:induction false} AllEmissionsAreTrue(tx: Stream, ts: seq<nat>)
    requires IsStream(tx) && SendsExactFrames(tx) && AllNear(tx, ts)
    ensures forall e :: e in Run(Step, None, Packets(tx, ts)).1 ==> IsTrue(tx, e)
    decreases |ts|
  {
    hide Step, IsTrue, AllNear, SendsExactFrames, IsStream;
    if ts == [] {
      assert Packets(tx, ts) == [];
    } else {
      var before, t := ts[..|ts| - 1], ts[|ts| - 1];
      assert ts == before + [t];
      assert Packets(tx, ts) == Packets(tx, before) + [tx(t)];
      NearPrefix(tx, before, t);
      AllEmissionsAreTrue(tx, before);
      RunSnoc(Step, None, Packets(tx, before), tx(t));
      if Step(Run(Step, None, Packets(tx, before)).0, tx(t)).1.Some? {
        EmissionIsTrue(tx, before, t);
      }
    }
  }
}
