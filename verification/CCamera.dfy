/** What the C client writes against the packets as the camera sends them: a header with the length in
    its bytes 16 to 19, and payloads. What is written are the payloads of one frame. */
module CCamera {
  import opened Bytes
  import opened Machine
  import opened VideoFrames
  import opened CFrameWriter
  import opened CTrueFrames

  const CAMERA_MARK: Bytes := [0x55, 0xaa, 0x15, 0xa8, 0x03, 0x00]

  /** A frame as it is sent: the header bytes around the length, and the payload of each packet. */
  datatype SentFrame = SentFrame(head: Bytes, tail: Bytes, chunks: seq<Bytes>)

  ghost predicate IsSent(f: SentFrame) {
    && |f.head| == 10 && |f.tail| == 12 && 1 <= |f.chunks| <= 32
    && (forall k :: 0 <= k < |f.chunks| ==> f.chunks[k] != [])
    && (forall k :: 1 <= k < |f.chunks| ==> !(CAMERA_MARK <= f.chunks[k]))
    && |Flatten(f.chunks)| < 0x8000_0000
  }

  function DataOf(f: SentFrame, k: nat): Bytes
    requires k < |f.chunks| && |Flatten(f.chunks)| < 0x8000_0000
  {
    if k == 0 then CAMERA_MARK + f.head + PutLe32(|Flatten(f.chunks)|) + f.tail + f.chunks[0] else f.chunks[k]
  }

  /** The packet under each (unbounded) index. */
  type Camera = nat -> Packet

  /** The camera sends the frame from index a on, and the next frame behind it. */
  ghost predicate Carries(cam: Camera, a: nat, f: SentFrame) {
    && IsSent(f)
    && (forall k :: 0 <= k < |f.chunks| ==> cam(a + k).data == DataOf(f, k))
    && CAMERA_MARK <= cam(a + |f.chunks|).data
  }

  ghost predicate HasFrame(cam: Camera, a: nat) {
    exists f :: Carries(cam, a, f)
  }

  ghost predicate CameraSends(cam: Camera) {
    && (forall t: nat :: cam(t).index == t % 0x1_0000 && HasPayload(cam(t)))
    && (forall a: nat {:trigger HasFrame(cam, a)} :: CAMERA_MARK <= cam(a).data ==> HasFrame(cam, a))
  }

  // ----- single packets

  /** The announced length stands in bytes 16 to 19, and the payload behind byte 31. */
  lemma StartIsParsed(i: Index, head: Bytes, n: nat, tail: Bytes, payload: Bytes)
    requires |head| == 10 && |tail| == 12 && n < 0x8000_0000 && payload != []
    ensures var p := Packet(i, CAMERA_MARK + head + PutLe32(n) + tail + payload);
            HasPayload(p) && Parse(p) == Fragment(i, Some(n), payload)
  {
    var p := Packet(i, CAMERA_MARK + head + PutLe32(n) + tail + payload);
    assert p.data[..6] == CAMERA_MARK;
    assert p.data[16..20] == PutLe32(n);
    assert p.data[32..] == payload;
    Le32RoundTrip(n);
  }

  /** A packet without the marker is all payload. */
  lemma OthersAreParsed(p: Packet)
    requires !(CAMERA_MARK <= p.data) && p.data != []
    ensures HasPayload(p) && Parse(p) == Fragment(p.index, None, p.data)
  {
  }

  /** The fragments the loop makes of the camera's packets. */
  function Fragments(cam: Camera): Stream {
    (t: nat) => if HasPayload(cam(t)) then Parse(cam(t)) else Fragment(cam(t).index, None, [0])
  }

  lemma FragmentOf(cam: Camera, a: nat, f: SentFrame, k: nat)
    requires CameraSends(cam) && Carries(cam, a, f) && k < |f.chunks|
    ensures Fragments(cam)(a + k)
            == Fragment((a + k) % 0x1_0000, if k == 0 then Some(|Flatten(f.chunks)|) else None, f.chunks[k])
  {
    var p := cam(a + k);
    assert p.data == DataOf(f, k) && p.index == (a + k) % 0x1_0000 && HasPayload(p);
    if k == 0 {
      StartIsParsed(p.index, f.head, |Flatten(f.chunks)|, f.tail, f.chunks[0]);
    } else {
      OthersAreParsed(p);
    }
  }

  lemma MarkedIsAnnounced(cam: Camera, t: nat)
    requires CameraSends(cam)
    ensures Fragments(cam)(t).announced.Some? <==> CAMERA_MARK <= cam(t).data
  {
    assert HasPayload(cam(t));
  }

  // ----- frames

  lemma {:induction false} SentIsFlatten(cam: Camera, a: nat, f: SentFrame, n: nat)
    requires CameraSends(cam) && Carries(cam, a, f) && n <= |f.chunks|
    ensures SentLength(Fragments(cam), a, a + n) == |Flatten(f.chunks[..n])|
    decreases n
  {
    hide CameraSends, Carries, Fragments, Flatten;
    if n > 0 {
      SentIsFlatten(cam, a, f, n - 1);
      FragmentOf(cam, a, f, n - 1);
      assert f.chunks[..n] == f.chunks[..n - 1] + [f.chunks[n - 1]];
      FlattenAppend(f.chunks[..n - 1], [f.chunks[n - 1]]);
      FlattenOne(f.chunks[n - 1]);
    } else {
      assert f.chunks[..0] == [];
      FlattenAppend([], []);
      NothingFlat();
    }
  }

  lemma NothingFlat()
    ensures Flatten([]) == []
  {
  }

  lemma CarriedFrame(cam: Camera, a: nat, f: SentFrame)
    requires CameraSends(cam) && Carries(cam, a, f)
    ensures IsFrame(Fragments(cam), a, a + |f.chunks|)
    ensures SentLength(Fragments(cam), a, a + |f.chunks|) == |Flatten(f.chunks)|
    ensures Fragments(cam)(a).announced == Some(|Flatten(f.chunks)|)
  {
    var n := |f.chunks|;
    assert 1 <= n && CAMERA_MARK <= cam(a + n).data;
    hide CameraSends, Carries, Fragments, Flatten;
    FragmentOf(cam, a, f, 0);
    MarkedIsAnnounced(cam, a + n);
    forall t: nat | a < t < a + n ensures Fragments(cam)(t).announced.None? {
      FragmentOf(cam, a, f, t - a);
    }
    SentIsFlatten(cam, a, f, n);
    assert f.chunks[..n] == f.chunks;
  }

  lemma FrameOf(cam: Camera, a: nat) returns (f: SentFrame)
    requires CameraSends(cam) && Fragments(cam)(a).announced.Some?
    ensures Carries(cam, a, f) && |f.chunks| >= 1
  {
    MarkedIsAnnounced(cam, a);
    assert HasFrame(cam, a);
    f :| Carries(cam, a, f);
  }

  lemma FrameEndUnique(tx: Stream, a: nat, b: nat, c: nat)
    requires IsFrame(tx, a, b) && IsFrame(tx, a, c)
    ensures b == c
  {
  }

  lemma FrameIsExact(cam: Camera, a: nat, b: nat)
    requires CameraSends(cam) && IsFrame(Fragments(cam), a, b)
    ensures b - a <= 32 && Fragments(cam)(a).announced.Some?
    ensures Fragments(cam)(a).announced.value == SentLength(Fragments(cam), a, b)
  {
    hide CameraSends, Fragments, Flatten;
    var f := FrameOf(cam, a);
    CarriedFrame(cam, a, f);
    FrameEndUnique(Fragments(cam), a, b, a + |f.chunks|);
  }

  lemma FrameHasEnd(cam: Camera, a: nat)
    requires CameraSends(cam) && Fragments(cam)(a).announced.Some?
    ensures HasEnd(Fragments(cam), a)
  {
    hide CameraSends, Fragments, Flatten, Carries;
    var f := FrameOf(cam, a);
    CarriedFrame(cam, a, f);
  }

  lemma FragmentIndex(cam: Camera, t: nat)
    requires CameraSends(cam)
    ensures Fragments(cam)(t).index == t % 0x1_0000
  {
    assert HasPayload(cam(t));
  }

  /** A camera that sends such frames sends what the fragment theorems ask for. */
  lemma CameraIsExact(cam: Camera)
    requires CameraSends(cam)
    ensures IsStream(Fragments(cam)) && SendsExactFrames(Fragments(cam))
  {
    hide CameraSends, Fragments, HasEnd, IsFrame;
    var tx := Fragments(cam);
    forall t: nat ensures tx(t).index == t % 0x1_0000 {
      FragmentIndex(cam, t);
    }
    forall a: nat | tx(a).announced.Some? ensures HasEnd(tx, a) {
      FrameHasEnd(cam, a);
    }
    forall a: nat, b: nat | IsFrame(tx, a, b)
      ensures tx(a).announced.Some? && b - a <= 32 && tx(a).announced.value == SentLength(tx, a, b)
    {
      FrameIsExact(cam, a, b);
    }
  }

  // ----- whole calls

  ghost predicate IsSentFrame(cam: Camera, e: Event) {
    e.Written? ==> exists a: nat, f :: Carries(cam, a, f) && e.frags == f.chunks
  }

  lemma FrameIsSent(cam: Camera, e: Event)
    requires CameraSends(cam) && IsWrittenFrame(Fragments(cam), e)
    ensures IsSentFrame(cam, e)
  {
    hide CameraSends, Fragments, Flatten, SentLength;
    if e.Written? {
      var tx := Fragments(cam);
      var b: nat :| IsFrameEndingAt(tx, e.frags, b);
      var a := b - |e.frags|;
      var f := FrameOf(cam, a);
      CarriedFrame(cam, a, f);
      FrameEndUnique(tx, a, b, a + |f.chunks|);
      forall k | 0 <= k < |f.chunks| ensures e.frags[k] == f.chunks[k] {
        FragmentOf(cam, a, f, k);
        assert e.frags[k] == tx(a + k).payload;
      }
      assert e.frags == f.chunks;
    }
  }

  /** The packets as the loop receives them. */
  function Arriving(cam: Camera, ts: seq<nat>): (fs: seq<Fragment>)
    ensures |fs| == |ts|
  {
    if ts == [] then [] else Arriving(cam, ts[..|ts| - 1]) + [Fragments(cam)(ts[|ts| - 1])]
  }

  lemma {:induction false} SameWrites(cam: Camera, w0: SaneWriter, ts: seq<nat>)
    ensures var k := Run(Tracker(Fragments(cam)), Begin(w0), ts);
            (k.0.o.writer, k.1) == Run(Step, w0, Arriving(cam, ts))
    decreases |ts|
  {
    hide Step, Fragments;
    if ts != [] {
      var before, t := ts[..|ts| - 1], ts[|ts| - 1];
      assert ts == before + [t];
      SameWrites(cam, w0, before);
      RunSnoc(Tracker(Fragments(cam)), Begin(w0), before, t);
      RunSnoc(Step, w0, Arriving(cam, before), Fragments(cam)(t));
    }
  }

  /** A call whose first packet is an accepted start writes the payloads of single frames, as the camera
      sent them, and nothing else, for any arrival. */
  lemma OnlySentFramesAreWritten(cam: Camera, w0: SaneWriter, ts: seq<nat>)
    requires CameraSends(cam) && AllFresh(Fragments(cam), w0, ts)
    requires ts != [] ==> Accepts(w0, Fragments(cam)(ts[0])) && CAMERA_MARK <= cam(ts[0]).data
    ensures forall e :: e in Run(Step, w0, Arriving(cam, ts)).1 ==> IsSentFrame(cam, e)
  {
    hide Step, AllFresh, Accepts, CameraSends, Fragments, IsSentFrame;
    CameraIsExact(cam);
    if ts != [] {
      MarkedIsAnnounced(cam, ts[0]);
    }
    OnlyFramesAreWritten(Fragments(cam), w0, ts);
    SameWrites(cam, w0, ts);
    forall e | e in Run(Step, w0, Arriving(cam, ts)).1 ensures IsSentFrame(cam, e) {
      FrameIsSent(cam, e);
    }
  }
}
