/** What the Python client publishes against the frames as the camera sends them: a media header and
    payloads. The published bytes are the payloads. */
module PyCamera {
  import opened Bytes
  import opened Machine
  import opened PyTrueFrames
  import Cutting = PyFrameCutter
  import Session = PySession

  const CAMERA_MARK: Bytes := [0x55, 0xaa, 0x15, 0xa8]

  /** A frame as it is sent: the rest of its 32-byte header, and the payload of each packet. */
  datatype SentFrame = SentFrame(head: Bytes, chunks: seq<Bytes>)

  ghost predicate IsSent(f: SentFrame) {
    |f.head| == 28 && |f.chunks| >= 1 && forall k :: 1 <= k < |f.chunks| ==> !(CAMERA_MARK <= f.chunks[k])
  }

  function PacketOf(f: SentFrame, k: nat): Bytes
    requires k < |f.chunks|
  {
    if k == 0 then CAMERA_MARK + f.head + f.chunks[0] else f.chunks[k]
  }

  /** The stream carries the frame from index a on, and the next frame behind it. */
  ghost predicate Carries(tx: Stream, a: nat, f: SentFrame) {
    && IsSent(f)
    && (forall k :: 0 <= k < |f.chunks| ==> tx(a + k) == PacketOf(f, k))
    && CAMERA_MARK <= tx(a + |f.chunks|)
  }

  ghost predicate HasFrame(tx: Stream, a: nat) {
    exists f :: Carries(tx, a, f)
  }

  /** Every marked packet begins a frame. */
  ghost predicate CameraSends(tx: Stream) {
    forall a: nat {:trigger HasFrame(tx, a)} :: CAMERA_MARK <= tx(a) ==> HasFrame(tx, a)
  }

  // ----- single packets

  /** The header of 32 bytes is taken off, and nothing else. */
  lemma HeaderComesOff(head: Bytes, payload: Bytes)
    requires |head| == 28
    ensures Cutting.Stripped(CAMERA_MARK + head + payload) == payload
    ensures Cutting.IsBoundary(CAMERA_MARK + head + payload)
  {
    assert CAMERA_MARK <= CAMERA_MARK + head + payload;
    assert (CAMERA_MARK + head + payload)[32..] == payload;
  }

  lemma OthersStayWhole(raw: Bytes)
    ensures !(CAMERA_MARK <= raw) ==> Cutting.Stripped(raw) == raw && !Cutting.IsBoundary(raw)
    ensures CAMERA_MARK <= raw && |raw| < 32 ==> Cutting.Stripped(raw) == [] && Cutting.IsBoundary(raw)
  {
  }

  // ----- frames

  lemma {:induction false} DataIsPayload(tx: Stream, a: nat, f: SentFrame, n: nat)
    requires Carries(tx, a, f) && n <= |f.chunks|
    ensures FrameData(tx, a, a + n) == Flatten(f.chunks[..n])
    decreases n
  {
    hide Cutting.Stripped, Cutting.IsBoundary, Flatten;
    if n > 0 {
      DataIsPayload(tx, a, f, n - 1);
      var k := n - 1;
      assert tx(a + k) == PacketOf(f, k);
      if k == 0 {
        HeaderComesOff(f.head, f.chunks[0]);
      } else {
        OthersStayWhole(f.chunks[k]);
      }
      assert f.chunks[..n] == f.chunks[..k] + [f.chunks[k]];
      FlattenAppend(f.chunks[..k], [f.chunks[k]]);
      FlattenOne(f.chunks[k]);
    } else {
      assert f.chunks[..0] == [];
      NothingFlat();
    }
  }

  lemma NothingFlat()
    ensures Flatten([]) == []
  {
  }

  /** A carried frame is a frame of the stream, and its data are the payloads joined. */
  lemma CarriedFrame(tx: Stream, a: nat, f: SentFrame)
    requires Carries(tx, a, f)
    ensures IsFrame(tx, a, a + |f.chunks|)
    ensures FrameData(tx, a, a + |f.chunks|) == Flatten(f.chunks)
  {
    var b := a + |f.chunks|;
    assert tx(a + 0) == PacketOf(f, 0);
    HeaderComesOff(f.head, f.chunks[0]);
    assert Cutting.IsBoundary(tx(b));
    forall i: nat | a < i < b ensures !Cutting.IsBoundary(tx(i)) {
      assert tx(a + (i - a)) == PacketOf(f, i - a);
      OthersStayWhole(f.chunks[i - a]);
    }
    DataIsPayload(tx, a, f, |f.chunks|);
    assert f.chunks[..|f.chunks|] == f.chunks;
  }

  ghost predicate IsPayload(tx: Stream, e: Cutting.VideoFrame) {
    exists f :: Carries(tx, e.idx, f) && e.data == Flatten(f.chunks)
  }

  lemma FramesArePayload(tx: Stream, e: Cutting.VideoFrame, b: nat)
    requires CameraSends(tx) && IsFrame(tx, e.idx, b) && e.data == FrameData(tx, e.idx, b)
    ensures IsPayload(tx, e)
  {
    assert CAMERA_MARK <= tx(e.idx);
    assert HasFrame(tx, e.idx);
    var f :| Carries(tx, e.idx, f);
    CarriedFrame(tx, e.idx, f);
    FrameEndUnique(tx, e.idx, b, e.idx + |f.chunks|);
  }

  /** Under any loss, repetition and reordering everything published is the payload of one frame as the
      camera sent it, without any of its headers. */
  lemma PublishedArePayloads(tx: Stream, ps: seq<Cutting.Arrival>)
    requires CameraSends(tx) && Sent(tx, ps)
    ensures forall e :: e in Run(Cutting.Step, Cutting.EMPTY, ps).1 ==> IsPayload(tx, e)
  {
    AllPublishedAreTrue(tx, ps);
    forall e | e in Run(Cutting.Step, Cutting.EMPTY, ps).1 ensures IsPayload(tx, e) {
      var b: nat :| IsFrame(tx, e.idx, b) && e.data == FrameData(tx, e.idx, b);
      FramesArePayload(tx, e, b);
    }
  }

  /** And a frame's payload is published if and only if the frame was in time. */
  lemma PayloadPublishedIffInTime(tx: Stream, ps: seq<Cutting.Arrival>, a: nat, f: SentFrame)
    requires Sent(tx, ps) && Carries(tx, a, f)
    ensures Cutting.VideoFrame(a, Flatten(f.chunks)) in Run(Cutting.Step, Cutting.EMPTY, ps).1
            <==> exists k :: 0 <= k <= |ps| && InTime(tx, ps[..k], a, a + |f.chunks|)
  {
    hide Run, Cutting.Step, InTime, IsFrame, FrameData, Flatten, Carries, Sent;
    CarriedFrame(tx, a, f);
    PublishedIffInTime(tx, ps, a, a + |f.chunks|);
  }

  /** The same for whole sessions, from wrapped indices on. */
  lemma SessionPublishesPayloads(tx: Stream, ts: seq<Session.Sent>)
    requires CameraSends(tx) && Session.IsOrderly(ts)
    ensures forall e :: e in Run(Session.Step, Session.FRESH, Session.Wire(tx, ts)).1 ==> IsPayload(tx, e)
  {
    Session.SessionPublishes(tx, ts);
    forall e | e in Run(Session.Step, Session.FRESH, Session.Wire(tx, ts)).1 ensures IsPayload(tx, e) {
      var b: nat :| IsFrame(tx, e.idx, b) && e.data == FrameData(tx, e.idx, b);
      FramesArePayload(tx, e, b);
    }
  }
}
