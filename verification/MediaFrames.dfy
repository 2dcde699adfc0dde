/** The length-delimited media frames of the audio channel: one packet may carry several of them,
    each behind a 32-byte header. */
module MediaFrames {
  import opened Bytes

  const HEADER: nat := 32

  const MAGIC: Bytes := [0x55, 0xaa, 0x15, 0xa8]

  const LEGACY_MAGIC: Bytes := [0x55, 0xaa, 0x15, 0xa8, 0xaa, 0x01]

  const SERIALS: nat := 0x1_0000_0000

  /** A media-frame index as it travels: 32 bits, wrapping. */
  type Serial = Word

  /** `index` is absent for a payload without a usable header; `reset` restarts the decoder. */
  datatype AudioFrame = AudioFrame(data: Bytes, index: Option<Serial>, reset: bool)

  /** A whole frame stands at the front of the bytes. */
  predicate FrameInFront(rest: Bytes) {
    && |rest| >= HEADER
    && rest[..4] == MAGIC
    && 0 < Le32(rest[16..20]) <= |rest| - HEADER
  }

  function FrontEnd(rest: Bytes): (n: nat)
    requires FrameInFront(rest)
    ensures HEADER < n <= |rest|
  {
    HEADER + Le32(rest[16..20])
  }

  function FrontFrame(rest: Bytes): AudioFrame
    requires FrameInFront(rest)
  {
    AudioFrame(rest[HEADER..FrontEnd(rest)], Some(Le32(rest[12..16])), true)
  }

  /** The frames that cover the bytes without a gap or a remainder, if there are such. */
  function Tiling(rest: Bytes): Option<seq<AudioFrame>>
    decreases |rest|
  {
    if rest == [] then Some([])
    else if !FrameInFront(rest) then None
    else Prefixed([FrontFrame(rest)], Tiling(rest[FrontEnd(rest)..]))
  }

  function Prefixed(fs: seq<AudioFrame>, tail: Option<seq<AudioFrame>>): Option<seq<AudioFrame>> {
    match tail
    case None => None
    case Some(gs) => Some(fs + gs)
  }

  lemma PrefixedTwice(fs: seq<AudioFrame>, gs: seq<AudioFrame>, tail: Option<seq<AudioFrame>>)
    ensures Prefixed(fs, Prefixed(gs, tail)) == Prefixed(fs + gs, tail)
    ensures Prefixed([], tail) == tail
  {
    if tail.Some? {
      assert fs + (gs + tail.value) == (fs + gs) + tail.value;
      assert [] + tail.value == tail.value;
    }
  }

  /** Bytes that are not covered by indexed frames are one payload, behind a header of the older
      kind or without any. */
  function Fallback(raw: Bytes): AudioFrame {
    if |raw| >= HEADER && raw[..6] == LEGACY_MAGIC then AudioFrame(raw[HEADER..], None, true)
    else AudioFrame(raw, None, false)
  }

  function Parsed(raw: Bytes): seq<AudioFrame> {
    match Tiling(raw)
    case Some(fs) => if fs == [] then [Fallback(raw)] else fs
    case None => [Fallback(raw)]
  }

  method ParseAudioFrames(raw: Bytes) returns (frames: seq<AudioFrame>)
    ensures frames == Parsed(raw)
  {
    frames := [];
    var pos := 0;
    assert raw[0..] == raw;
    PrefixedTwice([], [], Tiling(raw));
    while pos + HEADER <= |raw| && raw[pos..][..4] == MAGIC
      invariant pos <= |raw|
      invariant Tiling(raw) == Prefixed(frames, Tiling(raw[pos..]))
      invariant frames == [] ==> pos == 0
      decreases |raw| - pos
    {
      ghost var rest := raw[pos..];
      assert rest[16..20] == raw[pos + 16..pos + 20] && rest[12..16] == raw[pos + 12..pos + 16];
      var payloadLen := Le32(raw[pos + 16..pos + 20]);
      if payloadLen == 0 || pos + HEADER + payloadLen > |raw| {
        break;
      }
      var next := pos + HEADER + payloadLen;
      var frame := AudioFrame(raw[pos + HEADER..next], Some(Le32(raw[pos + 12..pos + 16])), true);
      assert frame == FrontFrame(rest);
      assert rest[FrontEnd(rest)..] == raw[next..];
      PrefixedTwice(frames, [frame], Tiling(raw[next..]));
      frames := frames + [frame];
      pos := next;
    }
    if frames != [] && pos == |raw| {
      return;
    }
    if raw[pos..] != [] {
      assert !FrameInFront(raw[pos..]);
    }
    if |raw| >= HEADER && raw[..6] == LEGACY_MAGIC {
      return [AudioFrame(raw[HEADER..], None, true)];
    }
    frames := [AudioFrame(raw, None, false)];
  }

  // ----- the sender's side

  /** A frame as it is sent. The header bytes that no receiver looks at are arbitrary. */
  datatype Sent = Sent(index: nat, head: Bytes, tail: Bytes, data: Bytes)

  predicate Sendable(f: Sent) {
    |f.head| == 8 && |f.tail| == 12 && 0 < |f.data| < 0x1_0000_0000
  }

  function Wire(f: Sent): (b: Bytes)
    requires Sendable(f)
  {
    [0x55, 0xaa, 0x15, 0xa8] + f.head + PutLe32(f.index % 0x1_0000_0000) + PutLe32(|f.data|) + f.tail + f.data
  }

  predicate AllSendable(fs: seq<Sent>) {
    forall i :: 0 <= i < |fs| ==> Sendable(fs[i])
  }

  function WireAll(fs: seq<Sent>): Bytes
    requires AllSendable(fs)
  {
    if fs == [] then [] else Wire(fs[0]) + WireAll(fs[1..])
  }

  /** What the receiver sees of a sent frame. */
  function Seen(f: Sent): AudioFrame {
    AudioFrame(f.data, Some(f.index % 0x1_0000_0000), true)
  }

  function SeenAll(fs: seq<Sent>): (seen: seq<AudioFrame>)
    ensures |seen| == |fs|
  {
    if fs == [] then [] else [Seen(fs[0])] + SeenAll(fs[1..])
  }

  /** A sent frame is recognised in front of anything. */
  lemma WireInFront(f: Sent, rest: Bytes)
    requires Sendable(f)
    ensures FrameInFront(Wire(f) + rest)
    ensures FrontFrame(Wire(f) + rest) == Seen(f)
    ensures (Wire(f) + rest)[FrontEnd(Wire(f) + rest)..] == rest
  {
    var b, i, n := Wire(f) + rest, PutLe32(f.index % 0x1_0000_0000), PutLe32(|f.data|);
    assert b[..4] == MAGIC;
    assert b[12..16] == i && b[16..20] == n;
    Le32RoundTrip(f.index % 0x1_0000_0000);
    Le32RoundTrip(|f.data|);
    assert b[HEADER..HEADER + |f.data|] == f.data;
  }

  lemma {:induction false} TilingOfWire(fs: seq<Sent>)
    requires AllSendable(fs)
    ensures Tiling(WireAll(fs)) == Some(SeenAll(fs))
  {
    if fs != [] {
      WireInFront(fs[0], WireAll(fs[1..]));
      TilingOfWire(fs[1..]);
    }
  }

  /** Parsing what was sent gives back the frames, whatever bytes the payloads hold. */
  lemma ParseOfWire(fs: seq<Sent>)
    requires AllSendable(fs) && fs != []
    ensures Parsed(WireAll(fs)) == SeenAll(fs)
  {
    TilingOfWire(fs);
  }

  /** The sent frame that a frame in front of the bytes must have been. */
  function FrontSent(rest: Bytes): (f: Sent)
    requires FrameInFront(rest)
    ensures Sendable(f)
  {
    Sent(Le32(rest[12..16]), rest[4..12], rest[20..32], rest[HEADER..FrontEnd(rest)])
  }

  lemma Pieces(b: Bytes, end: nat)
    requires 32 <= end <= |b|
    ensures b == b[..4] + b[4..12] + b[12..16] + b[16..20] + b[20..32] + b[32..end] + b[end..]
  {
    assert b[..4] + b[4..12] == b[..12];
    assert b[..12] + b[12..16] == b[..16];
    assert b[..16] + b[16..20] == b[..20];
    assert b[..20] + b[20..32] == b[..32];
    assert b[..32] + b[32..end] == b[..end];
    assert b[..end] + b[end..] == b;
  }

  lemma FrontIsWire(rest: Bytes)
    requires FrameInFront(rest)
    ensures rest == Wire(FrontSent(rest)) + rest[FrontEnd(rest)..]
    ensures Seen(FrontSent(rest)) == FrontFrame(rest)
  {
    PutLe32RoundTrip(rest[12..16]);
    PutLe32RoundTrip(rest[16..20]);
    hide PutLe32, Le32;
    Pieces(rest, FrontEnd(rest));
  }

  lemma PutLe32RoundTrip(b: Bytes)
    requires |b| == 4
    ensures PutLe32(Le32(b)) == b
  {
    var n := Le32(b);
    var b0: int, b1: int, b2: int, b3: int := b[0], b[1], b[2], b[3];
    assert n == b0 + 0x100 * (b1 + 0x100 * (b2 + 0x100 * b3));
    assert n / 0x100 == b1 + 0x100 * (b2 + 0x100 * b3) && n % 0x100 == b0;
    assert n / 0x1_0000 == b2 + 0x100 * b3 && n / 0x100 % 0x100 == b1;
    assert n / 0x100_0000 == b3 && n / 0x1_0000 % 0x100 == b2;
  }

  lemma {:induction false} TilingIsWire(raw: Bytes) returns (fs: seq<Sent>)
    requires Tiling(raw).Some?
    ensures AllSendable(fs) && WireAll(fs) == raw && SeenAll(fs) == Tiling(raw).value
    decreases |raw|
  {
    if raw == [] {
      fs := [];
    } else {
      var tail := TilingIsWire(raw[FrontEnd(raw)..]);
      FrontIsWire(raw);
      fs := [FrontSent(raw)] + tail;
      assert fs[1..] == tail;
    }
  }

  /** The parser returns indexed frames exactly when the packet is what a sender of those frames
      would have put on the wire; in every other case it returns the packet as one payload. */
  lemma IndexedIffWire(raw: Bytes)
    ensures (exists fs :: AllSendable(fs) && fs != [] && WireAll(fs) == raw && SeenAll(fs) == Parsed(raw))
            || Parsed(raw) == [Fallback(raw)]
    ensures Parsed(raw)[0].index.Some? <==> exists fs :: AllSendable(fs) && fs != [] && WireAll(fs) == raw
  {
    if fs :| AllSendable(fs) && fs != [] && WireAll(fs) == raw {
      ParseOfWire(fs);
    }
    if Tiling(raw).Some? {
      var fs := TilingIsWire(raw);
    }
  }

  // ----- packets without indexed frames

  /** A packet that does not begin with the four magic bytes is one payload, and the decoder goes on. */
  lemma UnmarkedIsPlain(raw: Bytes)
    requires !([0x55, 0xaa, 0x15, 0xa8] <= raw)
    ensures Parsed(raw) == [AudioFrame(raw, None, false)]
  {
    assert |raw| >= 6 ==> raw[..6][..4] == raw[..4];
    assert LEGACY_MAGIC[..4] == [0x55, 0xaa, 0x15, 0xa8] == MAGIC;
  }

  /** Behind a header of the older kind, 55 aa 15 a8 aa 01 and 26 more bytes, is the payload, and the decoder
      begins anew, unless the packet happens to be a list of indexed frames. */
  lemma LegacyPayload(head: Bytes, data: Bytes)
    requires |head| == 26
    ensures var raw := [0x55, 0xaa, 0x15, 0xa8, 0xaa, 0x01] + head + data;
            Parsed(raw) == (match Tiling(raw) case Some(fs) => fs case None => [AudioFrame(data, None, true)])
  {
    var raw := [0x55, 0xaa, 0x15, 0xa8, 0xaa, 0x01] + head + data;
    assert raw[..6] == LEGACY_MAGIC && raw[32..] == data;
    if Tiling(raw).Some? {
      var fs := TilingIsWire(raw);
    }
  }

  /** A packet with the magic bytes but neither kind of header is taken whole. */
  lemma ShortIsPlain(raw: Bytes)
    requires |raw| < 32
    ensures Parsed(raw) == [AudioFrame(raw, None, false)]
  {
  }
}
