/** The audio channel of the Go client: serial-number de-duplication in front of the decoder. */
module AudioPath {
  import opened Bytes
  import opened Adpcm
  import opened MediaFrames
  import opened Machine
  import opened Newest

  const HALF: int := 0x8000_0000

  /** Serial-number comparison, compare section 3.2 of RFC 1982. */
  predicate MediaIndexAfter(index: Serial, previous: Serial) {
    index != previous && (index - previous) % SERIALS < HALF
  }

  /** The wrapped comparison is the comparison of the true numbers as long as they are not half the
      number space apart. */
  lemma SerialOrder(t: nat, u: nat)
    requires -0x8000_0000 <= t - u < 0x8000_0000
    ensures MediaIndexAfter(t % 0x1_0000_0000, u % 0x1_0000_0000) <==> t > u
  {
    var q, r := t / 0x1_0000_0000, u / 0x1_0000_0000;
    assert t == 0x1_0000_0000 * q + t % 0x1_0000_0000 && u == 0x1_0000_0000 * r + u % 0x1_0000_0000;
    var d, w: int := t - u, t % 0x1_0000_0000 - u % 0x1_0000_0000;
    assert w == d - 0x1_0000_0000 * (q - r);
    assert q - r <= 1 && r - q <= 1;
    assert w == d || w == d - 0x1_0000_0000 || w == d + 0x1_0000_0000;
  }

  /** For any true numbers the comparison holds exactly when the difference, wrapped, lies in the lower
      half of the number space. */
  lemma SerialOrderExactly(t: nat, u: nat)
    ensures MediaIndexAfter(t % 0x1_0000_0000, u % 0x1_0000_0000) <==> 0 < (t - u) % 0x1_0000_0000 < 0x8000_0000
  {
    var q, r := t / 0x1_0000_0000, u / 0x1_0000_0000;
    var w: int := t % 0x1_0000_0000 - u % 0x1_0000_0000;
    assert t - u == w + 0x1_0000_0000 * (q - r);
    WrapWhole(w, q - r);
  }

  lemma WrapWhole(w: int, k: int)
    ensures (w + 0x1_0000_0000 * k) % 0x1_0000_0000 == w % 0x1_0000_0000
  {
    var m := w / 0x1_0000_0000;
    assert w + 0x1_0000_0000 * k == 0x1_0000_0000 * (m + k) + w % 0x1_0000_0000;
  }

  /** So the frame that is half the number space newer is taken for an older one. */
  lemma SerialOrderEnds(u: nat)
    ensures !MediaIndexAfter((u + 0x8000_0000) % 0x1_0000_0000, u % 0x1_0000_0000)
  {
    SerialOrderExactly(u + 0x8000_0000, u);
  }

  datatype AudioState = AudioState(last: Option<Serial>, decoder: Decoder)

  const SILENT := AudioState(None, RESET)

  /** A frame with an index that is not after the last accepted one is skipped. */
  predicate Skipped(st: AudioState, frame: AudioFrame) {
    frame.index.Some? && st.last.Some? && !MediaIndexAfter(frame.index.value, st.last.value)
  }

  function Ready(st: AudioState, frame: AudioFrame): Decoder {
    if frame.reset then RESET else st.decoder
  }

  /** State and PCM after a list of frames. */
  function Played(st: AudioState, frames: seq<AudioFrame>): (AudioState, Bytes) {
    if frames == [] then (st, [])
    else
      var before := frames[..|frames| - 1];
      var frame := frames[|frames| - 1];
      var (st1, pcm) := Played(st, before);
      if Skipped(st1, frame) then (st1, pcm)
      else
        var d := Ready(st1, frame);
        var last := if frame.index.Some? then frame.index else st1.last;
        (AudioState(last, Final(d, frame.data)), pcm + Pcm(d, frame.data))
  }

  /** The PCM handed on for one packet; the filter that runs over it afterwards keeps its length. */
  function Step(st: AudioState, raw: Bytes): (AudioState, Option<Bytes>) {
    var (st1, pcm) := Played(st, Parsed(raw));
    (st1, if pcm == [] then None else Some(pcm))
  }

  class AudioReceiver {
    var hasAudioMediaIndex: bool
    var lastAudioMediaIndex: Serial
    const audio: AdpcmDecoder

    function View(): AudioState
      reads this, audio
    {
      AudioState(if hasAudioMediaIndex then Some(lastAudioMediaIndex) else None, audio.View())
    }

    constructor ()
      ensures View() == SILENT && fresh(audio)
    {
      audio := new AdpcmDecoder();
      hasAudioMediaIndex, lastAudioMediaIndex := false, 0;
    }

    method HandleAudio(raw: Bytes) returns (pcm: Bytes)
      modifies this, audio
      ensures View() == Step(old(View()), raw).0
      ensures Step(old(View()), raw).1 == if pcm == [] then None else Some(pcm)
    {
      hide Pcm, Final, StateAfter;
      pcm := [];
      var frames := ParseAudioFrames(raw);
      ghost var start := View();
      for i := 0 to |frames|
        invariant (View(), pcm) == Played(start, frames[..i])
      {
        assert frames[..i + 1][..i] == frames[..i];
        var frame := frames[i];
        if frame.index.Some? {
          if hasAudioMediaIndex && !MediaIndexAfter(frame.index.value, lastAudioMediaIndex) {
            continue;
          }
          lastAudioMediaIndex := frame.index.value;
          hasAudioMediaIndex := true;
        }
        if frame.reset {
          audio.Reset();
        }
        var decoded := audio.Decode(frame.data);
        pcm := pcm + decoded;
      }
      assert frames[..|frames|] == frames;
    }
  }

  // ----- whole runs against the true frame numbers

  function Number(f: Sent): nat {
    f.index
  }

  /** Each accepted payload decoded on its own, from a reset decoder. */
  function Fresh(fs: seq<Sent>): Bytes {
    if fs == [] then [] else Fresh(fs[..|fs| - 1]) + Pcm(RESET, fs[|fs| - 1].data)
  }

  predicate Tracks(st: AudioState, high: int) {
    high >= -1 && st.last == if high < 0 then None else Some(high % 0x1_0000_0000)
  }

  lemma {:induction false} SeenAllSnoc(fs: seq<Sent>, f: Sent)
    ensures SeenAll(fs + [f]) == SeenAll(fs) + [Seen(f)]
  {
    if fs == [] {
      assert [f][1..] == [];
    } else {
      SeenAllSnoc(fs[1..], f);
      assert (fs + [f])[1..] == fs[1..] + [f];
      assert [Seen(fs[0])] + (SeenAll(fs[1..]) + [Seen(f)]) == ([Seen(fs[0])] + SeenAll(fs[1..])) + [Seen(f)];
    }
  }

  lemma PlayedSnoc(st: AudioState, frames: seq<AudioFrame>, frame: AudioFrame)
    ensures
      var (st1, pcm) := Played(st, frames);
      var d := Ready(st1, frame);
      Played(st, frames + [frame])
      == if Skipped(st1, frame) then (st1, pcm)
         else
           var last := if frame.index.Some? then frame.index else st1.last;
           (AudioState(last, Final(d, frame.data)), pcm + Pcm(d, frame.data))
  {
    assert (frames + [frame])[..|frames|] == frames;
  }

  /** A sent frame is skipped exactly when it is not newer than the newest before it. */
  lemma SkipsTheOld(st: AudioState, high: int, f: Sent)
    requires Tracks(st, high) && Near(0x8000_0000, high, f.index)
    ensures Skipped(st, Seen(f)) <==> f.index <= high
    ensures Ready(st, Seen(f)) == RESET
  {
    if high >= 0 {
      SerialOrder(f.index, high);
    }
  }

  lemma FreshSnoc(fs: seq<Sent>, f: Sent)
    ensures Fresh(fs + [f]) == Fresh(fs) + Pcm(RESET, f.data)
  {
    assert (fs + [f])[..|fs|] == fs;
  }

  lemma PlaysNothing(st: AudioState)
    ensures Played(st, SeenAll([])) == (st, []) && Fresh([]) == []
  {
  }

  lemma NothingNew(high: int)
    ensures Highest(Number, high, []) == high && Records(Number, high, []) == []
  {
  }

  /** One list of frames, from any state that knows the highest number so far. */
  lemma {:induction false} PlayRecords(st: AudioState, high: int, fs: seq<Sent>)
    requires Tracks(st, high) && Windowed(Number, 0x8000_0000, high, fs)
    ensures Tracks(Played(st, SeenAll(fs)).0, Highest(Number, high, fs))
    ensures Played(st, SeenAll(fs)).1 == Fresh(Records(Number, high, fs))
  {
    hide Pcm, Final, Played, SeenAll, Fresh, Skipped, Ready, Highest, Records, Windowed;
    if fs == [] {
      PlaysNothing(st);
      NothingNew(high);
    } else {
      var before, f := fs[..|fs| - 1], fs[|fs| - 1];
      assert fs == before + [f];
      NewestSnoc(Number, 0x8000_0000, high, before, f);
      PlayRecords(st, high, before);
      SeenAllSnoc(before, f);
      PlayedSnoc(st, SeenAll(before), Seen(f));
      var h, kept := Highest(Number, high, before), Records(Number, high, before);
      SkipsTheOld(Played(st, SeenAll(before)).0, h, f);
      FreshSnoc(kept, f);
      assert kept + [] == kept;
    }
  }

  lemma {:induction false} PlayedAppend(st: AudioState, a: seq<AudioFrame>, b: seq<AudioFrame>)
    ensures Played(st, a + b).0 == Played(Played(st, a).0, b).0
    ensures Played(st, a + b).1 == Played(st, a).1 + Played(Played(st, a).0, b).1
    decreases |b|
  {
    hide Pcm, Final;
    if b == [] {
      assert a + b == a;
    } else {
      var before, f := b[..|b| - 1], b[|b| - 1];
      assert a + b == (a + before) + [f] && b == before + [f];
      PlayedAppend(st, a, before);
      PlayedSnoc(st, a + before, f);
      PlayedSnoc(Played(st, a).0, before, f);
    }
  }

  lemma {:induction false} SeenAllAppend(a: seq<Sent>, b: seq<Sent>)
    ensures SeenAll(a + b) == SeenAll(a) + SeenAll(b)
    decreases |b|
  {
    if b == [] {
      assert a + b == a;
    } else {
      var before, f := b[..|b| - 1], b[|b| - 1];
      assert a + b == (a + before) + [f] && b == before + [f];
      SeenAllAppend(a, before);
      SeenAllSnoc(a + before, f);
      SeenAllSnoc(before, f);
    }
  }

  /** Packets as the sender groups the frames; a packet may be empty. */
  predicate Packets(groups: seq<seq<Sent>>) {
    forall i :: 0 <= i < |groups| ==> AllSendable(groups[i])
  }

  function Wires(groups: seq<seq<Sent>>): seq<Bytes>
    requires Packets(groups)
  {
    if groups == [] then [] else [WireAll(groups[0])] + Wires(groups[1..])
  }

  function Ungrouped(groups: seq<seq<Sent>>): seq<Sent> {
    if groups == [] then [] else groups[0] + Ungrouped(groups[1..])
  }

  lemma PacketPlays(st: AudioState, fs: seq<Sent>)
    requires AllSendable(fs)
    ensures Step(st, WireAll(fs)).0 == Played(st, SeenAll(fs)).0
    ensures Flatten(Listed(Step(st, WireAll(fs)).1)) == Played(st, SeenAll(fs)).1
  {
    if fs == [] {
      var nothing := Fallback([]);
      assert Parsed([]) == [nothing];
      assert [nothing] == [] + [nothing];
      assert Final(st.decoder, []) == st.decoder;
    } else {
      ParseOfWire(fs);
    }
    var pcm := Played(st, SeenAll(fs)).1;
    FlattenOne(pcm);
  }

  /** Where the sender put the packet boundaries does not matter. */
  lemma {:induction false} RunPlays(st: AudioState, groups: seq<seq<Sent>>)
    requires Packets(groups)
    ensures Run(Step, st, Wires(groups)).0 == Played(st, SeenAll(Ungrouped(groups))).0
    ensures Flatten(Run(Step, st, Wires(groups)).1) == Played(st, SeenAll(Ungrouped(groups))).1
    decreases |groups|
  {
    hide Step, Played;
    if groups == [] {
      PlaysNothing(st);
      assert Ungrouped(groups) == [];
    } else {
      var first, rest := groups[0], groups[1..];
      var (st1, e) := Step(st, WireAll(first));
      assert Wires(groups)[1..] == Wires(rest);
      PacketPlays(st, first);
      RunPlays(st1, rest);
      SeenAllAppend(first, Ungrouped(rest));
      PlayedAppend(st, SeenAll(first), SeenAll(Ungrouped(rest)));
      FlattenAppend(Listed(e), Run(Step, st1, Wires(rest)).1);
    }
  }

  /** Whatever is lost, repeated or reordered within the window, the PCM of a whole run is that of
      exactly the frames newer than all before them, each decoded as if it had come alone. */
  lemma EveryNewFrameDecodedAlone(groups: seq<seq<Sent>>)
    requires Packets(groups) && Windowed(Number, 0x8000_0000, -1, Ungrouped(groups))
    ensures Flatten(Run(Step, SILENT, Wires(groups)).1) == Fresh(Records(Number, -1, Ungrouped(groups)))
    ensures Tracks(Run(Step, SILENT, Wires(groups)).0, Highest(Number, -1, Ungrouped(groups)))
  {
    RunPlays(SILENT, groups);
    PlayRecords(SILENT, -1, Ungrouped(groups));
  }

  // ----- packets without indexed frames

  predicate Unmarked(raws: seq<Bytes>) {
    forall i :: 0 <= i < |raws| ==> !([0x55, 0xaa, 0x15, 0xa8] <= raws[i])
  }

  lemma PlainStep(st: AudioState, raw: Bytes)
    requires !([0x55, 0xaa, 0x15, 0xa8] <= raw)
    ensures Step(st, raw).0 == AudioState(st.last, Final(st.decoder, raw))
    ensures Flatten(Listed(Step(st, raw).1)) == Pcm(st.decoder, raw)
  {
    UnmarkedIsPlain(raw);
    var frame := AudioFrame(raw, None, false);
    assert [frame] == [] + [frame];
    PlayedSnoc(st, [], frame);
    var pcm := Pcm(st.decoder, raw);
    assert [] + pcm == pcm;
    FlattenOne(pcm);
  }

  /** Packets without a header are decoded as one stream: the state is carried from packet to packet, and
      no index is remembered. */
  lemma {:induction false} PlainPacketsAreOneStream(st: AudioState, raws: seq<Bytes>)
    requires Unmarked(raws)
    ensures Flatten(Run(Step, st, raws).1) == Pcm(st.decoder, Flatten(raws))
    ensures Run(Step, st, raws).0 == AudioState(st.last, Final(st.decoder, Flatten(raws)))
    decreases |raws|
  {
    hide Step, Pcm, Final;
    if raws == [] {
      NothingDecoded(st.decoder);
    } else {
      var (st1, e) := Step(st, raws[0]);
      PlainStep(st, raws[0]);
      PlainPacketsAreOneStream(st1, raws[1..]);
      DecodeConcatenation(st.decoder, raws[0], Flatten(raws[1..]));
      FlattenAppend(Listed(e), Run(Step, st1, raws[1..]).1);
    }
  }

  lemma NothingDecoded(d: Decoder)
    ensures Pcm(d, []) == [] && Final(d, []) == d
  {
  }

  /** A packet behind a header of the older kind is decoded from reset. */
  lemma LegacyStep(st: AudioState, head: Bytes, data: Bytes)
    requires |head| == 26 && Tiling([0x55, 0xaa, 0x15, 0xa8, 0xaa, 0x01] + head + data).None?
    ensures var (after, e) := Step(st, [0x55, 0xaa, 0x15, 0xa8, 0xaa, 0x01] + head + data);
            after == AudioState(st.last, Final(RESET, data)) && Flatten(Listed(e)) == Pcm(RESET, data)
  {
    LegacyPayload(head, data);
    var frame := AudioFrame(data, None, true);
    assert [frame] == [] + [frame];
    PlayedSnoc(st, [], frame);
    var pcm := Pcm(RESET, data);
    assert [] + pcm == pcm;
    FlattenOne(pcm);
  }
}
