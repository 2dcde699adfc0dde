/** The Go client's receive path as a whole: a datagram is decrypted, parsed and handed to the channel
    it belongs to. Each channel's output is that of its own packets alone. */
module GoClient {
  import opened Bytes
  import opened Machine
  import Cipher
  import GoCodec
  import VideoFrames
  import GoAssembler
  import GoDelivery
  import AudioPath
  import Newest
  import MediaFrames

  const COMMAND_START: Bytes := [0x06, 0x0a]

  datatype Client = Client(video: Option<VideoFrames.Frame>, audio: AudioPath.AudioState)

  const IDLE := Client(None, AudioPath.SILENT)

  datatype Output = Video(e: VideoFrames.Emission) | Audio(pcm: Bytes) | Command(text: Bytes)

  /** What concerns a channel in a datagram: its index and data, if it is a data packet of that channel. */
  function OnChannel(key: Cipher.Key, channel: Byte, datagram: Bytes): Option<VideoFrames.Packet> {
    match GoCodec.Received(key, datagram)
    case None => None
    case Some(p) =>
      if p.typ == GoCodec.MSG_DRW && p.channel == channel then Some(VideoFrames.Packet(p.index, p.data)) else None
  }

  function HandleDrw(c: Client, p: GoCodec.Packet): (Client, Option<Output>) {
    if p.channel == 0 then
      (c, if COMMAND_START <= p.data && |p.data| >= 8 then Some(Command(p.data[8..])) else None)
    else if p.channel == 1 then
      var (frame, e) := GoAssembler.Step(c.video, VideoFrames.Packet(p.index, p.data));
      (c.(video := frame), if e.Some? then Some(Video(e.value)) else None)
    else if p.channel == 2 then
      var (audio, pcm) := AudioPath.Step(c.audio, p.data);
      (c.(audio := audio), if pcm.Some? then Some(Audio(pcm.value)) else None)
    else (c, None)
  }

  function Step(key: Cipher.Key, c: Client, datagram: Bytes): (Client, Option<Output>) {
    match GoCodec.Received(key, datagram)
    case None => (c, None)
    case Some(p) => if p.typ == GoCodec.MSG_DRW then HandleDrw(c, p) else (c, None)
  }

  function StepWith(key: Cipher.Key): (Client, Bytes) -> (Client, Option<Output>) {
    (c, d) => Step(key, c, d)
  }

  function VideoOf(o: Option<Output>): Option<VideoFrames.Emission> {
    if o.Some? && o.value.Video? then Some(o.value.e) else None
  }

  function SoundOf(o: Option<Output>): Option<Bytes> {
    if o.Some? && o.value.Audio? then Some(o.value.pcm) else None
  }

  /** The receiving side of one session. */
  class Receiver {
    const key: Cipher.Key
    const video: GoAssembler.VideoAssembler
    const audio: AudioPath.AudioReceiver

    ghost predicate Valid()
      reads video, video.videoFrame
    {
      video.Valid()
    }

    function View(): Client
      reads video, video.videoFrame, audio, audio.audio
    {
      Client(video.View(), audio.View())
    }

    constructor (key: Cipher.Key)
      ensures this.key == key && Valid() && View() == IDLE
    {
      this.key := key;
      video := new GoAssembler.VideoAssembler();
      audio := new AudioPath.AudioReceiver();
    }

    /** The frame, sound and command handed to the callbacks; an empty frame or sound is not handed on. */
    method HandleDatagram(datagram: Bytes) returns (frame: Bytes, pcm: Bytes, command: Option<Bytes>)
      requires Valid()
      modifies video, video.videoFrame, audio, audio.audio
      ensures Valid() && View() == Step(key, old(View()), datagram).0
      ensures var o := Step(key, old(View()), datagram).1;
              && frame == GoAssembler.BytesOf(VideoOf(o))
              && SoundOf(o) == (if pcm == [] then None else Some(pcm))
              && (if o.Some? && o.value.Command? then command == Some(o.value.text) else command == None)
    {
      hide GoAssembler.Step, AudioPath.Step, Cipher.Decrypted;
      frame, pcm, command := [], [], None;
      var plain := Cipher.Decrypted(key, datagram);
      var parsed := GoCodec.ParsePacket(plain);
      if parsed.None? || parsed.value.typ != GoCodec.MSG_DRW {
        return;
      }
      var p := parsed.value;
      if p.channel == 0 {
        if COMMAND_START <= p.data && |p.data| >= 8 {
          command := Some(p.data[8..]);
        }
      } else if p.channel == 1 {
        frame := video.HandleVideo(VideoFrames.Packet(p.index, p.data));
      } else if p.channel == 2 {
        pcm := audio.HandleAudio(p.data);
      }
    }
  }

  /** What does not parse, what is no data packet and what is of another channel changes nothing. */
  lemma OthersAreIgnored(key: Cipher.Key, c: Client, datagram: Bytes)
    ensures match GoCodec.Received(key, datagram)
            case None => Step(key, c, datagram) == (c, None)
            case Some(p) => p.typ != 0xd0 || p.channel > 2 ==> Step(key, c, datagram) == (c, None)
  {
    hide GoCodec.Received;
  }

  /** And what is of a channel reaches it. */
  lemma ChannelsExactly(key: Cipher.Key, channel: Byte, datagram: Bytes)
    ensures OnChannel(key, channel, datagram)
            == match GoCodec.Received(key, datagram)
               case None => None
               case Some(p) =>
                 if p.typ == 0xd0 && p.channel == channel then Some(VideoFrames.Packet(p.index, p.data)) else None
  {
    hide GoCodec.Received;
  }

  /** The packets of one channel among the datagrams. */
  function Packets(key: Cipher.Key, channel: Byte, ds: seq<Bytes>): seq<VideoFrames.Packet>
    decreases |ds|
  {
    if ds == [] then [] else Listed(OnChannel(key, channel, ds[0])) + Packets(key, channel, ds[1..])
  }

  function Payloads(ps: seq<VideoFrames.Packet>): seq<Bytes> {
    if ps == [] then [] else [ps[0].data] + Payloads(ps[1..])
  }

  function Videos(os: seq<Output>): seq<VideoFrames.Emission> {
    if os == [] then [] else (if os[0].Video? then [os[0].e] else []) + Videos(os[1..])
  }

  function Sounds(os: seq<Output>): seq<Bytes> {
    if os == [] then [] else (if os[0].Audio? then [os[0].pcm] else []) + Sounds(os[1..])
  }

  lemma OneOutput(o: Option<Output>, os: seq<Output>)
    ensures Videos(Listed(o) + os) == Listed(VideoOf(o)) + Videos(os)
    ensures Sounds(Listed(o) + os) == Listed(SoundOf(o)) + Sounds(os)
  {
    if o.None? {
      assert Listed(o) + os == os;
      assert Listed(VideoOf(o)) + Videos(os) == Videos(os);
      assert Listed(SoundOf(o)) + Sounds(os) == Sounds(os);
    } else {
      assert (Listed(o) + os)[1..] == os;
    }
  }

  lemma RunCons<S, P, E>(step: (S, P) -> (S, Option<E>), st: S, o: Option<P>, ps: seq<P>)
    ensures Run(step, st, Listed(o) + ps)
            == match o
               case None => Run(step, st, ps)
               case Some(p) => var (st1, e) := step(st, p); var (st2, es) := Run(step, st1, ps); (st2, Listed(e) + es)
  {
    match o
    case None => assert Listed(o) + ps == ps;
    case Some(p) => assert (Listed(o) + ps)[1..] == ps;
  }

  lemma StepOnVideo(key: Cipher.Key, c: Client, d: Bytes)
    ensures var (c1, o) := Step(key, c, d);
            match OnChannel(key, 1, d)
            case None => c1.video == c.video && VideoOf(o) == None
            case Some(p) => (c1.video, VideoOf(o)) == GoAssembler.Step(c.video, p)
  {
    hide GoAssembler.Step, AudioPath.Step, GoCodec.Received;
  }

  lemma StepOnAudio(key: Cipher.Key, c: Client, d: Bytes)
    ensures var (c1, o) := Step(key, c, d);
            match OnChannel(key, 2, d)
            case None => c1.audio == c.audio && SoundOf(o) == None
            case Some(p) => (c1.audio, SoundOf(o)) == AudioPath.Step(c.audio, p.data)
  {
    hide GoAssembler.Step, AudioPath.Step, GoCodec.Received;
  }

  /** What the receive path makes of any list of datagrams, in which packets of all channels, other
      packets and noise are mixed, is for video what the assembler makes of the video packets alone. */
  lemma {:induction false} VideoIsItsOwn(key: Cipher.Key, c: Client, ds: seq<Bytes>)
    ensures var (after, os) := Run(StepWith(key), c, ds);
            (after.video, Videos(os)) == Run(GoAssembler.Step, c.video, Packets(key, 1, ds))
    decreases |ds|
  {
    hide GoAssembler.Step, Step, OnChannel;
    if ds != [] {
      var (c1, o) := Step(key, c, ds[0]);
      var os, mine := Run(StepWith(key), c1, ds[1..]).1, OnChannel(key, 1, ds[0]);
      VideoIsItsOwn(key, c1, ds[1..]);
      StepOnVideo(key, c, ds[0]);
      OneOutput(o, os);
      RunCons(GoAssembler.Step, c.video, mine, Packets(key, 1, ds[1..]));
      assert mine.None? ==> Listed(VideoOf(o)) + Videos(os) == Videos(os);
    }
  }

  /** The same for audio. */
  lemma {:induction false} AudioIsItsOwn(key: Cipher.Key, c: Client, ds: seq<Bytes>)
    ensures var (after, os) := Run(StepWith(key), c, ds);
            (after.audio, Sounds(os)) == Run(AudioPath.Step, c.audio, Payloads(Packets(key, 2, ds)))
    decreases |ds|
  {
    hide AudioPath.Step, Step, OnChannel;
    if ds != [] {
      var (c1, o) := Step(key, c, ds[0]);
      var os, mine := Run(StepWith(key), c1, ds[1..]).1, OnChannel(key, 2, ds[0]);
      AudioIsItsOwn(key, c1, ds[1..]);
      StepOnAudio(key, c, ds[0]);
      OneOutput(o, os);
      var data := if mine.None? then None else Some(mine.value.data);
      FirstPayload(mine, Packets(key, 2, ds[1..]));
      RunCons(AudioPath.Step, c.audio, data, Payloads(Packets(key, 2, ds[1..])));
      assert mine.None? ==> Listed(SoundOf(o)) + Sounds(os) == Sounds(os);
    }
  }

  lemma FirstPayload(o: Option<VideoFrames.Packet>, ps: seq<VideoFrames.Packet>)
    ensures Payloads(Listed(o) + ps) == Listed(if o.None? then None else Some(o.value.data)) + Payloads(ps)
  {
    match o
    case None =>
      assert Listed(o) + ps == ps;
      assert Listed<Bytes>(None) + Payloads(ps) == Payloads(ps);
    case Some(p) => assert (Listed(o) + ps)[1..] == ps;
  }

  function Commands(os: seq<Output>): seq<Bytes> {
    if os == [] then [] else (if os[0].Command? then [os[0].text] else []) + Commands(os[1..])
  }

  /** The texts of the command packets: behind 06 0a and six more bytes. */
  function Texts(ps: seq<VideoFrames.Packet>): seq<Bytes> {
    if ps == [] then []
    else (if [0x06, 0x0a] <= ps[0].data && |ps[0].data| >= 8 then [ps[0].data[8..]] else []) + Texts(ps[1..])
  }

  /** The commands handed on are the texts of the packets of channel 0 alone. */
  lemma {:induction false} CommandsAreTheirOwn(key: Cipher.Key, c: Client, ds: seq<Bytes>)
    ensures Commands(Run(StepWith(key), c, ds).1) == Texts(Packets(key, 0, ds))
    decreases |ds|
  {
    hide GoAssembler.Step, AudioPath.Step, GoCodec.Received;
    if ds != [] {
      var (c1, o) := Step(key, c, ds[0]);
      var os, mine, rest := Run(StepWith(key), c1, ds[1..]).1, OnChannel(key, 0, ds[0]), Packets(key, 0, ds[1..]);
      CommandsAreTheirOwn(key, c1, ds[1..]);
      if o.None? {
        assert Listed(o) + os == os;
      } else {
        assert (Listed(o) + os)[1..] == os;
      }
      if mine.None? {
        assert Listed(mine) + rest == rest;
      } else {
        assert (Listed(mine) + rest)[1..] == rest;
      }
    }
  }

  // ----- from the sender's frames to the viewer

  /** The datagram that carries a packet of a channel. */
  function Sealed(key: Cipher.Key, channel: Byte, p: VideoFrames.Packet): Bytes {
    Cipher.Encrypted(key, GoCodec.Drw(channel, p.index, p.data))
  }

  lemma SealedIsReceived(key: Cipher.Key, channel: Byte, p: VideoFrames.Packet)
    ensures OnChannel(key, channel, Sealed(key, channel, p)) == Some(p)
  {
    Cipher.DecryptUndoesEncrypt(key, GoCodec.Drw(channel, p.index, p.data));
    GoCodec.ParseUndoesBuild(channel, p.index, p.data);
  }

  /** A list of datagrams is a mixture of sealed packets of a channel, in their order, with anything
      that is not a packet of it. */
  ghost predicate Mixture(key: Cipher.Key, channel: Byte, ps: seq<VideoFrames.Packet>, ds: seq<Bytes>)
    decreases |ds|
  {
    if ds == [] then ps == []
    else
      || (ps != [] && ds[0] == Sealed(key, channel, ps[0]) && Mixture(key, channel, ps[1..], ds[1..]))
      || (OnChannel(key, channel, ds[0]).None? && Mixture(key, channel, ps, ds[1..]))
  }

  lemma {:induction false} MixtureHoldsPackets(key: Cipher.Key, channel: Byte, ps: seq<VideoFrames.Packet>,
                                               ds: seq<Bytes>)
    requires Mixture(key, channel, ps, ds)
    ensures Packets(key, channel, ds) == ps
    decreases |ds|
  {
    hide OnChannel, Sealed;
    if ds != [] {
      if ps != [] && ds[0] == Sealed(key, channel, ps[0]) && Mixture(key, channel, ps[1..], ds[1..]) {
        SealedIsReceived(key, channel, ps[0]);
        MixtureHoldsPackets(key, channel, ps[1..], ds[1..]);
      } else {
        MixtureHoldsPackets(key, channel, ps, ds[1..]);
        assert Listed<VideoFrames.Packet>(None) + ps == ps;
      }
    }
  }

  /** End to end, with loss: frames that are cut up, sealed, lost in part, repeated and reordered
      between their starts, and mixed with packets of other channels and with noise, reach the viewer
      as exactly what each window must contribute, the last of it possibly still pending. */
  lemma WindowsReachTheViewer(key: Cipher.Key, ws: seq<GoDelivery.Window>, ds: seq<Bytes>)
    requires forall i :: 0 <= i < |ws| ==> GoDelivery.IsWindow(ws[i])
    requires Mixture(key, 1, GoDelivery.Wire(ws), ds)
    ensures var (after, out) := Run(StepWith(key), IDLE, ds);
            Videos(out) + Listed(GoAssembler.Flush(after.video)) == GoDelivery.Outcomes(ws)
  {
    hide StepWith;
    MixtureHoldsPackets(key, 1, GoDelivery.Wire(ws), ds);
    VideoIsItsOwn(key, IDLE, ds);
    GoDelivery.Delivery(ws);
  }

  /** Without loss they come out byte for byte, in order and none else. */
  lemma FramesReachTheViewer(key: Cipher.Key, ws: seq<GoDelivery.Window>, ds: seq<Bytes>)
    requires forall i :: 0 <= i < |ws| ==> GoDelivery.IsWindow(ws[i]) && GoDelivery.Covered(ws[i], |ws[i].arrivals|)
    requires Mixture(key, 1, GoDelivery.Wire(ws), ds)
    ensures Videos(Run(StepWith(key), IDLE, ds).1) == GoDelivery.SentImages(ws)
    ensures Run(StepWith(key), IDLE, ds).0.video == None
  {
    hide StepWith;
    MixtureHoldsPackets(key, 1, GoDelivery.Wire(ws), ds);
    VideoIsItsOwn(key, IDLE, ds);
    GoDelivery.LosslessDelivery(ws);
  }

  /** Media frames that are packed, sealed under any packet indices, and mixed with packets of other
      channels and with noise reach the listener as the sound of exactly the new ones, each decoded
      alone. */
  lemma SoundReachesTheListener(key: Cipher.Key, groups: seq<seq<MediaFrames.Sent>>,
                                ps: seq<VideoFrames.Packet>, ds: seq<Bytes>)
    requires AudioPath.Packets(groups) && Payloads(ps) == AudioPath.Wires(groups)
    requires Newest.Windowed(AudioPath.Number, 0x8000_0000, -1, AudioPath.Ungrouped(groups))
    requires Mixture(key, 2, ps, ds)
    ensures Flatten(Sounds(Run(StepWith(key), IDLE, ds).1))
            == AudioPath.Fresh(Newest.Records(AudioPath.Number, -1, AudioPath.Ungrouped(groups)))
  {
    hide StepWith;
    MixtureHoldsPackets(key, 2, ps, ds);
    AudioIsItsOwn(key, IDLE, ds);
    AudioPath.EveryNewFrameDecodedAlone(groups);
  }
}
