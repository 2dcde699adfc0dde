/** The Go supervisor's health classification and the callbacks that feed it. Times are nanoseconds of
    one clock; None for a time means never. */
module Health {
  import opened Bytes

  const SECOND: int := 1_000_000_000
  const CONNECT_WINDOW: int := 20 * SECOND
  const SNAPSHOT_WINDOW: int := 10 * SECOND
  const ONLINE_TRAFFIC_WINDOW: int := 15 * SECOND
  const STALE_TRAFFIC_WINDOW: int := 45 * SECOND
  const VIDEO_STALE_WINDOW: int := 8 * SECOND
  const AUDIO_STALE_WINDOW: int := 4 * SECOND
  const MEDIA_RESTART_WINDOW: int := 16 * SECOND

  /** `read` is the clock reading with which the receive loop has entered a media callback that has
      not got the lock yet. */
  datatype State = State(enabled: bool, session: bool, startedAt: Option<int>, connectedAt: Option<int>, restarts: nat,
                         lastTraffic: Option<int>, lastVideoAt: Option<int>, lastAudioAt: Option<int>,
                         lastSnapshotDemand: Option<int>, videoClients: nat, audioClients: nat, read: Option<int>)

  datatype Status = Disabled | Connecting | Stale | Offline | Online

  predicate Recent(t: Option<int>, now: int, window: int) {
    t.Some? && now - t.value <= window
  }

  predicate VideoDemand(s: State, now: int) {
    s.videoClients > 0 || (s.lastSnapshotDemand.Some? && now - s.lastSnapshotDemand.value < SNAPSHOT_WINDOW)
  }

  method HealthLocked(s: State, now: int) returns (status: Status, detail: string)
    ensures status == Classified(s, now)
    ensures !s.enabled ==> detail == "disabled"
    ensures s.enabled && !HasSession(s) ==>
              detail == match status
                        case Connecting => "connecting"
                        case Stale => "reconnecting"
                        case _ => "offline"
    ensures s.enabled && HasSession(s) ==>
              var noVideo := VideoDemand(s, now) && !Recent(s.lastVideoAt, now, 8_000_000_000);
              var noAudio := s.audioClients > 0 && !Recent(s.lastAudioAt, now, 4_000_000_000);
              detail == if s.lastTraffic.None? then "connecting"
                        else if !Recent(s.lastTraffic, now, 45_000_000_000) then "offline"
                        else if noVideo then
                          (match status
                           case Connecting => "waiting for video"
                           case Stale => "video stale"
                           case _ => "video offline")
                        else if noAudio then
                          (match status
                           case Connecting => "waiting for audio"
                           case Offline => "audio offline"
                           case _ => "audio stale")
                        else if status.Online? then "online" else "stale"
  {
    if !s.enabled {
      return Disabled, "disabled";
    }
    if !s.session || s.connectedAt.None? {
      if s.startedAt.Some? && s.restarts == 0 && now - s.startedAt.value <= CONNECT_WINDOW {
        return Connecting, "connecting";
      }
      if s.lastVideoAt.Some? && now - s.lastVideoAt.value <= STALE_TRAFFIC_WINDOW {
        return Stale, "reconnecting";
      }
      return Offline, "offline";
    }
    if s.lastTraffic.None? {
      return Connecting, "connecting";
    }
    var trafficAge := now - s.lastTraffic.value;
    if trafficAge > STALE_TRAFFIC_WINDOW {
      return Offline, "offline";
    }
    var videoFresh := false;
    if VideoDemand(s, now) {
      if s.lastVideoAt.None? {
        if now - s.connectedAt.value <= MEDIA_RESTART_WINDOW {
          return Connecting, "waiting for video";
        }
        return Stale, "video stale";
      }
      var videoAge := now - s.lastVideoAt.value;
      if videoAge > VIDEO_STALE_WINDOW {
        if videoAge > STALE_TRAFFIC_WINDOW {
          return Offline, "video offline";
        }
        return Stale, "video stale";
      }
      videoFresh := true;
    }
    if s.audioClients > 0 {
      if s.lastAudioAt.None? {
        if videoFresh {
          return Online, "audio stale";
        }
        if now - s.connectedAt.value <= MEDIA_RESTART_WINDOW {
          return Connecting, "waiting for audio";
        }
        return Stale, "audio stale";
      }
      var audioAge := now - s.lastAudioAt.value;
      if audioAge > AUDIO_STALE_WINDOW {
        if videoFresh {
          return Online, "audio stale";
        }
        if audioAge > STALE_TRAFFIC_WINDOW {
          return Offline, "audio offline";
        }
        return Stale, "audio stale";
      }
    }
    if trafficAge <= ONLINE_TRAFFIC_WINDOW {
      return Online, "online";
    }
    if trafficAge <= STALE_TRAFFIC_WINDOW {
      return Stale, "stale";
    }
    return Offline, "offline";
  }

  // ----- the same, sorted by outcome

  predicate HasSession(s: State) {
    s.session && s.connectedAt.Some?
  }

  function Classified(s: State, now: int): Status {
    if !s.enabled then Disabled
    else if !HasSession(s) then
      if s.restarts == 0 && Recent(s.startedAt, now, CONNECT_WINDOW) then Connecting
      else if Recent(s.lastVideoAt, now, STALE_TRAFFIC_WINDOW) then Stale
      else Offline
    else if s.lastTraffic.None? then Connecting
    else if !Recent(s.lastTraffic, now, STALE_TRAFFIC_WINDOW) then Offline
    else if VideoDemand(s, now) && !Recent(s.lastVideoAt, now, VIDEO_STALE_WINDOW) then Missing(s, s.lastVideoAt, now)
    else if VideoDemand(s, now) && s.audioClients > 0 && !Recent(s.lastAudioAt, now, AUDIO_STALE_WINDOW) then Online
    else if s.audioClients > 0 && !Recent(s.lastAudioAt, now, AUDIO_STALE_WINDOW) then Missing(s, s.lastAudioAt, now)
    else if Recent(s.lastTraffic, now, ONLINE_TRAFFIC_WINDOW) then Online
    else Stale
  }

  /** Wanted media that does not come. */
  function Missing(s: State, last: Option<int>, now: int): Status {
    if last.None? then (if Recent(s.connectedAt, now, MEDIA_RESTART_WINDOW) then Connecting else Stale)
    else if Recent(last, now, STALE_TRAFFIC_WINDOW) then Stale
    else Offline
  }

  // ----- the callbacks

  /** One stretch under the lock, or one reading of the clock before it. There is one receive loop: a
      packet, a media callback and a command come one after the other. The connected callback, clients
      and the supervisor come at any time. */
  datatype Input =
    | Packet(at: int)
    | ReadClock(at: int)
    | Video(at: int)
    | InvalidVideo(at: int)
    | Audio(at: int)
    | Command(at: int)
    | OnConnected(at: int)
    | Start(at: int)
    | Stop(at: int)
    | Restarted(at: int)
    | Clients(at: int, video: nat, audio: nat)
    | Snapshot(at: int)
    | Update(at: int, enabled: bool)

  function Step(s: State, i: Input): State {
    match i
    case Packet(at) => if s.read.Some? then s else s.(lastTraffic := Some(at))
    case ReadClock(at) => if s.read.Some? then s else s.(read := Some(at))
    case Video(_) => if s.read.None? then s else s.(lastVideoAt := s.read, lastTraffic := s.read, read := None)
    case InvalidVideo(_) => if s.read.None? then s else s.(lastTraffic := s.read, read := None)
    case Audio(_) => if s.read.None? then s else s.(lastAudioAt := s.read, lastTraffic := s.read, read := None)
    case Command(at) => if s.read.Some? then s else s.(lastTraffic := Some(at))
    case OnConnected(at) => s.(connectedAt := Some(at), lastTraffic := Some(at))
    case Start(at) => if s.session || !s.enabled then s else s.(session := true, startedAt := Some(at))
    case Stop(_) => s.(session := false, connectedAt := None, startedAt := None)
    case Restarted(_) => s.(restarts := s.restarts + 1)
    case Clients(_, video, audio) => s.(videoClients := video, audioClients := audio)
    case Snapshot(at) => s.(lastSnapshotDemand := Some(at))
    case Update(_, enabled) =>
      s.(enabled := enabled, connectedAt := None, lastTraffic := None, lastVideoAt := None, lastAudioAt := None,
         videoClients := 0, audioClients := 0)
  }

  function New(enabled: bool): State {
    State(enabled, false, None, None, 0, None, None, None, None, 0, 0, None)
  }

  function After(enabled: bool, ins: seq<Input>): State {
    if ins == [] then New(enabled) else Step(After(enabled, ins[..|ins| - 1]), ins[|ins| - 1])
  }

  predicate Monotone(ins: seq<Input>) {
    forall i, j :: 0 <= i < j < |ins| ==> ins[i].at <= ins[j].at
  }

  predicate NotLater(t: Option<int>, u: Option<int>) {
    t.Some? ==> u.Some? && t.value <= u.value
  }

  /** Media counts as traffic, and what is still waiting for the lock is newer than what has had it. */
  predicate Coherent(s: State, now: int) {
    && NotLater(s.lastVideoAt, s.lastTraffic) && NotLater(s.lastAudioAt, s.lastTraffic)
    && NotLater(s.lastTraffic, Some(now)) && NotLater(s.read, Some(now))
    && (s.read.Some? ==> NotLater(s.lastVideoAt, s.read) && NotLater(s.lastAudioAt, s.read))
  }

  lemma {:induction false} AlwaysCoherent(enabled: bool, ins: seq<Input>, now: int)
    requires Monotone(ins) && (ins != [] ==> ins[|ins| - 1].at <= now)
    ensures Coherent(After(enabled, ins), now)
  {
    if ins != [] {
      AlwaysCoherent(enabled, ins[..|ins| - 1], ins[|ins| - 1].at);
    }
  }

  /** A connected session has had traffic. */
  lemma {:induction false} ConnectedHasTraffic(enabled: bool, ins: seq<Input>)
    ensures After(enabled, ins).connectedAt.Some? ==> After(enabled, ins).lastTraffic.Some?
  {
    if ins != [] {
      ConnectedHasTraffic(enabled, ins[..|ins| - 1]);
    }
  }

  /** The medium that counts: frames where video is wanted, else sound where sound is. */
  function Wanted(s: State, now: int): Option<int> {
    if VideoDemand(s, now) then s.lastVideoAt else s.lastAudioAt
  }

  predicate MediaWanted(s: State, now: int) {
    VideoDemand(s, now) || s.audioClients > 0
  }

  /** What is wanted was just seen: a frame in the last 8 seconds, else sound in the last 4, else any
      traffic in the last 15. */
  predicate JustSeen(s: State, now: int) {
    if VideoDemand(s, now) then Recent(s.lastVideoAt, now, 8_000_000_000)
    else if s.audioClients > 0 then Recent(s.lastAudioAt, now, 4_000_000_000)
    else Recent(s.lastTraffic, now, 15_000_000_000)
  }

  /** In every state that can be reached, a connected session is told by three questions: whether there was
      traffic in the last 45 seconds, whether what is wanted was just seen, and, if wanted media was not,
      when it was seen last or, if never, whether the connection is at most 16 seconds old. */
  lemma ConnectedExactly(enabled: bool, ins: seq<Input>, now: int)
    requires Monotone(ins) && (ins != [] ==> ins[|ins| - 1].at <= now)
    requires After(enabled, ins).enabled && HasSession(After(enabled, ins))
    ensures var s := After(enabled, ins);
            Classified(s, now)
            == if !Recent(s.lastTraffic, now, 45_000_000_000) then Offline
               else if JustSeen(s, now) then Online
               else if !MediaWanted(s, now) then Stale
               else if Wanted(s, now).None? then
                 (if Recent(s.connectedAt, now, 16_000_000_000) then Connecting else Stale)
               else if Recent(Wanted(s, now), now, 45_000_000_000) then Stale
               else Offline
  {
    AlwaysCoherent(enabled, ins, now);
    ConnectedHasTraffic(enabled, ins);
  }

  /** Without a connected session it is the start that counts, as long as there was no restart, and then the
      last frame. */
  lemma UnconnectedExactly(s: State, now: int)
    requires !s.enabled || !HasSession(s)
    ensures Classified(s, now)
            == if !s.enabled then Disabled
               else if s.restarts == 0 && Recent(s.startedAt, now, 20_000_000_000) then Connecting
               else if Recent(s.lastVideoAt, now, 45_000_000_000) then Stale
               else Offline
  {
  }

  /** Video is wanted by clients, and for ten seconds after a snapshot was asked for. */
  lemma DemandExactly(s: State, now: int)
    ensures VideoDemand(s, now)
            <==> s.videoClients > 0 || (s.lastSnapshotDemand.Some? && now < s.lastSnapshotDemand.value + 10_000_000_000)
  {
  }

  /** So "online" holds exactly when a connected session has just seen what is wanted. */
  lemma OnlineExactly(enabled: bool, ins: seq<Input>, now: int)
    requires Monotone(ins) && (ins != [] ==> ins[|ins| - 1].at <= now)
    ensures var s := After(enabled, ins);
            Classified(s, now).Online? <==> s.enabled && HasSession(s) && JustSeen(s, now)
  {
    AlwaysCoherent(enabled, ins, now);
  }

  /** What the callbacks leave behind, each with the clock reading it was entered with. */
  lemma CallbacksRecord(s: State, read: int, at: int)
    requires s.read.None?
    ensures Step(Step(s, ReadClock(read)), Video(at)) == s.(lastVideoAt := Some(read), lastTraffic := Some(read))
    ensures Step(Step(s, ReadClock(read)), Audio(at)) == s.(lastAudioAt := Some(read), lastTraffic := Some(read))
    ensures Step(Step(s, ReadClock(read)), InvalidVideo(at)) == s.(lastTraffic := Some(read))
    ensures Step(s, Packet(at)) == Step(s, Command(at)) == s.(lastTraffic := Some(at))
    ensures Step(s, OnConnected(at)) == s.(connectedAt := Some(at), lastTraffic := Some(at))
    ensures Step(s, Stop(at)) == s.(session := false, connectedAt := None, startedAt := None)
    ensures s.enabled && !s.session ==> Step(s, Start(at)) == s.(session := true, startedAt := Some(at))
    ensures !s.enabled || s.session ==> Step(s, Start(at)) == s
  {
  }

  /** And what clients, the supervisor and a configuration update do. */
  lemma OthersRecord(s: State, at: int, video: nat, audio: nat, enabled: bool)
    ensures Step(s, Snapshot(at)) == s.(lastSnapshotDemand := Some(at))
    ensures Step(s, Restarted(at)) == s.(restarts := s.restarts + 1)
    ensures Step(s, Clients(at, video, audio)) == s.(videoClients := video, audioClients := audio)
    ensures Step(s, Update(at, enabled))
            == s.(enabled := enabled, connectedAt := None, lastTraffic := None, lastVideoAt := None,
                  lastAudioAt := None, videoClients := 0, audioClients := 0)
  {
  }

  /** A frame brings a connected session online for eight seconds where video is wanted. */
  lemma FrameShowsOnline(enabled: bool, ins: seq<Input>, read: int, at: int, now: int)
    requires var s := After(enabled, ins); s.enabled && HasSession(s) && s.read.None?
    requires Monotone(ins + [ReadClock(read), Video(at)]) && at <= now <= read + 8_000_000_000
    ensures var s := After(enabled, ins + [ReadClock(read), Video(at)]);
            VideoDemand(s, now) ==> Classified(s, now).Online?
  {
    var all := ins + [ReadClock(read), Video(at)];
    assert all[..|all| - 1] == ins + [ReadClock(read)];
    assert (ins + [ReadClock(read)])[..|ins|] == ins;
    CallbacksRecord(After(enabled, ins), read, at);
    OnlineExactly(enabled, all, now);
  }

  /** So it is never shown without traffic in the last 15 seconds. */
  lemma OnlineMeansTraffic(enabled: bool, ins: seq<Input>, now: int)
    requires Monotone(ins) && (ins != [] ==> ins[|ins| - 1].at <= now)
    requires Classified(After(enabled, ins), now).Online?
    ensures Recent(After(enabled, ins).lastTraffic, now, 15_000_000_000)
  {
    AlwaysCoherent(enabled, ins, now);
  }

  /** The classification alone does not promise this: it does not look at the traffic once a wanted
      frame is fresh and wanted sound is not. */
  lemma IncoherentStateShowsOnline(s: State, now: int)
    requires s.enabled && HasSession(s) && s.videoClients > 0 && s.audioClients > 0 && s.lastAudioAt.None?
    requires s.lastVideoAt == Some(now) && s.lastTraffic == Some(now - 30_000_000_000)
    ensures Classified(s, now).Online? && !Recent(s.lastTraffic, now, 15_000_000_000)
  {
  }
}
