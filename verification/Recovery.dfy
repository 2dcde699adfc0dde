/** The Go supervisor's rate limits. Health loop, stream loop, clients and close callbacks call the
    operations below in any order; each operation's stretch under the lock is one step. Times are
    nanoseconds of one clock. */
module Recovery {
  import opened Bytes
  import opened Machine

  const SECOND: int := 1_000_000_000
  const RESTART_COOLDOWN: int := 5 * SECOND
  const NUDGE_COOLDOWN: int := 8 * SECOND
  const REQUEST_WINDOW: int := 2 * SECOND

  /** `session` is the number of the session in the slot; None for a time means never. */
  datatype State = State(session: Option<nat>, created: nat, connected: bool, lastRestart: Option<int>,
                         lastNudge: Option<int>, lastVideo: Option<int>, lastAudio: Option<int>)

  const FRESH := State(None, 0, false, None, None, None, None)

  /** `at` is the time under the lock. A restart goes by the time its caller read before it had the
      lock. What clients want is part of the input. */
  datatype Input =
    | Start(at: int, enabled: bool)
    | Stop(at: int)
    | Connected(at: int)
    | Restart(at: int, read: int)
    | Nudge(at: int, wantsAudio: bool)
    | Request(at: int, forced: bool, wantsVideo: bool, wantsAudio: bool, skipAudio: bool)
    | RequestAudio(at: int, wantsAudio: bool)
    | Update(at: int)

  /** What a step does, for the record. */
  datatype Act =
    | Opened(id: nat)
    | Closed(id: nat)
    | Restarted(read: int, lockedAt: int)
    | Nudged(at: int, audio: bool)
    | Requested(at: int, forced: bool, video: bool, audio: bool)
    | Updated

  predicate Elapsed(last: Option<int>, now: int, window: int) {
    last.None? || now - last.value >= window
  }

  function Step(s: State, i: Input): (State, Option<Act>) {
    match i
    case Start(at, enabled) =>
      if s.session.Some? || !enabled then (s, None)
      else (s.(session := Some(s.created), created := s.created + 1), Some(Opened(s.created)))
    case Stop(at) =>
      (s.(session := None, connected := false), if s.session.Some? then Some(Closed(s.session.value)) else None)
    case Connected(at) => (s.(connected := true), None)
    case Restart(at, read) =>
      if !Elapsed(s.lastRestart, read, RESTART_COOLDOWN) then (s, None)
      else (s.(lastRestart := Some(read)), Some(Restarted(read, at)))
    case Nudge(at, wantsAudio) =>
      if s.session.None? || !s.connected || !Elapsed(s.lastNudge, at, NUDGE_COOLDOWN) then (s, None)
      else
        (s.(lastNudge := Some(at), lastVideo := Some(at), lastAudio := if wantsAudio then Some(at) else s.lastAudio),
         Some(Nudged(at, wantsAudio)))
    case Request(at, forced, wantsVideo, wantsAudio, skipAudio) =>
      var video := (forced || wantsVideo) && (forced || Elapsed(s.lastVideo, at, REQUEST_WINDOW));
      var audio := wantsAudio && !skipAudio && (forced || Elapsed(s.lastAudio, at, REQUEST_WINDOW));
      (s.(lastVideo := if video then Some(at) else s.lastVideo, lastAudio := if audio then Some(at) else s.lastAudio),
       if video || audio then Some(Requested(at, forced, video, audio)) else None)
    case RequestAudio(at, wantsAudio) =>
      if !wantsAudio || !Elapsed(s.lastAudio, at, REQUEST_WINDOW) then (s, None)
      else (s.(lastAudio := Some(at)), Some(Requested(at, false, false, true)))
    case Update(at) => (s.(connected := false, lastNudge := None), Some(Updated))
  }

  class CameraRuntime {
    var session: Option<nat>
    var created: nat
    var connected: bool
    var lastRestartAt: Option<int>
    var lastMediaNudge: Option<int>
    var lastVideoRequest: Option<int>
    var lastAudioRequest: Option<int>

    function View(): State
      reads this
    {
      State(session, created, connected, lastRestartAt, lastMediaNudge, lastVideoRequest, lastAudioRequest)
    }

    constructor ()
      ensures View() == FRESH
    {
      session, created, connected := None, 0, false;
      lastRestartAt, lastMediaNudge, lastVideoRequest, lastAudioRequest := None, None, None, None;
    }

    method StartSession(now: int, enabled: bool)
      modifies this
      ensures View() == Step(old(View()), Start(now, enabled)).0
    {
      if session.Some? || !enabled {
        return;
      }
      session := Some(created);
      created := created + 1;
    }

    method SessionConnected(now: int)
      modifies this
      ensures View() == Step(old(View()), Connected(now)).0
    {
      connected := true;
    }

    /** The part of a configuration update that resets the recovery state. */
    method ResetForUpdate(now: int)
      modifies this
      ensures View() == Step(old(View()), Update(now)).0
    {
      connected := false;
      lastMediaNudge := None;
    }

    /** The session to close, if there was one. */
    method StopSession(now: int) returns (pp: Option<nat>)
      modifies this
      ensures View() == Step(old(View()), Stop(now)).0
      ensures pp == old(session)
    {
      pp := session;
      session := None;
      connected := false;
    }

    method RestartSession(read: int, now: int) returns (ok: bool)
      modifies this
      ensures View() == Step(old(View()), Restart(now, read)).0
      ensures ok <==> Step(old(View()), Restart(now, read)).1.Some?
      ensures ok ==>
                forall later :: later < read + 5_000_000_000 ==> !Elapsed(lastRestartAt, later, 5_000_000_000)
      ensures !ok ==> View() == old(View())
    {
      if lastRestartAt.Some? && read - lastRestartAt.value < RESTART_COOLDOWN {
        return false;
      }
      lastRestartAt := Some(read);
      return true;
    }

    method NudgeStreams(now: int, wantsAudio: bool) returns (ok: bool)
      modifies this
      ensures View() == Step(old(View()), Nudge(now, wantsAudio)).0
      ensures ok <==> Step(old(View()), Nudge(now, wantsAudio)).1.Some?
      ensures ok ==> forall later :: later < now + 8_000_000_000 ==> !Elapsed(lastMediaNudge, later, 8_000_000_000)
      ensures ok ==> forall later :: later < now + 2_000_000_000 ==> !Elapsed(lastVideoRequest, later, 2_000_000_000)
      ensures !ok ==> View() == old(View())
    {
      if session.None? || !connected || (lastMediaNudge.Some? && now - lastMediaNudge.value < NUDGE_COOLDOWN) {
        return false;
      }
      lastMediaNudge := Some(now);
      lastVideoRequest := Some(now);
      if wantsAudio {
        lastAudioRequest := Some(now);
      }
      return true;
    }

    method RequestStreams(now: int, forceVideo: bool, clientsWantVideo: bool, wantsAudio: bool, videoOnly: bool)
      returns (sendVideo: bool, sendAudio: bool)
      modifies this
      ensures var i := Request(now, forceVideo, clientsWantVideo, wantsAudio, videoOnly);
              && View() == Step(old(View()), i).0
              && Step(old(View()), i).1
                 == if sendVideo || sendAudio then Some(Requested(now, forceVideo, sendVideo, sendAudio)) else None
      ensures forceVideo ==> sendVideo
      ensures sendVideo ==>
                forall later :: later < now + 2_000_000_000 ==> !Elapsed(lastVideoRequest, later, 2_000_000_000)
      ensures lastMediaNudge == old(lastMediaNudge) && lastRestartAt == old(lastRestartAt) && session == old(session)
    {
      var wantsVideo := forceVideo || clientsWantVideo;
      sendVideo := wantsVideo
        && (forceVideo || lastVideoRequest.None? || now - lastVideoRequest.value >= REQUEST_WINDOW);
      sendAudio := wantsAudio && !videoOnly
        && (forceVideo || lastAudioRequest.None? || now - lastAudioRequest.value >= REQUEST_WINDOW);
      if sendVideo {
        lastVideoRequest := Some(now);
      }
      if sendAudio {
        lastAudioRequest := Some(now);
      }
    }

    method RequestAudioOnly(now: int, wantsAudio: bool) returns (sendAudio: bool)
      modifies this
      ensures View() == Step(old(View()), RequestAudio(now, wantsAudio)).0
      ensures sendAudio <==> Step(old(View()), RequestAudio(now, wantsAudio)).1.Some?
      ensures lastVideoRequest == old(lastVideoRequest)
    {
      sendAudio := wantsAudio && (lastAudioRequest.None? || now - lastAudioRequest.value >= REQUEST_WINDOW);
      if sendAudio {
        lastAudioRequest := Some(now);
      }
    }
  }

  // ----- the record of a run

  function After(ins: seq<Input>): State {
    Run(Step, FRESH, ins).0
  }

  function Record(ins: seq<Input>): seq<Act> {
    Run(Step, FRESH, ins).1
  }

  lemma Snoc(ins: seq<Input>)
    requires ins != []
    ensures var before, i := ins[..|ins| - 1], ins[|ins| - 1];
            After(ins) == Step(After(before), i).0 && Record(ins) == Record(before) + Listed(Step(After(before), i).1)
  {
    var before, i := ins[..|ins| - 1], ins[|ins| - 1];
    assert ins == before + [i];
    RunSnoc(Step, FRESH, before, i);
  }

  /** The moments of one kind of act since the last act of another kind. */
  function Times(record: seq<Act>, pick: Act -> Option<int>, clear: Act -> bool): seq<int> {
    if record == [] then []
    else
      var a := record[|record| - 1];
      if clear(a) then [] else Times(record[..|record| - 1], pick, clear) + Listed(pick(a))
  }

  lemma TimesMore(record: seq<Act>, a: Option<Act>, pick: Act -> Option<int>, clear: Act -> bool)
    ensures Times(record + Listed(a), pick, clear)
            == if a.None? then Times(record, pick, clear)
               else if clear(a.value) then []
               else Times(record, pick, clear) + Listed(pick(a.value))
  {
    if a.None? {
      assert record + [] == record;
    } else {
      assert (record + [a.value])[..|record|] == record;
    }
  }

  /** Consecutive moments are at least a gap apart, and `last` is the last of them. */
  predicate Spaced(times: seq<int>, gap: int, last: Option<int>) {
    && (forall i :: 0 <= i < |times| - 1 ==> times[i + 1] - times[i] >= gap)
    && (if times == [] then last.None? else last == Some(times[|times| - 1]))
  }

  lemma {:induction false} SpanOfSpaced(times: seq<int>, gap: int, last: Option<int>)
    requires Spaced(times, gap, last) && times != []
    ensures times[|times| - 1] - times[0] >= gap * (|times| - 1)
  {
    if |times| > 1 {
      var before := times[..|times| - 1];
      SpanOfSpaced(before, gap, Some(before[|before| - 1]));
    }
  }

  function RestartRead(a: Act): Option<int> {
    if a.Restarted? then Some(a.read) else None
  }

  function NudgeTime(a: Act): Option<int> {
    if a.Nudged? then Some(a.at) else None
  }

  predicate Never(a: Act) {
    false
  }

  predicate IsUpdate(a: Act) {
    a.Updated?
  }

  function Restarts(record: seq<Act>): seq<int> {
    Times(record, RestartRead, Never)
  }

  /** Nudges since the last configuration update. */
  function Nudges(record: seq<Act>): seq<int> {
    Times(record, NudgeTime, IsUpdate)
  }

  lemma SpacedMore(times: seq<int>, gap: int, last: Option<int>, now: int)
    requires Spaced(times, gap, last) && Elapsed(last, now, gap)
    ensures Spaced(times + [now], gap, Some(now))
  {
  }

  /** In every run consecutive restarts are at least five seconds apart by their callers' clocks. */
  lemma {:induction false} RestartsSpaced(ins: seq<Input>)
    ensures Spaced(Restarts(Record(ins)), 5_000_000_000, After(ins).lastRestart)
  {
    hide Run, Times, Spaced;
    if ins == [] {
      NothingYet();
    } else {
      var before, i := ins[..|ins| - 1], ins[|ins| - 1];
      RestartsSpaced(before);
      Snoc(ins);
      var s, a := After(before), Step(After(before), i).1;
      TimesMore(Record(before), a, RestartRead, Never);
      assert Restarts(Record(before)) + [] == Restarts(Record(before));
      if a.Some? && a.value.Restarted? {
        SpacedMore(Restarts(Record(before)), 5_000_000_000, s.lastRestart, a.value.read);
      }
    }
  }

  lemma NothingYet()
    ensures After([]) == FRESH && Record([]) == []
    ensures Spaced([], 5_000_000_000, None) && Spaced([], 8_000_000_000, None)
    ensures Restarts([]) == [] && Nudges([]) == [] && Opens([]) == [] && Closes([]) == []
  {
  }

  /** Between configuration updates nudges are at least eight seconds apart. */
  lemma {:induction false} NudgesSpaced(ins: seq<Input>)
    ensures Spaced(Nudges(Record(ins)), 8_000_000_000, After(ins).lastNudge)
  {
    hide Run, Times, Spaced;
    NothingYet();
    if ins != [] {
      var before, i := ins[..|ins| - 1], ins[|ins| - 1];
      NudgesSpaced(before);
      Snoc(ins);
      var s, a := After(before), Step(After(before), i).1;
      TimesMore(Record(before), a, NudgeTime, IsUpdate);
      assert Nudges(Record(before)) + [] == Nudges(Record(before));
      if a.Some? && a.value.Nudged? {
        SpacedMore(Nudges(Record(before)), 8_000_000_000, s.lastNudge, a.value.at);
      }
    }
  }

  /** No caller entered before `from`, and none read the clock after it had the lock, which was not
      later than `to`. */
  predicate Within(ins: seq<Input>, from: int, to: int) {
    forall k :: 0 <= k < |ins| && ins[k].Restart? ==> from <= ins[k].read <= ins[k].at <= to
  }

  lemma {:induction false} RestartsWithin(ins: seq<Input>, from: int, to: int)
    requires Within(ins, from, to)
    ensures forall k :: 0 <= k < |Restarts(Record(ins))| ==> from <= Restarts(Record(ins))[k] <= to
  {
    hide Run, Times;
    NothingYet();
    if ins != [] {
      var before := ins[..|ins| - 1];
      RestartsWithin(before, from, to);
      Snoc(ins);
      TimesMore(Record(before), Step(After(before), ins[|ins| - 1]).1, RestartRead, Never);
      assert Restarts(Record(before)) + [] == Restarts(Record(before));
    }
  }

  /** So n restarts take at least 5(n - 1) seconds from the first caller's entry. */
  lemma RestartsTakeTime(ins: seq<Input>, from: int, to: int)
    requires Within(ins, from, to) && Restarts(Record(ins)) != []
    ensures to - from >= 5_000_000_000 * (|Restarts(Record(ins))| - 1)
  {
    RestartsSpaced(ins);
    RestartsWithin(ins, from, to);
    SpanOfSpaced(Restarts(Record(ins)), 5_000_000_000, After(ins).lastRestart);
  }

  /** Every caller reads the clock before it has the lock. */
  predicate ReadsFirst(ins: seq<Input>) {
    forall k :: 0 <= k < |ins| && ins[k].Restart? ==> ins[k].read <= ins[k].at
  }

  /** Of any two restarts the later one takes effect at least the cooldown after the earlier one, less
      the time for which the earlier caller had waited for the lock. */
  predicate EffectsSpaced(record: seq<Act>) {
    forall i, j :: 0 <= i < j < |record| && record[i].Restarted? && record[j].Restarted? ==>
      record[j].lockedAt - record[i].lockedAt >= 5_000_000_000 - (record[i].lockedAt - record[i].read)
  }

  predicate NoneReadAfter(record: seq<Act>, last: Option<int>) {
    forall i :: 0 <= i < |record| && record[i].Restarted? ==> last.Some? && record[i].read <= last.value
  }

  lemma EffectsMore(record: seq<Act>, last: Option<int>, a: Act)
    requires EffectsSpaced(record) && NoneReadAfter(record, last)
    requires a.Restarted? ==> a.read <= a.lockedAt && Elapsed(last, a.read, 5_000_000_000)
    ensures EffectsSpaced(record + [a])
    ensures NoneReadAfter(record + [a], if a.Restarted? then Some(a.read) else last)
  {
  }

  lemma {:induction false} EffectsApart(ins: seq<Input>)
    requires ReadsFirst(ins)
    ensures EffectsSpaced(Record(ins)) && NoneReadAfter(Record(ins), After(ins).lastRestart)
  {
    hide Run, EffectsSpaced, NoneReadAfter;
    if ins == [] {
      NothingYet();
      NoEffects();
    } else {
      var before, i := ins[..|ins| - 1], ins[|ins| - 1];
      EffectsApart(before);
      Snoc(ins);
      var s, a := After(before), Step(After(before), i).1;
      assert Record(before) + [] == Record(before);
      if a.Some? {
        EffectsMore(Record(before), s.lastRestart, a.value);
      }
    }
  }

  lemma NoEffects()
    ensures EffectsSpaced([]) && NoneReadAfter([], None)
  {
  }

  /** There is always a run in which the next restart follows as closely as the bound allows: at the
      same moment if the first caller had waited for the whole cooldown. */
  lemma ClosestRestarts(ins: seq<Input>, read: int, lockedAt: int) returns (next: Input)
    requires read <= lockedAt && ins != [] && ins[|ins| - 1] == Restart(lockedAt, read)
    requires Step(After(ins[..|ins| - 1]), ins[|ins| - 1]).1.Some?
    ensures next.Restart? && next.read <= next.at
    ensures next.at - lockedAt
            == if lockedAt - read >= 5_000_000_000 then 0 else 5_000_000_000 - (lockedAt - read)
    ensures Record(ins + [next])
            == Record(ins[..|ins| - 1]) + [Restarted(read, lockedAt), Restarted(next.read, next.at)]
  {
    var r := read + 5_000_000_000;
    next := Restart(if r < lockedAt then lockedAt else r, r);
    Snoc(ins);
    var more := ins + [next];
    Snoc(more);
    assert more[..|more| - 1] == ins;
  }

  /** What may come after a restart that took effect at a given time. */
  predicate ComesAfter(more: seq<Input>, lockedAt: int) {
    ReadsFirst(more) && forall k :: 0 <= k < |more| ==> lockedAt <= more[k].at
  }

  /** All restarts in the record from act `from` on take effect at least the cooldown after a time. */
  predicate Apart(record: seq<Act>, from: nat, lockedAt: int) {
    forall j :: from <= j < |record| && record[j].Restarted? ==> record[j].lockedAt - lockedAt >= 5_000_000_000
  }

  /** When a restart has just taken effect, all later ones take effect at least the cooldown after it
      in every continuation, if and only if its caller had not waited for the lock. */
  lemma EffectsApartExactly(ins: seq<Input>, read: int, lockedAt: int)
    requires ReadsFirst(ins) && ins != [] && ins[|ins| - 1] == Restart(lockedAt, read)
    requires Step(After(ins[..|ins| - 1]), ins[|ins| - 1]).1.Some?
    ensures (forall more :: ComesAfter(more, lockedAt) ==> Apart(Record(ins + more), |Record(ins)|, lockedAt))
            <==> read == lockedAt
  {
    Snoc(ins);
    var mine := |Record(ins)| - 1;
    if read == lockedAt {
      forall more | ComesAfter(more, lockedAt) ensures Apart(Record(ins + more), |Record(ins)|, lockedAt) {
        EffectsApart(ins + more);
        RunAppend(Step, FRESH, ins, more);
        assert Record(ins + more)[mine] == Record(ins)[mine] == Restarted(read, lockedAt);
      }
    } else {
      var next := ClosestRestarts(ins, read, lockedAt);
      var more := [next];
      assert ComesAfter(more, lockedAt);
      assert Record(ins + more)[mine + 1] == Restarted(next.read, next.at);
      assert !Apart(Record(ins + more), |Record(ins)|, lockedAt);
    }
  }

  /** For example two restarts that take effect at the same moment. */
  lemma RestartsMayCoincide()
    ensures var ins := [Restart(5_000_000_000, 0), Restart(5_000_000_000, 5_000_000_000)];
            && Within(ins, 0, 5_000_000_000)
            && Record(ins) == [Restarted(0, 5_000_000_000), Restarted(5_000_000_000, 5_000_000_000)]
  {
    var first, second := Restart(5_000_000_000, 0), Restart(5_000_000_000, 5_000_000_000);
    RunOne(Step, FRESH, first);
    RunSnoc(Step, FRESH, [first], second);
    assert [first] + [second] == [first, second];
  }

  // ----- requests

  function VideoTime(a: Act): Option<int> {
    match a
    case Nudged(at, _) => Some(at)
    case Requested(at, _, video, _) => if video then Some(at) else None
    case _ => None
  }

  function AudioTime(a: Act): Option<int> {
    match a
    case Nudged(at, audio) => if audio then Some(at) else None
    case Requested(at, _, _, audio) => if audio then Some(at) else None
    case _ => None
  }

  /** No earlier act of the kind is less than the window before a request that is not forced. */
  predicate Sparing(record: seq<Act>, pick: Act -> Option<int>) {
    forall i, j :: 0 <= i < j < |record| && pick(record[i]).Some? && pick(record[j]).Some?
                   && record[j].Requested? && !record[j].forced
                   ==> pick(record[j]).value - pick(record[i]).value >= 2_000_000_000
  }

  predicate NoneAfter(record: seq<Act>, pick: Act -> Option<int>, last: Option<int>) {
    forall i :: 0 <= i < |record| && pick(record[i]).Some? ==> last.Some? && pick(record[i]).value <= last.value
  }

  predicate NotAfter(last: Option<int>, now: int) {
    last.Some? ==> last.value <= now
  }

  /** The lock is held at times that do not go back. */
  predicate Monotone(ins: seq<Input>) {
    forall i, j :: 0 <= i < j < |ins| ==> ins[i].at <= ins[j].at
  }

  lemma SparingMore(record: seq<Act>, pick: Act -> Option<int>, last: Option<int>, a: Option<Act>, next: Option<int>)
    requires Sparing(record, pick) && NoneAfter(record, pick, last)
    requires a.None? || pick(a.value).None? ==> next == last
    requires a.Some? && pick(a.value).Some? ==>
               && next == pick(a.value) && NotAfter(last, next.value)
               && (a.value.Requested? && !a.value.forced ==> Elapsed(last, next.value, 2_000_000_000))
    ensures Sparing(record + Listed(a), pick) && NoneAfter(record + Listed(a), pick, next)
  {
    if a.None? {
      assert record + [] == record;
    }
  }

  lemma RequestStep(s: State, i: Input)
    requires NotAfter(s.lastVideo, i.at) && NotAfter(s.lastAudio, i.at)
    ensures var (t, a) := Step(s, i);
            && NotAfter(t.lastVideo, i.at) && NotAfter(t.lastAudio, i.at)
            && t.lastVideo == (if a.Some? && VideoTime(a.value).Some? then VideoTime(a.value) else s.lastVideo)
            && t.lastAudio == (if a.Some? && AudioTime(a.value).Some? then AudioTime(a.value) else s.lastAudio)
            && (a.Some? && a.value.Requested? && !a.value.forced ==>
                  && (a.value.video ==> Elapsed(s.lastVideo, a.value.at, 2_000_000_000))
                  && (a.value.audio ==> Elapsed(s.lastAudio, a.value.at, 2_000_000_000)))
            && (a.Some? && (VideoTime(a.value).Some? || AudioTime(a.value).Some?) ==> a.value.at == i.at)
  {
  }

  lemma {:induction false} RequestsSparing(ins: seq<Input>)
    requires Monotone(ins)
    ensures Sparing(Record(ins), VideoTime) && NoneAfter(Record(ins), VideoTime, After(ins).lastVideo)
    ensures Sparing(Record(ins), AudioTime) && NoneAfter(Record(ins), AudioTime, After(ins).lastAudio)
    ensures ins != [] ==>
              NotAfter(After(ins).lastVideo, ins[|ins| - 1].at) && NotAfter(After(ins).lastAudio, ins[|ins| - 1].at)
  {
    hide Run, Sparing, NoneAfter;
    if ins == [] {
      NothingRequested();
      NothingYet();
    } else {
      var before, i := ins[..|ins| - 1], ins[|ins| - 1];
      RequestsSparing(before);
      Snoc(ins);
      NothingYet();
      if before != [] {
        assert before[|before| - 1].at <= i.at;
      }
      var s, t, a := After(before), After(ins), Step(After(before), i).1;
      RequestStep(s, i);
      hide Step;
      SparingMore(Record(before), VideoTime, s.lastVideo, a, t.lastVideo);
      SparingMore(Record(before), AudioTime, s.lastAudio, a, t.lastAudio);
    }
  }

  lemma NothingRequested()
    ensures Record([]) == []
    ensures Sparing([], VideoTime) && NoneAfter([], VideoTime, None)
    ensures Sparing([], AudioTime) && NoneAfter([], AudioTime, None)
  {
  }

  // ----- what goes through

  ghost predicate LastOf(times: seq<int>, last: Option<int>) {
    if times == [] then last.None? else last == Some(times[|times| - 1])
  }

  /** At least a gap after the last of the recorded moments, if there is one. */
  predicate Due(times: seq<int>, now: int, gap: int) {
    times == [] || now - times[|times| - 1] >= gap
  }

  function VideoTimes(record: seq<Act>): seq<int> {
    Times(record, VideoTime, Never)
  }

  function AudioTimes(record: seq<Act>): seq<int> {
    Times(record, AudioTime, Never)
  }

  lemma LastMore(times: seq<int>, last: Option<int>, more: Option<int>)
    requires LastOf(times, last)
    ensures LastOf(times + Listed(more), if more.Some? then more else last)
  {
    if more.None? {
      assert times + [] == times;
    }
  }

  /** The state knows the last video and the last audio act. */
  lemma {:induction false} LastMediaActs(ins: seq<Input>)
    ensures LastOf(VideoTimes(Record(ins)), After(ins).lastVideo)
    ensures LastOf(AudioTimes(Record(ins)), After(ins).lastAudio)
  {
    hide Run, Times, LastOf;
    NothingYet();
    if ins == [] {
      NoMediaActs();
    } else {
      var before, i := ins[..|ins| - 1], ins[|ins| - 1];
      LastMediaActs(before);
      Snoc(ins);
      var s, a := After(before), Step(After(before), i).1;
      TimesMore(Record(before), a, VideoTime, Never);
      TimesMore(Record(before), a, AudioTime, Never);
      if a.Some? {
        LastMore(VideoTimes(Record(before)), s.lastVideo, VideoTime(a.value));
        LastMore(AudioTimes(Record(before)), s.lastAudio, AudioTime(a.value));
      }
    }
  }

  lemma NoMediaActs()
    ensures LastOf(VideoTimes([]), None) && LastOf(AudioTimes([]), None)
  {
  }

  /** A restart goes through exactly when five seconds have passed since the last one that did. */
  lemma RestartsWhenDue(ins: seq<Input>, read: int, at: int)
    ensures Step(After(ins), Restart(at, read)).1
            == if Due(Restarts(Record(ins)), read, 5_000_000_000) then Some(Restarted(read, at)) else None
  {
    hide Run, Times;
    RestartsSpaced(ins);
  }

  /** A nudge goes out exactly when there is a connected session and eight seconds have passed since the
      last one after the last configuration update. */
  lemma NudgesWhenDue(ins: seq<Input>, at: int, wantsAudio: bool)
    ensures Step(After(ins), Nudge(at, wantsAudio)).1
            == if After(ins).session.Some? && After(ins).connected && Due(Nudges(Record(ins)), at, 8_000_000_000)
               then Some(Nudged(at, wantsAudio)) else None
  {
    hide Run, Times;
    NudgesSpaced(ins);
  }

  /** Video is requested exactly when it is forced, or wanted and two seconds have passed since the last
      request or nudge; audio when it is wanted, not left out, and forced or likewise due. */
  lemma RequestsWhenDue(ins: seq<Input>, at: int, forced: bool, wantsVideo: bool, wantsAudio: bool, skipAudio: bool)
    ensures var a := Step(After(ins), Request(at, forced, wantsVideo, wantsAudio, skipAudio)).1;
            var video := forced || (wantsVideo && Due(VideoTimes(Record(ins)), at, 2_000_000_000));
            var audio := wantsAudio && !skipAudio && (forced || Due(AudioTimes(Record(ins)), at, 2_000_000_000));
            a == if video || audio then Some(Requested(at, forced, video, audio)) else None
    ensures Step(After(ins), RequestAudio(at, wantsAudio)).1
            == if wantsAudio && Due(AudioTimes(Record(ins)), at, 2_000_000_000)
               then Some(Requested(at, false, false, true)) else None
  {
    hide Run, Times;
    LastMediaActs(ins);
  }

  /** A session is opened exactly when it may be and none is open; whatever is open is closed. */
  lemma OpensWhenFree(ins: seq<Input>, at: int, enabled: bool)
    ensures var (open, closed) := (Opens(Record(ins)), Closes(Record(ins)));
            && Step(After(ins), Start(at, enabled)).1
               == (if enabled && |open| == |closed| then Some(Opened(|open|)) else None)
            && Step(After(ins), Stop(at)).1 == (if |open| == |closed| then None else Some(Closed(|closed|)))
  {
    hide Run, Times;
    SlotHoldsTheOnlyOpenSession(ins);
    if After(ins).session.Some? {
      assert Opens(Record(ins))[|Closes(Record(ins))|] == |Closes(Record(ins))|;
    }
  }

  /** The session counts as connected from the callback on, until it is stopped or updated. */
  function SaysConnected(ins: seq<Input>): bool {
    if ins == [] then false
    else
      match ins[|ins| - 1]
      case Connected(_) => true
      case Stop(_) => false
      case Update(_) => false
      case _ => SaysConnected(ins[..|ins| - 1])
  }

  lemma {:induction false} ConnectedAsTold(ins: seq<Input>)
    ensures After(ins).connected == SaysConnected(ins)
  {
    hide Run;
    NothingYet();
    if ins != [] {
      ConnectedAsTold(ins[..|ins| - 1]);
      Snoc(ins);
    }
  }

  // ----- the session slot

  function OpenId(a: Act): Option<int> {
    if a.Opened? then Some(a.id) else None
  }

  function CloseId(a: Act): Option<int> {
    if a.Closed? then Some(a.id) else None
  }

  function Opens(record: seq<Act>): seq<int> {
    Times(record, OpenId, Never)
  }

  function Closes(record: seq<Act>): seq<int> {
    Times(record, CloseId, Never)
  }

  function InSlot(s: State): seq<int> {
    if s.session.Some? then [s.session.value] else []
  }

  /** Sessions are closed once each, in the order in which they were opened, and all of them but the
      one in the slot: a session is only put there when it is empty. */
  lemma {:induction false} SlotHoldsTheOnlyOpenSession(ins: seq<Input>)
    ensures Opens(Record(ins)) == Closes(Record(ins)) + InSlot(After(ins))
    ensures |Opens(Record(ins))| == After(ins).created
    ensures forall k :: 0 <= k < |Opens(Record(ins))| ==> Opens(Record(ins))[k] == k
  {
    hide Run, Times;
    NothingYet();
    if ins != [] {
      var before, i := ins[..|ins| - 1], ins[|ins| - 1];
      SlotHoldsTheOnlyOpenSession(before);
      Snoc(ins);
      var a := Step(After(before), i).1;
      TimesMore(Record(before), a, OpenId, Never);
      TimesMore(Record(before), a, CloseId, Never);
      assert Opens(Record(before)) + [] == Opens(Record(before));
      assert Closes(Record(before)) + [] == Closes(Record(before));
    }
  }
}
