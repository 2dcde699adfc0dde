/** The table in which command calls wait for the camera's answers. Callers, timers and the receive
    loop take their steps in any order; each step below is one stretch under the lock, one send or
    one receive on a call's channel, which holds one message. */
module CommandWaiters {
  import opened Bytes

  /** A call's number is its position in the order of registration. */
  type Table = map<int, seq<nat>>

  function Waiters(t: Table, cmd: int): seq<nat> {
    if cmd in t then t[cmd] else []
  }

  function Registered(t: Table, cmd: int, id: nat): Table {
    t[cmd := Waiters(t, cmd) + [id]]
  }

  /** The list without the first occurrence of a call. */
  function Without(ids: seq<nat>, id: nat): seq<nat> {
    if ids == [] then [] else if ids[0] == id then ids[1..] else [ids[0]] + Without(ids[1..], id)
  }

  /** The others stay, in their order. */
  lemma {:induction false} WithoutFound(ids: seq<nat>, id: nat, i: nat)
    requires i < |ids| && ids[i] == id && id !in ids[..i]
    ensures Without(ids, id) == ids[..i] + ids[i + 1..]
  {
    if i > 0 {
      assert ids[..i][0] == ids[0] && ids[1..][..i - 1] == ids[..i][1..];
      WithoutFound(ids[1..], id, i - 1);
      assert [ids[0]] + ids[1..][..i - 1] == ids[..i];
    }
  }

  lemma {:induction false} WithoutAbsent(ids: seq<nat>, id: nat)
    requires id !in ids
    ensures Without(ids, id) == ids
  {
    if ids != [] {
      WithoutAbsent(ids[1..], id);
    }
  }

  function Removed(t: Table, cmd: int, id: nat): Table {
    var left := Without(Waiters(t, cmd), id);
    if left == [] then t - {cmd} else t[cmd := left]
  }

  /** Only a command number that is not negative is taken out of the table when it is answered. */
  function Answered(t: Table, cmd: int): Table {
    if cmd >= 0 then t - {cmd} else t
  }

  class CommandTable {
    var waiters: Table

    constructor ()
      ensures waiters == map[]
    {
      waiters := map[];
    }

    method Register(cmd: int, id: nat)
      modifies this
      ensures waiters == Registered(old(waiters), cmd, id)
      ensures Waiters(waiters, cmd) == Waiters(old(waiters), cmd) + [id]
      ensures forall c :: c != cmd ==> Waiters(waiters, c) == Waiters(old(waiters), c)
    {
      waiters := waiters[cmd := (if cmd in waiters then waiters[cmd] else []) + [id]];
    }

    method RemoveCommandWaiter(cmd: int, id: nat)
      modifies this
      ensures waiters == Removed(old(waiters), cmd, id)
      ensures Waiters(waiters, cmd) == Without(Waiters(old(waiters), cmd), id)
      ensures forall c :: c != cmd ==> Waiters(waiters, c) == Waiters(old(waiters), c)
      ensures cmd in waiters ==> waiters[cmd] != []
    {
      hide Without;
      var list := Waiters(waiters, cmd);
      for i := 0 to |list|
        invariant waiters == old(waiters) && id !in list[..i]
      {
        if list[i] == id {
          WithoutFound(list, id, i);
          waiters := waiters[cmd := list[..i] + list[i + 1..]];
          break;
        }
      }
      if id !in list {
        WithoutAbsent(list, id);
      }
      if Waiters(waiters, cmd) == [] {
        waiters := waiters - {cmd};
      }
    }

    /** The calls to be answered, taken out under the lock. */
    method Snapshot(cmd: int) returns (ids: seq<nat>)
      modifies this
      ensures ids == Waiters(old(waiters), cmd)
      ensures waiters == Answered(old(waiters), cmd)
      ensures cmd >= 0 ==> Waiters(waiters, cmd) == []
      ensures forall c :: c != cmd ==> Waiters(waiters, c) == Waiters(old(waiters), c)
    {
      ids := if cmd in waiters then waiters[cmd] else [];
      if cmd >= 0 {
        waiters := waiters - {cmd};
      }
    }
  }

  // ----- all interleavings

  datatype Phase = Sending | Failing | Waiting | Expired | Done

  /** Where the call's channel is. No step looks at it. */
  datatype Place = InTable | InDelivery(d: nat) | Served(response: nat) | Gone

  /** `box` is the channel's one place; `accepted` and `refused` count the sends into it. */
  datatype Call = Call(cmd: int, timeout: int, phase: Phase, box: Option<nat>, place: Place,
                       accepted: nat, refused: nat)

  /** An answer on its way to the calls that were waiting for it. */
  datatype Delivery = Delivery(cmd: int, rest: seq<nat>)

  datatype State = State(table: Table, calls: seq<Call>, deliveries: seq<Delivery>)

  const EMPTY := State(map[], [], [])

  datatype Event =
    | Register(cmd: int, timeout: int)
    | SendWorks(id: nat)
    | SendFails(id: nat)
    | Receive(id: nat)
    | Expire(id: nat)
    | Remove(id: nat)
    | Respond(cmd: int)
    | Deliver(d: nat)

  predicate InPhase(s: State, id: nat, phase: Phase) {
    id < |s.calls| && s.calls[id].phase == phase
  }

  function Taken(calls: seq<Call>, ids: seq<nat>, d: nat): (taken: seq<Call>)
    ensures |taken| == |calls|
  {
    seq(|calls|, i requires 0 <= i < |calls| => if i in ids then calls[i].(place := InDelivery(d)) else calls[i])
  }

  /** A send that does not wait: into an empty channel, or not at all. */
  function Offered(c: Call, response: nat): Call {
    if c.box.None? then c.(box := Some(response), place := Served(response), accepted := c.accepted + 1)
    else c.(refused := c.refused + 1)
  }

  function WithCall(s: State, id: nat, c: Call): State
    requires id < |s.calls|
  {
    s.(calls := s.calls[id := c])
  }

  /** An event that is not enabled changes nothing. */
  function Step(s: State, e: Event): State {
    match e
    case Register(cmd, timeout) =>
      State(Registered(s.table, cmd, |s.calls|),
            s.calls + [Call(cmd, timeout, Sending, None, InTable, 0, 0)], s.deliveries)
    case SendWorks(id) =>
      if !InPhase(s, id, Sending) then s
      else WithCall(s, id, s.calls[id].(phase := if s.calls[id].timeout <= 0 then Done else Waiting))
    case SendFails(id) =>
      if !InPhase(s, id, Sending) then s else WithCall(s, id, s.calls[id].(phase := Failing))
    case Receive(id) =>
      if !InPhase(s, id, Waiting) || s.calls[id].box.None? then s
      else WithCall(s, id, s.calls[id].(box := None, phase := Done))
    case Expire(id) =>
      if !InPhase(s, id, Waiting) then s else WithCall(s, id, s.calls[id].(phase := Expired))
    case Remove(id) =>
      if !InPhase(s, id, Failing) && !InPhase(s, id, Expired) then s
      else
        var c := s.calls[id];
        State(Removed(s.table, c.cmd, id),
              s.calls[id := c.(phase := Done, place := if c.place.InTable? then Gone else c.place)], s.deliveries)
    case Respond(cmd) =>
      var ids := Waiters(s.table, cmd);
      State(Answered(s.table, cmd), Taken(s.calls, ids, |s.deliveries|), s.deliveries + [Delivery(cmd, ids)])
    case Deliver(d) =>
      if d >= |s.deliveries| || s.deliveries[d].rest == [] then s
      else
        var rest := s.deliveries[d].rest;
        var after := s.deliveries[d := s.deliveries[d].(rest := rest[1..])];
        if rest[0] >= |s.calls| then s.(deliveries := after)
        else State(s.table, s.calls[rest[0] := Offered(s.calls[rest[0]], d)], after)
  }

  function Exec(s: State, es: seq<Event>): State {
    if es == [] then s else Step(Exec(s, es[..|es| - 1]), es[|es| - 1])
  }

  // ----- what every run keeps

  predicate At(calls: seq<Call>, id: nat, cmd: int, place: Place) {
    id < |calls| && calls[id].cmd == cmd && calls[id].place == place
  }

  /** The list holds exactly the calls for a command that are in a place, oldest first. */
  ghost predicate Lists(calls: seq<Call>, cmd: int, ids: seq<nat>, place: Place) {
    Increasing(ids) && forall id: nat :: id in ids <==> At(calls, id, cmd, place)
  }

  predicate CallOk(dels: seq<Delivery>, c: Call) {
    && c.cmd >= 0
    && c.refused == 0 && c.accepted == (if c.place.Served? then 1 else 0)
    && (c.box.Some? ==> c.place == Served(c.box.value))
    && (c.place.InDelivery? ==> c.place.d < |dels| && dels[c.place.d].cmd == c.cmd)
    && (c.place.Served? ==> c.place.response < |dels| && dels[c.place.response].cmd == c.cmd)
    && (c.phase.Done? && c.timeout > 0 ==> !c.place.InTable?)
  }

  ghost predicate TableOk(calls: seq<Call>, t: Table) {
    && (forall cmd :: Lists(calls, cmd, Waiters(t, cmd), InTable))
    && (forall cmd :: cmd in t ==> t[cmd] != [])
  }

  ghost predicate DeliveriesOk(calls: seq<Call>, dels: seq<Delivery>) {
    forall d: nat :: d < |dels| ==> Lists(calls, dels[d].cmd, dels[d].rest, InDelivery(d))
  }

  predicate CallsOk(calls: seq<Call>, dels: seq<Delivery>) {
    forall id: nat :: id < |calls| ==> CallOk(dels, calls[id])
  }

  ghost predicate Inv(s: State) {
    TableOk(s.calls, s.table) && DeliveriesOk(s.calls, s.deliveries) && CallsOk(s.calls, s.deliveries)
  }

  /** A change to a call that leaves its place and command alone moves nothing. */
  lemma PhaseKeepsInv(s: State, id: nat, c: Call)
    requires Inv(s) && id < |s.calls|
    requires c.cmd == s.calls[id].cmd && c.place == s.calls[id].place && CallOk(s.deliveries, c)
    ensures Inv(WithCall(s, id, c))
  {
    hide CallOk;
    var calls := s.calls[id := c];
    assert forall i: nat, cmd, place :: At(calls, i, cmd, place) <==> At(s.calls, i, cmd, place);
    forall cmd ensures Lists(calls, cmd, Waiters(s.table, cmd), InTable) {
      assert Lists(s.calls, cmd, Waiters(s.table, cmd), InTable);
    }
  }

  lemma RegisterKeepsInv(s: State, cmd: int, timeout: int)
    requires Inv(s) && cmd >= 0
    ensures Inv(Step(s, Register(cmd, timeout)))
  {
    var t := Step(s, Register(cmd, timeout));
    var id := |s.calls|;
    assert CallOk(t.deliveries, t.calls[id]);
    hide CallOk;
    assert forall i: nat, k, place ::
             At(t.calls, i, k, place) <==> At(s.calls, i, k, place) || (i == id && k == cmd && place == InTable);
    forall k ensures Lists(t.calls, k, Waiters(t.table, k), InTable) {
      var ids := Waiters(s.table, k);
      assert Lists(s.calls, k, ids, InTable);
      forall i | 0 <= i < |ids| ensures ids[i] < id {
        assert ids[i] in ids && At(s.calls, ids[i], k, InTable);
      }
    }
  }

  lemma {:induction false} WithoutKeepsOrder(ids: seq<nat>, id: nat)
    requires Increasing(ids)
    ensures Increasing(Without(ids, id))
    ensures forall x: nat :: x in Without(ids, id) <==> x in ids && x != id
  {
    if ids != [] && ids[0] != id {
      WithoutKeepsOrder(ids[1..], id);
      assert ids == [ids[0]] + ids[1..];
    }
  }

  lemma RemoveKeepsInv(s: State, id: nat)
    requires Inv(s)
    ensures Inv(Step(s, Remove(id)))
  {
    var t := Step(s, Remove(id));
    if InPhase(s, id, Failing) || InPhase(s, id, Expired) {
      var c := s.calls[id];
      assert CallOk(t.deliveries, t.calls[id]);
      hide CallOk;
      assert forall i: nat, k, place ::
               At(t.calls, i, k, place)
               <==> if i == id then k == c.cmd && place == t.calls[id].place else At(s.calls, i, k, place);
      forall k ensures Lists(t.calls, k, Waiters(t.table, k), InTable) {
        assert Lists(s.calls, k, Waiters(s.table, k), InTable);
        WithoutKeepsOrder(Waiters(s.table, c.cmd), id);
      }
      forall d: nat | d < |t.deliveries|
        ensures Lists(t.calls, t.deliveries[d].cmd, t.deliveries[d].rest, InDelivery(d))
      {
        assert Lists(s.calls, s.deliveries[d].cmd, s.deliveries[d].rest, InDelivery(d));
      }
    }
  }

  lemma RespondKeepsCalls(s: State, cmd: int)
    requires Inv(s)
    ensures var t := Step(s, Respond(cmd)); CallsOk(t.calls, t.deliveries)
  {
    var t := Step(s, Respond(cmd));
    forall id: nat | id < |t.calls| ensures CallOk(t.deliveries, t.calls[id]) {
      assert CallOk(s.deliveries, s.calls[id]);
      assert Lists(s.calls, cmd, Waiters(s.table, cmd), InTable);
      assert At(s.calls, id, cmd, InTable) <==> id in Waiters(s.table, cmd);
    }
  }

  lemma RespondKeepsInv(s: State, cmd: int)
    requires Inv(s)
    ensures Inv(Step(s, Respond(cmd)))
  {
    var t := Step(s, Respond(cmd));
    var ids, n := Waiters(s.table, cmd), |s.deliveries|;
    assert Lists(s.calls, cmd, ids, InTable);
    RespondKeepsCalls(s, cmd);
    hide CallOk, CallsOk;
    assert forall i: nat, k, place ::
             At(t.calls, i, k, place)
             <==> if i in ids then k == cmd && place == InDelivery(n) else At(s.calls, i, k, place);
    forall k ensures Lists(t.calls, k, Waiters(t.table, k), InTable) {
      assert Lists(s.calls, k, Waiters(s.table, k), InTable);
    }
    forall d: nat | d < |t.deliveries|
      ensures Lists(t.calls, t.deliveries[d].cmd, t.deliveries[d].rest, InDelivery(d))
    {
      if d < n {
        assert Lists(s.calls, s.deliveries[d].cmd, s.deliveries[d].rest, InDelivery(d));
      }
    }
  }

  lemma DeliverKeepsInv(s: State, d: nat)
    requires Inv(s)
    ensures Inv(Step(s, Deliver(d)))
  {
    var t := Step(s, Deliver(d));
    if d < |s.deliveries| && s.deliveries[d].rest != [] {
      var rest, cmd := s.deliveries[d].rest, s.deliveries[d].cmd;
      var id := rest[0];
      assert Lists(s.calls, cmd, rest, InDelivery(d));
      assert At(s.calls, id, cmd, InDelivery(d));
      assert forall c :: CallOk(s.deliveries, c) ==> CallOk(t.deliveries, c);
      assert CallOk(t.deliveries, t.calls[id]);
      hide CallOk;
      assert forall i: nat, k, place ::
               At(t.calls, i, k, place)
               <==> if i == id then k == cmd && place == Served(d) else At(s.calls, i, k, place);
      forall k ensures Lists(t.calls, k, Waiters(t.table, k), InTable) {
        assert Lists(s.calls, k, Waiters(s.table, k), InTable);
      }
      forall b: nat | b < |t.deliveries|
        ensures Lists(t.calls, t.deliveries[b].cmd, t.deliveries[b].rest, InDelivery(b))
      {
        assert Lists(s.calls, s.deliveries[b].cmd, s.deliveries[b].rest, InDelivery(b));
      }
    }
  }

  lemma PhaseStepKeepsInv(s: State, e: Event)
    requires Inv(s) && (e.SendWorks? || e.SendFails? || e.Receive? || e.Expire?)
    ensures Inv(Step(s, e))
  {
    if e.id < |s.calls| {
      var c := Step(s, e).calls[e.id];
      assert CallOk(s.deliveries, s.calls[e.id]);
      PhaseKeepsInv(s, e.id, c);
      assert WithCall(s, e.id, s.calls[e.id]) == s;
    }
  }

  /** No call is registered under a negative number. */
  predicate Numbered(es: seq<Event>) {
    forall i :: 0 <= i < |es| && es[i].Register? ==> es[i].cmd >= 0
  }

  lemma StepKeepsInv(s: State, e: Event)
    requires Inv(s) && (e.Register? ==> e.cmd >= 0)
    ensures Inv(Step(s, e))
  {
    match e
    case Register(cmd, timeout) => RegisterKeepsInv(s, cmd, timeout);
    case Remove(id) => RemoveKeepsInv(s, id);
    case Respond(cmd) => RespondKeepsInv(s, cmd);
    case Deliver(d) => DeliverKeepsInv(s, d);
    case SendWorks(id) => PhaseStepKeepsInv(s, e);
    case SendFails(id) => PhaseStepKeepsInv(s, e);
    case Receive(id) => PhaseStepKeepsInv(s, e);
    case Expire(id) => PhaseStepKeepsInv(s, e);
  }

  lemma {:induction false} RunKeepsInv(es: seq<Event>)
    requires Numbered(es)
    ensures Inv(Exec(EMPTY, es))
  {
    if es != [] {
      RunKeepsInv(es[..|es| - 1]);
      StepKeepsInv(Exec(EMPTY, es[..|es| - 1]), es[|es| - 1]);
    }
  }

  /** However the steps fall: no send to a call is refused and none is made twice, what a call
      gets answers its own command, and a finished call that was prepared to wait is in no list. */
  lemma EveryCallServedOnceAtMost(es: seq<Event>, id: nat)
    requires Numbered(es) && id < |Exec(EMPTY, es).calls|
    ensures var s := Exec(EMPTY, es);
            var c := s.calls[id];
            && c.refused == 0 && c.accepted <= 1
            && (c.box.Some? ==>
                  c.accepted == 1 && c.box.value < |s.deliveries| && s.deliveries[c.box.value].cmd == c.cmd)
            && (c.phase.Done? && c.timeout > 0 ==> forall cmd :: id !in Waiters(s.table, cmd))
  {
    RunKeepsInv(es);
    var s := Exec(EMPTY, es);
    assert CallOk(s.deliveries, s.calls[id]);
    forall cmd ensures id in Waiters(s.table, cmd) ==> At(s.calls, id, cmd, InTable) {
      assert Lists(s.calls, cmd, Waiters(s.table, cmd), InTable);
    }
  }

  predicate AllFinished(calls: seq<Call>, cmd: int) {
    forall id :: 0 <= id < |calls| && calls[id].cmd == cmd ==> calls[id].phase.Done? && calls[id].timeout > 0
  }

  /** Nothing is left of a command all of whose calls have finished. */
  lemma FinishedCallsLeaveNothing(es: seq<Event>, cmd: int)
    requires Numbered(es)
    requires AllFinished(Exec(EMPTY, es).calls, cmd)
    ensures cmd !in Exec(EMPTY, es).table
  {
    hide Inv;
    RunKeepsInv(es);
    var s := Exec(EMPTY, es);
    if cmd in s.table {
      var id := ListedCall(s, cmd);
      assert false;
    }
  }

  /** Every command in the table has a call there that has yet to finish, or was not prepared to wait. */
  lemma ListedCall(s: State, cmd: int) returns (id: nat)
    requires Inv(s) && cmd in s.table
    ensures id < |s.calls| && s.calls[id].cmd == cmd && (s.calls[id].timeout <= 0 || !s.calls[id].phase.Done?)
  {
    id := s.table[cmd][0];
    assert Lists(s.calls, cmd, Waiters(s.table, cmd), InTable);
    assert id in Waiters(s.table, cmd);
    assert At(s.calls, id, cmd, InTable);
    assert CallOk(s.deliveries, s.calls[id]);
  }

  // ----- an answer reaches the calls that wait for it, and no others

  predicate OnItsWay(s: State, id: nat, d: nat) {
    id < |s.calls| && (s.calls[id].place == InDelivery(d) || s.calls[id].place == Served(d))
  }

  lemma OnItsWayStep(s: State, e: Event, id: nat, d: nat)
    requires Inv(s) && OnItsWay(s, id, d) && d < |s.deliveries|
    ensures OnItsWay(Step(s, e), id, d) && d < |Step(s, e).deliveries|
    ensures Step(s, e).deliveries[d].cmd == s.deliveries[d].cmd
  {
    var c := s.calls[id];
    assert CallOk(s.deliveries, c);
    match e
    case Respond(cmd) =>
      assert Lists(s.calls, cmd, Waiters(s.table, cmd), InTable);
      assert At(s.calls, id, cmd, InTable) <==> id in Waiters(s.table, cmd);
    case Deliver(b) =>
      if b < |s.deliveries| && s.deliveries[b].rest != [] && s.deliveries[b].rest[0] == id {
        assert Lists(s.calls, s.deliveries[b].cmd, s.deliveries[b].rest, InDelivery(b));
        assert At(s.calls, id, s.deliveries[b].cmd, InDelivery(b));
      }
    case Register(_, _) =>
    case SendWorks(_) =>
    case SendFails(_) =>
    case Receive(_) =>
    case Expire(_) =>
    case Remove(_) =>
  }

  lemma {:induction false} OnItsWayRun(s: State, es: seq<Event>, id: nat, d: nat)
    requires Inv(s) && OnItsWay(s, id, d) && d < |s.deliveries| && Numbered(es)
    ensures Inv(Exec(s, es)) && OnItsWay(Exec(s, es), id, d) && d < |Exec(s, es).deliveries|
  {
    if es != [] {
      var before, e := es[..|es| - 1], es[|es| - 1];
      OnItsWayRun(s, before, id, d);
      StepKeepsInv(Exec(s, before), e);
      OnItsWayStep(Exec(s, before), e, id, d);
    }
  }

  /** A call that stands in the table when an answer to its command comes gets that answer, once the
      sends of the answer have been made, whatever happens in between. */
  lemma AnswerReachesTheWaiting(before: seq<Event>, cmd: int, after: seq<Event>, id: nat)
    requires Numbered(before) && Numbered(after)
    requires id in Waiters(Exec(EMPTY, before).table, cmd)
    ensures var s := Exec(EMPTY, before);
            var d := |s.deliveries|;
            var t := Exec(Step(s, Respond(cmd)), after);
            && d < |t.deliveries| && id < |t.calls|
            && (t.deliveries[d].rest == [] ==> t.calls[id].place == Served(d) && t.calls[id].accepted == 1)
  {
    RunKeepsInv(before);
    var s := Exec(EMPTY, before);
    var d, t := |s.deliveries|, Exec(Step(s, Respond(cmd)), after);
    RespondKeepsInv(s, cmd);
    assert Lists(s.calls, cmd, Waiters(s.table, cmd), InTable);
    assert At(s.calls, id, cmd, InTable);
    OnItsWayRun(Step(s, Respond(cmd)), after, id, d);
    assert Lists(t.calls, t.deliveries[d].cmd, t.deliveries[d].rest, InDelivery(d));
    assert CallOk(t.deliveries, t.calls[id]);
    if t.deliveries[d].rest == [] {
      assert id !in t.deliveries[d].rest && !At(t.calls, id, t.deliveries[d].cmd, InDelivery(d));
    }
  }

  /** It reaches nobody else. */
  lemma AnswerReachesNobodyElse(es: seq<Event>, id: nat, d: nat)
    requires Numbered(es) && id < |Exec(EMPTY, es).calls| && Exec(EMPTY, es).calls[id].place == Served(d)
    ensures var s := Exec(EMPTY, es); d < |s.deliveries| && s.deliveries[d].cmd == s.calls[id].cmd
  {
    RunKeepsInv(es);
    assert CallOk(Exec(EMPTY, es).deliveries, Exec(EMPTY, es).calls[id]);
  }

  // ----- every call is listed, and can finish

  /** A registered call waits in the table under its command. */
  lemma RegisteredIsListed(s: State, cmd: int, timeout: int)
    ensures var t := Step(s, Register(cmd, timeout));
            && |t.calls| == |s.calls| + 1
            && Waiters(t.table, cmd) == Waiters(s.table, cmd) + [|s.calls|]
            && t.calls[|s.calls|].cmd == cmd && t.calls[|s.calls|].timeout == timeout
            && t.calls[|s.calls|].phase.Sending? && t.calls[|s.calls|].place.InTable?
            && (forall i :: 0 <= i < |s.calls| ==> t.calls[i] == s.calls[i])
  {
  }

  /** From every phase a call's own steps lead to its end: a failed send and an elapsed timeout take it out of
      the table, a call that does not wait ends with its send, and a waiting call whose answer is there
      takes it. */
  lemma CallsCanFinish(s: State, id: nat)
    requires id < |s.calls|
    ensures var c := s.calls[id];
            var failed, expired := Step(Step(s, SendFails(id)), Remove(id)), Step(Step(s, Expire(id)), Remove(id));
            && (c.phase.Sending? ==> InPhase(failed, id, Done) && failed.table == Removed(s.table, c.cmd, id))
            && (c.phase.Sending? ==> InPhase(Step(s, SendWorks(id)), id, if c.timeout <= 0 then Done else Waiting))
            && (c.phase.Waiting? ==> InPhase(expired, id, Done) && expired.table == Removed(s.table, c.cmd, id))
            && (c.phase.Waiting? && c.box.Some? ==>
                  InPhase(Step(s, Receive(id)), id, Done) && Step(s, Receive(id)).calls[id].box.None?)
            && (c.phase.Waiting? && c.box.None? ==> Step(s, Receive(id)) == s)
  {
  }

  /** The sends of an answer can all be made, one per call. */
  lemma {:induction false} DeliveriesCanFinish(s: State, d: nat, n: nat)
    requires d < |s.deliveries| && n == |s.deliveries[d].rest|
    ensures var t := Exec(s, seq(n, _ => Deliver(d))); d < |t.deliveries| && t.deliveries[d].rest == []
    decreases n
  {
    var es := seq(n, _ => Deliver(d));
    if n > 0 {
      DeliveriesShrink(s, d, n);
    }
  }

  lemma {:induction false} DeliveriesShrink(s: State, d: nat, k: nat)
    requires d < |s.deliveries| && k <= |s.deliveries[d].rest|
    ensures var t := Exec(s, seq(k, _ => Deliver(d)));
            d < |t.deliveries| && t.deliveries[d].rest == s.deliveries[d].rest[k..]
    decreases k
  {
    var es := seq(k, _ => Deliver(d));
    if k > 0 {
      DeliveriesShrink(s, d, k - 1);
      assert es[..k - 1] == seq(k - 1, _ => Deliver(d));
    }
  }

  // ----- where this fails

  lemma ExecAppend(s: State, es: seq<Event>, e: Event)
    ensures Exec(s, es + [e]) == Step(Exec(s, es), e)
  {
    assert (es + [e])[..|es|] == es;
  }

  lemma ExecTwo(s: State, a: Event, b: Event)
    ensures Exec(s, [a, b]) == Step(Step(s, a), b)
  {
    ExecAppend(s, [], a);
    ExecAppend(s, [a], b);
    assert [] + [a] == [a] && [a] + [b] == [a, b];
  }

  /** Calls under a negative number are not taken out of the table when they are answered: the second
      answer finds the channel full, and the call stays listed. */
  lemma NegativeCommandRefused(cmd: int, timeout: int) returns (es: seq<Event>)
    requires cmd < 0 && timeout > 0
    ensures var s := Exec(EMPTY, es);
            |s.calls| == 1 && s.calls[0].refused == 1 && s.calls[0].phase.Waiting? && 0 in Waiters(s.table, cmd)
  {
    hide Exec;
    es := [Register(cmd, timeout), SendWorks(0)];
    ExecTwo(EMPTY, es[0], es[1]);
    ExecAppend(EMPTY, es, Respond(cmd));
    es := es + [Respond(cmd)];
    ExecAppend(EMPTY, es, Deliver(0));
    es := es + [Deliver(0)];
    ExecAppend(EMPTY, es, Respond(cmd));
    es := es + [Respond(cmd)];
    ExecAppend(EMPTY, es, Deliver(1));
    es := es + [Deliver(1)];
  }

  /** A call that is not prepared to wait finishes and stays in the table. */
  lemma ImpatientCallStays(cmd: int, timeout: int) returns (es: seq<Event>)
    requires timeout <= 0
    ensures var s := Exec(EMPTY, es);
            |s.calls| == 1 && s.calls[0].phase.Done? && 0 in Waiters(s.table, cmd)
  {
    es := [Register(cmd, timeout), SendWorks(0)];
    ExecTwo(EMPTY, es[0], es[1]);
  }
}
