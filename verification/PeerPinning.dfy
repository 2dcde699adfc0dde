/** Which peers the Go client listens to. Until a peer reports ready every acceptable one is heard;
    from then on only that one. */
module PeerPinning {
  import opened Bytes
  import opened Machine

  const MSG_PUNCH: Byte := 0x41
  const MSG_P2P_RDY: Byte := 0x42
  const MAX_ECHOES: nat := 5

  datatype Address = Address(ip: string, port: nat)

  datatype State = State(remote: Option<Address>, punchCount: nat)

  const NEW := State(None, 0)

  /** A datagram; `typ` is None when it does not parse. */
  datatype Datagram = Datagram(from: Address, typ: Option<Byte>)

  /** A packet that was handled, whether it was echoed and whether the session became connected. */
  datatype Handled = Handled(from: Address, typ: Byte, echoed: bool, connects: bool)

  predicate AcceptsPeer(expected: Option<string>, s: State, from: Address) {
    match s.remote
    case Some(r) => from == r
    case None => expected.None? || from.ip == expected.value
  }

  function Step(expected: Option<string>, s: State, d: Datagram): (State, Option<Handled>) {
    if !AcceptsPeer(expected, s, d.from) || d.typ.None? then (s, None)
    else if d.typ.value == MSG_PUNCH then
      (s.(punchCount := if s.punchCount < MAX_ECHOES then s.punchCount + 1 else s.punchCount),
       Some(Handled(d.from, MSG_PUNCH, s.punchCount < MAX_ECHOES, false)))
    else if d.typ.value == MSG_P2P_RDY then
      (s.(remote := Some(d.from)), Some(Handled(d.from, MSG_P2P_RDY, false, s.remote.None?)))
    else (s, Some(Handled(d.from, d.typ.value, false, false)))
  }

  class PPPP {
    const expectedIP: Option<string>
    var remote: Option<Address>
    var isConnected: bool
    var punchCount: nat

    predicate Valid()
      reads this
    {
      isConnected <==> remote.Some?
    }

    function View(): State
      reads this
    {
      State(remote, punchCount)
    }

    constructor (expectedIP: Option<string>)
      ensures this.expectedIP == expectedIP && Valid() && View() == NEW
    {
      this.expectedIP := expectedIP;
      remote, isConnected, punchCount := None, false, 0;
    }

    method HandleDatagram(d: Datagram) returns (handled: Option<Handled>)
      requires Valid()
      modifies this
      ensures Valid() && (View(), handled) == Step(expectedIP, old(View()), d)
    {
      if remote.Some? && d.from != remote.value {
        return None;
      }
      if remote.None? && expectedIP.Some? && d.from.ip != expectedIP.value {
        return None;
      }
      if d.typ.None? {
        return None;
      }
      var echoed, connects := false, false;
      if d.typ.value == MSG_PUNCH {
        if punchCount < MAX_ECHOES {
          punchCount := punchCount + 1;
          echoed := true;
        }
      } else if d.typ.value == MSG_P2P_RDY {
        var already := isConnected;
        remote, isConnected := Some(d.from), true;
        connects := !already;
      }
      handled := Some(Handled(d.from, d.typ.value, echoed, connects));
    }
  }

  // ----- whole sessions

  function StepFor(expected: Option<string>): (State, Datagram) -> (State, Option<Handled>) {
    (s, d) => Step(expected, s, d)
  }

  function After(expected: Option<string>, ds: seq<Datagram>): State {
    Run(StepFor(expected), NEW, ds).0
  }

  /** The packets handled, in order. */
  function Log(expected: Option<string>, ds: seq<Datagram>): seq<Handled> {
    Run(StepFor(expected), NEW, ds).1
  }

  // ----- who is heard

  /** A peer is heard before any is pinned when no address is expected or it has that address, and
      afterwards when it is the pinned one. */
  predicate Heard(expected: Option<string>, pinned: Option<Address>, from: Address) {
    pinned == Some(from) || (pinned.None? && (expected.None? || from.ip == expected.value))
  }

  /** Exactly the datagrams of heard peers that parse are handled. */
  lemma HandledExactly(expected: Option<string>, s: State, d: Datagram)
    ensures Step(expected, s, d).1.Some? <==> d.typ.Some? && Heard(expected, s.remote, d.from)
    ensures Step(expected, s, d).1.Some? ==>
              var h := Step(expected, s, d).1.value;
              h.from == d.from && Some(h.typ) == d.typ
              && (h.connects <==> d.typ == Some(0x42) && s.remote.None?)
              && (h.echoed <==> d.typ == Some(0x41) && s.punchCount < 5)
  {
  }

  /** The sender of the first ready packet of a heard peer. */
  function Pinned(expected: Option<string>, ds: seq<Datagram>): Option<Address> {
    if ds == [] then None
    else
      var pinned, d := Pinned(expected, ds[..|ds| - 1]), ds[|ds| - 1];
      if pinned.None? && d.typ == Some(0x42) && Heard(expected, None, d.from) then Some(d.from) else pinned
  }

  /** The datagrams of the peers that are heard when they arrive. */
  function Acceptable(expected: Option<string>, ds: seq<Datagram>): seq<Datagram> {
    if ds == [] then []
    else
      var before, d := ds[..|ds| - 1], ds[|ds| - 1];
      Acceptable(expected, before)
      + if d.typ.Some? && Heard(expected, Pinned(expected, before), d.from) then [d] else []
  }

  function Datagrams(log: seq<Handled>): seq<Datagram> {
    if log == [] then []
    else Datagrams(log[..|log| - 1]) + [Datagram(log[|log| - 1].from, Some(log[|log| - 1].typ))]
  }

  lemma DatagramsMore(log: seq<Handled>, h: Option<Handled>)
    ensures Datagrams(log + Listed(h))
            == Datagrams(log) + if h.Some? then [Datagram(h.value.from, Some(h.value.typ))] else []
  {
    if h.None? {
      assert log + [] == log;
    } else {
      assert (log + [h.value])[..|log|] == log;
    }
  }

  /** In every session: the packets handled are exactly the acceptable datagrams, in order, and the peer
      pinned is the first acceptable one that reports ready. */
  lemma {:induction false} ExactlyTheAcceptableAreHandled(expected: Option<string>, ds: seq<Datagram>)
    ensures Datagrams(Log(expected, ds)) == Acceptable(expected, ds)
    ensures After(expected, ds).remote == Pinned(expected, ds)
  {
    if ds != [] {
      var before, d := ds[..|ds| - 1], ds[|ds| - 1];
      assert ds == before + [d];
      ExactlyTheAcceptableAreHandled(expected, before);
      RunSnoc(StepFor(expected), NEW, before, d);
      var s := After(expected, before);
      HandledExactly(expected, s, d);
      DatagramsMore(Log(expected, before), Step(expected, s, d).1);
    }
  }

  // ----- what was handled

  function Count(log: seq<Handled>, typ: Byte): nat {
    if log == [] then 0 else Count(log[..|log| - 1], typ) + if log[|log| - 1].typ == typ then 1 else 0
  }

  function Least(m: nat, n: nat): nat {
    if m < n then m else n
  }

  /** What each packet in the log must look like, given those before it. */
  predicate Explained(expected: Option<string>, log: seq<Handled>, k: nat)
    requires k < |log|
  {
    var h, before := log[k], log[..k];
    && (expected.Some? ==> h.from.ip == expected.value)
    && (forall j :: 0 <= j < k && log[j].typ == 0x42 ==> h.from == log[j].from)
    && (h.connects <==> h.typ == 0x42 && Count(before, 0x42) == 0)
    && (h.echoed <==> h.typ == 0x41 && Count(before, 0x41) < 5)
  }

  predicate AllExplained(expected: Option<string>, log: seq<Handled>) {
    forall k :: 0 <= k < |log| ==> Explained(expected, log, k)
  }

  /** The state against the log. */
  predicate Summary(expected: Option<string>, s: State, log: seq<Handled>) {
    && s.punchCount == Least(5, Count(log, 0x41))
    && (s.remote.None? <==> Count(log, 0x42) == 0)
    && (forall j :: 0 <= j < |log| && log[j].typ == 0x42 ==> s.remote == Some(log[j].from))
    && (s.remote.Some? && expected.Some? ==> s.remote.value.ip == expected.value)
  }

  lemma CountSnoc(log: seq<Handled>, h: Handled, typ: Byte)
    ensures Count(log + [h], typ) == Count(log, typ) + if h.typ == typ then 1 else 0
  {
    assert (log + [h])[..|log|] == log;
  }

  lemma StepExplained(expected: Option<string>, s: State, log: seq<Handled>, d: Datagram)
    requires Summary(expected, s, log) && AllExplained(expected, log)
    ensures var (t, h) := Step(expected, s, d);
            Summary(expected, t, log + Listed(h)) && AllExplained(expected, log + Listed(h))
  {
    var (t, h) := Step(expected, s, d);
    if h.None? {
      assert log + [] == log;
    } else {
      var more := log + [h.value];
      CountSnoc(log, h.value, 0x41);
      CountSnoc(log, h.value, 0x42);
      forall k | 0 <= k < |more| ensures Explained(expected, more, k) {
        assert more[..k] == log[..k];
        if k < |log| {
          assert Explained(expected, log, k);
        } else {
          assert log[..k] == log;
        }
      }
    }
  }

  lemma {:induction false} SessionExplained(expected: Option<string>, ds: seq<Datagram>)
    ensures Summary(expected, After(expected, ds), Log(expected, ds)) && AllExplained(expected, Log(expected, ds))
  {
    if ds != [] {
      var before, d := ds[..|ds| - 1], ds[|ds| - 1];
      assert ds == before + [d];
      SessionExplained(expected, before);
      RunSnoc(StepFor(expected), NEW, before, d);
      StepExplained(expected, After(expected, before), Log(expected, before), d);
    }
  }

  function Echoes(log: seq<Handled>): nat {
    if log == [] then 0 else Echoes(log[..|log| - 1]) + if log[|log| - 1].echoed then 1 else 0
  }

  function Connects(log: seq<Handled>): nat {
    if log == [] then 0 else Connects(log[..|log| - 1]) + if log[|log| - 1].connects then 1 else 0
  }

  lemma {:induction false} CountsExplained(expected: Option<string>, log: seq<Handled>)
    requires AllExplained(expected, log)
    ensures Echoes(log) == Least(5, Count(log, 0x41))
    ensures Connects(log) == Least(1, Count(log, 0x42))
  {
    if log != [] {
      var before, k := log[..|log| - 1], |log| - 1;
      forall j | 0 <= j < |before| ensures Explained(expected, before, j) {
        assert Explained(expected, log, j);
        assert before[..j] == log[..j];
      }
      CountsExplained(expected, before);
      assert Explained(expected, log, k);
    }
  }

  /** In every session: one echo for each of the first five punches, one connected callback at the
      first ready, and once a peer has been pinned it stays, is the expected one, and is the only
      one that is heard. */
  lemma PeerStaysPinned(expected: Option<string>, ds: seq<Datagram>, more: seq<Datagram>)
    ensures var log := Log(expected, ds);
            && Echoes(log) == Least(5, Count(log, 0x41))
            && Connects(log) == Least(1, Count(log, 0x42))
    ensures var (s, t) := (After(expected, ds), After(expected, ds + more));
            s.remote.Some? ==>
              && t.remote == s.remote
              && (expected.Some? ==> s.remote.value.ip == expected.value)
              && Log(expected, ds) <= Log(expected, ds + more)
              && forall k :: |Log(expected, ds)| <= k < |Log(expected, ds + more)| ==>
                   Log(expected, ds + more)[k].from == s.remote.value
  {
    SessionExplained(expected, ds);
    SessionExplained(expected, ds + more);
    CountsExplained(expected, Log(expected, ds));
    RunAppend(StepFor(expected), NEW, ds, more);
    var log, all := Log(expected, ds), Log(expected, ds + more);
    if After(expected, ds).remote.Some? {
      var j := ReadyIn(log);
      assert all[j] == log[j];
      forall k | |log| <= k < |all| ensures all[k].from == log[j].from {
        assert Explained(expected, all, k);
      }
    }
  }

  lemma {:induction false} ReadyIn(log: seq<Handled>) returns (j: nat)
    requires Count(log, 0x42) > 0
    ensures j < |log| && log[j].typ == 0x42
  {
    if log[|log| - 1].typ == 0x42 {
      j := |log| - 1;
    } else {
      j := ReadyIn(log[..|log| - 1]);
    }
  }
}
