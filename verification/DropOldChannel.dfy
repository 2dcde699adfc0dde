/** The bounded channel that publishers never wait on: when it is full the oldest item is taken out
    and the send is tried once more. Every step is atomic; between the steps of one publisher the
    consumer and other publishers may take any number of theirs. */
module DropOldChannel {
  import opened Bytes

  /** Where a publisher stands: outside, after the first send found the channel full, or after an
      item has been taken out. Items are numbered in the order in which publishing them begins. */
  datatype Publisher = Idle | Full(item: nat) | Dropped(item: nat)

  datatype Event = Publish(p: nat) | Drop(p: nat) | Retry(p: nat) | Consume

  datatype State = State(queue: seq<nat>, published: nat, publishers: seq<Publisher>,
                         consumed: seq<nat>, lost: seq<nat>)

  function Start(publishers: nat): State {
    State([], 0, seq(publishers, _ => Idle), [], [])
  }

  /** An event that is not enabled changes nothing. */
  function Step(capacity: nat, s: State, e: Event): State {
    match e
    case Publish(p) =>
      if p >= |s.publishers| || !s.publishers[p].Idle? then s
      else if |s.queue| < capacity then s.(queue := s.queue + [s.published], published := s.published + 1)
      else s.(publishers := s.publishers[p := Full(s.published)], published := s.published + 1)
    case Drop(p) =>
      if p >= |s.publishers| || !s.publishers[p].Full? then s
      else
        var after := s.publishers[p := Dropped(s.publishers[p].item)];
        if s.queue == [] then s.(publishers := after)
        else s.(publishers := after, queue := s.queue[1..], lost := s.lost + [s.queue[0]])
    case Retry(p) =>
      if p >= |s.publishers| || !s.publishers[p].Dropped? then s
      else
        var item, after := s.publishers[p].item, s.publishers[p := Idle];
        if |s.queue| < capacity then s.(publishers := after, queue := s.queue + [item])
        else s.(publishers := after, lost := s.lost + [item])
    case Consume =>
      if s.queue == [] then s else s.(queue := s.queue[1..], consumed := s.consumed + [s.queue[0]])
  }

  function Exec(capacity: nat, s: State, es: seq<Event>): State {
    if es == [] then s else Step(capacity, Exec(capacity, s, es[..|es| - 1]), es[|es| - 1])
  }

  // ----- one call that nobody interrupts

  /** The queue after publishing: the oldest item makes room if it must. */
  function Pushed(capacity: nat, queue: seq<nat>, item: nat): seq<nat> {
    if |queue| < capacity then queue + [item] else if queue == [] then [] else queue[1..] + [item]
  }

  class Channel {
    const capacity: nat
    var queue: seq<nat>

    predicate Valid()
      reads this
    {
      |queue| <= capacity
    }

    constructor (capacity: nat)
      ensures this.capacity == capacity && Valid() && queue == []
    {
      this.capacity := capacity;
      queue := [];
    }

    method TrySend(item: nat) returns (ok: bool)
      requires Valid()
      modifies this
      ensures Valid() && ok == (|old(queue)| < capacity)
      ensures queue == if ok then old(queue) + [item] else old(queue)
    {
      ok := |queue| < capacity;
      if ok {
        queue := queue + [item];
      }
    }

    method TryReceive() returns (item: Option<nat>)
      requires Valid()
      modifies this
      ensures Valid() && (item.None? <==> old(queue) == [])
      ensures old(queue) == (if item.Some? then [item.value] else []) + queue
    {
      if queue == [] {
        return None;
      }
      item := Some(queue[0]);
      queue := queue[1..];
    }

    method SendDropOld(item: nat)
      requires Valid()
      modifies this
      ensures Valid() && queue == Pushed(capacity, old(queue), item)
    {
      var sent := TrySend(item);
      if sent {
        return;
      }
      var dropped := TryReceive();
      sent := TrySend(item);
    }
  }

  /** The three steps of the model, taken without a break, are one such call. */
  lemma UninterruptedSteps(capacity: nat, s: State, p: nat)
    requires p < |s.publishers| && s.publishers[p].Idle? && |s.queue| <= capacity
    ensures var t := Step(capacity, Step(capacity, Step(capacity, s, Publish(p)), Drop(p)), Retry(p));
            t.queue == Pushed(capacity, s.queue, s.published) && t.publishers == s.publishers
  {
    var t1 := Step(capacity, s, Publish(p));
    var t2 := Step(capacity, t1, Drop(p));
    if |s.queue| < capacity {
      assert t2 == t1;
    } else {
      assert t2.queue == if s.queue == [] then [] else s.queue[1..];
    }
  }

  // ----- one publisher

  function Interval(lo: nat, hi: nat): (i: seq<nat>)
    requires lo <= hi
    ensures |i| == hi - lo && forall k :: 0 <= k < |i| ==> i[k] == lo + k
  {
    seq(hi - lo, k requires 0 <= k < hi - lo => lo + k)
  }

  predicate AllBelow(s: seq<nat>, bound: nat) {
    forall i :: 0 <= i < |s| ==> s[i] < bound
  }

  /** Two increasing lists that share out the items below a bound. */
  predicate Parts(a: seq<nat>, b: seq<nat>, bound: nat) {
    && Increasing(a) && Increasing(b) && AllBelow(a, bound) && AllBelow(b, bound)
    && multiset(a) + multiset(b) == multiset(Interval(0, bound))
  }

  /** Items that have entered the queue or have been dropped from it: all but the one in hand. */
  function Entered(s: State): int
    requires |s.publishers| == 1
  {
    s.published - if s.publishers[0].Idle? then 0 else 1
  }

  /** The queue is the latest run of consecutive items, and everything before it was consumed or
      lost, each item once and in order. */
  predicate Ordered(capacity: nat, s: State) {
    && |s.publishers| == 1 && |s.queue| <= capacity
    && var head := Entered(s) - |s.queue|;
    && head >= 0
    && s.queue == Interval(head, head + |s.queue|)
    && Parts(s.consumed, s.lost, head)
    && match s.publishers[0]
       case Idle => s.published > 0 ==> s.published - 1 in s.consumed + s.queue
       case Full(item) => item == s.published - 1
       case Dropped(item) => item == s.published - 1 && |s.queue| < capacity
  }

  lemma PartsGrow(a: seq<nat>, b: seq<nat>, head: nat)
    requires Parts(a, b, head)
    ensures Parts(a + [head], b, head + 1) && Parts(a, b + [head], head + 1)
  {
    assert Interval(0, head + 1) == Interval(0, head) + [head];
    assert multiset(a + [head]) == multiset(a) + multiset{head} && multiset(b + [head]) == multiset(b) + multiset{head};
  }

  lemma OrderedPublish(capacity: nat, s: State)
    requires capacity >= 1 && Ordered(capacity, s)
    ensures Ordered(capacity, Step(capacity, s, Publish(0)))
  {
    hide Parts;
    var t := Step(capacity, s, Publish(0));
    if t.queue != s.queue {
      var head := s.published - |s.queue|;
      assert t.queue == Interval(head, head + |t.queue|);
      assert (t.consumed + t.queue)[|t.consumed| + |s.queue|] == s.published;
    }
  }

  lemma OrderedDrop(capacity: nat, s: State)
    requires capacity >= 1 && Ordered(capacity, s)
    ensures Ordered(capacity, Step(capacity, s, Drop(0)))
  {
    hide Parts;
    var t := Step(capacity, s, Drop(0));
    if t.queue != s.queue {
      var head := s.queue[0];
      PartsGrow(s.consumed, s.lost, head);
      assert t.queue == Interval(head + 1, head + |s.queue|);
    }
  }

  lemma OrderedRetry(capacity: nat, s: State)
    requires capacity >= 1 && Ordered(capacity, s)
    ensures Ordered(capacity, Step(capacity, s, Retry(0)))
  {
    hide Parts;
    var t := Step(capacity, s, Retry(0));
    if t.queue != s.queue {
      var head := s.published - 1 - |s.queue|;
      assert t.queue == Interval(head, head + |t.queue|);
      assert (t.consumed + t.queue)[|t.consumed| + |s.queue|] == s.published - 1;
    }
  }

  lemma OrderedConsume(capacity: nat, s: State)
    requires capacity >= 1 && Ordered(capacity, s)
    ensures Ordered(capacity, Step(capacity, s, Consume))
  {
    hide Parts;
    var t := Step(capacity, s, Consume);
    if s.queue != [] {
      var head := s.queue[0];
      PartsGrow(s.consumed, s.lost, head);
      assert t.queue == Interval(head + 1, head + |s.queue|);
      assert s.consumed + s.queue == t.consumed + t.queue;
    }
  }

  lemma OrderedStep(capacity: nat, s: State, e: Event)
    requires capacity >= 1 && Ordered(capacity, s)
    ensures Ordered(capacity, Step(capacity, s, e))
  {
    hide Ordered;
    SoleStep(capacity, s, e);
    match e
    case Publish(p) => if p == 0 { OrderedPublish(capacity, s); }
    case Drop(p) => if p == 0 { OrderedDrop(capacity, s); }
    case Retry(p) => if p == 0 { OrderedRetry(capacity, s); }
    case Consume => OrderedConsume(capacity, s);
  }

  lemma SoleStep(capacity: nat, s: State, e: Event)
    requires Ordered(capacity, s)
    ensures |s.publishers| == 1
    ensures !e.Consume? && e.p != 0 ==> Step(capacity, s, e) == s
  {
  }

  lemma {:induction false} OrderedRun(capacity: nat, es: seq<Event>)
    requires capacity >= 1
    ensures Ordered(capacity, Exec(capacity, Start(1), es))
  {
    if es == [] {
      assert Interval(0, 0) == [];
    } else {
      OrderedRun(capacity, es[..|es| - 1]);
      OrderedStep(capacity, Exec(capacity, Start(1), es[..|es| - 1]), es[|es| - 1]);
    }
  }

  /** With one publisher and any consumer the second send never fails. */
  lemma SecondSendSucceeds(capacity: nat, es: seq<Event>)
    requires capacity >= 1
    ensures |Exec(capacity, Start(1), es).publishers| == 1
    ensures var s := Exec(capacity, Start(1), es);
            s.publishers[0].Dropped? ==>
              var t := Step(capacity, s, Retry(0));
              t.queue == s.queue + [s.publishers[0].item] && t.lost == s.lost && |t.queue| <= capacity
  {
    OrderedRun(capacity, es);
  }

  /** What the consumer has got and will get next is strictly increasing, and between publishes it
      ends in the newest item. */
  lemma NewestGetsThrough(capacity: nat, es: seq<Event>)
    requires capacity >= 1
    ensures |Exec(capacity, Start(1), es).publishers| == 1
    ensures var s := Exec(capacity, Start(1), es);
            var seen := s.consumed + s.queue;
            && Increasing(seen)
            && (s.publishers[0].Idle? && s.published > 0 ==> seen != [] && seen[|seen| - 1] == s.published - 1)
  {
    OrderedRun(capacity, es);
    var s := Exec(capacity, Start(1), es);
    if s.publishers[0].Idle? && s.published > 0 && s.queue == [] {
      NewestIsLast(s.consumed, s.published);
    }
  }

  lemma NewestIsLast(items: seq<nat>, bound: nat)
    requires Increasing(items) && AllBelow(items, bound) && bound > 0 && bound - 1 in items
    ensures items[|items| - 1] == bound - 1
  {
    var last := items[|items| - 1];
    assert forall i :: 0 <= i < |items| - 1 ==> items[i] < last;
  }

  /** Only taking an item out loses one, and it is older than everything that stays and everything
      still to come; a send that finds room loses nothing. */
  lemma OnlyTheOldestIsLost(capacity: nat, es: seq<Event>, e: Event)
    requires capacity >= 1
    ensures |Exec(capacity, Start(1), es).publishers| == 1
    ensures var s := Exec(capacity, Start(1), es);
            var t := Step(capacity, s, e);
            t.lost != s.lost ==>
              && e == Drop(0) && s.publishers[0].Full? && |t.lost| == |s.lost| + 1
              && t.lost[|s.lost|] < s.publishers[0].item
              && forall i :: 0 <= i < |t.queue| ==> t.lost[|s.lost|] < t.queue[i]
  {
    OrderedRun(capacity, es);
  }

  // ----- any number of publishers

  function Occurrences(items: seq<nat>, x: nat): nat {
    if items == [] then 0 else Occurrences(items[1..], x) + if items[0] == x then 1 else 0
  }

  lemma {:induction false} OccurrencesSnoc(items: seq<nat>, y: nat, x: nat)
    ensures Occurrences(items + [y], x) == Occurrences(items, x) + if y == x then 1 else 0
  {
    if items != [] {
      OccurrencesSnoc(items[1..], y, x);
      assert (items + [y])[1..] == items[1..] + [y];
    }
  }

  /** How many publishers hold an item. */
  function Holders(ps: seq<Publisher>, x: nat): nat {
    if ps == [] then 0 else Holders(ps[1..], x) + Holds(ps[0], x)
  }

  function Holds(p: Publisher, x: nat): nat {
    if !p.Idle? && p.item == x then 1 else 0
  }

  lemma {:induction false} HoldersUpdate(ps: seq<Publisher>, p: nat, q: Publisher, x: nat)
    requires p < |ps|
    ensures Holders(ps[p := q], x) + Holds(ps[p], x) == Holders(ps, x) + Holds(q, x)
    decreases |ps|
  {
    if p > 0 {
      HoldersUpdate(ps[1..], p - 1, q, x);
      assert ps[p := q][1..] == ps[1..][p - 1 := q];
    } else {
      assert ps[p := q][1..] == ps[1..];
    }
  }

  /** In how many places an item is. */
  function Copies(s: State, x: nat): nat {
    Occurrences(s.consumed, x) + Occurrences(s.queue, x) + Occurrences(s.lost, x) + Holders(s.publishers, x)
  }

  lemma CopiesStep(capacity: nat, s: State, e: Event, x: nat)
    ensures var t := Step(capacity, s, e);
            Copies(t, x) == Copies(s, x) + if x == s.published < t.published then 1 else 0
  {
    hide Occurrences, Holders;
    var t := Step(capacity, s, e);
    if !e.Consume? && e.p < |s.publishers| {
      HoldersUpdate(s.publishers, e.p, t.publishers[e.p], x);
      assert s.publishers[e.p := s.publishers[e.p]] == s.publishers;
    }
    if s.queue != [] {
      OccurrencesHead(s.queue, x);
      OccurrencesSnoc(s.consumed, s.queue[0], x);
      OccurrencesSnoc(s.lost, s.queue[0], x);
    }
    match e
    case Publish(p) => OccurrencesSnoc(s.queue, s.published, x);
    case Drop(p) =>
    case Retry(p) =>
      if t != s {
        OccurrencesSnoc(s.queue, s.publishers[p].item, x);
        OccurrencesSnoc(s.lost, s.publishers[p].item, x);
      }
    case Consume =>
  }

  lemma OccurrencesHead(items: seq<nat>, x: nat)
    requires items != []
    ensures Occurrences(items, x) == Occurrences(items[1..], x) + if items[0] == x then 1 else 0
  {
  }

  lemma {:induction false} NoHolders(n: nat, x: nat)
    ensures Holders(Start(n).publishers, x) == 0
  {
    if n > 0 {
      NoHolders(n - 1, x);
      assert Start(n).publishers[1..] == Start(n - 1).publishers;
    }
  }

  /** Whatever the publishers and the consumer do, every item begun so far is in exactly one place. */
  lemma {:induction false} EveryItemInOnePlace(capacity: nat, n: nat, es: seq<Event>, x: nat)
    ensures var s := Exec(capacity, Start(n), es);
            Copies(s, x) == if x < s.published then 1 else 0
  {
    if es == [] {
      NoHolders(n, x);
    } else {
      EveryItemInOnePlace(capacity, n, es[..|es| - 1], x);
      CopiesStep(capacity, Exec(capacity, Start(n), es[..|es| - 1]), es[|es| - 1], x);
      PublishedGrows(capacity, Exec(capacity, Start(n), es[..|es| - 1]), es[|es| - 1]);
    }
  }

  lemma PublishedGrows(capacity: nat, s: State, e: Event)
    ensures s.published <= Step(capacity, s, e).published <= s.published + 1
  {
  }

  lemma {:induction false} Filling(capacity: nat, n: nat, k: nat)
    requires k <= capacity && n >= 1
    ensures Exec(capacity, Start(n), seq(k, _ => Publish(0))) == State(Interval(0, k), k, Start(n).publishers, [], [])
  {
    var es := seq(k, _ => Publish(0));
    if k == 0 {
      assert Interval(0, 0) == [];
    } else {
      Filling(capacity, n, k - 1);
      assert es[..k - 1] == seq(k - 1, _ => Publish(0));
      assert Interval(0, k) == Interval(0, k - 1) + [k - 1];
    }
  }

  lemma ExecSnoc(capacity: nat, s: State, es: seq<Event>, e: Event)
    ensures Exec(capacity, s, es + [e]) == Step(capacity, Exec(capacity, s, es), e)
  {
    assert (es + [e])[..|es|] == es;
  }

  /** A full channel, and two publishers whose steps interleave. */
  lemma LosingSteps(capacity: nat, idle: seq<Publisher>)
    requires capacity >= 1 && |idle| >= 2 && idle[0] == idle[1] == Idle
    ensures var s0 := State(Interval(0, capacity), capacity, idle, [], []);
            var s1 := State(Interval(0, capacity), capacity + 1, idle[1 := Full(capacity)], [], []);
            var s2 := State(Interval(1, capacity), capacity + 1, idle[1 := Dropped(capacity)], [], [0]);
            var queue := Interval(1, capacity) + [capacity + 1];
            var s3 := State(queue, capacity + 2, idle[1 := Dropped(capacity)], [], [0]);
            && Step(capacity, s0, Publish(1)) == s1 && Step(capacity, s1, Drop(1)) == s2
            && Step(capacity, s2, Publish(0)) == s3
            && Step(capacity, s3, Retry(1)) == State(queue, capacity + 2, idle, [], [0, capacity])
  {
    assert Interval(0, capacity)[1..] == Interval(1, capacity);
    assert idle[1 := Full(capacity)][1 := Dropped(capacity)] == idle[1 := Dropped(capacity)];
    assert idle[1 := Dropped(capacity)][1 := Idle] == idle;
  }

  /** With more than one publisher this fails at every capacity: the item that one takes out makes
      room for the other, and the newer item is thrown away. */
  lemma MorePublishersLoseTheNewer(capacity: nat, n: nat) returns (es: seq<Event>)
    requires capacity >= 1 && n >= 2
    ensures var s := Exec(capacity, Start(n), es);
            && s.publishers == Start(n).publishers && s.consumed == []
            && s.lost == [0, capacity] && s.queue == Interval(1, capacity) + [capacity + 1]
  {
    var idle := Start(n).publishers;
    assert |idle| == n && idle[0] == idle[1] == Idle;
    hide Exec, Interval, Start, Step;
    es := seq(capacity, _ => Publish(0));
    Filling(capacity, n, capacity);
    LosingSteps(capacity, idle);
    ExecSnoc(capacity, Start(n), es, Publish(1));
    es := es + [Publish(1)];
    ExecSnoc(capacity, Start(n), es, Drop(1));
    es := es + [Drop(1)];
    ExecSnoc(capacity, Start(n), es, Publish(0));
    es := es + [Publish(0)];
    ExecSnoc(capacity, Start(n), es, Retry(1));
    es := es + [Retry(1)];
  }
}
