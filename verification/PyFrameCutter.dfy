/** Video reassembly of the Python client: chunks are kept under unwrapped indices and a frame is
    cut out between the two highest frame starts seen. */
module PyFrameCutter {
  import opened Bytes

  const MEDIA_MARKER: Bytes := [0x55, 0xaa, 0x15, 0xa8]
  const MEDIA_HEADER: nat := 0x20

  predicate IsBoundary(raw: Bytes) {
    MEDIA_MARKER <= raw
  }

  /** A payload without its media header; a header that is cut short leaves nothing. */
  function Stripped(raw: Bytes): Bytes {
    if !IsBoundary(raw) then raw
    else if |raw| < MEDIA_HEADER then []
    else raw[MEDIA_HEADER..]
  }

  /** One packet handed to the cutter: its unwrapped index and its payload. */
  datatype Arrival = Arrival(index: nat, raw: Bytes)

  datatype VideoFrame = VideoFrame(idx: nat, data: Bytes)

  /** `last` is the index of the frame published last, -1 at first. */
  datatype Cutter = Cutter(received: map<nat, Bytes>, boundaries: set<nat>, last: int)

  const EMPTY := Cutter(map[], {}, -1)

  function Accept(c: Cutter, p: Arrival): Cutter {
    c.(received := c.received[p.index := Stripped(p.raw)],
       boundaries := if IsBoundary(p.raw) then c.boundaries + {p.index} else c.boundaries)
  }

  ghost predicate IsTop(s: set<nat>, b: nat) {
    b in s && forall x :: x in s ==> x <= b
  }

  /** The two greatest elements. */
  ghost predicate IsTopTwo(s: set<nat>, a: nat, b: nat) {
    IsTop(s, b) && IsTop(s - {b}, a)
  }

  lemma {:induction false} TopExists(s: set<nat>)
    requires s != {}
    ensures exists b :: IsTop(s, b)
    decreases |s|
  {
    var x :| x in s;
    if s - {x} == {} {
      assert forall y :: y in s ==> y == x || y in s - {x};
      assert IsTop(s, x);
    } else {
      TopExists(s - {x});
      var b :| IsTop(s - {x}, b);
      assert forall y :: y in s ==> y == x || y in s - {x};
      assert IsTop(s, if x > b then x else b);
    }
  }

  lemma TopTwoExist(s: set<nat>)
    requires |s| > 1
    ensures exists a, b :: IsTopTwo(s, a, b)
  {
    TopExists(s);
    var b :| IsTop(s, b);
    assert |s - {b}| == |s| - 1;
    assert s - {b} != {};
    TopExists(s - {b});
    var a :| IsTop(s - {b}, a);
    assert IsTopTwo(s, a, b);
  }

  ghost predicate HasAll(received: map<nat, Bytes>, a: nat, b: nat) {
    forall i :: a <= i < b ==> i in received
  }

  /** The chunks with indices a to b-1 joined. */
  function Cut(received: map<nat, Bytes>, a: nat, b: nat): Bytes
    requires HasAll(received, a, b)
    decreases b
  {
    if b <= a then [] else Cut(received, a, b - 1) + received[b - 1]
  }

  function Prune(c: Cutter, index: nat): Cutter {
    Cutter(map i | i in c.received && i >= index :: c.received[i],
           (set i | i in c.boundaries && i >= index),
           index)
  }

  /** Publishes the frame between the two highest boundaries when it is new and complete, and then
      forgets everything before it. */
  ghost function Process(c: Cutter): (Cutter, Option<VideoFrame>) {
    if |c.boundaries| <= 1 then (c, None)
    else
      TopTwoExist(c.boundaries);
      var a, b :| IsTopTwo(c.boundaries, a, b);
      if a == c.last || !HasAll(c.received, a, b) then (c, None)
      else (Prune(c, a), Some(VideoFrame(a, Cut(c.received, a, b))))
  }

  /** Publishing forgets exactly what lies before the published frame. */
  lemma PublishForgets(c: Cutter)
    requires Process(c).1.Some?
    ensures var (d, e) := Process(c);
            && d.last == e.value.idx
            && (forall i :: i in d.boundaries <==> i in c.boundaries && i >= e.value.idx)
            && (forall i :: i in d.received <==> i in c.received && i >= e.value.idx)
            && (forall i :: i in d.received ==> d.received[i] == c.received[i])
  {
  }

  ghost function Step(c: Cutter, p: Arrival): (Cutter, Option<VideoFrame>) {
    Process(Accept(c, p))
  }

  // ----- the imperative queue

  class VideoQueue {
    var videoReceived: map<nat, Bytes>
    var videoBoundaries: set<nat>
    var lastVideoFrame: int

    ghost function View(): Cutter
      reads this
    {
      Cutter(videoReceived, videoBoundaries, lastVideoFrame)
    }

    constructor ()
      ensures View() == EMPTY
    {
      videoReceived, videoBoundaries, lastVideoFrame := map[], {}, -1;
    }

    method HandleIncomingVideoPacket(p: Arrival) returns (published: Option<VideoFrame>)
      modifies this
      ensures (View(), published) == Step(old(View()), p)
    {
      if MEDIA_MARKER <= p.raw {
        videoBoundaries := videoBoundaries + {p.index};
        videoReceived := videoReceived[p.index := if |p.raw| < MEDIA_HEADER then [] else p.raw[MEDIA_HEADER..]];
      } else {
        videoReceived := videoReceived[p.index := p.raw];
      }
      assert View() == Accept(old(View()), p);
      published := ProcessVideoFrame();
    }

    method ProcessVideoFrame() returns (published: Option<VideoFrame>)
      modifies this
      ensures (View(), published) == Process(old(View()))
    {
      if |videoBoundaries| <= 1 {
        return None;
      }
      TopTwoExist(videoBoundaries);
      ghost var a: nat, b: nat :| IsTopTwo(videoBoundaries, a, b);
      assert IsTop(videoBoundaries, b) && a in videoBoundaries && a != b;
      var lastIndex: nat :| lastIndex in videoBoundaries && forall x :: x in videoBoundaries ==> x <= lastIndex;
      assert a in videoBoundaries - {lastIndex} && forall x :: x in videoBoundaries - {lastIndex} ==> x <= a;
      var index: nat :| index in videoBoundaries - {lastIndex}
                        && forall x :: x in videoBoundaries - {lastIndex} ==> x <= index;
      assert IsTopTwo(videoBoundaries, index, lastIndex);
      if index == lastVideoFrame {
        return None;
      }
      var complete := true;
      var out: Bytes := [];
      var i := index;
      while i < lastIndex
        invariant index <= i <= lastIndex
        invariant complete <==> HasAll(videoReceived, index, i)
        invariant complete ==> out == Cut(videoReceived, index, i)
      {
        if i in videoReceived {
          out := out + videoReceived[i];
        } else {
          complete := false;
        }
        i := i + 1;
      }
      if !complete {
        return None;
      }
      lastVideoFrame := index;
      Forget(index);
      return Some(VideoFrame(index, out));
    }

    method Forget(index: nat)
      requires lastVideoFrame == index
      modifies this
      ensures View() == Prune(old(View()), index)
    {
      var toDelete: set<nat> := set i: nat | i in videoReceived && i < index;
      while toDelete != {}
        invariant lastVideoFrame == index && videoBoundaries == old(videoBoundaries)
        invariant forall i :: i in videoReceived <==> i in old(videoReceived) && (i >= index || i in toDelete)
        invariant forall i :: i in videoReceived ==> videoReceived[i] == old(videoReceived)[i]
        invariant forall i :: i in toDelete ==> i < index
        decreases |toDelete|
      {
        var i: nat :| i in toDelete;
        videoReceived := videoReceived - {i};
        toDelete := toDelete - {i};
      }
      assert videoReceived == Prune(old(View()), index).received;
      toDelete := set i: nat | i in videoBoundaries && i < index;
      while toDelete != {}
        invariant lastVideoFrame == index && videoReceived == Prune(old(View()), index).received
        invariant forall i :: i in videoBoundaries <==> i in old(videoBoundaries) && (i >= index || i in toDelete)
        invariant forall i :: i in toDelete ==> i < index
        decreases |toDelete|
      {
        var i: nat :| i in toDelete;
        videoBoundaries := videoBoundaries - {i};
        toDelete := toDelete - {i};
      }
    }
  }
}
