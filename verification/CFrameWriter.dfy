/** Video forwarding of the C client: fragments go into a fixed scatter array and the array is
    written out as soon as the announced number of bytes is there. */
module CFrameWriter {
  import opened Bytes
  import opened VideoFrames

  const MAX_FRAGS: nat := 32
  const FRAG_SPACE: nat := 2048
  /** The frame length that stands for "wait for the next start" after a gap. */
  const NO_FRAME: int := 65535

  /** Scatter slots hold the fragment bytes; an empty slot is a free one. */
  datatype Writer = Writer(running: bool, baseIndex: Index, frameLen: int, dataSum: nat, nfrags: nat,
                           prevIndex: Index, slots: seq<Bytes>)

  /** One write of the first `nfrags` slots to the viewer, or the end of the call on an oversized packet. */
  datatype Event = Written(frags: seq<Bytes>) | Quit

  type Payload = b: Bytes | |b| > 0 witness [0]

  /** A received packet as the loop body uses it: the announced frame length if it is a start
      packet, and the bytes behind the headers. */
  datatype Fragment = Fragment(index: Index, announced: Option<int>, payload: Payload)

  /** The header's length field, read as a signed 32-bit number. */
  function SignedLe32(b: Bytes): int
    requires |b| == 4
  {
    var n := Le32(b);
    if n < 0x8000_0000 then n else n - 0x1_0000_0000
  }

  /** The client relies on every packet carrying at least one byte behind its headers. */
  predicate HasPayload(p: Packet) {
    |p.data| > if IsStart(p) then HEADER_SIZE else 0
  }

  function Parse(p: Packet): Fragment
    requires HasPayload(p)
  {
    if IsStart(p) then Fragment(p.index, Some(SignedLe32(p.data[16..20])), p.data[HEADER_SIZE..])
    else Fragment(p.index, None, p.data)
  }

  predicate InOrder(w: Writer, p: Fragment) {
    p.index == (w.prevIndex + 1) % 0x1_0000
  }

  /** Taken for a repetition or a straggler. */
  predicate Skips(w: Writer, p: Fragment) {
    !InOrder(w, p) && (p.index <= w.prevIndex || (p.index > 65400 && w.prevIndex < 32))
  }

  function NoFrags(): (s: seq<Bytes>)
    ensures |s| == MAX_FRAGS && forall i :: 0 <= i < MAX_FRAGS ==> s[i] == []
  {
    seq(MAX_FRAGS, _ => [])
  }

  /** Bookkeeping before the fragment is stored: a gap spoils the frame, a start packet opens a new one. */
  function Prepare(w: Writer, p: Fragment): Writer
  {
    var v := if InOrder(w, p) then w else w.(dataSum := 0, frameLen := NO_FRAME);
    var u := if p.announced.Some?
             then v.(baseIndex := p.index, frameLen := p.announced.value, dataSum := 0, nfrags := 0, slots := NoFrags())
             else v;
    u.(prevIndex := p.index)
  }

  function Store(w: Writer, slot: nat, data: Payload): Writer
    requires slot < |w.slots|
  {
    if w.slots[slot] != [] then w
    else w.(dataSum := w.dataSum + |data|, nfrags := w.nfrags + 1, slots := w.slots[slot := data])
  }

  /** Number of occupied slots. */
  function Occupied(slots: seq<Bytes>): (c: nat)
    ensures c <= |slots|
  {
    if slots == [] then 0
    else Occupied(slots[..|slots| - 1]) + if slots[|slots| - 1] != [] then 1 else 0
  }

  lemma {:induction false} OccupiedUpdate(slots: seq<Bytes>, slot: nat, data: Payload)
    requires slot < |slots| && slots[slot] == []
    ensures Occupied(slots[slot := data]) == Occupied(slots) + 1
    decreases |slots|
  {
    var n := |slots| - 1;
    if slot < n {
      assert slots[slot := data][..n] == slots[..n][slot := data];
      OccupiedUpdate(slots[..n], slot, data);
    } else {
      assert slots[slot := data][..n] == slots[..n];
    }
  }

  /** The fragment count never exceeds the occupied slots, so a write stays inside the array. */
  ghost predicate Sane(w: Writer) {
    |w.slots| == MAX_FRAGS && w.nfrags <= Occupied(w.slots)
  }

  lemma StoreSane(w: Writer, slot: nat, data: Payload)
    requires Sane(w) && slot < MAX_FRAGS
    ensures Sane(Store(w, slot, data))
  {
    if w.slots[slot] == [] {
      OccupiedUpdate(w.slots, slot, data);
    }
  }

  lemma PrepareSane(w: Writer, p: Fragment)
    requires Sane(w)
    ensures Sane(Prepare(w, p))
  {
  }

  type SaneWriter = w: Writer | Sane(w) witness Writer(true, 0, 0, 0, 0, 0xffff, NoFrags())

  function Step(w: SaneWriter, p: Fragment): (SaneWriter, Option<Event>) {
    if !w.running || Skips(w, p) then (w, None)
    else
      PrepareSane(w, p);
      var v := Prepare(w, p);
      var slot := Distance(v.baseIndex, p.index);
      if slot >= MAX_FRAGS then (v, None)
      else if |p.payload| > FRAG_SPACE then (v.(running := false), Some(Quit))
      else
        StoreSane(v, slot, p.payload);
        var u := Store(v, slot, p.payload);
        if u.dataSum >= u.frameLen then (u, Some(Written(u.slots[..u.nfrags]))) else (u, None)
  }

  /** The limits: 32 slots of 2048 bytes. A packet beyond the slots moves on the index and nothing else, an
      oversized one ends the call, and any other is stored unless its slot is taken. */
  lemma SlotLimits(w: SaneWriter, p: Fragment)
    requires w.running && InOrder(w, p) && p.announced.None?
    ensures var slot := Distance(w.baseIndex, p.index);
            var (u, e) := Step(w, p);
            && |w.slots| == 32 && u.prevIndex == p.index
            && (slot >= 32 ==> u == w.(prevIndex := p.index) && e.None?)
            && (slot < 32 && |p.payload| > 2048 ==> !u.running && e == Some(Quit))
            && (slot < 32 && |p.payload| <= 2048 ==>
                  && u.running && e != Some(Quit)
                  && u.slots[slot] == if w.slots[slot] == [] then p.payload else w.slots[slot])
  {
  }

  /** A gap without a start leaves the slots, forgets the bytes counted and waits for 65535 of them. */
  lemma GapWaits(w: Writer, p: Fragment)
    requires !InOrder(w, p) && p.announced.None?
    ensures Prepare(w, p) == w.(dataSum := 0, frameLen := 65535, prevIndex := p.index)
  {
  }

  /** The length field is signed. */
  lemma LengthIsSigned()
    ensures SignedLe32([2, 1, 0, 0]) == 258 && SignedLe32([0xff, 0xff, 0xff, 0xff]) == -1
    ensures SignedLe32([0, 0, 0, 0x80]) == -0x8000_0000 && SignedLe32([0xff, 0xff, 0xff, 0x7f]) == 0x7fff_ffff
  {
  }

  /** The state in which a call begins; the slots and counters may hold anything. */
  predicate IsNewCall(w: Writer) {
    w.running && w.prevIndex == 0xffff
  }

  // ----- the imperative loop body

  class FragmentWriter {
    var running: bool
    var baseIndex: Index
    var frameLen: int
    var dataSum: nat
    var nfrags: nat
    var prevIndex: Index
    const fragArray: array<Bytes>

    ghost function View(): Writer
      reads this, fragArray
    {
      Writer(running, baseIndex, frameLen, dataSum, nfrags, prevIndex, fragArray[..])
    }

    /** A new call: the slots keep what an earlier call left in them, and the two counters the code
        does not initialise hold anything. */
    constructor (slots: array<Bytes>, frameLen: int, dataSum: nat)
      requires slots.Length == MAX_FRAGS
      ensures View() == Writer(true, 0, frameLen, dataSum, 0, 0xffff, slots[..]) && Sane(View())
      ensures fragArray == slots && IsNewCall(View())
    {
      running, baseIndex, nfrags, prevIndex := true, 0, 0, 0xffff;
      this.frameLen, this.dataSum, this.fragArray := frameLen, dataSum, slots;
    }

    method HandlePacket(p: Packet) returns (event: Option<Event>)
      requires Sane(View()) && running && HasPayload(p)
      modifies this, fragArray
      ensures Sane(View())
      ensures (View(), event) == Step(old(View()), Parse(p))
    {
      if p.index != (prevIndex + 1) % 0x1_0000 {
        if p.index <= prevIndex || (p.index > 65400 && prevIndex < 32) {
          return None;
        }
      }
      PrepareSane(View(), Parse(p));
      var data := BeginPacket(p);
      var slotIndex: int := p.index as int - baseIndex as int;
      if slotIndex < 0 {
        slotIndex := slotIndex + 0x1_0000;
      }
      if slotIndex >= MAX_FRAGS {
        return None;
      }
      if |data| > FRAG_SPACE {
        running := false;
        return Some(Quit);
      }
      StoreFragment(slotIndex, data);
      if dataSum >= frameLen {
        return Some(Written(fragArray[..nfrags]));
      }
      return None;
    }

    method BeginPacket(p: Packet) returns (data: Payload)
      requires fragArray.Length == MAX_FRAGS && HasPayload(p)
      modifies this, fragArray
      ensures View() == Prepare(old(View()), Parse(p)) && data == Parse(p).payload
    {
      if p.index != (prevIndex + 1) % 0x1_0000 {
        dataSum := 0;
        frameLen := NO_FRAME;
      }
      data := Parse(p).payload;
      if MARKER <= p.data {
        baseIndex := p.index;
        frameLen := SignedLe32(p.data[16..20]);
        dataSum := 0;
        data := p.data[HEADER_SIZE..];
        ClearSlots();
        nfrags := 0;
      }
      prevIndex := p.index;
    }

    method StoreFragment(slotIndex: nat, data: Payload)
      requires Sane(View()) && slotIndex < MAX_FRAGS
      modifies this, fragArray
      ensures Sane(View()) && View() == Store(old(View()), slotIndex, data)
    {
      StoreSane(View(), slotIndex, data);
      if fragArray[slotIndex] == [] {
        dataSum := dataSum + |data|;
        nfrags := nfrags + 1;
        fragArray[slotIndex] := data;
      }
    }

    method ClearSlots()
      requires fragArray.Length == MAX_FRAGS
      modifies fragArray
      ensures fragArray[..] == NoFrags()
    {
      for i := 0 to MAX_FRAGS
        invariant forall k :: 0 <= k < i ==> fragArray[k] == []
      {
        fragArray[i] := [];
      }
    }
  }
}
