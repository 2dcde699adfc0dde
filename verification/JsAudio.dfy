/** The audio channel of the JavaScript client: whole packets are de-duplicated by their 16-bit
    packet index, and each is decoded by a decoder started afresh. */
module JsAudio {
  import opened Bytes
  import opened Machine
  import opened Newest
  import opened JsAdpcm

  const HALF: int := 0x8000
  const AUDIO_START: Bytes := [0x55, 0xaa, 0x15, 0xa8, 0xaa, 0x01]
  const HEADER: nat := 0x20

  datatype Packet = Packet(index: Index, data: Bytes)

  predicate IsNewIndex(last: Option<Index>, current: Index) {
    last.None? || 0 < (current - last.value + 0x1_0000) % 0x1_0000 < HALF
  }

  /** For any true indices the comparison holds exactly when their difference, wrapped, lies in the
      lower half of the index space. */
  lemma IndexOrderExactly(t: nat, u: nat)
    ensures IsNewIndex(Some(u % 0x1_0000), t % 0x1_0000) <==> 0 < (t - u) % 0x1_0000 < 0x8000
  {
    var w: int := t % 0x1_0000 - u % 0x1_0000;
    var k := t / 0x1_0000 - u / 0x1_0000;
    assert t - u == w + 0x1_0000 * k;
    WrapMultiple(w, k);
    WrapMultiple(w, 1);
  }

  /** So it is that of the true indices within half the index space. */
  lemma IndexOrder(t: nat, u: nat)
    requires -0x8000 <= t - u < 0x8000
    ensures IsNewIndex(Some(u % 0x1_0000), t % 0x1_0000) <==> t > u
  {
    IndexOrderExactly(t, u);
    WrapMultiple(t - u, 1);
  }

  /** The part that is decoded; a header that is not whole leaves nothing. */
  function Sound(data: Bytes): Bytes {
    if AUDIO_START <= data then (if |data| >= HEADER then data[HEADER..] else []) else data
  }

  /** A header is 55 aa 15 a8 aa 01 and 26 more bytes; without one the packet is all sound. */
  lemma SoundExactly(head: Bytes, payload: Bytes, raw: Bytes)
    ensures |head| == 26 ==> Sound([0x55, 0xaa, 0x15, 0xa8, 0xaa, 0x01] + head + payload) == payload
    ensures !([0x55, 0xaa, 0x15, 0xa8, 0xaa, 0x01] <= raw) ==> Sound(raw) == raw
    ensures [0x55, 0xaa, 0x15, 0xa8, 0xaa, 0x01] <= raw && |raw| < 32 ==> Sound(raw) == []
  {
    if |head| == 26 {
      assert ([0x55, 0xaa, 0x15, 0xa8, 0xaa, 0x01] + head + payload)[32..] == payload;
    }
  }

  function Step(last: Option<Index>, p: Packet): (Option<Index>, Option<Bytes>) {
    if IsNewIndex(last, p.index) then (Some(p.index), Some(JsPcm(Sound(p.data)))) else (last, None)
  }

  class AudioChannel {
    var lastAudioFrame: int

    function View(): Option<Index>
      reads this
    {
      if 0 <= lastAudioFrame < 0x1_0000 then Some(lastAudioFrame) else None
    }

    constructor ()
      ensures View() == None
    {
      lastAudioFrame := -1;
    }

    method HandleAudio(p: Packet) returns (frame: Option<Bytes>)
      modifies this
      ensures (View(), frame) == Step(old(View()), p)
    {
      if !IsNewIndex(View(), p.index) {
        return None;
      }
      var raw := p.data;
      if AUDIO_START <= p.data {
        raw := if |p.data| >= HEADER then p.data[HEADER..] else [];
      }
      var decoded := JsDecode(raw);
      lastAudioFrame := p.index;
      frame := Some(decoded);
    }
  }

  // ----- whole runs

  /** A packet under its true index. */
  datatype Sent = Sent(index: nat, data: Bytes)

  function Number(s: Sent): nat {
    s.index
  }

  function OnWire(s: Sent): Packet {
    Packet(s.index % 0x1_0000, s.data)
  }

  function Wires(ss: seq<Sent>): (ps: seq<Packet>)
    ensures |ps| == |ss|
  {
    if ss == [] then [] else Wires(ss[..|ss| - 1]) + [OnWire(ss[|ss| - 1])]
  }

  function Decodings(ss: seq<Sent>): seq<Bytes> {
    if ss == [] then [] else Decodings(ss[..|ss| - 1]) + [JsPcm(Sound(ss[|ss| - 1].data))]
  }

  lemma NothingPlayed()
    ensures Run(Step, None, Wires([])) == (None, [])
  {
  }

  lemma DecodingsSnoc(ss: seq<Sent>, s: Sent)
    ensures Decodings(ss + [s]) == Decodings(ss) + [JsPcm(Sound(s.data))]
  {
    assert (ss + [s])[..|ss|] == ss;
  }

  /** Whatever is lost, repeated or reordered within the window, exactly the packets newer than all
      before them are played, each decoded on its own. */
  lemma {:induction false} NewPacketsArePlayed(ss: seq<Sent>)
    requires Windowed(Number, 0x8000, -1, ss)
    ensures var (last, played) := Run(Step, None, Wires(ss));
            && played == Decodings(Records(Number, -1, ss))
            && var high := Highest(Number, -1, ss);
               last == if high < 0 then None else Some(high % 0x1_0000)
  {
    hide JsPcm, Sound, Run, Windowed;
    NothingPlayed();
    if ss != [] {
      var before, s := ss[..|ss| - 1], ss[|ss| - 1];
      assert ss == before + [s];
      NewestSnoc(Number, 0x8000, -1, before, s);
      NewPacketsArePlayed(before);
      RunSnoc(Step, None, Wires(before), OnWire(s));
      var high, kept := Highest(Number, -1, before), Records(Number, -1, before);
      if high >= 0 {
        IndexOrder(s.index, high);
      }
      DecodingsSnoc(kept, s);
      assert kept + [] == kept && Decodings(kept) + [] == Decodings(kept);
    }
  }
}
