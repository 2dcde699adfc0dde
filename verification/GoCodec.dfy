/** Datagrams of the Go client: the packet header, the running 16-bit index, and the cipher around
    both. */
module GoCodec {
  import opened Bytes
  import opened Cipher

  const MCAM: Byte := 0xf1
  const MDRW: Byte := 0xd1
  const MSG_DRW: Byte := 0xd0

  datatype Packet = Packet(typ: Byte, size: nat, channel: Byte, index: Index, data: Bytes)

  function ParsePacket(b: Bytes): Option<Packet> {
    if |b| < 4 || b[0] != MCAM then None
    else if |b| >= 8 then Some(Packet(b[1], Be16(b[2..4]), b[5], Be16(b[6..8]), b[8..]))
    else Some(Packet(b[1], Be16(b[2..4]), 0, 0, []))
  }

  /** A data packet before it is encrypted. The length field holds 16 bits of the length. */
  function Drw(channel: Byte, index: Index, data: Bytes): Bytes {
    [MCAM, MSG_DRW] + PutBe16((|data| + 4) % 0x1_0000) + [MDRW, channel] + PutBe16(index) + data
  }

  /** The other end reads back what was put in. */
  lemma ParseUndoesBuild(channel: Byte, index: Index, data: Bytes)
    ensures ParsePacket(Drw(channel, index, data))
            == Some(Packet(MSG_DRW, (|data| + 4) % 0x1_0000, channel, index, data))
  {
    var b := Drw(channel, index, data);
    assert b[2..4] == PutBe16((|data| + 4) % 0x1_0000);
    assert b[6..8] == PutBe16(index);
    assert b[8..] == data;
  }

  /** Building again from what was parsed gives the same bytes exactly for whole data packets with a
      true length field and the data marker, which the parser does not look at. */
  lemma BuildUndoesParse(b: Bytes)
    requires ParsePacket(b).Some?
    ensures var p := ParsePacket(b).value;
            Drw(p.channel, p.index, p.data) == b
            <==> |b| >= 8 && p.typ == MSG_DRW && p.size == (|b| - 4) % 0x1_0000 && b[4] == MDRW
  {
    var p := ParsePacket(b).value;
    var again := Drw(p.channel, p.index, p.data);
    if |b| >= 8 {
      PutBe16RoundTrip(b[2..4]);
      PutBe16RoundTrip(b[6..8]);
      assert b == b[..2] + b[2..4] + b[4..6] + b[6..8] + b[8..];
      if again == b {
        assert again[1] == MSG_DRW && again[4] == MDRW && again[2..4] == PutBe16((|p.data| + 4) % 0x1_0000);
      }
    }
  }

  /** Byte for byte. */
  lemma DrwBytes()
    ensures Drw(1, 0x0203, [9]) == [0xf1, 0xd0, 0, 5, 0xd1, 1, 2, 3, 9]
  {
  }

  /** Packets below eight bytes have a type and a size only; below four, or with another first byte, they are
      none. */
  lemma ShortPackets(b: Bytes)
    ensures ParsePacket(b).None? <==> |b| < 4 || b[0] != 0xf1
    ensures 4 <= |b| < 8 && b[0] == 0xf1 ==>
              ParsePacket(b) == Some(Packet(b[1], 256 * (b[2] as int) + b[3] as int, 0, 0, []))
  {
  }

  /** What the other end makes of a datagram. */
  function Received(key: Key, datagram: Bytes): Option<Packet> {
    ParsePacket(Decrypted(key, datagram))
  }

  datatype Message = Message(channel: Byte, data: Bytes)

  /** The datagrams for a list of messages when the counter stands at n. */
  function Datagrams(key: Key, n: nat, ms: seq<Message>): (ds: seq<Bytes>)
    ensures |ds| == |ms|
    decreases |ms|
  {
    if ms == [] then []
    else [Encrypted(key, Drw(ms[0].channel, n % 0x1_0000, ms[0].data))] + Datagrams(key, n + 1, ms[1..])
  }

  class Sender {
    const key: Key
    /** Counts sent packets in 32 bits. */
    var outIndex: Word

    constructor (key: Key)
      ensures this.key == key && outIndex == 0
    {
      this.key := key;
      outIndex := 0;
    }

    method SendDRWPacket(channel: Byte, data: Bytes) returns (sent: Bytes)
      modifies this
      ensures outIndex == (old(outIndex) + 1) % 0x1_0000_0000
      ensures [sent] == Datagrams(key, old(outIndex), [Message(channel, data)])
    {
      var idx: Index := outIndex % 0x1_0000;
      outIndex := (outIndex + 1) % 0x1_0000_0000;
      sent := Encrypted(key, Drw(channel, idx, data));
    }
  }

  /** Sending on after the counter has wrapped goes on with the same indices. */
  lemma CounterWraps(n: nat)
    ensures n % 0x1_0000_0000 % 0x1_0000 == n % 0x1_0000
  {
    var q := n / 0x1_0000_0000;
    WrapMultiple(n % 0x1_0000_0000, 0x1_0000 * q);
    assert n == n % 0x1_0000_0000 + 0x1_0000_0000 * q;
  }

  lemma {:induction false} OneByOne(key: Key, n: nat, ms: seq<Message>, m: Message)
    ensures Datagrams(key, n, ms + [m])
            == Datagrams(key, n, ms) + Datagrams(key, (n + |ms|) % 0x1_0000_0000, [m])
    decreases |ms|
  {
    hide Encrypted, Drw;
    if ms == [] {
      CounterWraps(n);
      assert ms + [m] == [m];
    } else {
      OneByOne(key, n + 1, ms[1..], m);
      assert (ms + [m])[1..] == ms[1..] + [m];
    }
  }

  /** The k-th datagram is received as the k-th message, with the k-th index after the first,
      wrapping at 16 bits. */
  lemma {:induction false} EveryMessageReceived(key: Key, n: nat, ms: seq<Message>, k: nat)
    requires k < |ms|
    ensures Received(key, Datagrams(key, n, ms)[k])
            == Some(Packet(MSG_DRW, (|ms[k].data| + 4) % 0x1_0000, ms[k].channel, (n + k) % 0x1_0000, ms[k].data))
    decreases k
  {
    hide Encrypted, Drw, ParsePacket;
    if k == 0 {
      var m := ms[0];
      DecryptUndoesEncrypt(key, Drw(m.channel, n % 0x1_0000, m.data));
      ParseUndoesBuild(m.channel, n % 0x1_0000, m.data);
    } else {
      EveryMessageReceived(key, n + 1, ms[1..], k - 1);
    }
  }
}
