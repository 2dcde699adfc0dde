/** The frame being reassembled from one camera's video channel, as the Go and the JavaScript
    client both keep it: a start packet opens the frame, later packets fill numbered slots. */
module VideoFrames {
  import opened Bytes

  const MARKER: Bytes := [0x55, 0xaa, 0x15, 0xa8, 0x03, 0x00]
  const HEADER_SIZE: nat := 0x20
  const MAX_FRAME: nat := 512 * 1024
  const MAX_SLOT: nat := 128

  datatype Packet = Packet(index: Index, data: Bytes)

  datatype Frame = Frame(startIndex: Index, expectedLength: nat, receivedLength: nat,
                         maxSlot: nat, chunks: map<nat, Bytes>)

  /** What an assembler hands on: a frame of the announced length, or, at a boundary, the JPEG
      found inside an incomplete one. */
  datatype Emission = Full(data: Bytes) | Trimmed(data: Bytes)

  predicate IsStart(p: Packet) {
    MARKER <= p.data
  }

  /** A start packet whose header is whole and announces an acceptable length. */
  predicate IsGoodStart(p: Packet) {
    IsStart(p) && HEADER_SIZE <= |p.data| && 0 < Le32(p.data[16..20]) <= MAX_FRAME
  }

  /** Byte by byte: the six marker bytes, a header of 32 bytes, and a length of 1 to 524288 in bytes 16
      to 19, lowest first. */
  lemma GoodStartExactly(p: Packet)
    ensures IsGoodStart(p)
            <==> && |p.data| >= 32
                 && p.data[0] == 0x55 && p.data[1] == 0xaa && p.data[2] == 0x15 && p.data[3] == 0xa8
                 && p.data[4] == 3 && p.data[5] == 0
                 && 1 <= p.data[16] as int + 256 * (p.data[17] as int) + 65536 * (p.data[18] as int)
                         + 16777216 * (p.data[19] as int) <= 524288
  {
    if |p.data| >= 32 {
      assert p.data[..6] == [p.data[0], p.data[1], p.data[2], p.data[3], p.data[4], p.data[5]];
      assert MARKER == [0x55, 0xaa, 0x15, 0xa8, 0x03, 0x00];
      assert IsStart(p) <==> p.data[..6] == MARKER;
    }
  }

  /** Also a start that is not well-formed is told by its first six bytes. */
  lemma StartExactly(p: Packet)
    ensures IsStart(p)
            <==> && |p.data| >= 6
                 && p.data[0] == 0x55 && p.data[1] == 0xaa && p.data[2] == 0x15 && p.data[3] == 0xa8
                 && p.data[4] == 3 && p.data[5] == 0
  {
    if |p.data| >= 6 {
      assert p.data[..6] == [p.data[0], p.data[1], p.data[2], p.data[3], p.data[4], p.data[5]];
      assert IsStart(p) <==> p.data[..6] == MARKER;
    }
  }

  /** How many slots `current` lies after `start`. The subtraction is done on unsigned 32-bit
      words, which may wrap before the remainder is taken. */
  function Distance(start: Index, current: Index): (d: nat)
    ensures d < 0x1_0000 && (start + d) % 0x1_0000 == current
    ensures d == if start <= current then current - start else current - start + 0x1_0000
  {
    var word: int := (current as int - start as int) % 0x1_0000_0000;
    ((word + 0x1_0000) % 0x1_0000_0000) % 0x1_0000
  }

  /** The distance is the only slot number that leads from one index to the other. */
  lemma DistanceUnique(start: Index, current: Index, d: nat)
    requires d < 0x1_0000 && (start + d) % 0x1_0000 == current
    ensures Distance(start, current) == d
  {
    var e := Distance(start, current);
    assert (start as int + d) % 0x1_0000 == (start as int + e) % 0x1_0000;
  }

  function Opened(p: Packet): Frame
    requires IsGoodStart(p)
  {
    Frame(p.index, Le32(p.data[16..20]), 0, 0, map[])
  }

  /** Stores a chunk unless its slot is taken. */
  function Insert(f: Frame, slot: nat, data: Bytes): Frame {
    if slot in f.chunks then f
    else f.(chunks := f.chunks[slot := data],
            receivedLength := f.receivedLength + |data|,
            maxSlot := if slot > f.maxSlot then slot else f.maxSlot)
  }

  /** Length of the hole-free run of slots that begins at slot `i`, looking no further than `top`:
      the number of the first empty slot. */
  function RunEnd(slots: set<nat>, i: nat, top: nat): (e: nat)
    requires i <= top
    ensures i <= e <= top
    ensures forall k :: i <= k < e ==> k in slots
    ensures e == top || e !in slots
    decreases top - i
  {
    if i == top || i !in slots then i else RunEnd(slots, i + 1, top)
  }

  ghost predicate Filled(chunks: map<nat, Bytes>, n: nat) {
    forall k: nat :: k < n ==> k in chunks
  }

  /** The chunks of slots 0 to n-1 in slot order. */
  function Joined(chunks: map<nat, Bytes>, n: nat): Bytes
    requires Filled(chunks, n)
  {
    if n == 0 then [] else Joined(chunks, n - 1) + chunks[n - 1]
  }

  /** Number of leading slots of the frame that are present without a hole. */
  function Reach(f: Frame): (n: nat)
    ensures n <= f.maxSlot + 1 && Filled(f.chunks, n)
  {
    RunEnd(f.chunks.Keys, 0, f.maxSlot + 1)
  }

  /** All bytes of the frame up to the first hole. */
  function Body(f: Frame): Bytes {
    Joined(f.chunks, Reach(f))
  }

  predicate IsComplete(f: Frame) {
    |Body(f)| >= f.expectedLength > 0
  }

  function Image(f: Frame): (b: Bytes)
    requires IsComplete(f)
    ensures |b| == f.expectedLength
  {
    Body(f)[..f.expectedLength]
  }

  // ----- facts about hole-free runs

  lemma {:induction false} JoinedPrefix(chunks: map<nat, Bytes>, m: nat, n: nat)
    requires m <= n && Filled(chunks, n)
    ensures Joined(chunks, m) <= Joined(chunks, n)
  {
    if m < n {
      JoinedPrefix(chunks, m, n - 1);
    }
  }

  lemma {:induction false} JoinedAgrees(a: map<nat, Bytes>, b: map<nat, Bytes>, n: nat)
    requires Filled(a, n) && Filled(b, n)
    requires forall k: nat :: k < n ==> a[k] == b[k]
    ensures Joined(a, n) == Joined(b, n)
  {
    if n > 0 {
      JoinedAgrees(a, b, n - 1);
    }
  }

  /** The first empty slot is determined by which slots are filled. */
  lemma {:induction false} RunEndUnique(slots: set<nat>, i: nat, top: nat, e: nat)
    requires i <= e <= top
    requires forall k :: i <= k < e ==> k in slots
    requires e == top || e !in slots
    ensures RunEnd(slots, i, top) == e
    decreases e - i
  {
    if i < e {
      RunEndUnique(slots, i + 1, top, e);
    }
  }

  /** A frame that is complete keeps its image whatever else is stored in it. */
  lemma CompleteStays(f: Frame, slot: nat, data: Bytes)
    requires IsComplete(f)
    ensures IsComplete(Insert(f, slot, data)) && Image(Insert(f, slot, data)) == Image(f)
  {
    var g := Insert(f, slot, data);
    var n := Reach(f);
    assert Filled(g.chunks, n);
    JoinedAgrees(f.chunks, g.chunks, n);
    JoinedPrefix(g.chunks, n, Reach(g));
  }

  // ----- what every frame under assembly satisfies

  /** Bytes stored in slots 0 to n-1, holes counting nothing. */
  function StoredLength(chunks: map<nat, Bytes>, n: nat): nat {
    if n == 0 then 0
    else StoredLength(chunks, n - 1) + if n - 1 in chunks then |chunks[n - 1]| else 0
  }

  ghost predicate FrameOk(f: Frame) {
    && 0 < f.expectedLength <= 0x8_0000
    && 0 in f.chunks
    && f.maxSlot in f.chunks
    && f.maxSlot <= 128
    && (forall s :: s in f.chunks ==> s <= f.maxSlot)
    && f.receivedLength == StoredLength(f.chunks, f.maxSlot + 1)
  }

  lemma {:induction false} StoredLengthInsert(chunks: map<nat, Bytes>, slot: nat, data: Bytes, n: nat)
    requires slot !in chunks
    ensures StoredLength(chunks[slot := data], n)
         == StoredLength(chunks, n) + if slot < n then |data| else 0
  {
    if n > 0 {
      StoredLengthInsert(chunks, slot, data, n - 1);
    }
  }

  /** Counting past the last occupied slot adds nothing. */
  lemma {:induction false} StoredBeyond(chunks: map<nat, Bytes>, m: nat, n: nat)
    requires m <= n && forall s :: s in chunks ==> s < m
    ensures StoredLength(chunks, n) == StoredLength(chunks, m)
    decreases n
  {
    if m < n {
      StoredBeyond(chunks, m, n - 1);
    }
  }

  /** A hole-free prefix never holds more bytes than the frame has received. */
  lemma {:induction false} JoinedWithinStored(chunks: map<nat, Bytes>, m: nat, n: nat)
    requires m <= n && Filled(chunks, m)
    ensures |Joined(chunks, m)| <= StoredLength(chunks, n)
    ensures m == n ==> |Joined(chunks, m)| == StoredLength(chunks, n)
    decreases n
  {
    if m == n {
      if n > 0 {
        JoinedWithinStored(chunks, m - 1, n - 1);
      }
    } else {
      JoinedWithinStored(chunks, m, n - 1);
    }
  }

  lemma OpenedOk(p: Packet)
    requires IsGoodStart(p)
    ensures FrameOk(Insert(Opened(p), 0, p.data[HEADER_SIZE..]))
  {
    var chunks := map[0 := p.data[HEADER_SIZE..]];
    assert StoredLength(chunks, 1) == StoredLength(chunks, 0) + |chunks[0]|;
  }

  lemma InsertOk(f: Frame, slot: nat, data: Bytes)
    requires FrameOk(f) && slot <= 128
    ensures FrameOk(Insert(f, slot, data))
  {
    if slot !in f.chunks {
      var top := Insert(f, slot, data).maxSlot;
      StoredBeyond(f.chunks, f.maxSlot + 1, top + 1);
      StoredLengthInsert(f.chunks, slot, data, top + 1);
    }
  }
}
