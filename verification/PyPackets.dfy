/** Packets of the Python client: parsing, printing and the scrambling of binary commands. */
module PyPackets {
  import opened Bytes

  // ----- slices and the scrambling

  /** Where Python's slice bound i falls in a sequence of n items. */
  function Bound(n: nat, i: int): (k: nat)
    ensures k <= n
  {
    if i < 0 then (if n + i < 0 then 0 else n + i) else if i > n then n else i
  }

  /** s[i:] followed by s[:i]. */
  function Turned(s: Bytes, i: int): Bytes {
    s[Bound(|s|, i)..] + s[..Bound(|s|, i)]
  }

  function Flipped(b: Byte): Byte {
    if b % 2 == 1 then b - 1 else b + 1
  }

  function AllFlipped(s: Bytes): (t: Bytes)
    ensures |t| == |s| && forall i :: 0 <= i < |s| ==> t[i] == Flipped(s[i])
  {
    seq(|s|, i requires 0 <= i < |s| => Flipped(s[i]))
  }

  function XqEncode(data: Bytes, shift: int): Bytes {
    Turned(AllFlipped(data), shift)
  }

  function XqDecode(data: Bytes, shift: int): Bytes {
    Turned(AllFlipped(data), -shift)
  }

  lemma FlippedTurned(s: Bytes, i: int)
    ensures AllFlipped(Turned(AllFlipped(s), i)) == Turned(s, i)
  {
    var k, n := Bound(|s|, i), |s|;
    var t, u := Turned(AllFlipped(s), i), Turned(s, i);
    forall j | 0 <= j < n ensures Flipped(t[j]) == u[j] {
      assert u[j] == if j < n - k then s[k + j] else s[j - (n - k)];
    }
  }

  lemma TurnedBack(s: Bytes, i: int)
    ensures Turned(Turned(s, i), -i) == s
  {
    var k := Bound(|s|, i);
    var t := Turned(s, i);
    var m := Bound(|t|, -i);
    assert m == |s| - k || k == m == 0;
    if m == |s| - k {
      assert t[m..] == s[..k] && t[..m] == s[k..];
    }
  }

  /** Each undoes the other for every byte string and every shift, also one beyond the length. */
  lemma XqRoundTrip(data: Bytes, shift: int)
    ensures XqDecode(XqEncode(data, shift), shift) == data
    ensures XqEncode(XqDecode(data, shift), shift) == data
  {
    hide Turned, AllFlipped;
    FlippedTurned(data, shift);
    FlippedTurned(data, -shift);
    TurnedBack(data, shift);
    TurnedBack(data, -shift);
  }

  /** Every byte has its lowest bit turned over, and the bytes are turned to the left by the shift; a
      shift beyond the length turns nothing. */
  lemma XqBytes(data: Bytes, shift: nat, i: nat)
    requires i < |data|
    ensures |XqEncode(data, shift)| == |data|
    ensures var n := |data|;
            var k := if shift > n then i else if i < n - shift then i + shift else i + shift - n;
            XqEncode(data, shift)[i] == if data[k] % 2 == 1 then data[k] - 1 else data[k] + 1
  {
  }

  // ----- packets

  const MCAM: Byte := 0xf1
  const DRW: Byte := 0xd0
  const PUNCH: Byte := 0x41
  const P2P_RDY: Byte := 0x42
  const P2P_ALIVE: Byte := 0xe0
  const JSON_START: Bytes := [0x06, 0x0a]
  const BINARY_START: Bytes := [0x11, 0x0a]
  const NO_TOKEN: Bytes := [0, 0, 0, 0]

  const PACKET_TYPES: set<int> := {
    0xf0, 0x32, 0x30, 0xe0, 0xe1, 0x00, 0x42, 0x20, 0x67, 0xd1, 0xd0,
    0x40, 0x41, 0x01, 0x02, 0x11, 0x21, 0x69, 0x70, 0x71
  }

  datatype Packet =
    | Plain(typ: Byte, payload: Bytes)
    | Punch(typ: Byte, payload: Bytes)
    | Drw(channel: Byte, index: Index, payload: Bytes)
    | Json(index: Index, preamble: Bytes, text: Bytes)
    | Binary(index: Index, command: Index, payload: Bytes, token: Bytes)

  datatype Error = NoData | InvalidData | TooShort | UnknownType | UnknownChannel

  datatype Result = Ok(packet: Packet) | Err(error: Error)

  /** What the packet code takes from elsewhere: the numbered commands, the destination field of
      each, and which texts the JSON library accepts. */
  datatype Tables = Tables(commands: set<int>, destination: map<int, Index>, isJson: Bytes -> bool)

  function Destination(t: Tables, command: Index): Index {
    if command in t.destination then t.destination[command] else 0
  }

  /** The part behind the channel and index; None where the length does not fit its field. */
  function BinaryPayload(t: Tables, p: Packet): Option<Bytes>
    requires p.Binary?
  {
    var length := |p.payload| + |p.token|;
    if length >= 0x1_0000 then None
    else
      Some(BINARY_START + PutLe16(p.command) + PutLe16(length) + PutLe16(Destination(t, p.command))
           + p.token + (if p.payload == [] then [] else XqEncode(p.payload, 4)))
  }

  function Framed(typ: Byte, payload: Bytes): Option<Bytes> {
    if |payload| >= 0x1_0000 then None else Some([MCAM, typ] + PutBe16(|payload|) + payload)
  }

  function DrwFramed(channel: Byte, index: Index, payload: Bytes): Option<Bytes> {
    Framed(DRW, [0xd1, channel] + PutBe16(index) + payload)
  }

  /** The packet as bytes. A JSON packet prints its text again as the JSON library formats it, which
      is not part of this model. */
  function ToBytes(t: Tables, p: Packet): Option<Bytes>
    requires !p.Json?
  {
    match p
    case Plain(typ, payload) => Framed(typ, payload)
    case Punch(typ, payload) => Framed(typ, payload)
    case Drw(channel, index, payload) => DrwFramed(channel, index, payload)
    case Binary(index, _, _, _) =>
      match BinaryPayload(t, p)
      case None => None
      case Some(b) => DrwFramed(0, index, b)
  }

  function ParseBinary(t: Tables, index: Index, data: Bytes): Option<Packet>
    requires |data| >= 12
  {
    var command, rest := Le16(data[6..8]), data[12..];
    if command !in t.commands then None
    else if |rest| < 4 then Some(Binary(index, command, rest, NO_TOKEN))
    else Some(Binary(index, command, if rest[4..] == [] then [] else XqDecode(rest[4..], 4), rest[..4]))
  }

  function AsDrw(channel: Byte, index: Index, payload: Bytes): Result {
    if channel <= 2 then Ok(Drw(channel, index, payload)) else Err(UnknownChannel)
  }

  function ParseDrw(t: Tables, data: Bytes): Result {
    if |data| < 4 then Err(TooShort)
    else
      var channel, index := data[1], Be16(data[2..4]);
      if JSON_START <= data[4..] then
        var text := if |data| <= 12 then [] else data[12..];
        if t.isJson(text) then Ok(Json(index, if |data| < 8 then data[4..] else data[4..8], text))
        else AsDrw(channel, index, data[4..])
      else if BINARY_START <= data[4..] then
        if |data| < 12 then Err(TooShort)
        else
          match ParseBinary(t, index, data)
          case Some(p) => Ok(p)
          case None => AsDrw(channel, index, data[4..])
      else AsDrw(channel, index, data[4..])
  }

  function ParsePacket(t: Tables, data: Bytes): Result {
    if data == [] then Err(NoData)
    else if data[0] != MCAM then Err(InvalidData)
    else if |data| < 4 then Err(TooShort)
    else
      var typ, length := data[1], Be16(data[2..4]);
      var body := if |data| != length + 4 && typ == P2P_ALIVE then [] else data[4..];
      if typ !in PACKET_TYPES then Err(UnknownType)
      else if typ == PUNCH || typ == P2P_RDY then Ok(Punch(typ, body))
      else if typ == DRW then ParseDrw(t, body)
      else Ok(Plain(typ, body))
  }

  // ----- binary commands there and back

  /** The packet types there are. */
  lemma TypesExactly(typ: Byte)
    ensures typ in PACKET_TYPES
            <==> || typ == 0x00 || typ == 0x01 || typ == 0x02 || typ == 0x11 || typ == 0x20 || typ == 0x21
                 || typ == 0x30 || typ == 0x32 || typ == 0x40 || typ == 0x41 || typ == 0x42 || typ == 0x67
                 || typ == 0x69 || typ == 0x70 || typ == 0x71 || typ == 0xd0 || typ == 0xd1 || typ == 0xe0
                 || typ == 0xe1 || typ == 0xf0
  {
  }

  /** What is refused, in the order in which it is noticed. */
  lemma RefusedExactly(t: Tables, data: Bytes)
    ensures data == [] ==> ParsePacket(t, data) == Err(NoData)
    ensures data != [] && data[0] != 0xf1 ==> ParsePacket(t, data) == Err(InvalidData)
    ensures data != [] && data[0] == 0xf1 && |data| < 4 ==> ParsePacket(t, data) == Err(TooShort)
    ensures |data| >= 4 && data[0] == 0xf1 && data[1] !in PACKET_TYPES ==> ParsePacket(t, data) == Err(UnknownType)
    ensures |data| >= 4 && data[0] == 0xf1 && data[1] in PACKET_TYPES && data[1] != 0xd0 ==> ParsePacket(t, data).Ok?
  {
    hide PACKET_TYPES;
  }

  /** The payload is what is behind the first four bytes whatever the length field says, except that an alive
      packet of another length has none. */
  lemma PayloadExactly(t: Tables, data: Bytes)
    requires |data| >= 4 && data[0] == 0xf1 && data[1] in PACKET_TYPES && data[1] != 0xd0
    ensures var typ, length := data[1], 256 * (data[2] as int) + data[3] as int;
            ParsePacket(t, data)
            == if typ == 0x41 || typ == 0x42 then Ok(Punch(typ, data[4..]))
               else Ok(Plain(typ, if typ == 0xe0 && |data| != length + 4 then [] else data[4..]))
  {
    hide PACKET_TYPES;
  }

  /** What the data part of a packet is taken for, by its first two bytes. */
  lemma DrwExactly(t: Tables, x: Byte, channel: Byte, index: Index, payload: Bytes)
    ensures var r := ParseDrw(t, [x, channel] + PutBe16(index) + payload);
            var plain := if channel <= 2 then Ok(Drw(channel, index, payload)) else Err(UnknownChannel);
            if [0x06, 0x0a] <= payload then
              var text := if |payload| <= 8 then [] else payload[8..];
              var preamble := payload[..if |payload| < 4 then |payload| else 4];
              r == if t.isJson(text) then Ok(Json(index, preamble, text)) else plain
            else if [0x11, 0x0a] <= payload then
              if |payload| < 8 then r == Err(TooShort)
              else
                var command := payload[2] as int + 256 * (payload[3] as int);
                command !in t.commands ==> r == plain
            else r == plain
  {
    var data := [x, channel] + PutBe16(index) + payload;
    assert data[2..4] == PutBe16(index) && data[4..] == payload;
    if |payload| >= 8 {
      assert data[4..8] == payload[..4] && data[6..8] == payload[2..4] && data[12..] == payload[8..];
    }
    if 4 <= |payload| < 8 {
      assert data[4..8] == payload[..4];
    }
    if |payload| < 4 {
      assert payload[..|payload|] == payload;
    }
  }

  /** Packets that are no commands survive printing and parsing. */
  lemma OthersSurvive(t: Tables, p: Packet)
    requires !p.Json? && !p.Binary? && ToBytes(t, p).Some?
    requires match p
             case Plain(typ, _) => typ in PACKET_TYPES && typ != 0x41 && typ != 0x42 && typ != 0xd0
             case Punch(typ, _) => typ == 0x41 || typ == 0x42
             case Drw(channel, _, payload) => channel <= 2 && !([0x06, 0x0a] <= payload) && !([0x11, 0x0a] <= payload)
    ensures ParsePacket(t, ToBytes(t, p).value) == Ok(p)
  {
    var data := ToBytes(t, p).value;
    hide PACKET_TYPES;
    DrwIsType();
    match p
    case Plain(typ, payload) => FramedBytes(typ, payload);
    case Punch(typ, payload) => FramedBytes(typ, payload);
    case Drw(channel, index, payload) =>
      FramedBytes(0xd0, [0xd1, channel] + PutBe16(index) + payload);
      DrwExactly(t, 0xd1, channel, index, payload);
  }

  lemma FramedBytes(typ: Byte, payload: Bytes)
    requires |payload| < 0x1_0000
    ensures var data := [0xf1, typ] + PutBe16(|payload|) + payload;
            Framed(typ, payload) == Some(data) && data[4..] == payload && data[2..4] == PutBe16(|payload|)
            && |data| == |payload| + 4 && data[0] == 0xf1 && data[1] == typ
  {
  }

  /** A packet is printed exactly when its lengths fit their 16-bit fields. */
  lemma PrintsExactly(t: Tables, p: Packet)
    requires !p.Json?
    ensures ToBytes(t, p).Some?
            <==> match p
                 case Plain(_, payload) => |payload| <= 65535
                 case Punch(_, payload) => |payload| <= 65535
                 case Drw(_, _, payload) => |payload| + 4 <= 65535
                 case Binary(_, _, payload, token) => |payload| + |token| + 12 <= 65535
  {
    if p.Binary? {
      TurnedLength(p.payload);
    }
  }

  /** What the header of a printed binary command looks like, byte by byte. */
  lemma BinaryLayout(t: Tables, p: Packet)
    requires p.Binary? && ToBytes(t, p).Some?
    ensures var data := ToBytes(t, p).value;
            && |data| == 16 + |p.token| + |p.payload|
            && data[..2] == [0xf1, 0xd0] && data[2..4] == PutBe16(|data| - 4)
            && data[4..6] == [0xd1, 0] && data[6..8] == PutBe16(p.index)
            && data[8..10] == [0x11, 0x0a] && data[10..12] == PutLe16(p.command)
            && data[12..14] == PutLe16(|p.token| + |p.payload|)
            && data[14..16] == PutLe16(if p.command in t.destination then t.destination[p.command] else 0)
            && data[16..] == p.token + (if p.payload == [] then [] else XqEncode(p.payload, 4))
  {
    hide XqEncode;
    TurnedLength(p.payload);
  }

  lemma TurnedLength(s: Bytes)
    ensures |XqEncode(s, 4)| == |s| == |XqDecode(s, 4)|
  {
  }

  /** Index, command, token and payload of a binary command survive printing and parsing. */
  lemma ParseUndoesPrint(t: Tables, p: Packet)
    requires p.Binary? && ToBytes(t, p).Some?
    requires |p.token| == 4 && p.command in t.commands
    ensures ParsePacket(t, ToBytes(t, p).value) == Ok(p)
  {
    hide XqEncode, XqDecode, ToBytes, PACKET_TYPES;
    var data := ToBytes(t, p).value;
    BinaryLayout(t, p);
    TurnedLength(p.payload);
    XqRoundTrip(p.payload, 4);
    var body := data[4..];
    assert data[0] == data[..2][0] == MCAM && data[1] == data[..2][1] == DRW;
    assert body[2..4] == data[6..8] && body[4..6] == data[8..10] && body[6..8] == data[10..12];
    assert body[4..][..2] == body[4..6];
    assert body[12..] == data[16..];
    assert data[16..][..4] == p.token && data[16..][4..] == if p.payload == [] then [] else XqEncode(p.payload, 4);
    DrwIsType();
    assert body[4] == body[4..6][0] == 0x11;
    assert BINARY_START <= body[4..] && !(JSON_START <= body[4..]);
    assert Be16(body[2..4]) == p.index && Le16(body[6..8]) == p.command;
    assert ParseBinary(t, p.index, body) == Some(p);
  }

  lemma DrwIsType()
    ensures DRW in PACKET_TYPES && 0x41 in PACKET_TYPES && 0x42 in PACKET_TYPES
  {
  }

  /** What a packet that is read as a binary command looks like. */
  lemma ParsedBinary(t: Tables, data: Bytes)
    requires ParsePacket(t, data).Ok? && ParsePacket(t, data).packet.Binary?
    ensures var p := ParsePacket(t, data).packet;
            && |data| >= 16 && data[0] == MCAM && data[1] == DRW
            && data[8..10] == BINARY_START
            && p.index == Be16(data[6..8]) && p.command == Le16(data[10..12])
            && (|data| < 20 ==> p.token == [0, 0, 0, 0] && p.payload == data[16..])
            && (|data| >= 20 ==>
                  p.token == data[16..20] && p.payload == if data[20..] == [] then [] else XqDecode(data[20..], 4))
  {
    hide XqDecode, PACKET_TYPES;
    var body := data[4..];
    assert body[4..][..2] == body[4..6];
    assert body[4..6] == data[8..10] && body[2..4] == data[6..8] && body[6..8] == data[10..12];
    assert body[12..] == data[16..];
    if |data| >= 20 {
      assert body[12..][..4] == data[16..20] && body[12..][4..] == data[20..];
    }
  }

  /** The fields that parsing does not look at hold what printing would put there, and the token
      is all there. */
  predicate Genuine(t: Tables, data: Bytes)
    requires |data| >= 16
  {
    && |data| >= 20
    && Be16(data[2..4]) == |data| - 4
    && data[4] == 0xd1 && data[5] == 0
    && Le16(data[12..14]) == |data| - 16
    && Le16(data[14..16]) == Destination(t, Le16(data[10..12]))
  }

  /** Printing a parsed binary command gives the same bytes exactly for genuine packets. */
  lemma PrintUndoesParse(t: Tables, data: Bytes)
    requires ParsePacket(t, data).Ok? && ParsePacket(t, data).packet.Binary?
    ensures |data| >= 16
    ensures ToBytes(t, ParsePacket(t, data).packet) == Some(data) <==> Genuine(t, data)
  {
    hide XqEncode, XqDecode, ParsePacket, ToBytes;
    var p := ParsePacket(t, data).packet;
    ParsedBinary(t, data);
    if |data| >= 20 {
      TurnedLength(data[20..]);
      XqRoundTrip(data[20..], 4);
    }
    if ToBytes(t, p) == Some(data) {
      BinaryLayout(t, p);
      HeaderIsGenuine(t, p, data);
    }
    if Genuine(t, data) {
      GenuinePrints(t, p, data);
    }
  }

  lemma HeaderIsGenuine(t: Tables, p: Packet, data: Bytes)
    requires p.Binary? && |data| >= 16 && p.command == Le16(data[10..12])
    requires |data| == 16 + |p.token| + |p.payload| && |data| - 4 < 0x1_0000
    requires data[2..4] == PutBe16(|data| - 4) && data[4..6] == [0xd1, 0]
    requires data[12..14] == PutLe16(|p.token| + |p.payload|) && data[14..16] == PutLe16(Destination(t, p.command))
    requires |data| < 20 ==> p.token == NO_TOKEN && p.payload == data[16..]
    ensures Genuine(t, data)
  {
    assert data[4] == data[4..6][0] && data[5] == data[4..6][1];
  }

  lemma GenuinePrints(t: Tables, p: Packet, data: Bytes)
    requires |data| >= 16 && Genuine(t, data)
    requires p.Binary? && data[0] == MCAM && data[1] == DRW && data[8..10] == BINARY_START
    requires p.index == Be16(data[6..8]) && p.command == Le16(data[10..12]) && p.token == data[16..20]
    requires |p.payload| == |data| - 20
    requires data[20..] == if p.payload == [] then [] else XqEncode(p.payload, 4)
    ensures ToBytes(t, p) == Some(data)
  {
    hide XqEncode;
    PutBe16RoundTrip(data[2..4]);
    PutBe16RoundTrip(data[6..8]);
    PutLe16RoundTrip(data[10..12]);
    PutLe16RoundTrip(data[12..14]);
    PutLe16RoundTrip(data[14..16]);
    var inner := BinaryPayload(t, p).value;
    assert data[8..10] + data[10..12] == data[8..12];
    assert data[8..12] + data[12..14] == data[8..14];
    assert data[8..14] + data[14..16] == data[8..16];
    assert data[8..16] + data[16..20] == data[8..20];
    assert data[8..20] + data[20..] == data[8..];
    assert inner == data[8..];
    assert [0xd1, 0] + PutBe16(p.index) + inner == data[4..];
    assert data == [MCAM, DRW] + data[2..4] + data[4..];
  }

  // ----- device names in punch packets

  /** Big-endian value of any number of bytes, and back. */
  function Number(b: Bytes): nat {
    if b == [] then 0 else 0x100 * Number(b[..|b| - 1]) + b[|b| - 1]
  }

  function Digits(n: nat, size: nat): (b: Bytes)
    ensures |b| == size
  {
    if size == 0 then [] else Digits(n / 0x100, size - 1) + [n % 0x100]
  }

  predicate Fits(n: nat, size: nat) {
    if size == 0 then n == 0 else Fits(n / 0x100, size - 1)
  }

  lemma {:induction false} DigitsOfNumber(b: Bytes)
    ensures Digits(Number(b), |b|) == b && Fits(Number(b), |b|)
  {
    if b != [] {
      var before, low := b[..|b| - 1], b[|b| - 1];
      DigitsOfNumber(before);
      var n := Number(b);
      assert n / 0x100 == Number(before) && n % 0x100 == low;
    }
  }

  lemma {:induction false} NumberOfDigits(n: nat, size: nat)
    requires Fits(n, size)
    ensures Number(Digits(n, size)) == n
  {
    if size > 0 {
      NumberOfDigits(n / 0x100, size - 1);
      assert Digits(n, size)[..size - 1] == Digits(n / 0x100, size - 1);
    }
  }

  datatype DeviceId = DeviceId(prefix: Bytes, serial: nat, suffix: Bytes)

  predicate Ascii(b: Bytes) {
    forall i :: 0 <= i < |b| ==> b[i] < 0x80
  }

  function Stripped(b: Bytes): Bytes {
    if b != [] && b[|b| - 1] == 0 then Stripped(b[..|b| - 1]) else b
  }

  function Zeros(n: nat): (z: Bytes)
    ensures |z| == n && forall i :: 0 <= i < n ==> z[i] == 0
  {
    seq(n, _ => 0)
  }

  /** Cut or filled with zeros to a fixed size. */
  function Fixed(b: Bytes, size: nat): (f: Bytes)
    ensures |f| == size
  {
    if |b| >= size then b[..size] else b + Zeros(size - |b|)
  }

  /** None for a payload that is too short or holds other than ASCII characters. */
  function AsObject(payload: Bytes): Option<DeviceId> {
    if |payload| < 12 || !Ascii(payload[..4]) || !Ascii(Stripped(payload[12..])) then None
    else Some(DeviceId(payload[..4], Number(payload[4..12]), Stripped(payload[12..])))
  }

  /** None for names that are not ASCII or a number of more than eight bytes. */
  function PunchPayload(d: DeviceId): (payload: Option<Bytes>)
    ensures payload.Some? ==> |payload.value| == 20
  {
    if !Ascii(d.prefix) || !Ascii(d.suffix) || !Fits(d.serial, 8) then None
    else Some(Fixed(d.prefix, 4) + Digits(d.serial, 8) + Fixed(d.suffix, 8))
  }

  lemma {:induction false} StrippedThenFixed(b: Bytes, size: nat)
    requires |b| <= size
    ensures Fixed(Stripped(b), size) == Fixed(b, size)
  {
    if b != [] && b[|b| - 1] == 0 {
      StrippedThenFixed(b[..|b| - 1], size);
      assert b[..|b| - 1] + Zeros(size - |b| + 1) == b + Zeros(size - |b|);
    }
  }

  /** Making a punch packet again from the name in it gives the same bytes exactly for payloads of
      20 bytes. */
  lemma PunchAgain(payload: Bytes)
    requires AsObject(payload).Some?
    ensures PunchPayload(AsObject(payload).value) == Some(payload) <==> |payload| == 20
  {
    hide Number, Digits, Fits;
    DigitsOfNumber(payload[4..12]);
    if |payload| == 20 {
      StrippedThenFixed(payload[12..], 8);
      assert Fixed(payload[12..], 8) == payload[12..] && Fixed(payload[..4], 4) == payload[..4];
      assert payload[..4] + payload[4..12] + payload[12..] == payload;
    }
  }

  lemma {:induction false} StrippedZeros(b: Bytes, n: nat)
    ensures Stripped(b + Zeros(n)) == Stripped(b)
  {
    if n == 0 {
      assert b + Zeros(0) == b;
    } else {
      assert (b + Zeros(n))[..|b| + n - 1] == b + Zeros(n - 1);
      StrippedZeros(b, n - 1);
    }
  }

  predicate EndsInZero(b: Bytes) {
    b != [] && b[|b| - 1] == 0
  }

  lemma {:induction false} StrippedEnd(b: Bytes)
    ensures !EndsInZero(Stripped(b)) && (Stripped(b) == b <==> !EndsInZero(b)) && |Stripped(b)| <= |b|
  {
    if EndsInZero(b) {
      StrippedEnd(b[..|b| - 1]);
    }
  }

  /** A device name survives a punch packet exactly when the prefix has four characters and the
      suffix at most eight, the last of which is not a zero. */
  lemma NameAgain(d: DeviceId)
    requires PunchPayload(d).Some?
    ensures AsObject(PunchPayload(d).value) == Some(d)
            <==> |d.prefix| == 4 && |d.suffix| <= 8 && !EndsInZero(d.suffix)
  {
    hide Number, Digits, Fits, Stripped;
    var b := PunchPayload(d).value;
    NumberOfDigits(d.serial, 8);
    assert b[..4] == Fixed(d.prefix, 4) && b[4..12] == Digits(d.serial, 8) && b[12..] == Fixed(d.suffix, 8);
    StrippedEnd(d.suffix);
    StrippedEnd(Fixed(d.suffix, 8));
    if |d.prefix| == 4 {
      assert Fixed(d.prefix, 4) == d.prefix;
    }
    if |d.suffix| <= 8 {
      assert Fixed(d.suffix, 8) == d.suffix + Zeros(8 - |d.suffix|);
      StrippedZeros(d.suffix, 8 - |d.suffix|);
    }
  }

  /** The number is read and written most significant byte first, in eight bytes at most. */
  lemma NumbersAreBigEndian(s: Bytes, x: Byte, n: nat)
    ensures Number([]) == 0 && Number(s + [x]) == 256 * Number(s) + x
    ensures Fits(n, 8) <==> n < 0x1_0000_0000_0000_0000
  {
    assert (s + [x])[..|s|] == s;
    FitsIff(n, 8);
    assert Power(4) == 0x1_0000_0000;
    assert Power(8) == 256 * (256 * (256 * (256 * Power(4))));
  }

  function Power(k: nat): nat {
    if k == 0 then 1 else 256 * Power(k - 1)
  }

  lemma {:induction false} FitsIff(n: nat, size: nat)
    ensures Fits(n, size) <==> n < Power(size)
  {
    if size > 0 {
      FitsIff(n / 0x100, size - 1);
      assert n / 0x100 < Power(size - 1) <==> n < 256 * Power(size - 1);
    }
  }

  predicate AllBelow128(b: Bytes) {
    forall i :: 0 <= i < |b| ==> b[i] < 128
  }

  /** A punch packet holds four bytes of name, eight of number and eight of ending, filled with zeros; it is
      made unless a byte is not ASCII or the number is too large. */
  lemma PunchLayout(d: DeviceId)
    ensures PunchPayload(d).Some?
            <==> AllBelow128(d.prefix) && AllBelow128(d.suffix) && d.serial < 0x1_0000_0000_0000_0000
    ensures PunchPayload(d).Some? ==>
              var b := PunchPayload(d).value;
              && |b| == 20 && Number(b[4..12]) == d.serial
              && (forall k :: 0 <= k < 4 ==> b[k] == if k < |d.prefix| then d.prefix[k] else 0)
              && (forall k :: 0 <= k < 8 ==> b[12 + k] == if k < |d.suffix| then d.suffix[k] else 0)
  {
    NumbersAreBigEndian([], 0, d.serial);
    hide Number, Digits, Fits;
    if PunchPayload(d).Some? {
      NumberOfDigits(d.serial, 8);
      var b := PunchPayload(d).value;
      assert b[4..12] == Digits(d.serial, 8);
    }
  }

  /** Reading one takes the first four bytes, the number, and the rest without the zeros at its end; it
      fails on fewer than twelve bytes, or where a byte of a name is not ASCII. */
  lemma NameExactly(payload: Bytes)
    ensures |payload| < 12 ==> AsObject(payload).None?
    ensures |payload| >= 12 ==>
              var ending := Stripped(payload[12..]);
              && (AsObject(payload).Some? <==> AllBelow128(payload[..4]) && AllBelow128(ending))
              && (AsObject(payload).Some? ==>
                    AsObject(payload).value == DeviceId(payload[..4], Number(payload[4..12]), ending))
              && !EndsInZero(ending) && ending <= payload[12..]
              && forall k :: 12 + |ending| <= k < |payload| ==> payload[k] == 0
  {
    if |payload| >= 12 {
      StrippedExactly(payload[12..]);
      var ending := Stripped(payload[12..]);
      forall k | 12 + |ending| <= k < |payload| ensures payload[k] == 0 {
        assert payload[12..][k - 12] == payload[k];
      }
    }
  }

  lemma {:induction false} StrippedExactly(b: Bytes)
    ensures Stripped(b) <= b && !EndsInZero(Stripped(b)) && forall k :: |Stripped(b)| <= k < |b| ==> b[k] == 0
  {
    if EndsInZero(b) {
      StrippedExactly(b[..|b| - 1]);
    }
  }
}
