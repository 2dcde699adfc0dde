/** The cipher as the four implementations write it: into a new buffer (Go, JavaScript, Python),
    into a given one (Go) and in place (C). */
module CipherForms {
  import opened Bytes
  import opened BitXor
  import opened Cipher

  // ----- Go

  method Encrypt(buf: Bytes, key: Key) returns (out: array<Byte>)
    ensures fresh(out) && out[..] == Encrypted(key, buf)
  {
    hide Xor, Pad, TableEntry, Encrypted, Decrypted, KeyOf;
    out := new Byte[|buf|](_ => 0);
    var prev: Byte := 0;
    for i := 0 to |buf|
      invariant out[..i] == Encrypted(key, buf[..i])
      invariant prev == Before(out[..i], i)
    {
      EncryptStep(key, buf, i);
      PadIsEntry(key, prev);
      var idx := (key[prev % 4] + prev) % 0x100;
      var v := Xor(buf[i], TableEntry(idx));
      out[i] := v;
      prev := v;
    }
    assert buf[..|buf|] == buf && out[..] == out[..|buf|];
  }

  method DecryptInto(out: array<Byte>, buf: Bytes, key: Key)
    requires |buf| <= out.Length
    modifies out
    ensures out[..|buf|] == Decrypted(key, buf)
    ensures out[|buf|..] == old(out[|buf|..])
  {
    hide Xor, Pad, TableEntry, Encrypted, Decrypted, KeyOf;
    var prev: Byte := 0;
    for i := 0 to |buf|
      invariant out[..i] == Decrypted(key, buf)[..i]
      invariant out[|buf|..] == old(out[|buf|..])
      invariant prev == Before(buf, i)
    {
      DecryptStep(key, buf, i);
      PadIsEntry(key, prev);
      var b := buf[i];
      var idx := (key[prev % 4] + prev) % 0x100;
      out[i] := Xor(b, TableEntry(idx));
      prev := b;
    }
  }

  method KeyFromPSK(psk: Bytes) returns (key: Key)
    ensures key == KeyOf(psk)
  {
    hide Xor;
    var key0: Byte, key1: Byte, key2: Byte, key3: Byte := 0, 0, 0, 0;
    for i := 0 to |psk|
      invariant [key0, key1, key2, key3] == KeyOf(psk[..i])
    {
      assert psk[..i + 1][..i] == psk[..i];
      var ch := psk[i];
      key0 := (key0 + ch) % 0x100;
      key1 := (key1 - ch) % 0x100;
      key2 := (key2 + ch / 3) % 0x100;
      key3 := Xor(key3, ch);
    }
    assert psk[..|psk|] == psk;
    key := [key0, key1, key2, key3];
  }

  // ----- JavaScript

  /** A key is given as such or as a string; without either it is that of "camera". */
  datatype KeyOrPsk = Absent | Array(key: Key) | Text(psk: Bytes)

  function NormalizedKey(k: KeyOrPsk): Key {
    match k
    case Absent => KeyOf(CAMERA)
    case Array(key) => key
    case Text(psk) => if psk == [] then KeyOf(CAMERA) else KeyOf(psk)
  }

  /** A key is taken as it is, a string gives its key, and nothing or the empty string that of "camera". */
  lemma NormalizedKeys(key: Key, psk: Bytes)
    ensures NormalizedKey(Array(key)) == key
    ensures psk != [] ==> NormalizedKey(Text(psk)) == KeyOf(psk)
    ensures NormalizedKey(Absent) == NormalizedKey(Text([])) == [0x69, 0x97, 0xcc, 0x19]
  {
    hide KeyOf;
    CameraKey();
  }

  method JsEncrypt(buf: Bytes, keyOrPsk: KeyOrPsk) returns (newbuff: Bytes)
    ensures newbuff == Encrypted(NormalizedKey(keyOrPsk), buf)
  {
    hide Xor, Pad, TableEntry, Encrypted, Decrypted, KeyOf;
    var key := NormalizedKey(keyOrPsk);
    newbuff := [];
    var previousByte: Byte := 0;
    for position := 0 to |buf|
      invariant newbuff == Encrypted(key, buf[..position])
      invariant previousByte == Before(newbuff, position)
    {
      EncryptStep(key, buf, position);
      PadIsEntry(key, previousByte);
      var r := Xor(buf[position], TableEntry((key[previousByte % 4] + previousByte) % 0x100));
      newbuff := newbuff + [r];
      previousByte := r;
    }
    assert buf[..|buf|] == buf;
  }

  method JsDecrypt(buf: Bytes, keyOrPsk: KeyOrPsk) returns (newbuff: Bytes)
    ensures newbuff == Decrypted(NormalizedKey(keyOrPsk), buf)
  {
    hide Xor, Pad, TableEntry, Encrypted, Decrypted, KeyOf;
    var key := NormalizedKey(keyOrPsk);
    newbuff := [];
    var previousByte: Byte := 0;
    for position := 0 to |buf|
      invariant newbuff == Decrypted(key, buf)[..position]
      invariant previousByte == Before(buf, position)
    {
      DecryptStep(key, buf, position);
      PadIsEntry(key, previousByte);
      var index := (key[previousByte % 4] + previousByte) % 0x100;
      previousByte := buf[position];
      newbuff := newbuff + [Xor(buf[position], TableEntry(index))];
    }
  }

  // ----- Python

  method Xor1Encode(data: Bytes) returns (buf: array<Byte>)
    ensures fresh(buf) && buf[..] == Encrypted(KeyOf(CAMERA), data)
  {
    hide Xor, Pad, TableEntry, Encrypted, Decrypted, KeyOf;
    CameraKey();
    var prevByte: Byte := 0;
    buf := new Byte[|data|](_ => 0);
    for i := 0 to |data|
      invariant buf[..i] == Encrypted(PYTHON_KEY, data[..i])
      invariant prevByte == Before(buf[..i], i)
    {
      EncryptStep(PYTHON_KEY, data, i);
      PadIsEntry(PYTHON_KEY, prevByte);
      var index := (PYTHON_KEY[prevByte % 4] + prevByte) % 0x100;
      buf[i] := Xor(data[i], TableEntry(index));
      prevByte := buf[i];
    }
    assert data[..|data|] == data && buf[..] == buf[..|data|];
  }

  method Xor1Decode(data: Bytes) returns (buf: array<Byte>)
    ensures fresh(buf) && buf[..] == Decrypted(KeyOf(CAMERA), data)
  {
    hide Xor, Pad, TableEntry, Encrypted, Decrypted, KeyOf;
    CameraKey();
    var prevByte: Byte := 0;
    buf := new Byte[|data|](_ => 0);
    for i := 0 to |data|
      invariant buf[..i] == Decrypted(PYTHON_KEY, data)[..i]
      invariant prevByte == Before(data, i)
    {
      DecryptStep(PYTHON_KEY, data, i);
      PadIsEntry(PYTHON_KEY, prevByte);
      var index := (PYTHON_KEY[prevByte % 4] + prevByte) % 0x100;
      var origByte := data[i];
      buf[i] := Xor(origByte, TableEntry(index));
      prevByte := origByte;
    }
    assert buf[..] == buf[..buf.Length] && Decrypted(PYTHON_KEY, data)[..buf.Length] == Decrypted(PYTHON_KEY, data);
  }

  // ----- C, in place

  method EncodeInPlace(buf: array<Byte>)
    modifies buf
    ensures buf[..] == Encrypted(KeyOf(SHIX), old(buf[..]))
  {
    hide Xor, Pad, TableEntry, Encrypted, Decrypted, KeyOf;
    ShixKey();
    var prevByte: Byte := 0;
    ghost var plain := buf[..];
    for i := 0 to buf.Length
      invariant buf[..i] == Encrypted(C_KEY, plain[..i])
      invariant buf[i..] == plain[i..]
      invariant prevByte == Before(buf[..i], i)
    {
      EncryptStep(C_KEY, plain, i);
      PadIsEntry(C_KEY, prevByte);
      assert buf[i] == buf[i..][0] == plain[i];
      var index := (C_KEY[prevByte % 4] + prevByte) % 0x100;
      buf[i] := Xor(buf[i], TableEntry(index));
      prevByte := buf[i];
    }
    assert plain[..buf.Length] == plain && buf[..] == buf[..buf.Length];
  }

  method DecodeInPlace(buf: array<Byte>)
    modifies buf
    ensures buf[..] == Decrypted(KeyOf(SHIX), old(buf[..]))
  {
    hide Xor, Pad, TableEntry, Encrypted, Decrypted, KeyOf;
    ShixKey();
    var prevByte: Byte := 0;
    ghost var cipher := buf[..];
    for i := 0 to buf.Length
      invariant buf[..i] == Decrypted(C_KEY, cipher)[..i]
      invariant buf[i..] == cipher[i..]
      invariant prevByte == Before(cipher, i)
    {
      DecryptStep(C_KEY, cipher, i);
      PadIsEntry(C_KEY, prevByte);
      assert buf[i] == buf[i..][0] == cipher[i];
      var index := (C_KEY[prevByte % 4] + prevByte) % 0x100;
      prevByte := buf[i];
      buf[i] := Xor(buf[i], TableEntry(index));
    }
    assert buf[..] == buf[..buf.Length] && Decrypted(C_KEY, cipher)[..buf.Length] == Decrypted(C_KEY, cipher);
  }
}
