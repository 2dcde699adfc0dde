/** The table-driven stream cipher of the protocol: every byte is combined with a table entry that
    the previous ciphertext byte and the key select. */
module Cipher {
  import opened Bytes
  import opened BitXor

  type Key = k: seq<Byte> | |k| == 4 witness [0, 0, 0, 0]

  /** The 256 table entries, sixteen to a row; all four implementations share them. */
  const TABLE_ROWS: seq<seq<Byte>> := [
    [0x7c, 0x9c, 0xe8, 0x4a, 0x13, 0xde, 0xdc, 0xb2, 0x2f, 0x21, 0x23, 0xe4, 0x30, 0x7b, 0x3d, 0x8c],
    [0xbc, 0x0b, 0x27, 0x0c, 0x3c, 0xf7, 0x9a, 0xe7, 0x08, 0x71, 0x96, 0x00, 0x97, 0x85, 0xef, 0xc1],
    [0x1f, 0xc4, 0xdb, 0xa1, 0xc2, 0xeb, 0xd9, 0x01, 0xfa, 0xba, 0x3b, 0x05, 0xb8, 0x15, 0x87, 0x83],
    [0x28, 0x72, 0xd1, 0x8b, 0x5a, 0xd6, 0xda, 0x93, 0x58, 0xfe, 0xaa, 0xcc, 0x6e, 0x1b, 0xf0, 0xa3],
    [0x88, 0xab, 0x43, 0xc0, 0x0d, 0xb5, 0x45, 0x38, 0x4f, 0x50, 0x22, 0x66, 0x20, 0x7f, 0x07, 0x5b],
    [0x14, 0x98, 0x1d, 0x9b, 0xa7, 0x2a, 0xb9, 0xa8, 0xcb, 0xf1, 0xfc, 0x49, 0x47, 0x06, 0x3e, 0xb1],
    [0x0e, 0x04, 0x3a, 0x94, 0x5e, 0xee, 0x54, 0x11, 0x34, 0xdd, 0x4d, 0xf9, 0xec, 0xc7, 0xc9, 0xe3],
    [0x78, 0x1a, 0x6f, 0x70, 0x6b, 0xa4, 0xbd, 0xa9, 0x5d, 0xd5, 0xf8, 0xe5, 0xbb, 0x26, 0xaf, 0x42],
    [0x37, 0xd8, 0xe1, 0x02, 0x0a, 0xae, 0x5f, 0x1c, 0xc5, 0x73, 0x09, 0x4e, 0x69, 0x24, 0x90, 0x6d],
    [0x12, 0xb3, 0x19, 0xad, 0x74, 0x8a, 0x29, 0x40, 0xf5, 0x2d, 0xbe, 0xa5, 0x59, 0xe0, 0xf4, 0x79],
    [0xd2, 0x4b, 0xce, 0x89, 0x82, 0x48, 0x84, 0x25, 0xc6, 0x91, 0x2b, 0xa2, 0xfb, 0x8f, 0xe9, 0xa6],
    [0xb0, 0x9e, 0x3f, 0x65, 0xf6, 0x03, 0x31, 0x2e, 0xac, 0x0f, 0x95, 0x2c, 0x5c, 0xed, 0x39, 0xb7],
    [0x33, 0x6c, 0x56, 0x7e, 0xb4, 0xa0, 0xfd, 0x7a, 0x81, 0x53, 0x51, 0x86, 0x8d, 0x9f, 0x77, 0xff],
    [0x6a, 0x80, 0xdf, 0xe2, 0xbf, 0x10, 0xd7, 0x75, 0x64, 0x57, 0x76, 0xf3, 0x55, 0xcd, 0xd0, 0xc8],
    [0x18, 0xe6, 0x36, 0x41, 0x62, 0xcf, 0x99, 0xf2, 0x32, 0x4c, 0x67, 0x60, 0x61, 0x92, 0xca, 0xd3],
    [0xea, 0x63, 0x7d, 0x16, 0xb6, 0x8e, 0xd4, 0x68, 0x35, 0xc3, 0x52, 0x9d, 0x46, 0x44, 0x1e, 0x17]
  ]

  function TableEntry(i: Byte): Byte {
    hide TABLE_ROWS;
    TableShape();
    TABLE_ROWS[i / 16][i % 16]
  }

  lemma TableShape()
    ensures |TABLE_ROWS| == 16
    ensures forall r :: 0 <= r < 16 ==> |TABLE_ROWS[r]| == 16
  {
  }

  /** The 256 table entries one by one. */
  lemma TableFrom00()
    ensures TableEntry(0x00) == 0x7c && TableEntry(0x01) == 0x9c && TableEntry(0x02) == 0xe8 && TableEntry(0x03) == 0x4a
    ensures TableEntry(0x04) == 0x13 && TableEntry(0x05) == 0xde && TableEntry(0x06) == 0xdc && TableEntry(0x07) == 0xb2
    ensures TableEntry(0x08) == 0x2f && TableEntry(0x09) == 0x21 && TableEntry(0x0a) == 0x23 && TableEntry(0x0b) == 0xe4
    ensures TableEntry(0x0c) == 0x30 && TableEntry(0x0d) == 0x7b && TableEntry(0x0e) == 0x3d && TableEntry(0x0f) == 0x8c
    ensures TableEntry(0x10) == 0xbc && TableEntry(0x11) == 0x0b && TableEntry(0x12) == 0x27 && TableEntry(0x13) == 0x0c
    ensures TableEntry(0x14) == 0x3c && TableEntry(0x15) == 0xf7 && TableEntry(0x16) == 0x9a && TableEntry(0x17) == 0xe7
    ensures TableEntry(0x18) == 0x08 && TableEntry(0x19) == 0x71 && TableEntry(0x1a) == 0x96 && TableEntry(0x1b) == 0x00
    ensures TableEntry(0x1c) == 0x97 && TableEntry(0x1d) == 0x85 && TableEntry(0x1e) == 0xef && TableEntry(0x1f) == 0xc1
  {
  }

  lemma TableFrom20()
    ensures TableEntry(0x20) == 0x1f && TableEntry(0x21) == 0xc4 && TableEntry(0x22) == 0xdb && TableEntry(0x23) == 0xa1
    ensures TableEntry(0x24) == 0xc2 && TableEntry(0x25) == 0xeb && TableEntry(0x26) == 0xd9 && TableEntry(0x27) == 0x01
    ensures TableEntry(0x28) == 0xfa && TableEntry(0x29) == 0xba && TableEntry(0x2a) == 0x3b && TableEntry(0x2b) == 0x05
    ensures TableEntry(0x2c) == 0xb8 && TableEntry(0x2d) == 0x15 && TableEntry(0x2e) == 0x87 && TableEntry(0x2f) == 0x83
    ensures TableEntry(0x30) == 0x28 && TableEntry(0x31) == 0x72 && TableEntry(0x32) == 0xd1 && TableEntry(0x33) == 0x8b
    ensures TableEntry(0x34) == 0x5a && TableEntry(0x35) == 0xd6 && TableEntry(0x36) == 0xda && TableEntry(0x37) == 0x93
    ensures TableEntry(0x38) == 0x58 && TableEntry(0x39) == 0xfe && TableEntry(0x3a) == 0xaa && TableEntry(0x3b) == 0xcc
    ensures TableEntry(0x3c) == 0x6e && TableEntry(0x3d) == 0x1b && TableEntry(0x3e) == 0xf0 && TableEntry(0x3f) == 0xa3
  {
  }

  lemma TableFrom40()
    ensures TableEntry(0x40) == 0x88 && TableEntry(0x41) == 0xab && TableEntry(0x42) == 0x43 && TableEntry(0x43) == 0xc0
    ensures TableEntry(0x44) == 0x0d && TableEntry(0x45) == 0xb5 && TableEntry(0x46) == 0x45 && TableEntry(0x47) == 0x38
    ensures TableEntry(0x48) == 0x4f && TableEntry(0x49) == 0x50 && TableEntry(0x4a) == 0x22 && TableEntry(0x4b) == 0x66
    ensures TableEntry(0x4c) == 0x20 && TableEntry(0x4d) == 0x7f && TableEntry(0x4e) == 0x07 && TableEntry(0x4f) == 0x5b
    ensures TableEntry(0x50) == 0x14 && TableEntry(0x51) == 0x98 && TableEntry(0x52) == 0x1d && TableEntry(0x53) == 0x9b
    ensures TableEntry(0x54) == 0xa7 && TableEntry(0x55) == 0x2a && TableEntry(0x56) == 0xb9 && TableEntry(0x57) == 0xa8
    ensures TableEntry(0x58) == 0xcb && TableEntry(0x59) == 0xf1 && TableEntry(0x5a) == 0xfc && TableEntry(0x5b) == 0x49
    ensures TableEntry(0x5c) == 0x47 && TableEntry(0x5d) == 0x06 && TableEntry(0x5e) == 0x3e && TableEntry(0x5f) == 0xb1
  {
  }

  lemma TableFrom60()
    ensures TableEntry(0x60) == 0x0e && TableEntry(0x61) == 0x04 && TableEntry(0x62) == 0x3a && TableEntry(0x63) == 0x94
    ensures TableEntry(0x64) == 0x5e && TableEntry(0x65) == 0xee && TableEntry(0x66) == 0x54 && TableEntry(0x67) == 0x11
    ensures TableEntry(0x68) == 0x34 && TableEntry(0x69) == 0xdd && TableEntry(0x6a) == 0x4d && TableEntry(0x6b) == 0xf9
    ensures TableEntry(0x6c) == 0xec && TableEntry(0x6d) == 0xc7 && TableEntry(0x6e) == 0xc9 && TableEntry(0x6f) == 0xe3
    ensures TableEntry(0x70) == 0x78 && TableEntry(0x71) == 0x1a && TableEntry(0x72) == 0x6f && TableEntry(0x73) == 0x70
    ensures TableEntry(0x74) == 0x6b && TableEntry(0x75) == 0xa4 && TableEntry(0x76) == 0xbd && TableEntry(0x77) == 0xa9
    ensures TableEntry(0x78) == 0x5d && TableEntry(0x79) == 0xd5 && TableEntry(0x7a) == 0xf8 && TableEntry(0x7b) == 0xe5
    ensures TableEntry(0x7c) == 0xbb && TableEntry(0x7d) == 0x26 && TableEntry(0x7e) == 0xaf && TableEntry(0x7f) == 0x42
  {
  }

  lemma TableFrom80()
    ensures TableEntry(0x80) == 0x37 && TableEntry(0x81) == 0xd8 && TableEntry(0x82) == 0xe1 && TableEntry(0x83) == 0x02
    ensures TableEntry(0x84) == 0x0a && TableEntry(0x85) == 0xae && TableEntry(0x86) == 0x5f && TableEntry(0x87) == 0x1c
    ensures TableEntry(0x88) == 0xc5 && TableEntry(0x89) == 0x73 && TableEntry(0x8a) == 0x09 && TableEntry(0x8b) == 0x4e
    ensures TableEntry(0x8c) == 0x69 && TableEntry(0x8d) == 0x24 && TableEntry(0x8e) == 0x90 && TableEntry(0x8f) == 0x6d
    ensures TableEntry(0x90) == 0x12 && TableEntry(0x91) == 0xb3 && TableEntry(0x92) == 0x19 && TableEntry(0x93) == 0xad
    ensures TableEntry(0x94) == 0x74 && TableEntry(0x95) == 0x8a && TableEntry(0x96) == 0x29 && TableEntry(0x97) == 0x40
    ensures TableEntry(0x98) == 0xf5 && TableEntry(0x99) == 0x2d && TableEntry(0x9a) == 0xbe && TableEntry(0x9b) == 0xa5
    ensures TableEntry(0x9c) == 0x59 && TableEntry(0x9d) == 0xe0 && TableEntry(0x9e) == 0xf4 && TableEntry(0x9f) == 0x79
  {
  }

  lemma TableFromA0()
    ensures TableEntry(0xa0) == 0xd2 && TableEntry(0xa1) == 0x4b && TableEntry(0xa2) == 0xce && TableEntry(0xa3) == 0x89
    ensures TableEntry(0xa4) == 0x82 && TableEntry(0xa5) == 0x48 && TableEntry(0xa6) == 0x84 && TableEntry(0xa7) == 0x25
    ensures TableEntry(0xa8) == 0xc6 && TableEntry(0xa9) == 0x91 && TableEntry(0xaa) == 0x2b && TableEntry(0xab) == 0xa2
    ensures TableEntry(0xac) == 0xfb && TableEntry(0xad) == 0x8f && TableEntry(0xae) == 0xe9 && TableEntry(0xaf) == 0xa6
    ensures TableEntry(0xb0) == 0xb0 && TableEntry(0xb1) == 0x9e && TableEntry(0xb2) == 0x3f && TableEntry(0xb3) == 0x65
    ensures TableEntry(0xb4) == 0xf6 && TableEntry(0xb5) == 0x03 && TableEntry(0xb6) == 0x31 && TableEntry(0xb7) == 0x2e
    ensures TableEntry(0xb8) == 0xac && TableEntry(0xb9) == 0x0f && TableEntry(0xba) == 0x95 && TableEntry(0xbb) == 0x2c
    ensures TableEntry(0xbc) == 0x5c && TableEntry(0xbd) == 0xed && TableEntry(0xbe) == 0x39 && TableEntry(0xbf) == 0xb7
  {
  }

  lemma TableFromC0()
    ensures TableEntry(0xc0) == 0x33 && TableEntry(0xc1) == 0x6c && TableEntry(0xc2) == 0x56 && TableEntry(0xc3) == 0x7e
    ensures TableEntry(0xc4) == 0xb4 && TableEntry(0xc5) == 0xa0 && TableEntry(0xc6) == 0xfd && TableEntry(0xc7) == 0x7a
    ensures TableEntry(0xc8) == 0x81 && TableEntry(0xc9) == 0x53 && TableEntry(0xca) == 0x51 && TableEntry(0xcb) == 0x86
    ensures TableEntry(0xcc) == 0x8d && TableEntry(0xcd) == 0x9f && TableEntry(0xce) == 0x77 && TableEntry(0xcf) == 0xff
    ensures TableEntry(0xd0) == 0x6a && TableEntry(0xd1) == 0x80 && TableEntry(0xd2) == 0xdf && TableEntry(0xd3) == 0xe2
    ensures TableEntry(0xd4) == 0xbf && TableEntry(0xd5) == 0x10 && TableEntry(0xd6) == 0xd7 && TableEntry(0xd7) == 0x75
    ensures TableEntry(0xd8) == 0x64 && TableEntry(0xd9) == 0x57 && TableEntry(0xda) == 0x76 && TableEntry(0xdb) == 0xf3
    ensures TableEntry(0xdc) == 0x55 && TableEntry(0xdd) == 0xcd && TableEntry(0xde) == 0xd0 && TableEntry(0xdf) == 0xc8
  {
  }

  lemma TableFromE0()
    ensures TableEntry(0xe0) == 0x18 && TableEntry(0xe1) == 0xe6 && TableEntry(0xe2) == 0x36 && TableEntry(0xe3) == 0x41
    ensures TableEntry(0xe4) == 0x62 && TableEntry(0xe5) == 0xcf && TableEntry(0xe6) == 0x99 && TableEntry(0xe7) == 0xf2
    ensures TableEntry(0xe8) == 0x32 && TableEntry(0xe9) == 0x4c && TableEntry(0xea) == 0x67 && TableEntry(0xeb) == 0x60
    ensures TableEntry(0xec) == 0x61 && TableEntry(0xed) == 0x92 && TableEntry(0xee) == 0xca && TableEntry(0xef) == 0xd3
    ensures TableEntry(0xf0) == 0xea && TableEntry(0xf1) == 0x63 && TableEntry(0xf2) == 0x7d && TableEntry(0xf3) == 0x16
    ensures TableEntry(0xf4) == 0xb6 && TableEntry(0xf5) == 0x8e && TableEntry(0xf6) == 0xd4 && TableEntry(0xf7) == 0x68
    ensures TableEntry(0xf8) == 0x35 && TableEntry(0xf9) == 0xc3 && TableEntry(0xfa) == 0x52 && TableEntry(0xfb) == 0x9d
    ensures TableEntry(0xfc) == 0x46 && TableEntry(0xfd) == 0x44 && TableEntry(0xfe) == 0x1e && TableEntry(0xff) == 0x17
  {
  }

  /** What a byte is combined with when `prev` is the ciphertext byte before it. */
  function Pad(key: Key, prev: Byte): Byte {
    TableEntry((key[prev % 4] + prev) % 0x100)
  }

  /** The ciphertext byte in front of position i; there is a zero in front of the first. */
  function Before(cipher: Bytes, i: nat): Byte
    requires i <= |cipher|
  {
    if i == 0 then 0 else cipher[i - 1]
  }

  /** Two byte strings are the plain and the enciphered form of the same message. */
  predicate Enciphers(key: Key, plain: Bytes, cipher: Bytes) {
    |plain| == |cipher| && forall i :: 0 <= i < |plain| ==> cipher[i] == Xor(plain[i], Pad(key, Before(cipher, i)))
  }

  function Encrypted(key: Key, plain: Bytes): (cipher: Bytes)
    ensures |cipher| == |plain|
  {
    if plain == [] then []
    else
      var n := |plain| - 1;
      var c := Encrypted(key, plain[..n]);
      c + [Xor(plain[n], Pad(key, Before(c, n)))]
  }

  function Decrypted(key: Key, cipher: Bytes): (plain: Bytes)
    ensures |plain| == |cipher|
    ensures forall i :: 0 <= i < |plain| ==> plain[i] == Xor(cipher[i], Pad(key, Before(cipher, i)))
  {
    seq(|cipher|, i requires 0 <= i < |cipher| => Xor(cipher[i], Pad(key, Before(cipher, i))))
  }

  lemma {:induction false} EncryptedEnciphers(key: Key, plain: Bytes)
    ensures Enciphers(key, plain, Encrypted(key, plain))
  {
    hide Xor, Pad;
    if plain != [] {
      var n := |plain| - 1;
      EncryptedEnciphers(key, plain[..n]);
      assert Encrypted(key, plain)[..n] == Encrypted(key, plain[..n]);
    }
  }

  /** Each side of the relation determines the other. */
  lemma EnciphersUnique(key: Key, plain: Bytes, cipher: Bytes)
    requires Enciphers(key, plain, cipher)
    ensures cipher == Encrypted(key, plain)
    ensures plain == Decrypted(key, cipher)
  {
    EncryptedUnique(key, plain, cipher);
    forall i | 0 <= i < |plain| ensures plain[i] == Decrypted(key, cipher)[i] {
      XorTwice(plain[i], Pad(key, Before(cipher, i)));
    }
  }

  lemma {:induction false} EncryptedUnique(key: Key, plain: Bytes, cipher: Bytes)
    requires Enciphers(key, plain, cipher)
    ensures cipher == Encrypted(key, plain)
  {
    hide Pad, Xor;
    if plain != [] {
      var n := |plain| - 1;
      EncryptedUnique(key, plain[..n], cipher[..n]);
      assert cipher == cipher[..n] + [cipher[n]];
    }
  }

  lemma DecryptUndoesEncrypt(key: Key, plain: Bytes)
    ensures Decrypted(key, Encrypted(key, plain)) == plain
  {
    EncryptedEnciphers(key, plain);
    EnciphersUnique(key, plain, Encrypted(key, plain));
  }

  lemma EncryptUndoesDecrypt(key: Key, cipher: Bytes)
    ensures Encrypted(key, Decrypted(key, cipher)) == cipher
  {
    forall i | 0 <= i < |cipher| ensures cipher[i] == Xor(Decrypted(key, cipher)[i], Pad(key, Before(cipher, i))) {
      XorTwice(cipher[i], Pad(key, Before(cipher, i)));
    }
    EnciphersUnique(key, Decrypted(key, cipher), cipher);
  }

  /** The plaintext from a position on depends on the ciphertext from one byte earlier only. */
  lemma DecryptIsLocal(key: Key, c: Bytes, d: Bytes, from: nat)
    requires |c| == |d| && from <= |c|
    requires forall i :: 0 <= i < |c| && from <= i + 1 ==> c[i] == d[i]
    ensures Decrypted(key, c)[from..] == Decrypted(key, d)[from..]
  {
    var p, q := Decrypted(key, c), Decrypted(key, d);
    forall i | from <= i < |c| ensures p[i] == q[i] {
      assert Before(c, i) == Before(d, i);
    }
  }

  /** A byte corrupted on the way always corrupts its own plaintext byte, and at most the next. */
  lemma CorruptedByte(key: Key, c: Bytes, at: nat, b: Byte)
    requires at < |c| && b != c[at]
    ensures var p, q := Decrypted(key, c), Decrypted(key, c[at := b]);
            && p[at] != q[at]
            && forall i :: 0 <= i < |c| && i != at && i != at + 1 ==> p[i] == q[i]
  {
    var d := c[at := b];
    assert Before(d, at) == Before(c, at);
    XorTwice(c[at], Pad(key, Before(c, at)));
    XorTwice(b, Pad(key, Before(c, at)));
    forall i | 0 <= i < |c| && i != at && i != at + 1 ensures Decrypted(key, c)[i] == Decrypted(key, d)[i] {
      assert Before(d, i) == Before(c, i) && d[i] == c[i];
    }
  }

  /** One more byte in either direction. */
  lemma EncryptStep(key: Key, plain: Bytes, i: nat)
    requires i < |plain|
    ensures var c := Encrypted(key, plain[..i]);
            Encrypted(key, plain[..i + 1]) == c + [Xor(plain[i], Pad(key, Before(c, i)))]
  {
    assert plain[..i + 1][..i] == plain[..i];
  }

  lemma DecryptStep(key: Key, cipher: Bytes, i: nat)
    requires i < |cipher|
    ensures var p := Decrypted(key, cipher);
            p[..i + 1] == p[..i] + [Xor(cipher[i], Pad(key, Before(cipher, i)))]
  {
    hide Xor, Pad, Decrypted;
    var p := Decrypted(key, cipher);
    assert p[..i + 1] == p[..i] + [p[i]];
  }

  lemma PadIsEntry(key: Key, prev: Byte)
    ensures Pad(key, prev) == TableEntry((key[prev % 4] + prev) % 0x100)
  {
  }

  // ----- the key of a pre-shared string

  /** One character of the string enters the key. */
  function KeyStep(key: Key, ch: Byte): Key {
    [(key[0] + ch) % 0x100, (key[1] - ch) % 0x100, (key[2] + ch / 3) % 0x100, Xor(key[3], ch)]
  }

  function KeyOf(psk: Bytes): Key {
    if psk == [] then [0, 0, 0, 0] else KeyStep(KeyOf(psk[..|psk| - 1]), psk[|psk| - 1])
  }

  function Sum(psk: Bytes): int {
    if psk == [] then 0 else Sum(psk[..|psk| - 1]) + psk[|psk| - 1]
  }

  function SumOfThirds(psk: Bytes): int {
    if psk == [] then 0 else SumOfThirds(psk[..|psk| - 1]) + psk[|psk| - 1] / 3
  }

  function XorAll(psk: Bytes): Byte {
    if psk == [] then 0 else Xor(XorAll(psk[..|psk| - 1]), psk[|psk| - 1])
  }

  lemma WrapStep(a: int, n: int)
    ensures (a % 0x100 + n) % 0x100 == (a + n) % 0x100
  {
    var q := a / 0x100;
    assert a % 0x100 + n == (a + n) - 0x100 * q;
  }

  lemma {:induction false} KeyClosedForm(psk: Bytes)
    ensures KeyOf(psk) == [Sum(psk) % 0x100, -Sum(psk) % 0x100, SumOfThirds(psk) % 0x100, XorAll(psk)]
    ensures (KeyOf(psk)[0] as int + KeyOf(psk)[1] as int) % 0x100 == 0
  {
    if psk != [] {
      var before: Bytes, ch: int := psk[..|psk| - 1], psk[|psk| - 1];
      KeyClosedForm(before);
      WrapStep(Sum(before), ch);
      WrapStep(-Sum(before), -ch);
      WrapStep(SumOfThirds(before), ch / 3);
    }
    WrapStep(Sum(psk), -Sum(psk) % 0x100);
    WrapStep(-Sum(psk), Sum(psk));
  }

  lemma AddSwap(a: int, m: int, n: int)
    ensures ((a + m) % 0x100 + n) % 0x100 == ((a + n) % 0x100 + m) % 0x100
  {
    WrapStep(a + m, n);
    WrapStep(a + n, m);
  }

  lemma KeyStepsSwap(key: Key, x: Byte, y: Byte)
    ensures KeyStep(KeyStep(key, x), y) == KeyStep(KeyStep(key, y), x)
  {
    AddSwap(key[0], x, y);
    AddSwap(key[1], -(x as int), -(y as int));
    AddSwap(key[2], x / 3, y / 3);
    XorSwap(key[3], x, y);
  }

  lemma KeySnoc(psk: Bytes, ch: Byte)
    ensures KeyOf(psk + [ch]) == KeyStep(KeyOf(psk), ch)
  {
    assert (psk + [ch])[..|psk|] == psk;
  }

  lemma {:induction false} KeyMovesToEnd(a: Bytes, x: Byte, b: Bytes)
    ensures KeyOf(a + [x] + b) == KeyStep(KeyOf(a + b), x)
    decreases |b|
  {
    hide KeyStep, KeyOf;
    if b == [] {
      assert a + [x] + b == a + [x] && a + b == a;
      KeySnoc(a, x);
    } else {
      var init, y := b[..|b| - 1], b[|b| - 1];
      assert a + [x] + b == (a + [x] + init) + [y] && a + b == (a + init) + [y];
      KeyMovesToEnd(a, x, init);
      KeySnoc(a + [x] + init, y);
      KeySnoc(a + init, y);
      KeyStepsSwap(KeyOf(a + init), x, y);
    }
  }

  /** The key does not depend on the order of the characters. */
  lemma {:induction false} KeyIgnoresOrder(p: Bytes, q: Bytes)
    requires multiset(p) == multiset(q)
    ensures KeyOf(p) == KeyOf(q)
    decreases |p|
  {
    if p == [] {
      assert |multiset(q)| == 0;
    } else {
      var init, x := p[..|p| - 1], p[|p| - 1];
      assert p == init + [x];
      assert x in p && x in multiset(p) && x in multiset(q);
      var i: nat :| i < |q| && q[i] == x;
      var a, b := q[..i], q[i + 1..];
      assert q == a + [x] + b;
      assert multiset(p) == multiset(init) + multiset{x};
      assert multiset(q) == multiset(a) + multiset{x} + multiset(b);
      assert multiset(init) == multiset(p) - multiset{x} && multiset(a) + multiset(b) == multiset(q) - multiset{x};
      assert multiset(a + b) == multiset(init);
      KeyIgnoresOrder(init, a + b);
      KeyMovesToEnd(a, x, b);
      KeySnoc(init, x);
    }
  }

  /** "camera" and "SHIX", the strings behind the constant keys of the Python and C sources. */
  const CAMERA: Bytes := [0x63, 0x61, 0x6d, 0x65, 0x72, 0x61]
  const SHIX: Bytes := [0x53, 0x48, 0x49, 0x58]

  const PYTHON_KEY: Key := [0x69, 0x97, 0xcc, 0x19]
  const C_KEY: Key := [0x3c, 0xc4, 0x68, 0x0a]

  lemma CameraKey()
    ensures KeyOf(CAMERA) == PYTHON_KEY
  {
    hide KeyOf, Bits;
    CameraBits1();
    CameraBits2();
    KeyOfNothing();
    KeySnoc([], 0x63);
    assert [] + [0x63] == [0x63];
    assert KeyOf([0x63]) == [0x63, 0x9d, 0x21, 0x63];
    KeySnoc([0x63], 0x61);
    assert [0x63] + [0x61] == [0x63, 0x61];
    assert KeyOf([0x63, 0x61]) == [0xc4, 0x3c, 0x41, 0x02];
    KeySnoc([0x63, 0x61], 0x6d);
    assert [0x63, 0x61] + [0x6d] == [0x63, 0x61, 0x6d];
    assert KeyOf([0x63, 0x61, 0x6d]) == [0x31, 0xcf, 0x65, 0x6f];
    KeySnoc([0x63, 0x61, 0x6d], 0x65);
    assert [0x63, 0x61, 0x6d] + [0x65] == [0x63, 0x61, 0x6d, 0x65];
    assert KeyOf([0x63, 0x61, 0x6d, 0x65]) == [0x96, 0x6a, 0x86, 0x0a];
    KeySnoc([0x63, 0x61, 0x6d, 0x65], 0x72);
    assert [0x63, 0x61, 0x6d, 0x65] + [0x72] == [0x63, 0x61, 0x6d, 0x65, 0x72];
    assert KeyOf([0x63, 0x61, 0x6d, 0x65, 0x72]) == [0x08, 0xf8, 0xac, 0x78];
    KeySnoc([0x63, 0x61, 0x6d, 0x65, 0x72], 0x61);
    assert [0x63, 0x61, 0x6d, 0x65, 0x72] + [0x61] == [0x63, 0x61, 0x6d, 0x65, 0x72, 0x61];
    assert KeyOf([0x63, 0x61, 0x6d, 0x65, 0x72, 0x61]) == [0x69, 0x97, 0xcc, 0x19];
  }

  lemma CameraBits1()
    ensures Bits(0x00, 0x63) == 0x63
    ensures Bits(0x63, 0x61) == 0x02
    ensures Bits(0x02, 0x6d) == 0x6f
  {
    hide Bits;
    BitsSelf(0);
    assert Bits(0x00, 0x63) == 0x63 by {
      OneBit(0x0, 0x1); OneBit(0x0, 0x3); OneBit(0x0, 0x6); OneBit(0x0, 0xc);
      OneBit(0x0, 0x18); OneBit(0x0, 0x31); OneBit(0x0, 0x63);
    }
    assert Bits(0x63, 0x61) == 0x02 by {
      OneBit(0x1, 0x1); OneBit(0x3, 0x3); OneBit(0x6, 0x6); OneBit(0xc, 0xc);
      OneBit(0x18, 0x18); OneBit(0x31, 0x30); OneBit(0x63, 0x61);
    }
    assert Bits(0x02, 0x6d) == 0x6f by {
      OneBit(0x0, 0x1); OneBit(0x0, 0x3); OneBit(0x0, 0x6); OneBit(0x0, 0xd);
      OneBit(0x0, 0x1b); OneBit(0x1, 0x36); OneBit(0x2, 0x6d);
    }
  }

  lemma CameraBits2()
    ensures Bits(0x6f, 0x65) == 0x0a
    ensures Bits(0x0a, 0x72) == 0x78
    ensures Bits(0x78, 0x61) == 0x19
  {
    hide Bits;
    BitsSelf(0);
    assert Bits(0x6f, 0x65) == 0x0a by {
      OneBit(0x1, 0x1); OneBit(0x3, 0x3); OneBit(0x6, 0x6); OneBit(0xd, 0xc);
      OneBit(0x1b, 0x19); OneBit(0x37, 0x32); OneBit(0x6f, 0x65);
    }
    assert Bits(0x0a, 0x72) == 0x78 by {
      OneBit(0x0, 0x1); OneBit(0x0, 0x3); OneBit(0x0, 0x7); OneBit(0x1, 0xe);
      OneBit(0x2, 0x1c); OneBit(0x5, 0x39); OneBit(0xa, 0x72);
    }
    assert Bits(0x78, 0x61) == 0x19 by {
      OneBit(0x1, 0x1); OneBit(0x3, 0x3); OneBit(0x7, 0x6); OneBit(0xf, 0xc);
      OneBit(0x1e, 0x18); OneBit(0x3c, 0x30); OneBit(0x78, 0x61);
    }
  }

  lemma ShixKey()
    ensures KeyOf(SHIX) == C_KEY
  {
    hide KeyOf, Bits;
    ShixBits1();
    ShixBits2();
    KeyOfNothing();
    KeySnoc([], 0x53);
    assert [] + [0x53] == [0x53];
    assert KeyOf([0x53]) == [0x53, 0xad, 0x1b, 0x53];
    KeySnoc([0x53], 0x48);
    assert [0x53] + [0x48] == [0x53, 0x48];
    assert KeyOf([0x53, 0x48]) == [0x9b, 0x65, 0x33, 0x1b];
    KeySnoc([0x53, 0x48], 0x49);
    assert [0x53, 0x48] + [0x49] == [0x53, 0x48, 0x49];
    assert KeyOf([0x53, 0x48, 0x49]) == [0xe4, 0x1c, 0x4b, 0x52];
    KeySnoc([0x53, 0x48, 0x49], 0x58);
    assert [0x53, 0x48, 0x49] + [0x58] == [0x53, 0x48, 0x49, 0x58];
    assert KeyOf([0x53, 0x48, 0x49, 0x58]) == [0x3c, 0xc4, 0x68, 0x0a];
  }

  lemma ShixBits1()
    ensures Bits(0x00, 0x53) == 0x53
    ensures Bits(0x53, 0x48) == 0x1b
  {
    hide Bits;
    BitsSelf(0);
    assert Bits(0x00, 0x53) == 0x53 by {
      OneBit(0x0, 0x1); OneBit(0x0, 0x2); OneBit(0x0, 0x5); OneBit(0x0, 0xa);
      OneBit(0x0, 0x14); OneBit(0x0, 0x29); OneBit(0x0, 0x53);
    }
    assert Bits(0x53, 0x48) == 0x1b by {
      OneBit(0x1, 0x1); OneBit(0x2, 0x2); OneBit(0x5, 0x4); OneBit(0xa, 0x9);
      OneBit(0x14, 0x12); OneBit(0x29, 0x24); OneBit(0x53, 0x48);
    }
  }

  lemma ShixBits2()
    ensures Bits(0x1b, 0x49) == 0x52
    ensures Bits(0x52, 0x58) == 0x0a
  {
    hide Bits;
    BitsSelf(0);
    assert Bits(0x1b, 0x49) == 0x52 by {
      OneBit(0x0, 0x1); OneBit(0x0, 0x2); OneBit(0x1, 0x4); OneBit(0x3, 0x9);
      OneBit(0x6, 0x12); OneBit(0xd, 0x24); OneBit(0x1b, 0x49);
    }
    assert Bits(0x52, 0x58) == 0x0a by {
      OneBit(0x1, 0x1); OneBit(0x2, 0x2); OneBit(0x5, 0x5); OneBit(0xa, 0xb);
      OneBit(0x14, 0x16); OneBit(0x29, 0x2c); OneBit(0x52, 0x58);
    }
  }

  lemma KeyOfNothing()
    ensures KeyOf([]) == [0, 0, 0, 0]
  {
  }

  /** The bytes 0xf1, 0x30, 0x00, 0x00 under the key of "camera". */
  lemma CameraAnswer()
    ensures Encrypted(PYTHON_KEY, [0xf1, 0x30, 0x00, 0x00]) == [0x2c, 0xba, 0x5f, 0x5d]
  {
    hide Bits, Encrypted, TableEntry;
    CameraAnswerBits1();
    CameraAnswerBits2();
    TableFrom60();
    TableFrom80();
    var plain: Bytes := [0xf1, 0x30, 0x00, 0x00];
    assert plain[..0] == [] && plain[..1] == [0xf1] && plain[..2] == [0xf1, 0x30] && plain[..3] == [0xf1, 0x30, 0];
    assert plain[..4] == plain;
    NothingEncrypted(PYTHON_KEY);
    EncryptStep(PYTHON_KEY, plain, 0);
    assert Encrypted(PYTHON_KEY, plain[..1]) == [0x2c];
    EncryptStep(PYTHON_KEY, plain, 1);
    assert Encrypted(PYTHON_KEY, plain[..2]) == [0x2c, 0xba];
    EncryptStep(PYTHON_KEY, plain, 2);
    assert Encrypted(PYTHON_KEY, plain[..3]) == [0x2c, 0xba, 0x5f];
    EncryptStep(PYTHON_KEY, plain, 3);
    assert Encrypted(PYTHON_KEY, plain[..4]) == [0x2c, 0xba, 0x5f, 0x5d];
  }

  lemma CameraAnswerBits1()
    ensures Bits(0xf1, 0xdd) == 0x2c
    ensures Bits(0x30, 0x8a) == 0xba
  {
    hide Bits;
    BitsSelf(0);
    assert Bits(0xf1, 0xdd) == 0x2c by {
      OneBit(0x1, 0x1); OneBit(0x3, 0x3); OneBit(0x7, 0x6); OneBit(0xf, 0xd);
      OneBit(0x1e, 0x1b); OneBit(0x3c, 0x37); OneBit(0x78, 0x6e); OneBit(0xf1, 0xdd);
    }
    assert Bits(0x30, 0x8a) == 0xba by {
      OneBit(0x0, 0x1); OneBit(0x0, 0x2); OneBit(0x1, 0x4); OneBit(0x3, 0x8);
      OneBit(0x6, 0x11); OneBit(0xc, 0x22); OneBit(0x18, 0x45); OneBit(0x30, 0x8a);
    }
  }

  lemma CameraAnswerBits2()
    ensures Bits(0x00, 0x5f) == 0x5f
    ensures Bits(0x00, 0x5d) == 0x5d
  {
    hide Bits;
    BitsSelf(0);
    assert Bits(0x00, 0x5f) == 0x5f by {
      OneBit(0x0, 0x1); OneBit(0x0, 0x2); OneBit(0x0, 0x5); OneBit(0x0, 0xb);
      OneBit(0x0, 0x17); OneBit(0x0, 0x2f); OneBit(0x0, 0x5f);
    }
    assert Bits(0x00, 0x5d) == 0x5d by {
      OneBit(0x0, 0x1); OneBit(0x0, 0x2); OneBit(0x0, 0x5); OneBit(0x0, 0xb);
      OneBit(0x0, 0x17); OneBit(0x0, 0x2e); OneBit(0x0, 0x5d);
    }
  }

  /** The bytes 0xf1, 0x30, 0x00, 0x00 under the key of "SHIX". */
  lemma ShixAnswer()
    ensures Encrypted(C_KEY, [0xf1, 0x30, 0x00, 0x00]) == [0x9f, 0xa1, 0xee, 0xb9]
  {
    hide Bits, Encrypted, TableEntry;
    ShixAnswerBits1();
    ShixAnswerBits2();
    TableFrom20();
    TableFrom40();
    TableFrom60();
    TableFromA0();
    var plain: Bytes := [0xf1, 0x30, 0x00, 0x00];
    assert plain[..0] == [] && plain[..1] == [0xf1] && plain[..2] == [0xf1, 0x30] && plain[..3] == [0xf1, 0x30, 0];
    assert plain[..4] == plain;
    NothingEncrypted(C_KEY);
    EncryptStep(C_KEY, plain, 0);
    assert Encrypted(C_KEY, plain[..1]) == [0x9f];
    EncryptStep(C_KEY, plain, 1);
    assert Encrypted(C_KEY, plain[..2]) == [0x9f, 0xa1];
    EncryptStep(C_KEY, plain, 2);
    assert Encrypted(C_KEY, plain[..3]) == [0x9f, 0xa1, 0xee];
    EncryptStep(C_KEY, plain, 3);
    assert Encrypted(C_KEY, plain[..4]) == [0x9f, 0xa1, 0xee, 0xb9];
  }

  lemma ShixAnswerBits1()
    ensures Bits(0xf1, 0x6e) == 0x9f
    ensures Bits(0x30, 0x91) == 0xa1
  {
    hide Bits;
    BitsSelf(0);
    assert Bits(0xf1, 0x6e) == 0x9f by {
      OneBit(0x1, 0x0); OneBit(0x3, 0x1); OneBit(0x7, 0x3); OneBit(0xf, 0x6);
      OneBit(0x1e, 0xd); OneBit(0x3c, 0x1b); OneBit(0x78, 0x37); OneBit(0xf1, 0x6e);
    }
    assert Bits(0x30, 0x91) == 0xa1 by {
      OneBit(0x0, 0x1); OneBit(0x0, 0x2); OneBit(0x1, 0x4); OneBit(0x3, 0x9);
      OneBit(0x6, 0x12); OneBit(0xc, 0x24); OneBit(0x18, 0x48); OneBit(0x30, 0x91);
    }
  }

  lemma ShixAnswerBits2()
    ensures Bits(0x00, 0xee) == 0xee
    ensures Bits(0x00, 0xb9) == 0xb9
  {
    hide Bits;
    BitsSelf(0);
    assert Bits(0x00, 0xee) == 0xee by {
      OneBit(0x0, 0x1); OneBit(0x0, 0x3); OneBit(0x0, 0x7); OneBit(0x0, 0xe);
      OneBit(0x0, 0x1d); OneBit(0x0, 0x3b); OneBit(0x0, 0x77); OneBit(0x0, 0xee);
    }
    assert Bits(0x00, 0xb9) == 0xb9 by {
      OneBit(0x0, 0x1); OneBit(0x0, 0x2); OneBit(0x0, 0x5); OneBit(0x0, 0xb);
      OneBit(0x0, 0x17); OneBit(0x0, 0x2e); OneBit(0x0, 0x5c); OneBit(0x0, 0xb9);
    }
  }

  lemma NothingEncrypted(key: Key)
    ensures Encrypted(key, []) == []
  {
  }
}
