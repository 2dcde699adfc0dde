/** Bytes, 16-bit packet indices and the fixed-width integers that the packet headers carry. */
module Bytes {

  type Byte = x: int | 0 <= x < 0x100

  type Bytes = seq<Byte>

  /** A packet index as it travels on the wire: 16 bits, wrapping. */
  type Index = x: int | 0 <= x < 0x1_0000

  /** An unsigned 32-bit number. */
  type Word = x: int | 0 <= x < 0x1_0000_0000

  datatype Option<+T> = None | Some(value: T)

  /** An optional item as a list of at most one item. */
  function Listed<T>(o: Option<T>): seq<T> {
    match o
    case None => []
    case Some(x) => [x]
  }

  /** Little-endian 32-bit value of four bytes. */
  function Le32(b: Bytes): (n: nat)
    requires |b| == 4
    ensures n < 0x1_0000_0000
  {
    (b[0] as int) + 0x100 * (b[1] as int) + 0x1_0000 * (b[2] as int) + 0x100_0000 * (b[3] as int)
  }

  function PutLe32(n: nat): (b: Bytes)
    requires n < 0x1_0000_0000
    ensures |b| == 4
  {
    [n % 0x100, n / 0x100 % 0x100, n / 0x1_0000 % 0x100, n / 0x100_0000]
  }

  lemma Le32RoundTrip(n: nat)
    requires n < 0x1_0000_0000
    ensures Le32(PutLe32(n)) == n
  {
    var a, b, c := n / 0x100, n / 0x1_0000, n / 0x100_0000;
    assert n == 0x100 * a + n % 0x100;
    assert a / 0x100 == b && b / 0x100 == c;
    assert a == 0x100 * b + a % 0x100 && b == 0x100 * c + b % 0x100;
  }

  /** Big-endian and little-endian 16-bit values. */
  function Be16(b: Bytes): Index
    requires |b| == 2
  {
    0x100 * (b[0] as int) + (b[1] as int)
  }

  function PutBe16(n: Index): (b: Bytes)
    ensures |b| == 2 && Be16(b) == n
  {
    [n / 0x100, n % 0x100]
  }

  lemma PutBe16RoundTrip(b: Bytes)
    requires |b| == 2
    ensures PutBe16(Be16(b)) == b
  {
  }

  function Le16(b: Bytes): Index
    requires |b| == 2
  {
    (b[0] as int) + 0x100 * (b[1] as int)
  }

  function PutLe16(n: Index): (b: Bytes)
    ensures |b| == 2 && Le16(b) == n
  {
    [n % 0x100, n / 0x100]
  }

  lemma PutLe16RoundTrip(b: Bytes)
    requires |b| == 2
    ensures PutLe16(Le16(b)) == b
  {
  }

  /** Which byte comes first. */
  lemma ByteOrders()
    ensures Le32([1, 2, 3, 4]) == 0x04030201 && PutLe32(0x04030201) == [1, 2, 3, 4]
    ensures Le16([1, 2]) == 0x0201 && PutLe16(0x0201) == [1, 2]
    ensures Be16([1, 2]) == 0x0102 && PutBe16(0x0102) == [1, 2]
  {
  }

  /** Wrapping before an addition changes nothing after it. */
  lemma WrapAdd(a: int, n: int)
    ensures (a % 0x1_0000 + n) % 0x1_0000 == (a + n) % 0x1_0000
  {
    var q := a / 0x1_0000;
    assert a % 0x1_0000 + n == (a + n) - 0x1_0000 * q;
  }

  lemma WrapMultiple(a: int, k: int)
    ensures (a + 0x1_0000 * k) % 0x1_0000 == a % 0x1_0000
  {
    var r := a / 0x1_0000;
    assert a + 0x1_0000 * k == 0x1_0000 * (r + k) + a % 0x1_0000;
  }

  /** Concatenation of a list of byte strings. */
  function Flatten(parts: seq<Bytes>): Bytes {
    if parts == [] then [] else parts[0] + Flatten(parts[1..])
  }

  lemma {:induction false} FlattenAppend(a: seq<Bytes>, b: seq<Bytes>)
    ensures Flatten(a + b) == Flatten(a) + Flatten(b)
  {
    if a == [] {
      assert a + b == b;
    } else {
      assert (a + b)[0] == a[0] && (a + b)[1..] == a[1..] + b;
      FlattenAppend(a[1..], b);
      assert a[0] + (Flatten(a[1..]) + Flatten(b)) == (a[0] + Flatten(a[1..])) + Flatten(b);
    }
  }

  lemma FlattenOne(part: Bytes)
    ensures Flatten([part]) == part
  {
    var parts: seq<Bytes> := [part];
    assert parts[1..] == [];
    assert part + [] == part;
  }

  predicate Increasing(s: seq<nat>) {
    forall i, j :: 0 <= i < j < |s| ==> s[i] < s[j]
  }
}
