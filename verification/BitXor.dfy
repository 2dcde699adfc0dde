/** Bitwise exclusive or on natural numbers. */
module BitXor {
  import opened Bytes

  /** Bit by bit, lowest first. */
  function Bits(a: nat, b: nat): nat
    decreases a + b
  {
    if a == 0 && b == 0 then 0 else (a + b) % 2 + 2 * Bits(a / 2, b / 2)
  }

  predicate PowerOfTwo(p: nat) {
    p == 1 || (p > 1 && p % 2 == 0 && PowerOfTwo(p / 2))
  }

  lemma {:induction false} BitsBelow(a: nat, b: nat, p: nat)
    requires PowerOfTwo(p) && a < p && b < p
    ensures Bits(a, b) < p
  {
    if a != 0 || b != 0 {
      BitsBelow(a / 2, b / 2, p / 2);
    }
  }

  lemma BytesBelow()
    ensures PowerOfTwo(0x100)
  {
    assert PowerOfTwo(0x10) by {
      assert PowerOfTwo(2) && PowerOfTwo(4) && PowerOfTwo(8);
    }
    assert PowerOfTwo(0x20) && PowerOfTwo(0x40) && PowerOfTwo(0x80);
  }

  lemma {:induction false} BitsAssociate(a: nat, b: nat, c: nat)
    ensures Bits(Bits(a, b), c) == Bits(a, Bits(b, c))
    decreases a + b + c
  {
    if a != 0 || b != 0 || c != 0 {
      hide Bits;
      BitsAssociate(a / 2, b / 2, c / 2);
      Halves(a, b);
      Halves(b, c);
      var x, y := Bits(Bits(a, b), c), Bits(a, Bits(b, c));
      Halves(Bits(a, b), c);
      Halves(a, Bits(b, c));
      assert x % 2 == y % 2 by {
        ParityOfSum(Bits(a, b), a + b, c);
        ParityOfSum(Bits(b, c), b + c, a);
      }
      assert x == 2 * (x / 2) + x % 2 && y == 2 * (y / 2) + y % 2;
    }
  }

  lemma ParityOfSum(m: nat, n: nat, c: nat)
    requires m % 2 == n % 2
    ensures (m + c) % 2 == (n + c) % 2
  {
  }

  lemma Halves(a: nat, b: nat)
    ensures Bits(a, b) / 2 == Bits(a / 2, b / 2) && Bits(a, b) % 2 == (a + b) % 2
  {
  }

  lemma {:induction false} BitsSymmetric(a: nat, b: nat)
    ensures Bits(a, b) == Bits(b, a)
    decreases a + b
  {
    if a != 0 || b != 0 {
      BitsSymmetric(a / 2, b / 2);
    }
  }

  lemma {:induction false} BitsSelf(a: nat)
    ensures Bits(a, a) == 0 && Bits(a, 0) == a
  {
    if a != 0 {
      BitsSelf(a / 2);
    }
  }

  lemma OneBit(a: nat, b: nat)
    ensures Bits(a, b) == (a + b) % 2 + 2 * Bits(a / 2, b / 2)
  {
  }

  function Xor(a: Byte, b: Byte): Byte {
    BytesBelow();
    BitsBelow(a, b, 0x100);
    Bits(a, b)
  }

  /** The same byte applied twice cancels. */
  lemma XorTwice(a: Byte, b: Byte)
    ensures Xor(Xor(a, b), b) == a
  {
    BitsAssociate(a, b, b);
    BitsSelf(a);
    BitsSelf(b);
  }

  /** The order in which two bytes are applied does not matter. */
  lemma XorSwap(a: Byte, b: Byte, c: Byte)
    ensures Xor(Xor(a, b), c) == Xor(Xor(a, c), b)
  {
    BitsAssociate(a, b, c);
    BitsAssociate(a, c, b);
    BitsSymmetric(b, c);
  }
}
