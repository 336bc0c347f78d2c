/** Non-negative integers read as little-endian bit strings.

    These are the integer operations the field code applies to Python ints:
    `a ^ b`, the bit tests `b & 1` and `a & (1 << m)`, `a <<= 1` (doubling)
    and `b >>= 1` (halving).  Python ints are unbounded, and so are these.
 */
module Bits {

  /** 2^k, the value of `1 << k`. */
  function Pow2(k: nat): (r: nat)
    ensures r >= 1
  {
    if k == 0 then 1 else 2 * Pow2(k - 1)
  }

  /** Bit k of a, the value of `(a >> k) & 1`. */
  function Bit(a: nat, k: nat): nat
  {
    if k == 0 then a % 2 else Bit(a / 2, k - 1)
  }

  lemma {:induction false} BitIsBinary(a: nat, k: nat)
    ensures Bit(a, k) < 2
  {
    if k > 0 {
      BitIsBinary(a / 2, k - 1);
    }
  }

  lemma {:induction false} ZeroBit(k: nat)
    ensures Bit(0, k) == 0
  {
    if k > 0 {
      ZeroBit(k - 1);
    }
  }

  /** Bitwise exclusive-or, `a ^ b`, computed bit by bit from the low end. */
  function Xor(a: nat, b: nat): nat
    decreases a + b
  {
    if a == 0 && b == 0 then 0 else 2 * Xor(a / 2, b / 2) + (a % 2 + b % 2) % 2
  }

  /** Bit k of `a ^ b` is the sum of the operands' bits k modulo 2. */
  lemma {:induction false} XorBit(a: nat, b: nat, k: nat)
    ensures Bit(Xor(a, b), k) == (Bit(a, k) + Bit(b, k)) % 2
    decreases k
  {
    if a == 0 && b == 0 {
      ZeroBit(k);
    } else if k > 0 {
      XorBit(a / 2, b / 2, k - 1);
    }
  }

  lemma XorBits(a: nat, b: nat)
    ensures forall k: nat :: Bit(Xor(a, b), k) == (Bit(a, k) + Bit(b, k)) % 2
  {
    forall k: nat ensures Bit(Xor(a, b), k) == (Bit(a, k) + Bit(b, k)) % 2 {
      XorBit(a, b, k);
    }
  }

  /** Two numbers with the same bits are equal. */
  lemma {:induction false} BitsDetermine(a: nat, b: nat)
    requires forall k: nat :: Bit(a, k) == Bit(b, k)
    ensures a == b
    decreases a + b
  {
    if a != b {
      assert a % 2 == b % 2 by {
        assert Bit(a, 0) == Bit(b, 0);
      }
      forall k: nat ensures Bit(a / 2, k) == Bit(b / 2, k) {
        assert Bit(a, k + 1) == Bit(b, k + 1);
      }
      BitsDetermine(a / 2, b / 2);
    }
  }

  /** The recursive step of Xor holds for every pair, including (0, 0). */
  lemma XorHalves(a: nat, b: nat)
    ensures Xor(a, b) == 2 * Xor(a / 2, b / 2) + (a % 2 + b % 2) % 2
  {
  }

  lemma XorZero(a: nat)
    ensures Xor(a, 0) == a && Xor(0, a) == a
  {
    forall k: nat ensures Bit(Xor(a, 0), k) == Bit(a, k) && Bit(Xor(0, a), k) == Bit(a, k) {
      XorBit(a, 0, k);
      XorBit(0, a, k);
      ZeroBit(k);
      BitIsBinary(a, k);
    }
    BitsDetermine(Xor(a, 0), a);
    BitsDetermine(Xor(0, a), a);
  }

  lemma XorSelf(a: nat)
    ensures Xor(a, a) == 0
  {
    forall k: nat ensures Bit(Xor(a, a), k) == Bit(0, k) {
      XorBit(a, a, k);
      ZeroBit(k);
      BitIsBinary(a, k);
    }
    BitsDetermine(Xor(a, a), 0);
  }

  lemma XorCommutes(a: nat, b: nat)
    ensures Xor(a, b) == Xor(b, a)
  {
    forall k: nat ensures Bit(Xor(a, b), k) == Bit(Xor(b, a), k) {
      XorBit(a, b, k);
      XorBit(b, a, k);
    }
    BitsDetermine(Xor(a, b), Xor(b, a));
  }

  lemma XorAssociates(a: nat, b: nat, c: nat)
    ensures Xor(Xor(a, b), c) == Xor(a, Xor(b, c))
  {
    forall k: nat ensures Bit(Xor(Xor(a, b), c), k) == Bit(Xor(a, Xor(b, c)), k) {
      XorAssociatesAtBit(a, b, c, k);
    }
    BitsDetermine(Xor(Xor(a, b), c), Xor(a, Xor(b, c)));
  }

  lemma XorAssociatesAtBit(a: nat, b: nat, c: nat, k: nat)
    ensures Bit(Xor(Xor(a, b), c), k) == Bit(Xor(a, Xor(b, c)), k)
  {
    var ab, bc := Xor(a, b), Xor(b, c);
    var x, y, z := Bit(a, k), Bit(b, k), Bit(c, k);
    assert Bit(ab, k) == (x + y) % 2 by { XorBit(a, b, k); }
    assert Bit(bc, k) == (y + z) % 2 by { XorBit(b, c, k); }
    assert Bit(Xor(ab, c), k) == (Bit(ab, k) + z) % 2 by { XorBit(ab, c, k); }
    assert Bit(Xor(a, bc), k) == (x + Bit(bc, k)) % 2 by { XorBit(a, bc, k); }
    ParityAssociates(x, y, z);
  }

  lemma ParityAssociates(x: nat, y: nat, z: nat)
    ensures ((x + y) % 2 + z) % 2 == (x + (y + z) % 2) % 2
  {
    assert ((x + y) % 2 + z) % 2 == (x + y + z) % 2;
    assert (x + (y + z) % 2) % 2 == (x + y + z) % 2;
  }

  /** Swapping the middle operands of a four-way exclusive-or. */
  lemma XorSwapMiddle(a: nat, b: nat, c: nat, d: nat)
    ensures Xor(Xor(a, b), Xor(c, d)) == Xor(Xor(a, c), Xor(b, d))
  {
    calc {
      Xor(Xor(a, b), Xor(c, d));
      { XorAssociates(a, b, Xor(c, d)); }
      Xor(a, Xor(b, Xor(c, d)));
      { XorAssociates(b, c, d); XorCommutes(b, c); XorAssociates(c, b, d); }
      Xor(a, Xor(c, Xor(b, d)));
      { XorAssociates(a, c, Xor(b, d)); }
      Xor(Xor(a, c), Xor(b, d));
    }
  }

  /** k-bit numbers are closed under exclusive-or. */
  lemma {:induction false} XorBelow(a: nat, b: nat, k: nat)
    requires a < Pow2(k) && b < Pow2(k)
    ensures Xor(a, b) < Pow2(k)
  {
    if k > 0 && !(a == 0 && b == 0) {
      XorBelow(a / 2, b / 2, k - 1);
    }
  }

  /** Doubling commutes with exclusive-or. */
  lemma XorDouble(a: nat, b: nat)
    ensures Xor(2 * a, 2 * b) == 2 * Xor(a, b)
  {
    XorHalves(2 * a, 2 * b);
  }

  /** Exclusive-or with a value whose bit 0 is clear sets bit 0 without carry. */
  lemma XorLowBit(c: nat, a: nat)
    requires c < 2
    ensures Xor(c, 2 * a) == 2 * a + c
  {
    XorStep(c, 2 * a, 0, a, c);
    XorZero(a);
  }

  /** In a (k+1)-bit number, bit k is set exactly when the number reaches 2^k. */
  lemma {:induction false} TopBit(a: nat, k: nat)
    requires a < Pow2(k + 1)
    ensures Bit(a, k) == 1 <==> a >= Pow2(k)
  {
    if k > 0 {
      TopBit(a / 2, k - 1);
    }
  }

  /** Adding an even number 2p leaves the low bit and adds p to the half. */
  lemma HalveAfterEvenAdd(a: nat, p: nat)
    ensures (a + 2 * p) / 2 == a / 2 + p && (a + 2 * p) % 2 == a % 2
    ensures a < 2 * p ==> a / 2 < p
  {
  }

  /** One step of the exclusive-or recursion, with the halves named. */
  lemma XorStep(a: nat, b: nat, x: nat, y: nat, low: nat)
    requires a / 2 == x && b / 2 == y && (a % 2 + b % 2) % 2 == low
    ensures Xor(a, b) == 2 * Xor(x, y) + low
  {
    XorHalves(a, b);
  }

  /** Setting a bit k that is clear in a is adding 2^k. */
  lemma {:induction false} XorTopBit(a: nat, k: nat)
    requires a < Pow2(k)
    ensures Xor(a, Pow2(k)) == a + Pow2(k)
  {
    if k == 0 {
      XorZero(1);
    } else {
      var p := Pow2(k - 1);
      HalveAfterEvenAdd(a, p);
      HalveAfterEvenAdd(0, p);
      XorStep(a, 2 * p, a / 2, p, a % 2);
      XorTopBit(a / 2, k - 1);
    }
  }

  /** Clearing a common top bit k does not change the exclusive-or. */
  lemma XorCommonTopBit(a: nat, b: nat, k: nat)
    requires a < Pow2(k) && b < Pow2(k)
    ensures Xor(a + Pow2(k), b + Pow2(k)) == Xor(a, b)
  {
    var p := Pow2(k);
    XorTopBit(a, k);
    XorTopBit(b, k);
    XorSwapMiddle(a, p, b, p);
    XorSelf(p);
    XorZero(Xor(a, b));
  }
}
