/** Carry-less multiplication of polynomials over GF(2), reduced on the fly
    modulo a degree-m polynomial `poly` (main.py, `_multiply_without_tables`).

    A number stands for the polynomial whose coefficients are its bits.  The
    loop walks the bits of `b` from the low end, adds (exclusive-ors) the
    current multiple of `a` into the result when the bit is set, and multiplies
    `a` by x, folding the x^m term back in with `poly` whenever it appears.
 */
module Carryless {
  import opened Bits

  /** What the construction needs of its parameters: a degree m >= 1 and a
      reduction polynomial of degree exactly m (bit m set, no bit above). */
  predicate ValidParams(m: nat, poly: nat)
  {
    m >= 1 && Pow2(m) <= poly < Pow2(m + 1)
  }

  /** One multiply-by-x step of the loop: `a <<= 1; if a & field_size: a ^= poly`. */
  function ShiftReduce(m: nat, poly: nat, a: nat): nat
  {
    var s := 2 * a;
    if Bit(s, m) == 1 then Xor(s, poly) else s
  }

  /** The loop state after the remaining bits `b` are consumed, starting from
      the multiple `a` and the partial result `acc`. */
  function MulLoop(m: nat, poly: nat, a: nat, b: nat, acc: nat): (r: nat)
    ensures ValidParams(m, poly) && a < Pow2(m) && acc < Pow2(m) ==> r < Pow2(m)
    decreases b
  {
    if b == 0 then acc
    else
      var acc' := if b % 2 == 1 then Xor(acc, a) else acc;
      StepStaysBelow(m, poly, a, acc, b);
      MulLoop(m, poly, ShiftReduce(m, poly, a), b / 2, acc')
  }

  /** `_multiply_without_tables(a, b)`: the product of a and b modulo poly. */
  function MulRaw(m: nat, poly: nat, a: nat, b: nat): nat
  {
    MulLoop(m, poly, a, b, 0)
  }

  /** The loop of `_multiply_without_tables`, statement for statement. */
  method MultiplyWithoutTables(m: nat, poly: nat, a: nat, b: nat) returns (result: nat)
    ensures result == MulRaw(m, poly, a, b)
    ensures ValidParams(m, poly) && a < Pow2(m) ==> result < Pow2(m)
  {
    result := 0;
    var x: nat, y: nat := a, b;
    while y != 0
      invariant MulLoop(m, poly, x, y, result) == MulRaw(m, poly, a, b)
      invariant ValidParams(m, poly) && a < Pow2(m) ==> x < Pow2(m) && result < Pow2(m)
      decreases y
    {
      if y % 2 == 1 {
        StepStaysBelow(m, poly, x, result, y);
        result := Xor(result, x);
      }
      ShiftReduceStaysBelow(m, poly, x);
      x := 2 * x;
      if Bit(x, m) == 1 {
        x := Xor(x, poly);
      }
      y := y / 2;
    }
  }

  /** Multiplying an element of the field by x keeps it below 2^m: the bit m
      that the shift may set is exactly the one `poly` clears. */
  lemma ShiftReduceStaysBelow(m: nat, poly: nat, a: nat)
    ensures ValidParams(m, poly) && a < Pow2(m) ==> ShiftReduce(m, poly, a) < Pow2(m)
  {
    if ValidParams(m, poly) && a < Pow2(m) {
      var s := 2 * a;
      TopBit(s, m);
      if Bit(s, m) == 1 {
        XorCommonTopBit(s - Pow2(m), poly - Pow2(m), m);
        XorBelow(s - Pow2(m), poly - Pow2(m), m);
      }
    }
  }

  lemma StepStaysBelow(m: nat, poly: nat, a: nat, acc: nat, b: nat)
    ensures ValidParams(m, poly) && a < Pow2(m) && acc < Pow2(m) ==>
      ShiftReduce(m, poly, a) < Pow2(m) && Xor(acc, a) < Pow2(m)
  {
    ShiftReduceStaysBelow(m, poly, a);
    if ValidParams(m, poly) && a < Pow2(m) && acc < Pow2(m) {
      XorBelow(acc, a, m);
    }
  }

  /*
   * Algebra of the raw product.  None of these lemmas assumes that `poly` is
   * irreducible: they hold for every reduction polynomial of degree m.
   */

  /** The multiple of `a` that the loop adds in for the low bit of `b`. */
  function LowTerm(b: nat, a: nat): nat
  {
    if b % 2 == 1 then a else 0
  }

  /** The value `poly` or 0 that ShiftReduce folds into the doubled value `s`. */
  function ReductionTerm(m: nat, poly: nat, s: nat): nat
  {
    if Bit(s, m) == 1 then poly else 0
  }

  lemma ShiftReduceAsXor(m: nat, poly: nat, a: nat)
    ensures ShiftReduce(m, poly, a) == Xor(2 * a, ReductionTerm(m, poly, 2 * a))
  {
    XorZero(2 * a);
  }

  lemma ShiftReduceOfZero(m: nat, poly: nat)
    ensures ShiftReduce(m, poly, 0) == 0
  {
    ZeroBit(m);
  }

  /** Below 2^(m-1), multiplying by x is a plain shift. */
  lemma ShiftReduceWithoutOverflow(m: nat, poly: nat, a: nat)
    requires 2 * a < Pow2(m)
    ensures ShiftReduce(m, poly, a) == 2 * a
  {
    TopBit(2 * a, m);
  }

  /** Multiplying by x distributes over addition. */
  lemma ShiftReduceLinear(m: nat, poly: nat, a: nat, b: nat)
    ensures ShiftReduce(m, poly, Xor(a, b)) == Xor(ShiftReduce(m, poly, a), ShiftReduce(m, poly, b))
  {
    var sa, sb := 2 * a, 2 * b;
    XorDouble(a, b);
    XorBit(sa, sb, m);
    BitIsBinary(sa, m);
    BitIsBinary(sb, m);
    var ta, tb := ReductionTerm(m, poly, sa), ReductionTerm(m, poly, sb);
    assert ReductionTerm(m, poly, Xor(sa, sb)) == Xor(ta, tb) by {
      XorZero(poly);
      XorZero(0);
      XorSelf(poly);
    }
    ShiftReduceAsXor(m, poly, a);
    ShiftReduceAsXor(m, poly, b);
    ShiftReduceAsXor(m, poly, Xor(a, b));
    XorSwapMiddle(sa, sb, ta, tb);
  }

  /** The loop adds its partial result onto whatever `acc` already holds. */
  lemma {:induction false} MulLoopAccumulates(m: nat, poly: nat, a: nat, b: nat, acc: nat)
    ensures MulLoop(m, poly, a, b, acc) == Xor(acc, MulRaw(m, poly, a, b))
    decreases b
  {
    if b == 0 {
      XorZero(acc);
    } else {
      var a' := ShiftReduce(m, poly, a);
      var t := LowTerm(b, a);
      XorZero(acc);
      XorZero(a);
      MulLoopAccumulates(m, poly, a', b / 2, Xor(acc, t));
      MulLoopAccumulates(m, poly, a', b / 2, t);
      XorAssociates(acc, t, MulRaw(m, poly, a', b / 2));
    }
  }

  /** One turn of the loop, as an identity that holds for every b. */
  lemma MulRawUnfold(m: nat, poly: nat, a: nat, b: nat)
    ensures MulRaw(m, poly, a, b)
         == Xor(LowTerm(b, a), MulRaw(m, poly, ShiftReduce(m, poly, a), b / 2))
  {
    if b == 0 {
      XorZero(0);
    } else {
      XorZero(a);
      MulLoopAccumulates(m, poly, ShiftReduce(m, poly, a), b / 2, LowTerm(b, a));
    }
  }

  lemma MulRawByOne(m: nat, poly: nat, a: nat)
    ensures MulRaw(m, poly, a, 1) == a
  {
    MulRawUnfold(m, poly, a, 1);
    XorZero(a);
  }

  /** Multiplying by 2 (the polynomial x) is one ShiftReduce step. */
  lemma MulRawByX(m: nat, poly: nat, a: nat)
    ensures MulRaw(m, poly, a, 2) == ShiftReduce(m, poly, a)
  {
    MulRawUnfold(m, poly, a, 2);
    MulRawByOne(m, poly, ShiftReduce(m, poly, a));
    XorZero(ShiftReduce(m, poly, a));
  }

  lemma {:induction false} MulRawOfZero(m: nat, poly: nat, b: nat)
    ensures MulRaw(m, poly, 0, b) == 0
    decreases b
  {
    if b > 0 {
      MulRawUnfold(m, poly, 0, b);
      ShiftReduceOfZero(m, poly);
      MulRawOfZero(m, poly, b / 2);
      XorZero(0);
    }
  }

  lemma MulRawByZero(m: nat, poly: nat, a: nat)
    ensures MulRaw(m, poly, a, 0) == 0
  {
  }

  /** The product distributes over addition in its second operand. */
  lemma {:induction false} MulRawLinearRight(m: nat, poly: nat, a: nat, b: nat, c: nat)
    ensures MulRaw(m, poly, a, Xor(b, c)) == Xor(MulRaw(m, poly, a, b), MulRaw(m, poly, a, c))
    decreases b + c
  {
    if b == 0 && c == 0 {
      XorZero(0);
    } else {
      var d := Xor(b, c);
      var a' := ShiftReduce(m, poly, a);
      XorHalves(b, c);
      assert d / 2 == Xor(b / 2, c / 2) && d % 2 == (b % 2 + c % 2) % 2;
      assert LowTerm(d, a) == Xor(LowTerm(b, a), LowTerm(c, a)) by {
        XorZero(a);
        XorZero(0);
        XorSelf(a);
      }
      MulRawUnfold(m, poly, a, d);
      MulRawUnfold(m, poly, a, b);
      MulRawUnfold(m, poly, a, c);
      MulRawLinearRight(m, poly, a', b / 2, c / 2);
      XorSwapMiddle(LowTerm(b, a), LowTerm(c, a), MulRaw(m, poly, a', b / 2), MulRaw(m, poly, a', c / 2));
    }
  }

  /** The product distributes over addition in its first operand. */
  lemma {:induction false} MulRawLinearLeft(m: nat, poly: nat, a: nat, c: nat, b: nat)
    ensures MulRaw(m, poly, Xor(a, c), b) == Xor(MulRaw(m, poly, a, b), MulRaw(m, poly, c, b))
    decreases b
  {
    if b == 0 {
      XorZero(0);
    } else {
      var a', c' := ShiftReduce(m, poly, a), ShiftReduce(m, poly, c);
      ShiftReduceLinear(m, poly, a, c);
      assert LowTerm(b, Xor(a, c)) == Xor(LowTerm(b, a), LowTerm(b, c)) by {
        XorZero(0);
      }
      MulRawUnfold(m, poly, Xor(a, c), b);
      MulRawUnfold(m, poly, a, b);
      MulRawUnfold(m, poly, c, b);
      MulRawLinearLeft(m, poly, a', c', b / 2);
      XorSwapMiddle(LowTerm(b, a), LowTerm(b, c), MulRaw(m, poly, a', b / 2), MulRaw(m, poly, c', b / 2));
    }
  }

  /** Multiplying the first operand by x multiplies the product by x. */
  lemma {:induction false} MulRawShiftLeft(m: nat, poly: nat, a: nat, b: nat)
    ensures MulRaw(m, poly, ShiftReduce(m, poly, a), b) == ShiftReduce(m, poly, MulRaw(m, poly, a, b))
    decreases b
  {
    ShiftReduceOfZero(m, poly);
    if b > 0 {
      var a' := ShiftReduce(m, poly, a);
      MulRawUnfold(m, poly, a', b);
      MulRawShiftLeft(m, poly, a', b / 2);
      assert LowTerm(b, a') == ShiftReduce(m, poly, LowTerm(b, a));
      MulRawUnfold(m, poly, a, b);
      ShiftReduceLinear(m, poly, LowTerm(b, a), MulRaw(m, poly, a', b / 2));
    }
  }

  /** 1 is a left identity on elements of the field. */
  lemma {:induction false} MulRawOneLeft(m: nat, poly: nat, b: nat)
    requires b < Pow2(m)
    ensures MulRaw(m, poly, 1, b) == b
    decreases b
  {
    if b > 0 {
      MulRawUnfold(m, poly, 1, b);
      MulRawShiftLeft(m, poly, 1, b / 2);
      MulRawOneLeft(m, poly, b / 2);
      ShiftReduceWithoutOverflow(m, poly, b / 2);
      XorLowBit(b % 2, b / 2);
    }
  }

  /** x^m is congruent to the low part of poly: the product of 1 and poly is 0. */
  lemma ModulusVanishesAtOne(m: nat, poly: nat)
    requires ValidParams(m, poly)
    ensures MulRaw(m, poly, 1, poly) == 0
  {
    var h := poly / 2;
    assert Pow2(m) == 2 * Pow2(m - 1);
    assert Pow2(m + 1) == 2 * Pow2(m);
    MulRawUnfold(m, poly, 1, poly);
    MulRawShiftLeft(m, poly, 1, h);
    MulRawOneLeft(m, poly, h);
    TopBit(2 * h, m);
    assert ShiftReduce(m, poly, h) == Xor(2 * h, poly);
    XorLowBit(poly % 2, h);
    XorAssociates(poly % 2, 2 * h, poly);
    XorSelf(poly);
  }

  /** Every element of the field times poly is 0. */
  lemma {:induction false} ModulusVanishes(m: nat, poly: nat, a: nat)
    requires ValidParams(m, poly) && a < Pow2(m)
    ensures MulRaw(m, poly, a, poly) == 0
    decreases a
  {
    if a == 0 {
      MulRawOfZero(m, poly, poly);
    } else {
      var h := a / 2;
      XorLowBit(a % 2, h);
      ShiftReduceWithoutOverflow(m, poly, h);
      MulRawLinearLeft(m, poly, a % 2, ShiftReduce(m, poly, h), poly);
      MulRawShiftLeft(m, poly, h, poly);
      ModulusVanishes(m, poly, h);
      ShiftReduceOfZero(m, poly);
      if a % 2 == 0 {
        MulRawOfZero(m, poly, poly);
      } else {
        ModulusVanishesAtOne(m, poly);
      }
      XorZero(0);
    }
  }

  /** Multiplying the second operand by x multiplies the product by x. */
  lemma MulRawShiftRight(m: nat, poly: nat, a: nat, b: nat)
    requires ValidParams(m, poly) && a < Pow2(m)
    ensures MulRaw(m, poly, a, ShiftReduce(m, poly, b)) == ShiftReduce(m, poly, MulRaw(m, poly, a, b))
  {
    var t := ReductionTerm(m, poly, 2 * b);
    ShiftReduceAsXor(m, poly, b);
    MulRawLinearRight(m, poly, a, 2 * b, t);
    if t == 0 {
      assert MulRaw(m, poly, a, t) == 0;
    } else {
      ModulusVanishes(m, poly, a);
    }
    MulRawUnfold(m, poly, a, 2 * b);
    XorZero(MulRaw(m, poly, ShiftReduce(m, poly, a), b));
    MulRawShiftLeft(m, poly, a, b);
    XorZero(MulRaw(m, poly, a, 2 * b));
  }
}
