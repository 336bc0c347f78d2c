/** The field of the example in main.py: GF(2^4) built from x^4 + x + 1
    (`0b10011`), evaluated on constants.
 */
module Gf16 {
  import opened Bits
  import opened Carryless
  import opened GaloisField
  import opened Primitivity
  import opened FieldLaws

  const M: nat := 4
  const Poly: nat := 0x13

  /** One turn of the construction loop on a constant: x' = x * 2. */
  lemma Turn(i: nat, x: nat, next: nat)
    requires i > 0 && GeneratorPower(M, Poly, i - 1) == x && ShiftReduce(M, Poly, x) == next
    ensures GeneratorPower(M, Poly, i) == next
  {
    MulRawByX(M, Poly, x);
  }

  /** The walk 1, 2, 4, 8, 3, 6, 12, 11, 5, 10, 7, 14, 15, 13, 9 of x, which
      is back at 1 after 15 turns. */
  lemma Walk()
    ensures GeneratorPower(M, Poly, 0) == 1
    ensures GeneratorPower(M, Poly, 1) == 2
    ensures GeneratorPower(M, Poly, 2) == 4
    ensures GeneratorPower(M, Poly, 3) == 8
    ensures GeneratorPower(M, Poly, 4) == 3
    ensures GeneratorPower(M, Poly, 5) == 6
    ensures GeneratorPower(M, Poly, 6) == 12
    ensures GeneratorPower(M, Poly, 7) == 11
    ensures GeneratorPower(M, Poly, 8) == 5
    ensures GeneratorPower(M, Poly, 9) == 10
    ensures GeneratorPower(M, Poly, 10) == 7
    ensures GeneratorPower(M, Poly, 11) == 14
    ensures GeneratorPower(M, Poly, 12) == 15
    ensures GeneratorPower(M, Poly, 13) == 13
    ensures GeneratorPower(M, Poly, 14) == 9
    ensures GeneratorPower(M, Poly, 15) == 1
  {
    assert ShiftReduce(M, Poly, 1) == 2;
    Turn(1, 1, 2);
    assert ShiftReduce(M, Poly, 2) == 4;
    Turn(2, 2, 4);
    assert ShiftReduce(M, Poly, 4) == 8;
    Turn(3, 4, 8);
    assert ShiftReduce(M, Poly, 8) == 3;
    Turn(4, 8, 3);
    assert ShiftReduce(M, Poly, 3) == 6;
    Turn(5, 3, 6);
    assert ShiftReduce(M, Poly, 6) == 12;
    Turn(6, 6, 12);
    assert ShiftReduce(M, Poly, 12) == 11;
    Turn(7, 12, 11);
    assert ShiftReduce(M, Poly, 11) == 5;
    Turn(8, 11, 5);
    assert ShiftReduce(M, Poly, 5) == 10;
    Turn(9, 5, 10);
    assert ShiftReduce(M, Poly, 10) == 7;
    Turn(10, 10, 7);
    assert ShiftReduce(M, Poly, 7) == 14;
    Turn(11, 7, 14);
    assert ShiftReduce(M, Poly, 14) == 15;
    Turn(12, 14, 15);
    assert ShiftReduce(M, Poly, 15) == 13;
    Turn(13, 15, 13);
    assert ShiftReduce(M, Poly, 13) == 9;
    Turn(14, 13, 9);
    assert ShiftReduce(M, Poly, 9) == 1;
    Turn(15, 9, 1);
  }

  /** x^4 + x + 1 is primitive: x first returns to 1 after all 15 nonzero elements. */
  lemma PolyIsPrimitive()
    ensures IsPrimitive(M, Poly)
  {
    Walk();
    assert Order(M) == 15;
    forall j | 0 < j < Order(M)
      ensures GeneratorPower(M, Poly, j) != 1
    {
      assert j in {1, 2, 3, 4, 5, 6, 7, 8, 9, 10, 11, 12, 13, 14};
    }
  }

  /** The field the example builds. */
  function Example(): (f: Field)
    ensures PrimitiveField(f)
    ensures f.m == M && f.poly == Poly && f.fieldSize == 16
  {
    PolyIsPrimitive();
    NewField(M, Poly)
  }

  /** The walk as a sequence: entry k is x^k. */
  const WalkValues: seq<nat> := [1, 2, 4, 8, 3, 6, 12, 11, 5, 10, 7, 14, 15, 13, 9]

  lemma WalkAt(k: nat)
    requires k < 15
    ensures GeneratorPower(M, Poly, k) == WalkValues[k]
  {
    Walk();
    if k < 5 {
      assert k in {0, 1, 2, 3, 4};
    } else if k < 10 {
      assert k in {5, 6, 7, 8, 9};
    } else {
      assert k in {10, 11, 12, 13, 14};
    }
  }

  /** A field built from the example's parameters. */
  ghost predicate BuiltLikeExample(f: Field)
  {
    Constructed(f) && f.m == M && f.poly == Poly
  }

  /** The exponent table: the walk twice, then two zeros. */
  lemma ExampleExpTable()
    ensures Example().expTable ==
      [1, 2, 4, 8, 3, 6, 12, 11, 5, 10, 7, 14, 15, 13, 9,
       1, 2, 4, 8, 3, 6, 12, 11, 5, 10, 7, 14, 15, 13, 9,
       0, 0]
  {
    ExpTableOf(Example());
  }

  lemma ExpTableOf(f: Field)
    requires BuiltLikeExample(f)
    ensures f.expTable ==
      [1, 2, 4, 8, 3, 6, 12, 11, 5, 10, 7, 14, 15, 13, 9,
       1, 2, 4, 8, 3, 6, 12, 11, 5, 10, 7, 14, 15, 13, 9,
       0, 0]
  {
    var t := f.expTable;
    assert t[..15] == WalkValues by {
      forall k | 0 <= k < 15
        ensures t[k] == WalkValues[k]
      {
        ExpAt(f, k);
      }
    }
    ExpTableRepeats(f);
    DoubledWalk(t);
  }

  /** The exponent table holds x^k at k. */
  lemma ExpAt(f: Field, k: nat)
    requires BuiltLikeExample(f) && k < 15
    ensures |f.expTable| == 32 && f.expTable[k] == WalkValues[k]
  {
    assert Order(f.m) == 15;
    WalkAt(k);
    PowerEntry(f, k);
  }

  /** A 32-entry table that holds the walk in its first 15 entries, repeats
      them in the next 15 and ends in two zeros. */
  lemma DoubledWalk(t: seq<nat>)
    requires |t| == 32 && t[..15] == WalkValues
    requires forall i | 0 <= i < 15 :: t[i + 15] == t[i]
    requires t[30] == 0 && t[31] == 0
    ensures t ==
      [1, 2, 4, 8, 3, 6, 12, 11, 5, 10, 7, 14, 15, 13, 9,
       1, 2, 4, 8, 3, 6, 12, 11, 5, 10, 7, 14, 15, 13, 9,
       0, 0]
  {
    assert t[15..30] == t[..15];
    assert t == t[..15] + t[15..30] + t[30..];
  }

  /** The log table maps x^k back to k. */
  lemma LogAt(f: Field, k: nat)
    requires BuiltLikeExample(f) && OrbitDistinct(f.m, f.poly) && k < 15
    ensures |f.logTable| == 16 && WalkValues[k] < 16 && f.logTable[WalkValues[k]] == k
  {
    assert Order(f.m) == 15;
    WalkAt(k);
    LogOfExp(f);
    PowerEntry(f, k);
  }

  /** The log table on the nonzero elements. */
  lemma ExampleLogTable()
    ensures Example().logTable[1..] == [0, 1, 4, 2, 8, 5, 10, 3, 14, 9, 7, 6, 13, 11, 12]
  {
    var f := Example();
    PrimitiveOrbitDistinct(f.m, f.poly);
    LogTableOf(f);
  }

  lemma LogTableOf(f: Field)
    requires BuiltLikeExample(f) && OrbitDistinct(f.m, f.poly)
    ensures f.logTable[1..] == [0, 1, 4, 2, 8, 5, 10, 3, 14, 9, 7, 6, 13, 11, 12]
  {
    LogAt(f, 0);
    LogAt(f, 1);
    LogAt(f, 2);
    LogAt(f, 3);
    LogAt(f, 4);
    LogAt(f, 5);
    LogAt(f, 6);
    LogAt(f, 7);
    LogAt(f, 8);
    LogAt(f, 9);
    LogAt(f, 10);
    LogAt(f, 11);
    LogAt(f, 12);
    LogAt(f, 13);
    LogAt(f, 14);
    LogTableFromEntries(f.logTable);
  }

  /** A 16-entry log table is determined by its entries 1 .. 15. */
  lemma LogTableFromEntries(t: seq<nat>)
    requires |t| == 16
    requires t[1] == 0 && t[2] == 1 && t[4] == 2 && t[8] == 3 && t[3] == 4
    requires t[6] == 5 && t[12] == 6 && t[11] == 7 && t[5] == 8 && t[10] == 9
    requires t[7] == 10 && t[14] == 11 && t[15] == 12 && t[13] == 13 && t[9] == 14
    ensures t[1..] == [0, 1, 4, 2, 8, 5, 10, 3, 14, 9, 7, 6, 13, 11, 12]
  {
  }

  /** x^i * x^j == x^((i + j) mod 15) on constants. */
  lemma PowerProduct(i: nat, j: nat, x: nat, y: nat, z: nat)
    requires GeneratorPower(M, Poly, i) == x && GeneratorPower(M, Poly, j) == y
    requires GeneratorPower(M, Poly, (i + j) % 15) == z
    ensures MulRaw(M, Poly, x, y) == z
  {
    PolyIsPrimitive();
    assert Order(M) == 15;
    ReducedPowerProduct(M, Poly, i, j);
  }

  /** The shift-and-add products the example's answers rest on, read off
      the walk: 11 = x^7, 13 = x^13, 10 = x^9, 5 = x^8. */
  lemma ExampleProducts()
    ensures MulRaw(M, Poly, 11, 13) == 6
    ensures MulRaw(M, Poly, 10, 13) == 11
    ensures MulRaw(M, Poly, 11, 5) == 1
  {
    Walk();
    PowerProduct(7, 13, 11, 13, 6);
    PowerProduct(9, 13, 10, 13, 11);
    PowerProduct(7, 8, 11, 5, 1);
  }

  /** The example's sum and difference of a = 11 and b = 13. */
  lemma ExampleAdd()
    ensures Add(Example(), 11, 13) == 6 && Subtract(Example(), 11, 13) == 6
  {
    ElevenXorThirteen();
  }

  lemma ElevenXorThirteen()
    ensures Xor(11, 13) == 6
  {
    assert Xor(1, 1) == 0;
    assert Xor(2, 3) == 1;
    assert Xor(5, 6) == 3;
  }

  /** The example's product of a = 11 and b = 13. */
  lemma ExampleMultiply()
    ensures Multiply(Example(), 11, 13) == 6
  {
    ExampleProducts();
    MultiplyMatchesMulRaw(Example(), 11, 13);
  }

  /** The example's quotient a / b, and division by zero. */
  lemma ExampleDivide()
    ensures Divide(Example(), 11, 13) == Success(10)
    ensures Divide(Example(), 11, 0) == Failure(DivisionByZero)
  {
    ExampleProducts();
    MultiplyMatchesMulRaw(Example(), 10, 13);
    DivideUnique(Example(), 11, 13, 10);
  }

  /** The example's inverse of a = 11, and the inverse of zero. */
  lemma ExampleInverse()
    ensures Inverse(Example(), 11) == Success(5)
    ensures Inverse(Example(), 0) == Failure(ZeroHasNoInverse)
  {
    ExampleProducts();
    MultiplyMatchesMulRaw(Example(), 11, 5);
    InverseIsQuotient(Example(), 11, 5);
  }

  /** The field laws hold for all elements of the example field. */
  lemma ExampleLaws(a: nat, b: nat, c: nat)
    requires a < 16 && b < 16 && c < 16
    ensures Add(Example(), a, b) == Add(Example(), b, a)
    ensures Multiply(Example(), a, b) == Multiply(Example(), b, a)
    ensures Multiply(Example(), Multiply(Example(), a, b), c) == Multiply(Example(), a, Multiply(Example(), b, c))
    ensures Multiply(Example(), a, Add(Example(), b, c)) == Add(Example(), Multiply(Example(), a, b), Multiply(Example(), a, c))
    ensures Multiply(Example(), 1, a) == a
    ensures a != 0 ==> Inverse(Example(), a).Success? && Multiply(Example(), a, Inverse(Example(), a).value) == 1
    ensures b != 0 ==> Divide(Example(), a, b).Success? && Multiply(Example(), Divide(Example(), a, b).value, b) == a
  {
    var f := Example();
    AddCommutes(f, a, b);
    MultiplyCommutes(f, a, b);
    MultiplyAssociates(f, a, b, c);
    MultiplyDistributes(f, a, b, c);
    MultiplyIdentity(f, a);
    if a != 0 {
      InverseLaw(f, a);
    }
    if b != 0 {
      DivideRoundTrip(f, a, b);
    }
  }
}
