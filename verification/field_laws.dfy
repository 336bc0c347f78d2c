/** The field laws of the table-driven queries.  Addition needs nothing but
    the table shapes; multiplication, division and inversion are laws of a
    field built from a primitive polynomial, where the table product agrees
    with the shift-and-add product of `_multiply_without_tables`.
 */
module FieldLaws {
  import opened Bits
  import opened Carryless
  import opened GaloisField
  import opened Primitivity

  /*
   * Addition and subtraction.
   */

  lemma AddIdentity(f: Field, a: nat)
    requires f.WellFormed() && a < f.fieldSize
    ensures Add(f, a, 0) == a && Add(f, 0, a) == a
  {
    XorZero(a);
  }

  /** Every element is its own negative. */
  lemma AddSelfInverse(f: Field, a: nat)
    requires f.WellFormed() && a < f.fieldSize
    ensures Add(f, a, a) == 0
  {
    XorSelf(a);
  }

  lemma AddCommutes(f: Field, a: nat, b: nat)
    requires f.WellFormed() && a < f.fieldSize && b < f.fieldSize
    ensures Add(f, a, b) == Add(f, b, a)
  {
    XorCommutes(a, b);
  }

  lemma AddAssociates(f: Field, a: nat, b: nat, c: nat)
    requires f.WellFormed() && a < f.fieldSize && b < f.fieldSize && c < f.fieldSize
    ensures Add(f, Add(f, a, b), c) == Add(f, a, Add(f, b, c))
  {
    XorAssociates(a, b, c);
  }

  /** `subtract` is `add`, and the difference is the unique d with d + b == a. */
  lemma SubtractIsAdd(f: Field, a: nat, b: nat, d: nat)
    requires f.WellFormed() && a < f.fieldSize && b < f.fieldSize && d < f.fieldSize
    ensures Subtract(f, a, b) == Add(f, a, b)
    ensures Subtract(f, a, b) == d <==> Add(f, d, b) == a
  {
    if Add(f, d, b) == a {
      XorAssociates(d, b, b);
      XorSelf(b);
      XorZero(d);
    }
  }

  /*
   * The lookup indices.
   */

  /** The three table lookups normalise their index into [0, field_size - 1),
      so they only ever read the first copy of the walk. */
  lemma LookupIndicesInRange(f: Field, a: nat, b: nat)
    requires f.WellFormed() && a < f.fieldSize && b < f.fieldSize
    ensures 0 <= (f.logTable[a] + f.logTable[b]) % (f.fieldSize - 1) < f.fieldSize - 1
    ensures 0 <= (f.logTable[a] - f.logTable[b]) % (f.fieldSize - 1) < f.fieldSize - 1
    ensures 0 <= (-f.logTable[a]) % (f.fieldSize - 1) < f.fieldSize - 1
  {
    assert f.fieldSize == 2 * Pow2(f.m - 1);
  }

  /*
   * Elements as powers of the generator.
   */

  /** Entry k < n of the exponent table is x^k. */
  lemma PowerEntry(f: Field, k: nat)
    requires Constructed(f) && k < Order(f.m)
    ensures f.expTable[k] == GeneratorPower(f.m, f.poly, k)
  {
    ExpTablePowers(f);
  }

  /** A nonzero element is x raised to its logarithm. */
  lemma LogEntry(f: Field, a: nat)
    requires PrimitiveField(f) && 0 < a < f.fieldSize
    ensures f.logTable[a] < Order(f.m) && GeneratorPower(f.m, f.poly, f.logTable[a]) == a
  {
    ExpOfLog(f);
    PowerEntry(f, f.logTable[a]);
  }

  /** The table lookup at index (i mod n) finds x^i. */
  lemma ReducedEntry(f: Field, i: int)
    requires PrimitiveField(f)
    ensures 0 <= i % Order(f.m) < Order(f.m)
    ensures f.expTable[i % Order(f.m)] == GeneratorPower(f.m, f.poly, i % Order(f.m))
  {
    OrderPositive(f.m);
    PowerEntry(f, i % Order(f.m));
  }

  /** No lookup of a primitive field's exponent table at a reduced index finds 0. */
  lemma ReducedEntryNonzero(f: Field, i: int)
    requires PrimitiveField(f)
    ensures 0 <= i % Order(f.m) < Order(f.m) && f.expTable[i % Order(f.m)] != 0
  {
    ReducedEntry(f, i);
    PowersNonzero(f.m, f.poly, i % Order(f.m));
  }

  /*
   * Multiplication.
   */

  lemma MultiplyCommutes(f: Field, a: nat, b: nat)
    requires f.WellFormed() && a < f.fieldSize && b < f.fieldSize
    ensures Multiply(f, a, b) == Multiply(f, b, a)
  {
  }

  /** For a primitive polynomial the log-table product is the shift-and-add
      product of `_multiply_without_tables`. */
  lemma MultiplyMatchesMulRaw(f: Field, a: nat, b: nat)
    requires PrimitiveField(f) && a < f.fieldSize && b < f.fieldSize
    ensures Multiply(f, a, b) == MulRaw(f.m, f.poly, a, b)
  {
    if a == 0 {
      MulRawOfZero(f.m, f.poly, b);
    } else if b == 0 {
      MulRawByZero(f.m, f.poly, a);
    } else {
      assert Multiply(f, a, b) == f.expTable[(f.logTable[a] + f.logTable[b]) % Order(f.m)];
      ProductOfLogs(f, a, b);
    }
  }

  /** The product of two nonzero elements is x raised to the sum of their
      logarithms, which the table lookup finds. */
  lemma ProductOfLogs(f: Field, a: nat, b: nat)
    requires PrimitiveField(f) && 0 < a < f.fieldSize && 0 < b < f.fieldSize
    ensures 0 <= (f.logTable[a] + f.logTable[b]) % Order(f.m) < Order(f.m)
    ensures MulRaw(f.m, f.poly, a, b) == f.expTable[(f.logTable[a] + f.logTable[b]) % Order(f.m)]
  {
    var m, poly := f.m, f.poly;
    var la, lb := f.logTable[a], f.logTable[b];
    var k := (la + lb) % Order(m);
    assert f.expTable[k] == GeneratorPower(m, poly, k) by { ReducedEntry(f, la + lb); }
    assert a == GeneratorPower(m, poly, la) && b == GeneratorPower(m, poly, lb) by {
      LogEntry(f, a);
      LogEntry(f, b);
    }
    assert MulRaw(m, poly, GeneratorPower(m, poly, la), GeneratorPower(m, poly, lb)) == GeneratorPower(m, poly, k) by {
      ReducedPowerProduct(m, poly, la, lb);
    }
  }

  /** 1 is the multiplicative identity. */
  lemma MultiplyIdentity(f: Field, a: nat)
    requires PrimitiveField(f) && a < f.fieldSize
    ensures Multiply(f, 1, a) == a && Multiply(f, a, 1) == a
  {
    OrderPositive(f.m);
    MultiplyMatchesMulRaw(f, 1, a);
    MultiplyMatchesMulRaw(f, a, 1);
    MulRawOneLeft(f.m, f.poly, a);
    MulRawByOne(f.m, f.poly, a);
  }

  /** A product is 0 exactly when a factor is. */
  lemma NoZeroDivisors(f: Field, a: nat, b: nat)
    requires PrimitiveField(f) && a < f.fieldSize && b < f.fieldSize
    ensures Multiply(f, a, b) == 0 <==> a == 0 || b == 0
  {
    if a != 0 && b != 0 {
      ReducedEntryNonzero(f, f.logTable[a] + f.logTable[b]);
    }
  }

  lemma MultiplyAssociates(f: Field, a: nat, b: nat, c: nat)
    requires PrimitiveField(f) && a < f.fieldSize && b < f.fieldSize && c < f.fieldSize
    ensures Multiply(f, Multiply(f, a, b), c) == Multiply(f, a, Multiply(f, b, c))
  {
    if a != 0 && b != 0 && c != 0 {
      LogEntry(f, a);
      LogEntry(f, b);
      LogEntry(f, c);
      var ab, bc := Multiply(f, a, b), Multiply(f, b, c);
      MultiplyMatchesMulRaw(f, a, b);
      MultiplyMatchesMulRaw(f, b, c);
      MultiplyMatchesMulRaw(f, ab, c);
      MultiplyMatchesMulRaw(f, a, bc);
      MulRawAssociatesOnPowers(f.m, f.poly, f.logTable[a], f.logTable[b], f.logTable[c]);
    }
  }

  /** Multiplication distributes over addition. */
  lemma MultiplyDistributes(f: Field, a: nat, b: nat, c: nat)
    requires PrimitiveField(f) && a < f.fieldSize && b < f.fieldSize && c < f.fieldSize
    ensures Multiply(f, a, Add(f, b, c)) == Add(f, Multiply(f, a, b), Multiply(f, a, c))
  {
    MultiplyMatchesMulRaw(f, a, Add(f, b, c));
    MultiplyMatchesMulRaw(f, a, b);
    MultiplyMatchesMulRaw(f, a, c);
    MulRawLinearRight(f.m, f.poly, a, b, c);
  }

  /*
   * Inversion and division.
   */

  /** Every nonzero element has an inverse, and `inverse` returns it. */
  lemma InverseLaw(f: Field, a: nat)
    requires PrimitiveField(f) && 0 < a < f.fieldSize
    ensures Inverse(f, a).Success?
    ensures Multiply(f, a, Inverse(f, a).value) == 1
  {
    var m, poly, n := f.m, f.poly, Order(f.m);
    var la := f.logTable[a];
    OrderPositive(m);
    var d: nat := (-(la as int)) % n;
    var v := Inverse(f, a).value;
    assert v == f.expTable[d];
    assert f.expTable[d] == GeneratorPower(m, poly, d) by { ReducedEntry(f, -(la as int)); }
    assert a == GeneratorPower(m, poly, la) by { LogEntry(f, a); }
    InverseOfPower(m, poly, la);
    MultiplyMatchesMulRaw(f, a, v);
  }

  /** Cancelling a nonzero factor. */
  lemma MultiplyCancels(f: Field, q: nat, r: nat, b: nat)
    requires PrimitiveField(f) && q < f.fieldSize && r < f.fieldSize && 0 < b < f.fieldSize
    ensures Multiply(f, q, b) == Multiply(f, r, b) <==> q == r
  {
    if Multiply(f, q, b) == Multiply(f, r, b) {
      InverseLaw(f, b);
      var v := Inverse(f, b).value;
      MultiplyAssociates(f, q, b, v);
      MultiplyAssociates(f, r, b, v);
      MultiplyIdentity(f, q);
      MultiplyIdentity(f, r);
    }
  }

  /** `divide` undoes `multiply`: for b != 0 it succeeds and its quotient
      times b is a. */
  lemma DivideRoundTrip(f: Field, a: nat, b: nat)
    requires PrimitiveField(f) && a < f.fieldSize && 0 < b < f.fieldSize
    ensures Divide(f, a, b).Success?
    ensures Multiply(f, Divide(f, a, b).value, b) == a
  {
    if a != 0 {
      var q := Divide(f, a, b).value;
      assert q == f.expTable[(f.logTable[a] - f.logTable[b]) % Order(f.m)];
      QuotientOfLogs(f, a, b);
      MultiplyMatchesMulRaw(f, q, b);
    }
  }

  /** x raised to the difference of two logarithms, as the table lookup of
      `divide` finds it, times the divisor is the dividend. */
  lemma QuotientOfLogs(f: Field, a: nat, b: nat)
    requires PrimitiveField(f) && 0 < a < f.fieldSize && 0 < b < f.fieldSize
    ensures 0 <= (f.logTable[a] - f.logTable[b]) % Order(f.m) < Order(f.m)
    ensures MulRaw(f.m, f.poly, f.expTable[(f.logTable[a] - f.logTable[b]) % Order(f.m)], b) == a
  {
    var m, poly := f.m, f.poly;
    var la, lb := f.logTable[a], f.logTable[b];
    var d := (la - lb) % Order(m);
    assert f.expTable[d] == GeneratorPower(m, poly, d) by { ReducedEntry(f, la - lb); }
    assert a == GeneratorPower(m, poly, la) && b == GeneratorPower(m, poly, lb) by {
      LogEntry(f, a);
      LogEntry(f, b);
    }
    assert MulRaw(m, poly, GeneratorPower(m, poly, d), GeneratorPower(m, poly, lb)) == GeneratorPower(m, poly, la) by {
      QuotientOfPowers(m, poly, la, lb);
    }
  }

  /** The quotient is the one element q with q * b == a. */
  lemma DivideUnique(f: Field, a: nat, b: nat, q: nat)
    requires PrimitiveField(f) && a < f.fieldSize && 0 < b < f.fieldSize && q < f.fieldSize
    ensures Divide(f, a, b) == Success(q) <==> Multiply(f, q, b) == a
  {
    DivideRoundTrip(f, a, b);
    MultiplyCancels(f, Divide(f, a, b).value, q, b);
  }

  /** The logarithm of 1 is 0. */
  lemma LogOfOne(f: Field)
    requires PrimitiveField(f)
    ensures f.logTable[1] == 0
  {
    OrderPositive(f.m);
    PrimitiveOrbitDistinct(f.m, f.poly);
    LogOfExp(f);
    ExpTableStartsAtOne(f);
  }

  /** `inverse(a)` is `divide(1, a)`, and the only element whose product with a is 1. */
  lemma InverseIsQuotient(f: Field, a: nat, v: nat)
    requires PrimitiveField(f) && 0 < a < f.fieldSize && v < f.fieldSize
    ensures Inverse(f, a) == Divide(f, 1, a)
    ensures Inverse(f, a) == Success(v) <==> Multiply(f, a, v) == 1
  {
    LogOfOne(f);
    assert Inverse(f, a) == Divide(f, 1, a);
    DivideUnique(f, 1, a, v);
    MultiplyCommutes(f, a, v);
  }
}
