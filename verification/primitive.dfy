/** What a primitive polynomial buys: the powers of the generator x obey the
    exponent law, repeat with period 2^m - 1, never repeat earlier, never
    vanish, and reach every nonzero element.  From these follow the two
    inverse laws between the exponent and log tables.
 */
module Primitivity {
  import opened Bits
  import opened Carryless
  import opened GaloisField
  import opened Modular

  /** The exponent law x^i * x^j == x^(i+j), for the shift-and-add product
      and any well-shaped polynomial, primitive or not. */
  lemma {:induction false} MulRawOfPowers(m: nat, poly: nat, i: nat, j: nat)
    requires ValidParams(m, poly)
    ensures MulRaw(m, poly, GeneratorPower(m, poly, i), GeneratorPower(m, poly, j)) == GeneratorPower(m, poly, i + j)
  {
    var gi := GeneratorPower(m, poly, i);
    if j == 0 {
      MulRawByOne(m, poly, gi);
    } else {
      var prev := GeneratorPower(m, poly, j - 1);
      MulRawByX(m, poly, prev);
      assert GeneratorPower(m, poly, j) == ShiftReduce(m, poly, prev);
      MulRawShiftRight(m, poly, gi, prev);
      MulRawOfPowers(m, poly, i, j - 1);
      MulRawByX(m, poly, GeneratorPower(m, poly, i + j - 1));
      assert GeneratorPower(m, poly, i + j) == MulRaw(m, poly, GeneratorPower(m, poly, i + j - 1), 2);
    }
  }

  /** The shift-and-add product is associative on powers of x. */
  lemma MulRawAssociatesOnPowers(m: nat, poly: nat, i: nat, j: nat, k: nat)
    requires ValidParams(m, poly)
    ensures MulRaw(m, poly, MulRaw(m, poly, GeneratorPower(m, poly, i), GeneratorPower(m, poly, j)), GeneratorPower(m, poly, k))
         == MulRaw(m, poly, GeneratorPower(m, poly, i), MulRaw(m, poly, GeneratorPower(m, poly, j), GeneratorPower(m, poly, k)))
  {
    ThreePowersLeft(m, poly, i, j, k);
    ThreePowersRight(m, poly, i, j, k);
  }

  lemma ThreePowersLeft(m: nat, poly: nat, i: nat, j: nat, k: nat)
    requires ValidParams(m, poly)
    ensures MulRaw(m, poly, MulRaw(m, poly, GeneratorPower(m, poly, i), GeneratorPower(m, poly, j)), GeneratorPower(m, poly, k))
         == GeneratorPower(m, poly, i + j + k)
  {
    MulRawOfPowers(m, poly, i, j);
    MulRawOfPowers(m, poly, i + j, k);
  }

  lemma ThreePowersRight(m: nat, poly: nat, i: nat, j: nat, k: nat)
    requires ValidParams(m, poly)
    ensures MulRaw(m, poly, GeneratorPower(m, poly, i), MulRaw(m, poly, GeneratorPower(m, poly, j), GeneratorPower(m, poly, k)))
         == GeneratorPower(m, poly, i + j + k)
  {
    var gi, gj, gk := GeneratorPower(m, poly, i), GeneratorPower(m, poly, j), GeneratorPower(m, poly, k);
    MulRawOfPowers(m, poly, j, k);
    var t := MulRaw(m, poly, gj, gk);
    MulRawOfPowers(m, poly, i, j + k);
    assert MulRaw(m, poly, gi, t) == GeneratorPower(m, poly, i + (j + k));
  }

  /** Order(m) is at least 1 for every field with m >= 1. */
  lemma OrderPositive(m: nat)
    requires m >= 1
    ensures Order(m) >= 1
  {
    assert Pow2(m) == 2 * Pow2(m - 1);
  }

  /** Once x^n == 1 the walk starts over: x^(n+k) == x^k. */
  lemma PowersRepeat(m: nat, poly: nat, k: nat)
    requires ValidParams(m, poly) && GeneratorPower(m, poly, Order(m)) == 1
    ensures GeneratorPower(m, poly, Order(m) + k) == GeneratorPower(m, poly, k)
  {
    MulRawOfPowers(m, poly, Order(m), k);
    MulRawOneLeft(m, poly, GeneratorPower(m, poly, k));
  }

  /** x^i == x^(i mod n). */
  lemma {:induction false} PowersPeriodic(m: nat, poly: nat, i: nat)
    requires ValidParams(m, poly) && GeneratorPower(m, poly, Order(m)) == 1
    ensures GeneratorPower(m, poly, i) == GeneratorPower(m, poly, i % Order(m))
    decreases i
  {
    var n := Order(m);
    OrderPositive(m);
    if i >= n {
      var k := i - n;
      PowersRepeat(m, poly, k);
      assert GeneratorPower(m, poly, i) == GeneratorPower(m, poly, k);
      PowersPeriodic(m, poly, k);
      ModAddPeriod(k, n);
      assert i % n == k % n;
    } else {
      ModSmall(i, n);
    }
  }

  /** The exponent law with the exponent reduced modulo n, as the tables
      reduce it. */
  lemma ReducedPowerProduct(m: nat, poly: nat, i: nat, j: nat)
    requires ValidParams(m, poly) && GeneratorPower(m, poly, Order(m)) == 1
    ensures MulRaw(m, poly, GeneratorPower(m, poly, i), GeneratorPower(m, poly, j)) == GeneratorPower(m, poly, (i + j) % Order(m))
  {
    MulRawOfPowers(m, poly, i, j);
    PowersPeriodic(m, poly, i + j);
  }

  /** x^((i - j) mod n) is the quotient x^i / x^j. */
  lemma QuotientOfPowers(m: nat, poly: nat, i: nat, j: nat)
    requires ValidParams(m, poly) && GeneratorPower(m, poly, Order(m)) == 1
    requires i < Order(m)
    ensures 0 <= (i - j) % Order(m)
    ensures MulRaw(m, poly, GeneratorPower(m, poly, (i - j) % Order(m)), GeneratorPower(m, poly, j)) == GeneratorPower(m, poly, i)
  {
    var n := Order(m);
    OrderPositive(m);
    var d: nat := (i - j) % n;
    assert (d + j) % n == i by { ModDiffAdd(i, j, n); }
    ReducedPowerProduct(m, poly, d, j);
  }

  /** x^((-i) mod n) is the inverse of x^i. */
  lemma InverseOfPower(m: nat, poly: nat, i: nat)
    requires ValidParams(m, poly) && GeneratorPower(m, poly, Order(m)) == 1
    ensures 0 <= (-(i as int)) % Order(m)
    ensures MulRaw(m, poly, GeneratorPower(m, poly, i), GeneratorPower(m, poly, (-(i as int)) % Order(m))) == 1
  {
    var n := Order(m);
    OrderPositive(m);
    var d: nat := (-(i as int)) % n;
    assert (i + d) % n == 0 by { ModNegAdd(i, n); }
    ReducedPowerProduct(m, poly, i, d);
  }

  /** The walk of a primitive polynomial has no repeats before it closes. */
  lemma PrimitiveOrbitDistinct(m: nat, poly: nat)
    requires IsPrimitive(m, poly)
    ensures OrbitDistinct(m, poly)
  {
    forall i, j | 0 <= i < j < Order(m)
      ensures GeneratorPower(m, poly, i) != GeneratorPower(m, poly, j)
    {
      EqualPowersGiveOne(m, poly, i, j);
    }
  }

  /** Two equal powers x^i == x^j, i < j, of a walk that closes at n give x^(j-i) == 1. */
  lemma EqualPowersGiveOne(m: nat, poly: nat, i: nat, j: nat)
    requires ValidParams(m, poly) && GeneratorPower(m, poly, Order(m)) == 1
    requires i < j < Order(m)
    ensures GeneratorPower(m, poly, i) == GeneratorPower(m, poly, j) ==> GeneratorPower(m, poly, j - i) == 1
  {
    var n, d := Order(m), j - i;
    PowersShift(m, poly, i, j, n - i);
    assert i + (n - i) == n && j + (n - i) == n + d;
    PowersRepeat(m, poly, d);
  }

  /** Equal powers stay equal when both exponents grow by k. */
  lemma PowersShift(m: nat, poly: nat, i: nat, j: nat, k: nat)
    requires ValidParams(m, poly)
    ensures GeneratorPower(m, poly, i) == GeneratorPower(m, poly, j) ==> GeneratorPower(m, poly, i + k) == GeneratorPower(m, poly, j + k)
  {
    MulRawOfPowers(m, poly, i, k);
    MulRawOfPowers(m, poly, j, k);
  }

  /** No power of a primitive generator is 0. */
  lemma PowersNonzero(m: nat, poly: nat, k: nat)
    requires IsPrimitive(m, poly)
    ensures GeneratorPower(m, poly, k) != 0
  {
    var n := Order(m);
    OrderPositive(m);
    var r := k % n;
    assert GeneratorPower(m, poly, k) == GeneratorPower(m, poly, r) by { PowersPeriodic(m, poly, k); }
    if GeneratorPower(m, poly, r) == 0 {
      var s := n - r;
      assert r + s == n;
      MulRawOfPowers(m, poly, r, s);
      MulRawOfZero(m, poly, GeneratorPower(m, poly, s));
      assert false;
    }
  }

  /*
   * Pigeonhole: n distinct nonzero powers below 2^m fill all n nonzero
   * elements.
   */

  /** The first c entries of s, as a set. */
  ghost function Prefix(s: seq<nat>, c: nat): set<nat>
    requires c <= |s|
  {
    if c == 0 then {} else Prefix(s, c - 1) + {s[c - 1]}
  }

  lemma {:induction false} InPrefix(s: seq<nat>, c: nat, y: nat)
    requires c <= |s|
    ensures y in Prefix(s, c) <==> exists k | 0 <= k < c :: s[k] == y
  {
    if c > 0 {
      InPrefix(s, c - 1, y);
      if y == s[c - 1] {
        assert s[c - 1] == y;
      } else if exists k | 0 <= k < c :: s[k] == y {
        var k :| 0 <= k < c && s[k] == y;
        assert k != c - 1;
      }
    }
  }

  /** c distinct entries make a set of c elements. */
  lemma {:induction false} PrefixSize(s: seq<nat>, c: nat)
    requires c <= |s|
    requires forall i, j | 0 <= i < j < |s| :: s[i] != s[j]
    ensures |Prefix(s, c)| == c
  {
    if c > 0 {
      PrefixSize(s, c - 1);
      InPrefix(s, c - 1, s[c - 1]);
    }
  }

  /** The nonzero numbers below c. */
  ghost function NonzeroBelow(c: nat): set<nat>
  {
    if c <= 1 then {} else NonzeroBelow(c - 1) + {c - 1}
  }

  lemma {:induction false} InNonzeroBelow(c: nat, x: nat)
    ensures x in NonzeroBelow(c) <==> 0 < x < c
  {
    if c > 1 {
      InNonzeroBelow(c - 1, x);
    }
  }

  lemma {:induction false} NonzeroBelowSize(c: nat)
    requires c >= 1
    ensures |NonzeroBelow(c)| == c - 1
  {
    if c > 1 {
      NonzeroBelowSize(c - 1);
      InNonzeroBelow(c - 1, c - 1);
    }
  }

  /** A subset as large as its superset is the whole superset. */
  lemma {:induction false} FullSubset(a: set<nat>, b: set<nat>)
    requires a <= b && |a| == |b|
    ensures a == b
  {
    if a != b {
      var y :| y in b && y !in a;
      assert a <= b - {y};
      SubsetSize(a, b - {y});
      assert false;
    }
  }

  lemma {:induction false} SubsetSize(a: set<nat>, b: set<nat>)
    requires a <= b
    ensures |a| <= |b|
    decreases b
  {
    if a != {} {
      var y :| y in a;
      SubsetSize(a - {y}, b - {y});
    }
  }

  /** Every nonzero element is a power of a primitive generator. */
  lemma OrbitCoversNonzero(m: nat, poly: nat, x: nat)
    requires IsPrimitive(m, poly) && 0 < x < Pow2(m)
    ensures exists k | 0 <= k < Order(m) :: GeneratorPower(m, poly, k) == x
  {
    var n := Order(m);
    var pw := Orbit(m, poly);
    var powers := Prefix(pw, n);
    forall y | y in powers
      ensures y in NonzeroBelow(Pow2(m))
    {
      InPrefix(pw, n, y);
      var k :| 0 <= k < n && pw[k] == y;
      PowersNonzero(m, poly, k);
      InNonzeroBelow(Pow2(m), y);
    }
    forall i, j | 0 <= i < j < n
      ensures pw[i] != pw[j]
    {
      PrimitiveOrbitDistinct(m, poly);
      OrbitEntry(m, poly, i);
      OrbitEntry(m, poly, j);
    }
    PrefixSize(pw, n);
    NonzeroBelowSize(Pow2(m));
    FullSubset(powers, NonzeroBelow(Pow2(m)));
    InNonzeroBelow(Pow2(m), x);
    InPrefix(pw, n, x);
    var k :| 0 <= k < n && pw[k] == x;
    assert GeneratorPower(m, poly, k) == x;
  }

  /*
   * The tables of a field built from a primitive polynomial.
   */

  /** f was built by `GaloisField(f.poly, f.m)` from a primitive polynomial. */
  ghost predicate PrimitiveField(f: Field)
  {
    Constructed(f) && IsPrimitive(f.m, f.poly)
  }

  /** If the walk has no repeats, the log table undoes the exponent table. */
  lemma LogOfExp(f: Field)
    requires Constructed(f) && OrbitDistinct(f.m, f.poly)
    ensures forall i | 0 <= i < Order(f.m) :: f.logTable[f.expTable[i]] == i
  {
    ExpTablePowers(f);
    LogTableFindsLogs(f);
    forall i | 0 <= i < Order(f.m)
      ensures f.logTable[f.expTable[i]] == i
    {
      var j := f.logTable[f.expTable[i]];
      assert f.expTable[j] == f.expTable[i];
      assert GeneratorPower(f.m, f.poly, j) == GeneratorPower(f.m, f.poly, i);
    }
  }

  /** For a primitive polynomial the exponent table undoes the log table on
      every nonzero element. */
  lemma ExpOfLog(f: Field)
    requires PrimitiveField(f)
    ensures forall x | 0 < x < f.fieldSize :: f.logTable[x] < Order(f.m) && f.expTable[f.logTable[x]] == x
  {
    ExpTablePowers(f);
    LogTableFindsLogs(f);
    forall x | 0 < x < f.fieldSize
      ensures f.logTable[x] < Order(f.m) && f.expTable[f.logTable[x]] == x
    {
      OrbitCoversNonzero(f.m, f.poly, x);
      var k :| 0 <= k < Order(f.m) && GeneratorPower(f.m, f.poly, k) == x;
      assert f.expTable[k] == x;
    }
  }
}
