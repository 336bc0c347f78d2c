/** The `GaloisField` class of main.py: construction of the exponent and log
    tables, and the table-driven queries `add`, `subtract`, `multiply`,
    `divide` and `inverse`.

    An element of GF(2^m) is a number below 2^m whose bits are the
    coefficients of a polynomial over GF(2).  The nonzero elements are walked
    as the powers of the generator 2 (the polynomial x); `expTable[i]` holds
    x^i and `logTable[x^i]` holds i.
 */
module GaloisField {
  import opened Bits
  import opened Carryless

  /** The two `ValueError`s the queries raise. */
  datatype FieldError = DivisionByZero | ZeroHasNoInverse

  /** The outcome of a query that may raise. */
  datatype Result<T> = Success(value: T) | Failure(error: FieldError)

  /** A constructed field: its parameters, `field_size` = 2^m, and the two tables. */
  datatype Field = Field(m: nat, poly: nat, fieldSize: nat, expTable: seq<nat>, logTable: seq<nat>)
  {
    /** The shape every constructed field has: 2 * field_size exponent
        entries, field_size log entries, elements below field_size and
        logarithms below field_size - 1. */
    predicate WellFormed()
    {
      && m >= 1
      && fieldSize == Pow2(m)
      && |expTable| == 2 * fieldSize
      && |logTable| == fieldSize
      && (forall k | 0 <= k < |expTable| :: expTable[k] < fieldSize)
      && (forall y | 0 <= y < |logTable| :: logTable[y] < fieldSize - 1)
    }
  }

  /** The number of nonzero elements, `field_size - 1`: the length of the
      generator's walk and the modulus of every logarithm. */
  function Order(m: nat): nat
  {
    Pow2(m) - 1
  }

  /** x^i: the value of `x` after i turns of the construction loop, each
      `x = _multiply_without_tables(x, 2)`, starting from 1. */
  function GeneratorPower(m: nat, poly: nat, i: nat): (r: nat)
    ensures ValidParams(m, poly) ==> r < Pow2(m)
  {
    if i == 0 then 1 else MulRaw(m, poly, GeneratorPower(m, poly, i - 1), 2)
  }

  /** x^0 .. x^(n-1): the walk of the generator that the construction records. */
  function Orbit(m: nat, poly: nat): (pw: seq<nat>)
    requires ValidParams(m, poly)
    ensures |pw| == Order(m)
    ensures forall k | 0 <= k < |pw| :: pw[k] < Pow2(m)
  {
    seq(Order(m), k requires 0 <= k => GeneratorPower(m, poly, k))
  }

  lemma OrbitEntry(m: nat, poly: nat, k: nat)
    requires ValidParams(m, poly) && k < Order(m)
    ensures Orbit(m, poly)[k] == GeneratorPower(m, poly, k)
  {
  }

  /** The construction loop of `__init__` from turn i on, with `x` the
      current power and `exp`, `log` the tables built so far. */
  function BuildFrom(m: nat, poly: nat, i: nat, x: nat, exp: seq<nat>, log: seq<nat>): (tables: (seq<nat>, seq<nat>))
    requires ValidParams(m, poly)
    requires i <= Order(m) && x < Pow2(m)
    requires |exp| == 2 * Pow2(m) && |log| == Pow2(m)
    ensures |tables.0| == |exp| && |tables.1| == |log|
    decreases Order(m) - i
  {
    var n := Order(m);
    if i == n then (exp, log)
    else BuildFrom(m, poly, i + 1, MulRaw(m, poly, x, 2), exp[i := x][i + n := x], log[x := i])
  }

  /** `GaloisField(primitive_poly, m)`: both tables start as zeros and the
      loop runs `field_size - 1` turns. */
  function NewField(m: nat, poly: nat): (f: Field)
    requires ValidParams(m, poly)
    ensures f.m == m && f.poly == poly && f.fieldSize == Pow2(m)
    ensures f.WellFormed()
  {
    var fs := Pow2(m);
    var exp0: seq<nat> := seq(2 * fs, _ => 0);
    var log0: seq<nat> := seq(fs, _ => 0);
    var tables := BuildFrom(m, poly, 0, 1, exp0, log0);
    BuildMeetsStages(m, poly);
    Field(m, poly, fs, tables.0, tables.1)
  }

  /*
   * What the construction loop has written after its first i turns, stated
   * over the walk `pw` of the generator.
   */

  /** Entry k of the exponent table after i turns: pw[k] in the first half,
      pw[k - n] in the second, and still 0 where the loop has not written. */
  function ExpEntry(pw: seq<nat>, i: nat, k: nat): nat
    requires i <= |pw|
  {
    var n := |pw|;
    if k < i then pw[k]
    else if n <= k < n + i then pw[k - n]
    else 0
  }

  ghost predicate ExpStage(pw: seq<nat>, i: nat, exp: seq<nat>)
    requires i <= |pw|
  {
    |exp| == 2 * (|pw| + 1) && forall k | 0 <= k < |exp| :: exp[k] == ExpEntry(pw, i, k)
  }

  /** After i turns, every visited power pw[k] has a log entry j < i with
      pw[j] == pw[k], and every entry is a valid logarithm. */
  ghost predicate LogStage(pw: seq<nat>, i: nat, log: seq<nat>)
    requires i <= |pw|
  {
    && (forall y | 0 <= y < |log| :: log[y] < |pw|)
    && (forall k | 0 <= k < i :: pw[k] < |log| && log[pw[k]] < i && pw[log[pw[k]]] == pw[k])
  }

  lemma ExpTurn(pw: seq<nat>, i: nat, exp: seq<nat>)
    requires i < |pw| && ExpStage(pw, i, exp)
    ensures ExpStage(pw, i + 1, exp[i := pw[i]][i + |pw| := pw[i]])
  {
    var exp' := exp[i := pw[i]][i + |pw| := pw[i]];
    forall k | 0 <= k < |exp'|
      ensures exp'[k] == ExpEntry(pw, i + 1, k)
    {
      assert exp[k] == ExpEntry(pw, i, k);
    }
  }

  lemma LogTurn(pw: seq<nat>, i: nat, log: seq<nat>)
    requires i < |pw| && pw[i] < |log| && LogStage(pw, i, log)
    ensures LogStage(pw, i + 1, log[pw[i] := i])
  {
    var log' := log[pw[i] := i];
    forall k | 0 <= k < i + 1
      ensures pw[k] < |log'| && log'[pw[k]] < i + 1 && pw[log'[pw[k]]] == pw[k]
    {
      if pw[k] != pw[i] {
        assert log'[pw[k]] == log[pw[k]];
      }
    }
  }

  lemma {:induction false} BuildReachesFinalStage(m: nat, poly: nat, i: nat, x: nat, exp: seq<nat>, log: seq<nat>)
    requires ValidParams(m, poly)
    requires i <= Order(m) && x == GeneratorPower(m, poly, i)
    requires |exp| == 2 * Pow2(m) && |log| == Pow2(m)
    requires ExpStage(Orbit(m, poly), i, exp) && LogStage(Orbit(m, poly), i, log)
    ensures ExpStage(Orbit(m, poly), Order(m), BuildFrom(m, poly, i, x, exp, log).0)
    ensures LogStage(Orbit(m, poly), Order(m), BuildFrom(m, poly, i, x, exp, log).1)
    decreases Order(m) - i
  {
    var n, pw := Order(m), Orbit(m, poly);
    if i < n {
      var x', exp', log' := MulRaw(m, poly, x, 2), exp[i := x][i + n := x], log[x := i];
      assert x' == GeneratorPower(m, poly, i + 1);
      var rest := BuildFrom(m, poly, i + 1, x', exp', log');
      assert ExpStage(pw, n, rest.0) && LogStage(pw, n, rest.1) by {
        assert x == pw[i] && n == |pw| by { OrbitEntry(m, poly, i); }
        ExpTurn(pw, i, exp);
        LogTurn(pw, i, log);
        BuildReachesFinalStage(m, poly, i + 1, x', exp', log');
      }
      assert BuildFrom(m, poly, i, x, exp, log) == rest;
    }
  }

  /** The tables of a constructed field, described entry by entry over the
      generator's walk. */
  lemma BuildMeetsStages(m: nat, poly: nat)
    requires ValidParams(m, poly)
    ensures ExpStage(Orbit(m, poly), Order(m), BuildFrom(m, poly, 0, 1, seq(2 * Pow2(m), _ => 0), seq(Pow2(m), _ => 0)).0)
    ensures LogStage(Orbit(m, poly), Order(m), BuildFrom(m, poly, 0, 1, seq(2 * Pow2(m), _ => 0), seq(Pow2(m), _ => 0)).1)
  {
    var fs := Pow2(m);
    var exp0: seq<nat> := seq(2 * fs, _ => 0);
    var log0: seq<nat> := seq(fs, _ => 0);
    assert Pow2(m) == 2 * Pow2(m - 1);
    assert ExpStage(Orbit(m, poly), 0, exp0);
    BuildReachesFinalStage(m, poly, 0, 1, exp0, log0);
  }

  /*
   * The tables of a constructed field.
   */

  /** f is the field `GaloisField(f.poly, f.m)` builds. */
  ghost predicate Constructed(f: Field)
  {
    ValidParams(f.m, f.poly) && f == NewField(f.m, f.poly)
  }

  /** Both halves of the exponent table hold the generator's walk. */
  lemma ExpTablePowers(f: Field)
    requires Constructed(f)
    ensures forall i | 0 <= i < Order(f.m) ::
      f.expTable[i] == GeneratorPower(f.m, f.poly, i) && f.expTable[i + Order(f.m)] == GeneratorPower(f.m, f.poly, i)
  {
    var pw := Orbit(f.m, f.poly);
    BuildMeetsStages(f.m, f.poly);
    forall i | 0 <= i < Order(f.m)
      ensures f.expTable[i] == GeneratorPower(f.m, f.poly, i)
      ensures f.expTable[i + Order(f.m)] == GeneratorPower(f.m, f.poly, i)
    {
      OrbitEntry(f.m, f.poly, i);
      assert f.expTable[i] == ExpEntry(pw, Order(f.m), i);
      assert f.expTable[i + Order(f.m)] == ExpEntry(pw, Order(f.m), i + Order(f.m));
    }
  }

  /** The walk starts at the generator's zeroth power, 1. */
  lemma ExpTableStartsAtOne(f: Field)
    requires Constructed(f)
    ensures f.expTable[0] == 1
  {
    ExpTablePowers(f);
  }

  /** Each entry of the first half is the previous one multiplied by 2 with
      `_multiply_without_tables`. */
  lemma ExpTableSteps(f: Field)
    requires Constructed(f)
    ensures forall i | 0 <= i && i + 1 < Order(f.m) ::
      f.expTable[i + 1] == MulRaw(f.m, f.poly, f.expTable[i], 2)
  {
    ExpTablePowers(f);
    forall i | 0 <= i && i + 1 < Order(f.m)
      ensures f.expTable[i + 1] == MulRaw(f.m, f.poly, f.expTable[i], 2)
    {
      assert f.expTable[i + 1] == GeneratorPower(f.m, f.poly, i + 1);
    }
  }

  /** The second half repeats the first, and the last two entries are never
      written. */
  lemma ExpTableRepeats(f: Field)
    requires Constructed(f)
    ensures forall i | 0 <= i < Order(f.m) :: f.expTable[i + Order(f.m)] == f.expTable[i]
    ensures f.expTable[2 * f.fieldSize - 2] == 0 && f.expTable[2 * f.fieldSize - 1] == 0
  {
    ExpTablePowers(f);
    BuildMeetsStages(f.m, f.poly);
    var pw := Orbit(f.m, f.poly);
    assert f.expTable[2 * f.fieldSize - 2] == ExpEntry(pw, Order(f.m), 2 * f.fieldSize - 2);
    assert f.expTable[2 * f.fieldSize - 1] == ExpEntry(pw, Order(f.m), 2 * f.fieldSize - 1);
  }

  /** Whatever the polynomial, the log table maps every element the walk
      reaches to an exponent of it: exp[log[exp[i]]] == exp[i]. */
  lemma LogTableFindsLogs(f: Field)
    requires Constructed(f)
    ensures forall i | 0 <= i < Order(f.m) ::
      f.logTable[f.expTable[i]] < Order(f.m) && f.expTable[f.logTable[f.expTable[i]]] == f.expTable[i]
  {
    ExpTablePowers(f);
    BuildMeetsStages(f.m, f.poly);
    var pw := Orbit(f.m, f.poly);
    forall i | 0 <= i < Order(f.m)
      ensures f.logTable[f.expTable[i]] < Order(f.m) && f.expTable[f.logTable[f.expTable[i]]] == f.expTable[i]
    {
      OrbitEntry(f.m, f.poly, i);
      var j := f.logTable[pw[i]];
      assert j < Order(f.m) && pw[j] == pw[i];
      OrbitEntry(f.m, f.poly, j);
    }
  }

  /*
   * Primitivity.  The code does not check it; the algebraic laws assume it.
   */

  /** poly is primitive: the generator x has multiplicative order exactly
      2^m - 1, so its walk visits every nonzero element once. */
  predicate IsPrimitive(m: nat, poly: nat)
  {
    && ValidParams(m, poly)
    && GeneratorPower(m, poly, Order(m)) == 1
    && forall j | 0 < j < Order(m) :: GeneratorPower(m, poly, j) != 1
  }

  /** The walk recorded by the construction has no repeats. */
  ghost predicate OrbitDistinct(m: nat, poly: nat)
  {
    forall i, j | 0 <= i < j < Order(m) :: GeneratorPower(m, poly, i) != GeneratorPower(m, poly, j)
  }

  /*
   * The queries.  Elements are numbers below field_size.
   */

  /** `add`: addition is exclusive-or, bit by bit. */
  function Add(f: Field, a: nat, b: nat): (r: nat)
    requires f.WellFormed() && a < f.fieldSize && b < f.fieldSize
    ensures r < f.fieldSize
    ensures forall k: nat :: Bit(r, k) == (Bit(a, k) + Bit(b, k)) % 2
  {
    XorBelow(a, b, f.m);
    XorBits(a, b);
    Xor(a, b)
  }

  /** `subtract`: the same exclusive-or as `add`, which undoes an addition. */
  function Subtract(f: Field, a: nat, b: nat): (r: nat)
    requires f.WellFormed() && a < f.fieldSize && b < f.fieldSize
    ensures r < f.fieldSize
    ensures Add(f, r, b) == a
  {
    XorAssociates(a, b, b);
    XorSelf(b);
    XorZero(a);
    Add(f, a, b)
  }

  /** `multiply`: 0 annihilates; otherwise add logarithms modulo field_size - 1. */
  function Multiply(f: Field, a: nat, b: nat): (r: nat)
    requires f.WellFormed() && a < f.fieldSize && b < f.fieldSize
    ensures r < f.fieldSize
    ensures a == 0 || b == 0 ==> r == 0
  {
    if a == 0 || b == 0 then 0
    else f.expTable[(f.logTable[a] + f.logTable[b]) % (f.fieldSize - 1)]
  }

  /** `divide`: dividing by 0 fails; 0 divided by anything else is 0;
      otherwise subtract logarithms, normalised into [0, field_size - 1). */
  function Divide(f: Field, a: nat, b: nat): (r: Result<nat>)
    requires f.WellFormed() && a < f.fieldSize && b < f.fieldSize
    ensures r.Failure? <==> b == 0
    ensures r.Failure? ==> r.error == DivisionByZero
    ensures r.Success? ==> r.value < f.fieldSize
    ensures b != 0 && a == 0 ==> r == Success(0)
  {
    if b == 0 then Failure(DivisionByZero)
    else if a == 0 then Success(0)
    else Success(f.expTable[(f.logTable[a] - f.logTable[b]) % (f.fieldSize - 1)])
  }

  /** `inverse`: 0 has none; otherwise negate the logarithm modulo field_size - 1. */
  function Inverse(f: Field, a: nat): (r: Result<nat>)
    requires f.WellFormed() && a < f.fieldSize
    ensures r.Failure? <==> a == 0
    ensures r.Failure? ==> r.error == ZeroHasNoInverse
    ensures r.Success? ==> r.value < f.fieldSize
  {
    if a == 0 then Failure(ZeroHasNoInverse)
    else Success(f.expTable[(-f.logTable[a]) % (f.fieldSize - 1)])
  }
}
