# GF(2^m) arithmetic with exponent and log tables

A Dafny model of the `GaloisField` class in `main.py`. An element of GF(2^m) is a
number below `field_size` = 2^m. Its bits are the coefficients of a polynomial
over GF(2). The constructor does the following:

- It walks the powers of the generator 2 (the polynomial x), using the
  shift-and-add routine `_multiply_without_tables`, which reduces by
  `primitive_poly`.
- It records each power x^i in `exp_table` at indices i and i + field_size - 1.
- It records i in `log_table[x^i]`.

`add` and `subtract` are exclusive-or. `multiply`, `divide` and `inverse` add,
subtract or negate logarithms modulo field_size - 1 and look the result up in
`exp_table`. `divide` by 0 and `inverse` of 0 raise `ValueError`.

The model has these modules:

- `Bits` (bits.dfy) covers Python's unbounded ints as `nat`. It defines 2^k,
  bit k, and exclusive-or defined bit by bit, plus the algebra of `^` (identity,
  self-inverse, commutativity, associativity, closure below 2^k).
- `Carryless` (carryless.dfy) models `_multiply_without_tables`. `MulLoop` and
  `MulRaw` are the loop as a recursive function, and `MultiplyWithoutTables` is
  the same loop as a `while` method. Its lemmas cover the bound the loop keeps
  on `a` and the algebra of the raw product: it is linear in both arguments,
  commutes with a shift-and-reduce step on either side, and sends the modulus
  to 0. None of these lemmas assumes primitivity.
- `GaloisField` (galois_field.dfy) holds `Field`, the construction (`BuildFrom`,
  `NewField`), the table facts every construction satisfies, and the five
  queries. `Divide` and `Inverse` return a `Result`, and the two `ValueError`s
  become `Failure(DivisionByZero)` and `Failure(ZeroHasNoInverse)`.
- `Modular` (modular.dfy) holds facts about `%` with a positive modulus.
  Dafny's Euclidean `%` and Python's `%` agree there, so the index
  normalisation `(...) % (field_size - 1)` carries over unchanged.
- `Primitivity` (primitive.dfy) proves facts about the generator's powers.
  Each lemma needs a different hypothesis:
  - the exponent law x^i · x^j = x^(i+j) (`MulRawOfPowers`) needs only a
    polynomial of degree m;
  - periodicity (`PowersPeriodic`) needs only x^(2^m - 1) = 1;
  - `log_table[exp_table[i]] == i` (`LogOfExp`) needs only a walk without
    repeats;
  - distinctness, that no power is zero, and that the walk covers every
    nonzero element (a pigeonhole argument) need `IsPrimitive`: x has
    multiplicative order exactly 2^m - 1. So does
    `exp_table[log_table[x]] == x` (`ExpOfLog`).
- `FieldLaws` (field_laws.dfy) holds the field axioms of the table queries. For
  a primitive polynomial, the log-table `multiply` equals the shift-and-add
  product (`MultiplyMatchesMulRaw`). Associativity, distributivity, identity,
  inverses, cancellation and the division round trip follow from that.
- `Gf16` (gf16.dfy) is the example field, GF(2^4) with `0b10011` (x^4 + x + 1):
  - the walk, its primitivity, and both tables, evaluated on constants;
  - the example's answers for a = 11 and b = 13;
  - the field laws instantiated for all its elements.

The values the code computes for the example are 11 + 13 = 6, 11 · 13 = 6,
11 / 13 = 10 and inverse(11) = 5.

## Model

| member | source | states |
|---|---|---|
| Bits.Xor | main.py:43 | Python's `^` on nonnegative ints, built bit by bit from the low end; it has no ensures of its own, and its meaning comes from `XorBit` (bit k of the result is the sum of the operands' bits k mod 2) and the algebra lemmas `XorZero`, `XorSelf`, `XorCommutes` and `XorAssociates` |
| Carryless.ShiftReduce | main.py:35-37 | one `a <<= 1` followed by `if a & field_size: a ^= primitive_poly`; it has no ensures of its own, and its meaning comes from `ShiftReduceStaysBelow`, `MulRawShiftLeft` and `MulRawByX`, which name it |
| Carryless.MulRaw | main.py:29-39 | `_multiply_without_tables(a, b)` as the loop `MulLoop` started from a zero accumulator; it has no ensures of its own, and its meaning comes from `MultiplyWithoutTables` (the loop computes it, below 2^m for an element `a`), the `MulRaw*` lemmas and `ModulusVanishes` |
| Carryless.MultiplyWithoutTables | main.py:29-39 | the loop's result is the shift-and-add product `MulRaw` of its arguments, and it stays below 2^m when `a` does and `primitive_poly` has bit m as its top bit |
| Carryless.MulLoop | main.py:31-39 | from any state whose `a` and accumulator are below 2^m, the rest of the loop ends below 2^m |
| Carryless.ShiftReduceStaysBelow | main.py:35-37 | one `a <<= 1` followed by the conditional reduction keeps `a` below 2^m |
| Carryless.MulLoopAccumulates | main.py:31-39 | running the loop from accumulator `acc` gives `acc` exclusive-or the product computed from 0 |
| Carryless.MulRawLinearRight | main.py:29-39 | the raw product distributes over exclusive-or in its second argument |
| Carryless.MulRawLinearLeft | main.py:29-39 | the raw product distributes over exclusive-or in its first argument |
| Carryless.MulRawShiftLeft | main.py:35-37 | shift-and-reducing the first factor shift-and-reduces the product |
| Carryless.ModulusVanishes | main.py:36-37 | any element times `primitive_poly` is 0: the modulus reduces to nothing |
| Carryless.MulRawShiftRight | main.py:29-39 | for an element `a`, multiplying by a shift-and-reduced second factor shift-and-reduces the product |
| Carryless.MulRawByX | main.py:27 | multiplying by 2, as the constructor does, is one shift-and-reduce step |
| GaloisField.NewField | main.py:14-27 | the constructor keeps `m` and the polynomial, sets `field_size` = 2^m, and builds a 2·field_size exponent table and a field_size log table whose entries are elements and logarithms below field_size - 1 |
| GaloisField.GeneratorPower | main.py:22-27 | x^i, the value of `x` after i turns of the loop: it starts at 1, each turn multiplies by 2 with `_multiply_without_tables`, and it stays below field_size for a polynomial of degree m |
| GaloisField.BuildFrom | main.py:23-27 | the loop from turn i on, writing `exp_table[i]`, `exp_table[i + field_size - 1]` and `log_table[x]` each turn; it keeps both table lengths, and what the tables hold at the end is `ExpTablePowers`, `ExpTableRepeats` and `LogTableFindsLogs` |
| GaloisField.ExpTablePowers | main.py:22-27 | both copies of the walk hold x^i: `exp_table[i]` and `exp_table[i + field_size - 1]` are the i-th power for every i < field_size - 1 |
| GaloisField.ExpTableStartsAtOne | main.py:22-24 | `exp_table[0] == 1` |
| GaloisField.ExpTableSteps | main.py:23-27 | `exp_table[i+1] == _multiply_without_tables(exp_table[i], 2)` for i + 1 < field_size - 1 |
| GaloisField.ExpTableRepeats | main.py:19-25 | the second half repeats the first, `exp_table[i + field_size - 1] == exp_table[i]`, and the entries at 2·field_size - 2 and 2·field_size - 1 stay 0 |
| GaloisField.LogTableFindsLogs | main.py:23-27 | for any polynomial of degree m, primitive or not, `log_table[exp_table[i]]` is some j < field_size - 1 with `exp_table[j] == exp_table[i]` |
| GaloisField.Add | main.py:41-43 | the sum is below field_size and each bit is the sum of the operands' bits mod 2 |
| GaloisField.Subtract | main.py:45-47 | the difference is below field_size and adding b back gives a |
| GaloisField.Multiply | main.py:49-53 | a zero factor gives 0 and every product is an element |
| GaloisField.Divide | main.py:55-61 | division fails exactly when b is 0, and then with the division-by-zero error; 0 / b is 0; a quotient is an element |
| GaloisField.Inverse | main.py:63-67 | inversion fails exactly for 0, with its own error; an inverse is an element |
| Primitivity.MulRawOfPowers | main.py:22-39 | exponent law of the walk: x^i times x^j under `_multiply_without_tables` is x^(i+j), for any polynomial with top bit m |
| Primitivity.PowersPeriodic | main.py:22-27 | once x^(field_size-1) is 1, x^i equals x^(i mod (field_size - 1)) |
| Primitivity.PrimitiveOrbitDistinct | main.py:23-27 | a primitive polynomial's walk of field_size - 1 powers has no repeats |
| Primitivity.PowersNonzero | main.py:22-27 | no power of a primitive generator is 0 |
| Primitivity.OrbitCoversNonzero | main.py:23-27 | every nonzero element below field_size is some x^k with k < field_size - 1 |
| Primitivity.LogOfExp | main.py:23-27 | if the walk has no repeats, `log_table[exp_table[i]] == i` for every i < field_size - 1 |
| Primitivity.ExpOfLog | main.py:23-27 | for a primitive polynomial, `exp_table[log_table[x]] == x` for every nonzero element x, with the logarithm below field_size - 1 |
| FieldLaws.AddIdentity | main.py:41-43 | `add(a, 0) == a == add(0, a)` |
| FieldLaws.AddSelfInverse | main.py:41-43 | `add(a, a) == 0` |
| FieldLaws.AddCommutes | main.py:41-43 | `add` is commutative |
| FieldLaws.AddAssociates | main.py:41-43 | `add` is associative |
| FieldLaws.SubtractIsAdd | main.py:45-47 | `subtract` returns exactly `add`, and `subtract(a, b) == d` holds exactly when `add(d, b) == a` |
| FieldLaws.LookupIndicesInRange | main.py:53-67 | the indices of `multiply`, `divide` and `inverse` all lie in [0, field_size - 1) |
| FieldLaws.MultiplyCommutes | main.py:49-53 | `multiply(a, b) == multiply(b, a)` for any tables of the constructed shape |
| FieldLaws.MultiplyMatchesMulRaw | main.py:29-53 | for a primitive polynomial, the table product equals `_multiply_without_tables(a, b)` on every pair of elements |
| FieldLaws.MultiplyIdentity | main.py:49-53 | 1 is a two-sided identity of `multiply` |
| FieldLaws.NoZeroDivisors | main.py:49-53 | a product is 0 exactly when a factor is 0 |
| FieldLaws.MultiplyAssociates | main.py:49-53 | `multiply` is associative |
| FieldLaws.MultiplyDistributes | main.py:41-53 | `multiply` distributes over `add` |
| FieldLaws.InverseLaw | main.py:63-67 | for nonzero a, `inverse(a)` succeeds and `multiply(a, inverse(a)) == 1` |
| FieldLaws.MultiplyCancels | main.py:49-53 | a nonzero factor cancels: `multiply(q, b) == multiply(r, b)` exactly when q == r |
| FieldLaws.DivideRoundTrip | main.py:55-61 | for nonzero b, `divide(a, b)` succeeds and `multiply(divide(a, b), b) == a` |
| FieldLaws.DivideUnique | main.py:55-61 | for nonzero b, `divide(a, b)` is q exactly when `multiply(q, b) == a` |
| FieldLaws.InverseIsQuotient | main.py:55-67 | `inverse(a) == divide(1, a)`, and it is v exactly when `multiply(a, v) == 1` |
| Gf16.Walk | main.py:22-27 | under `0b10011` the walk is 1, 2, 4, 8, 3, 6, 12, 11, 5, 10, 7, 14, 15, 13, 9 and returns to 1 at step 15 |
| Gf16.PolyIsPrimitive | main.py:71 | `0b10011` is primitive for m = 4 |
| Gf16.Example | main.py:71 | the example field is built from a primitive polynomial and has 16 elements |
| Gf16.ExampleExpTable | main.py:19-27 | the example's exponent table, all 32 entries |
| Gf16.ExampleLogTable | main.py:20-26 | the example's log table on the 15 nonzero elements |
| Gf16.ExampleProducts | main.py:29-39 | `_multiply_without_tables` gives 11·13 = 6, 10·13 = 11 and 11·5 = 1 |
| Gf16.ExampleAdd | main.py:41-47 | 11 + 13 = 11 - 13 = 6 |
| Gf16.ExampleMultiply | main.py:49-53 | 11 · 13 = 6 |
| Gf16.ExampleDivide | main.py:55-61 | 11 / 13 = 10, and dividing by 0 fails |
| Gf16.ExampleInverse | main.py:63-67 | inverse(11) = 5, and inverting 0 fails |
| Gf16.ExampleLaws | main.py:41-67 | for all elements of the example field: `add` and `multiply` commute, `multiply` is associative and distributes over `add`, 1 is a left identity (`1 · a == a`), every nonzero element has an inverse, and division by a nonzero element round-trips |

## Left out

- `example_usage` and the `__main__` guard (main.py:69-82) only print. Their
  values are the `Gf16.Example*` lemmas.
- The unused `mask` attribute (main.py:17) is not modelled.
- Nothing checks that `primitive_poly` is primitive, and neither does the code.
  `IsPrimitive` (x has order exactly 2^m - 1) is a hypothesis of the
  multiplicative laws. The table facts in `GaloisField` hold without it.
- GaloisField.NewField requires m ≥ 1 and `primitive_poly` with bit m as its
  top bit (2^m ≤ poly < 2^(m+1)). For m ≥ 2 and other polynomials the Python
  constructor can fail with an `IndexError` when a power reaches field_size.
  For m = 1 the loop at main.py:23-27 runs once and never indexes with a
  reduced value, so the code accepts every polynomial; the model still
  excludes polynomials outside [2, 4) there. For m = 0 the field has the single
  element 0: `multiply` of two elements returns 0 early, and only a negative
  operand reaches the `% 0` at main.py:53 (a positive one raises `IndexError`
  first). None of these cases is modelled.
- GaloisField.Add, GaloisField.Subtract, GaloisField.Multiply,
  GaloisField.Divide and GaloisField.Inverse require their operands to be
  elements, that is, below field_size. The code does not check this, and for
  other ints it can index past `log_table` or return non-elements.
- The text of the two `ValueError` messages is not modelled. The two
  `FieldError` constructors stand for them.
- Memory and running time for large m are not modelled. Python's unbounded
  ints match `nat`, so there is no wrap-around to model.
