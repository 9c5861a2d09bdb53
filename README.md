# cpp-snippets in Dafny: remainders, modular arithmetic and a random-access map

This project models three C++ snippets and proves what each one promises.

- **Remainder conventions** (`modulo.dfy`). C++'s `%` on `int64_t` truncates, so the remainder
  takes the sign of the dividend. The model also covers the floored remainder, which takes the
  sign of the divisor, and the Euclidean remainder, which is never negative. It covers the
  shortcut for b > 0 and the `uint64_t` case too. For each convention the model proves the
  defining properties: `a == b * q + r`, `|r| < |b|` and the sign rule. It also proves the
  identities between the conventions and ties each one to Dafny's own Euclidean `%`.
- **Modular arithmetic in Z_n** (`modular_arithmetic.dfy`, `fermat.dfy`). Covered are
  reduction into Z_n, and addition, subtraction, increment, decrement and additive inverse on
  `uint64_t`. The `uint64_t` operations never let an intermediate value overflow. Reduction
  into Z_n takes an `int64_t`, and its inner sum can overflow; see "## Findings". Also covered are the
  double-and-add multiplication, square-and-multiply exponentiation, the Fermat inverse
  modulo a prime, and the extended Euclidean algorithm. The loops are `while` loops with
  invariants. For the inverse, the model proves Fermat's little theorem from scratch. The route
  is Euclid's lemma, the binomial theorem, and p dividing C(p, k).
- **RandomAccessUnorderedMap** (`random_access_map.dfy`). This is a key–value container. It
  keeps a dense store of `{key, value}` entries and an index from each key to its slot. Removal
  moves the last entry into the freed slot ("swap and pop"), so a uniformly drawn slot is a
  uniformly drawn key. The container is a class whose two fields are updated in place. Each
  method is proved against a function on `Table` values. That function has lemmas of its own:
  the invariant is kept, the abstract map changes as a map should, and the moved slots are
  pinned down. The demonstration in the source's `main` is replayed as a verified method
  (`Demonstration`), and every one of its `assert`s holds for every random draw.

Shared modules:

- `cpp_int.dfy` models C++'s truncating `/` and `%` over Dafny's unbounded `int`. It also
  defines the `int64`/`uint64` ranges, two's-complement wrap-around (`Wrap64`) and the
  signed-to-unsigned conversion (`ToUint64`).
- `number_theory.dfy` holds facts about remainders, powers and divisibility. It also defines a
  reference `Gcd`, with its two defining properties proved.

Where the source has undefined behaviour, the model says so:

- In the two as-written functions (`ModAsWritten`, `EuclideanModuloNaturalAsWritten`), signed
  overflow is modelled as two's-complement wrap-around, which is what common hardware does.
  Elsewhere, intermediates are unbounded integers; "## Left out" lists where that matters.
- Division by zero is excluded by a precondition, as the source's `assert`s exclude it.

## Model

| member | source | states |
|---|---|---|
| CppInt.TruncRem | modulo_main.cpp:18-22 | C++ `a % b`: `|r| < |b|`, and r is 0 or has the sign of a |
| CppInt.TruncDivRoundsTowardZero | modulo_main.cpp:19-22 | C++ `a / b` rounds toward zero: its magnitude is `|a| / |b|` rounded down, its sign is the sign of the exact quotient, and it is Dafny's `/` for a >= 0, b > 0 |
| CppInt.ShiftedRemainder | modulo_main.cpp:78-82 | without overflow, `((a % b) + b) % b` in C++'s terms is the Euclidean residue |
| CppInt.Wrap64 | modular_arithmetic_main.cpp:15-15 | two's-complement wrap-around into `int64_t`: congruent to x modulo 2^64, and equal to x when x is in range |
| CppInt.ToUint64 | modular_arithmetic_main.cpp:15-15 | the conversion to `uint64_t` on return: congruent modulo 2^64, identity on [0, 2^64), plus 2^64 on negatives |
| CppInt.TruncDivision | modulo_main.cpp:13-20 | C++'s `/` and `%` satisfy `b * (a / b) + a % b == a` |
| Modulo.SignsDiffer | modulo_main.cpp:54-54 | `(a ^ b) < 0`, computed as the exclusive or of the two sign bits, holds exactly when a and b have different signs |
| Modulo.SignBit | modulo_main.cpp:54-54 | the sign bit of an `int64_t` is 1 exactly for negative values |
| Modulo.ModuloTruncated | modulo_main.cpp:29-38 | the result r satisfies `a == b * trunc(a/b) + r`, `|r| < |b|`, and r is 0 or has a's sign; b == -1 gives 0 without dividing |
| Modulo.TruncatedReference | modulo_main.cpp:18-38 | the truncated remainder is Dafny's `a % b` when a >= 0 or b divides a, and `a % b - |b|` otherwise |
| Modulo.ModuloFloored | modulo_main.cpp:40-55 | `|r| < |b|`, b divides `a - r`, and r is 0 or has b's sign |
| Modulo.FlooredReference | modulo_main.cpp:40-55 | the floored remainder is Dafny's `a % b` when b > 0 or b divides a, and `a % b + b` otherwise |
| Modulo.FlooredFromTruncated | modulo_main.cpp:47-55 | the floored remainder is the truncated one plus b exactly when it is non-zero and the signs of a and b differ (the source's `(a ^ b) < 0` test) |
| Modulo.RemainderBySign | modulo_main.cpp:13-16 | `|r| < |b|`, `a ≡ r (mod b)` and a sign rule determine r uniquely |
| Modulo.EuclideanModulo | modulo_main.cpp:57-75 | `0 <= m < |b|`, b divides `a - m`, and m is Dafny's `a % b`; b == -1 gives 0 |
| Modulo.FlooredIsEuclideanForPositiveDivisor | modulo_main.cpp:47-75 | for b > 0 the floored and the Euclidean remainder coincide |
| Modulo.EuclideanModuloNatural | modulo_main.cpp:77-82 | corrected version: for b > 0, `0 <= r < b`, r is `a % b`, and r equals EuclideanModulo(a, b) |
| Modulo.EuclideanModuloNaturalAsWritten | modulo_main.cpp:78-82 | the source's `((a % b) + b) % b` with `int64_t` wrap-around; whenever the inner sum does not overflow it is the Euclidean residue |
| Modulo.EuclideanModuloNaturalAsWrittenAgrees | modulo_main.cpp:78-82 | for 0 < b <= 2^62 the source's `((a % b) + b) % b` gives the Euclidean residue |
| Modulo.EuclideanModuloNaturalAsWrittenOverflows | modulo_main.cpp:78-82 | for a = 2^62, b = 2^62 + 1 the inner sum exceeds INT64_MAX; the expression gives -(2^62 - 2), while the residue is 2^62 |
| Modulo.EuclideanModuloAllNatural | modulo_main.cpp:84-91 | on `uint64_t`, `r < b` and r is the Euclidean residue |
| Modulo.ConventionsAgreeOnNaturals | modulo_main.cpp:84-91 | for a >= 0 and b > 0 all five functions agree |
| Modulo.DivisorMinusOne | modulo_main.cpp:32-36 | for b == -1 all three conventions answer 0, INT64_MIN included |
| Modulo.Examples | modulo_main.cpp:8-26 | 21 % 4 == 1, -21 % 4 == -1, Euclidean -21 mod 4 == 3, floored (21, -4) == -3 and (-21, 4) == 3 |
| ModularArithmetic.Mod | modular_arithmetic_main.cpp:10-16 | corrected version: for n > 0, `r < n`, n divides `a - r`, and r is `a % n` |
| ModularArithmetic.ModAsWritten | modular_arithmetic_main.cpp:12-16 | the source's `((a % n) + n) % n` with `int64_t` wrap-around and the `uint64_t` return; whenever the inner sum does not overflow it is Mod(a, n) |
| ModularArithmetic.ModAsWrittenAgrees | modular_arithmetic_main.cpp:12-16 | for 0 < n <= 2^62, `((a % n) + n) % n` is the Euclidean residue |
| ModularArithmetic.ModAsWrittenOverflows | modular_arithmetic_main.cpp:12-16 | for a = 2^62, n = 2^62 + 1 the expression gives 2^64 - 2^62 + 2, which is not below n; the residue is 2^62 |
| ModularArithmetic.ModPos | modular_arithmetic_main.cpp:18-24 | `r < n` and r is a mod n |
| ModularArithmetic.ModAdd | modular_arithmetic_main.cpp:26-43 | for a, b in Z_n, the result is `(a + b) % n` with no intermediate above 2^64 |
| ModularArithmetic.ModSubtract | modular_arithmetic_main.cpp:45-61 | for a, b in Z_n, the result is `(a - b) mod n` |
| ModularArithmetic.ModIncrement | modular_arithmetic_main.cpp:63-76 | `(a + 1) % n` |
| ModularArithmetic.ModDecrement | modular_arithmetic_main.cpp:78-94 | `(a - 1) mod n` |
| ModularArithmetic.ModAdditiveInverse | modular_arithmetic_main.cpp:96-112 | `r < n` and `a + r ≡ 0 (mod n)` |
| ModularArithmetic.AddInverseIsZero | modular_arithmetic_main.cpp:96-98 | `mod_add(a, mod_additive_inverse(a, n), n) == 0` |
| ModularArithmetic.SubtractIsAddInverse | modular_arithmetic_main.cpp:47-112 | subtracting b is adding the additive inverse of b |
| ModularArithmetic.AddSubtractRoundTrip | modular_arithmetic_main.cpp:28-94 | subtraction undoes addition; decrement and increment undo each other |
| ModularArithmetic.MultiplyStep | modular_arithmetic_main.cpp:128-136 | one double-and-add round keeps `product + a * b` fixed modulo n |
| ModularArithmetic.ModMultiply | modular_arithmetic_main.cpp:114-138 | for a, b in Z_n the result is `(a * b) % n` |
| ModularArithmetic.ModSqr | modular_arithmetic_main.cpp:140-146 | `(a * a) % n` |
| ModularArithmetic.PowerStep | modular_arithmetic_main.cpp:163-175 | one square-and-multiply round keeps `y * z^e` fixed modulo n |
| ModularArithmetic.ModPower | modular_arithmetic_main.cpp:148-178 | e == 0 gives 1; otherwise the result is `a^e % n` |
| ModularArithmetic.ModMultiplicativeInverse | modular_arithmetic_main.cpp:180-188 | the result is `a^(n-2) % n`; for prime n and a != 0 it satisfies `(a * r) % n == 1` |
| ModularArithmetic.EuclidStep | modular_arithmetic_main.cpp:198-211 | one Euclid round yields the C++ remainder, keeps the Bézout relation and the gcd, and shrinks the remainder |
| ModularArithmetic.ExtendedGreatestCommonDivisor | modular_arithmetic_main.cpp:190-218 | `|a*tu1 + n*tu2|` is gcd(|a|, |n|), and u3 is that value; for non-negative inputs it is the gcd; when it is 1, `a * tu1 ≡ 1 (mod n)` |
| Fermat.FermatLittle | modular_arithmetic_main.cpp:180-182 | for prime p and 0 < a < p, `a^(p-1) % p == 1` |
| Fermat.FermatInverse | modular_arithmetic_main.cpp:180-182 | for prime p and 0 < a < p, `(a * (a^(p-2) % p)) % p == 1` |
| NumberTheory.GcdDivides | modular_arithmetic_main.cpp:190-190 | the reference Gcd divides both arguments |
| NumberTheory.GcdGreatest | modular_arithmetic_main.cpp:190-190 | every common divisor divides the reference Gcd |
| RandomAccessMap.Swap | random_access_unordered_map_main.cpp:97-97 | `std::swap` of two slots: both are exchanged and nothing else changes |
| RandomAccessMap.MapInsert | random_access_unordered_map_main.cpp:101-101 | `unordered_map::insert` leaves an existing entry untouched and otherwise adds the key |
| RandomAccessMap.KeysDistinct | random_access_unordered_map_main.cpp:13-14 | under the invariant, no two slots hold the same key |
| RandomAccessMap.ConsistentSize | random_access_unordered_map_main.cpp:128-129 | under the invariant, the index has exactly as many keys as the store has entries |
| RandomAccessMap.OneSlotPerKey | random_access_unordered_map_main.cpp:18-21 | each live key occupies exactly one slot, so a uniform slot is a uniform key |
| RandomAccessMap.RemoveCorrect | random_access_unordered_map_main.cpp:81-108 | remove keeps the invariant, removes exactly that key from the abstract map, and shrinks the store by one exactly when the key was present |
| RandomAccessMap.RemoveLastConsistent | random_access_unordered_map_main.cpp:90-93 | removing the entry in the last slot keeps the invariant |
| RandomAccessMap.RemoveSwapConsistent | random_access_unordered_map_main.cpp:94-104 | swap, pop and re-index keep the invariant |
| RandomAccessMap.RemoveView | random_access_unordered_map_main.cpp:81-108 | remove changes the abstract map only by dropping the key |
| RandomAccessMap.RemoveMoves | random_access_unordered_map_main.cpp:88-106 | exactly which slots and index entries remove moves, and where it moves them |
| RandomAccessMap.RemoveIdempotent | random_access_unordered_map_main.cpp:81-108 | removing a key twice is removing it once |
| RandomAccessMap.RemoveAliasedAsWritten | random_access_unordered_map_main.cpp:94-106 | remove of a non-last slot i whose key argument is a reference to that slot's key: the store shrinks by one and slot i holds the moved last entry, whose key is erased from the index, while the key meant for removal stays indexed; the result is never consistent |
| RandomAccessMap.RemoveAliasedBreaksInvariant | random_access_unordered_map_main.cpp:81-108 | removing through a reference to slot 0 of a two-entry store leaves key 0 indexed and drops key 1: the invariant breaks |
| RandomAccessMap.RemoveBySlotCopied | random_access_unordered_map_main.cpp:81-108 | removing slot i's key, copied out first, keeps the invariant and drops exactly that key |
| RandomAccessMap.InsertCorrect | random_access_unordered_map_main.cpp:110-119 | insert keeps the invariant, maps the key to the value with the rest unchanged, puts it in the last slot, and grows the store only for a new key |
| RandomAccessMap.AppendConsistent | random_access_unordered_map_main.cpp:115-118 | appending an entry for an absent key and indexing it keeps the invariant |
| RandomAccessMap.RandomAccessUnorderedMap.constructor | random_access_unordered_map_main.cpp:63-67 | the new container is empty and consistent |
| RandomAccessMap.RandomAccessUnorderedMap.FindIndex | random_access_unordered_map_main.cpp:27-35 | returns the key's slot exactly when the key is indexed |
| RandomAccessMap.RandomAccessUnorderedMap.Find | random_access_unordered_map_main.cpp:71-79 | returns the abstract map's value for the key, or None exactly when the key is absent |
| RandomAccessMap.RandomAccessUnorderedMap.Remove | random_access_unordered_map_main.cpp:81-108 | the new state is RemoveSpec of the old one, is consistent, and its abstract map is the old one without the key |
| RandomAccessMap.RandomAccessUnorderedMap.Insert | random_access_unordered_map_main.cpp:110-119 | the new state is InsertSpec of the old one, is consistent, and its abstract map is the old one updated at the key |
| RandomAccessMap.RandomAccessUnorderedMap.RandomKey | random_access_unordered_map_main.cpp:121-126 | the key in the drawn slot is a live key, and the draw is its slot |

## Left out

- The random number generator (`std::mt19937`, `std::random_device`, `uniform_int_distribution`)
  is not modelled. RandomKey takes the drawn slot as a parameter instead. The model proves
  that slots and live keys correspond one to one; it does not reason about probability.
- RandomAccessMap.RandomAccessUnorderedMap.RandomKey: it requires a non-empty store. The
  source would call `uniform_int_distribution(0, -1)` on an empty map, which has undefined
  behaviour.
- Slots are unbounded `nat`s. The source stores them as `uint32_t`, which would truncate after
  2^32 entries; that truncation is not modelled.
- The hash table inside `std::unordered_map` is a Dafny `map`. Hashing, buckets and the O(1)
  running times are not modelled.
- `print_element_set`, `print_index_map` and all output in the three `main` functions are left
  out. The `assert`s of the map's `main` are replayed by `Demonstration`.
- lambda_capture_main.cpp is not part of this model. It runs a set of threads, each with a
  clean-up function registered in a shared context, and keeps an object alive through a
  `shared_ptr` captured in a lambda. It is thread start-up and object lifetime, with no
  sequential logic to put contracts on.
- Modulo.ModuloFloored: it is computed over unbounded integers. The source's intermediate
  `b * (a / b - adjust)` can overflow `int64_t` when the result would be correct anyway;
  that is not modelled.
- ModularArithmetic.ExtendedGreatestCommonDivisor: its intermediates and tu1/tu2 are
  unbounded integers. The source's `int64_t` overflow is not modelled, such as
  `INT64_MIN / -1` for `a == INT64_MIN, n == -1`, or coefficients beyond 64 bits. The result
  is converted to `uint64_t` exactly as the source returns it.
- `b & 0x1` and `b >>= 1` (and the same on e) are written `% 2` and `/ 2`. For unsigned
  values these are the same.
- The remainder and Z_n functions keep exact `int64`/`uint64` bounds on every parameter and
  result. The Z_n operations' requirement that operands lie in [0, n) is taken from the
  source's `assert`s. Outside them, values are unbounded: tu1/tu2 of the extended gcd, the
  slots in `Table.index`, the result of `FindIndex`, and the draw of `RandomKey`.
- RandomAccessMap.RandomAccessUnorderedMap.Remove: the key is passed by value. The source
  takes `const K &`, and `element_set` is public, so a caller can pass a reference to a key
  inside the store. For a slot other than the last, the source then erases the wrong key (see
  "## Findings"). For the last slot, `pop_back` destroys the referenced key before it is read,
  which is undefined behaviour. Neither aliasing case is modelled in the class.
- RandomAccessMap.RandomAccessUnorderedMap.Insert: the key and value are passed by value, for
  the same reason. The source's `insert` calls `remove` with its referenced key first, so it
  inherits both aliasing cases.

## Findings

| source | as written | input that shows it | evidently intended | confidence | as-written member | corrected member |
|---|---|---|---|---|---|---|
| modular_arithmetic_main.cpp:12-16 | `((a % n) + n) % n` in `int64_t`: the sum overflows when n > 2^62 | a = 2^62, n = 2^62 + 1: the sum is 2^63 + 1; with wrap-around the result is 2^64 - 2^62 + 2, which is not even below n | the Euclidean residue of a modulo n, here 2^62 | not executed | ModularArithmetic.ModAsWrittenOverflows | ModularArithmetic.Mod |
| modulo_main.cpp:78-82 | `((a % b) + b) % b` in `int64_t`: the same overflow for b > 2^62 | a = 2^62, b = 2^62 + 1: the sum is 2^63 + 1; with wrap-around the result is -(2^62 - 2), which is negative | the Euclidean residue of a modulo b, here 2^62 | not executed | Modulo.EuclideanModuloNaturalAsWrittenOverflows | Modulo.EuclideanModuloNatural |
| random_access_unordered_map_main.cpp:81-108 | `remove(const K &key)` reads `key` after the swap at line 97; if `key` refers to `element_set[i].key`, it now names the moved entry | store [(0, a), (1, b)], `remove(element_set[0].key)`: key 1 is erased from the index, and key 0 stays indexed at slot 0, which holds key 1 | remove the key the caller named, which a local copy of the key achieves | not executed | RandomAccessMap.RemoveAliasedAsWritten, RandomAccessMap.RemoveAliasedBreaksInvariant | RandomAccessMap.RemoveBySlotCopied |
