# RsaCtfTool arithmetic core in Dafny

This project models the exact-integer core of four RsaCtfTool modules and
proves properties of the model.

- **Håstad broadcast attack** (`attacks/multi_keys/hastads.py`):
  - the extended-Euclid modular inverse `mul_inv`;
  - the Chinese-remainder combination `chinese_remainder`;
  - the integer root `find_invpow`, found by doubling and then bisection;
  - the filtering and decoding logic of `attack`.
- **Boneh–Durfee lattice pruning** (`attacks/single_key/boneh_durfee.py`):
  - `remove_unhelpful`, which deletes rows and columns of a square integer matrix and pops the same entries from a monomial list kept in step with it;
  - the x-shift and y-shift index loops that build the lattice;
  - the result decisions of `boneh_durfee`, `factor` and `attack`.
- **Numeric strings**:
  - `get_numeric_value` (`lib/utils.py`), which reads hex after `0x` and decimal otherwise;
  - `solveforp` (`attacks/single_key/factordb.py`), which reads factordb's `k^j-s` notation;
  - the factordb attack's decisions on the two factors it scraped.

Source files that work step by step are imperative Dafny:

- the loops of `mul_inv`, `chinese_remainder`, `find_invpow` and `attack`;
- the shift loops;
- the scan inside `remove_unhelpful`;
- the monomial list, which is a class with a `seq` field that `Pop` and `Append` change in place.

Each such method is proved equal to a specification function that follows the same steps. The lemmas about those functions state what the source promises.

The pure parsers are functions. Python exceptions are `Err` values of a `Result`. `(None, None)` is `NoResult`.

Files:

- `Outcomes.dfy`: `Option`, `Result`, the exceptions, keys and attack results.
- `Arithmetic.dfy`: powers, products, divisibility, congruences and powers of two.
- `Encoding.dfy`: `int()`, `hex()`, `str()`, `int.from_bytes(.., "big")` and `bytes.fromhex`.
- `Hastad.dfy`, `BonehDurfee.dfy`, `Utils.dfy` and `FactorDb.dfy`: one per source module.

Two behaviours of the code are modelled as the code has them:

- **Integer root.** `find_invpow` never tests the power of two its doubling loop stops at, so for `x = (2^k)^n` it returns `2^k - 1` instead of the exact root `2^k`. Examples: `find_invpow(4, 2) == 1` and `find_invpow(1, 3) == 0`. `Hastad.InvPowOfPower` states this exactly, and `Hastad.AttackPowerOfTwoMessage` shows its effect on the attack.
- **Plaintext bytes.** The plaintext is decoded by applying `bytes.fromhex` to `hex(root)[2:]`, so a root with an odd number of hex digits (`0`, `0x123`) raises `ValueError`.

## Model

| member | source | states |
|---|---|---|
| Encoding.Render | attacks/multi_keys/hastads.py:75 | `hex(v)[2:]` and `str(v)` are non-empty digit strings with no leading zero |
| Encoding.ValueOfRender | attacks/multi_keys/hastads.py:75 | reading back the digits that `hex`/`str` print gives the original number |
| Encoding.FromHex | attacks/multi_keys/hastads.py:76 | `bytes.fromhex` yields half as many bytes as hex digits; it only fails with `ValueError` |
| Encoding.FromHexValue | attacks/multi_keys/hastads.py:76 | `bytes.fromhex` succeeds exactly on even-length hex text, and its bytes read big-endian as the hex value |
| Encoding.FromHexAccepts | attacks/multi_keys/hastads.py:76 | `bytes.fromhex` succeeds iff the text has even length and only hex digits |
| Encoding.FromHexReads | attacks/multi_keys/hastads.py:76 | the bytes it yields read big-endian as the base-16 value of the text |
| Encoding.HexRoundTrip | attacks/multi_keys/hastads.py:75-76 | `bytes.fromhex(hex(v)[2:])` succeeds exactly when the hex form has even length, and then gives the big-endian bytes of `v` |
| Encoding.OddHexRejected | attacks/multi_keys/hastads.py:75-76 | the roots `0` and `0x123` make the decoding raise `ValueError` |
| Encoding.HexNoLeadingZero | attacks/multi_keys/hastads.py:75-76 | decoded bytes have no leading zero byte (minimal encoding) |
| Encoding.ParseIntDecimal | lib/utils.py:16 | `int(str(v)) == v` and `int("-" + str(v)) == -v` |
| Hastad.MulInv | attacks/multi_keys/hastads.py:21-32 | the Euclid loop computes the `mul_inv` specification, including the `ZeroDivisionError` it meets on non-coprime input |
| Hastad.EuclidLoopSpec | attacks/multi_keys/hastads.py:26-29 | from the loop invariant, the loop ends normally iff the inputs are coprime, with an inverse strictly between `-b` and `b` |
| Hastad.ModInverseCorrect | attacks/multi_keys/hastads.py:21-32 | modulus 1 gives 1; for `a >= 1` it succeeds iff `gcd(a, b) = 1`, with `0 <= x < b` and `(a*x) % b == 1` after the shift by `b0`; the only error is `ZeroDivisionError` |
| Hastad.ModInverseEuclid | attacks/multi_keys/hastads.py:21-32 | for `a >= 1` and `b > 1`, `mul_inv` succeeds iff `gcd(a, b) = 1`, with a result in `[0, b)` that inverts `a` modulo `b` |
| Hastad.InverseInRange | attacks/multi_keys/hastads.py:30-31 | adding `b0` to a negative inverse in `(-b0, 0)` keeps it an inverse and brings it into `[0, b0)` |
| Hastad.ChineseRemainder | attacks/multi_keys/hastads.py:11-18 | the accumulation loop computes the `chinese_remainder` specification over the `zip` of moduli and residues |
| Hastad.CrtRange | attacks/multi_keys/hastads.py:13-18 | a result lies in `[0, prod(n))` |
| Hastad.CrtErrors | attacks/multi_keys/hastads.py:11-18 | no moduli raise `TypeError`; otherwise it raises `ZeroDivisionError` iff some paired modulus is not coprime to the product of the others |
| Hastad.CrtCongruences | attacks/multi_keys/hastads.py:11-18 | for pairwise coprime moduli the result is `a_i mod n_i` for every paired modulus, and `0` for a modulus that `zip` drops |
| Hastad.CrtSumCongruent | attacks/multi_keys/hastads.py:15-18 | for pairwise coprime moduli, the sum built from any prefix that matches the residues so far reduces to `a_i mod n_i` for every paired modulus |
| Hastad.CrtExact | attacks/multi_keys/hastads.py:11-18 | with residues of `x < prod(n)` the result is `x` itself (uniqueness) |
| Hastad.FindInvPow | attacks/multi_keys/hastads.py:35-48 | the doubling and bisection loops compute `find_invpow`, and for `x >= 0` the result `r` has `r^n <= x <= (r+1)^n` |
| Hastad.InvPowBracket | attacks/multi_keys/hastads.py:35-48 | `r^n <= x <= (r+1)^n`, with equality on the right only when `r+1` is the power of two the doubling loop stopped at |
| Hastad.InvPowNegative | attacks/multi_keys/hastads.py:35-48 | a negative `x` gives 1 |
| Hastad.InvPowOfPower | attacks/multi_keys/hastads.py:40-48 | on a perfect power `r^n` it returns `r`, unless `r` is a power of two, in which case it returns `r - 1` |
| Hastad.InvPowOfPowerOfTwo | attacks/multi_keys/hastads.py:40-48 | the `n`-th power of a power of two `r` gives `r - 1` |
| Hastad.InvPowOfOtherPower | attacks/multi_keys/hastads.py:40-48 | the `n`-th power of any other `r` gives `r` |
| Hastad.InvPowExamples | attacks/multi_keys/hastads.py:35-48 | `find_invpow(4, 2) == 1` and `find_invpow(1, 3) == 0` although `(r+1)^n == x` |
| Hastad.Attack | attacks/multi_keys/hastads.py:51-77 | the list-building loops and the decisions of `attack` compute the attack specification |
| Hastad.LargeExponentIgnored | attacks/multi_keys/hastads.py:62-67 | a key with `e >= 11` anywhere in the list changes neither the selected keys nor the outcome |
| Hastad.SharedExponent | attacks/multi_keys/hastads.py:62-72 | keys that all share one exponent below 11 all take part, and the exponent set is that singleton |
| Hastad.AttackOutcomes | attacks/multi_keys/hastads.py:55-77 | a non-list, or a set of small exponents that is not a singleton, gives `(None, None)`; otherwise the outcome is that of combining, taking the root and decoding, with no private key; errors are only `ZeroDivisionError` or `ValueError` |
| Hastad.RecoverPlaintextOutcomes | attacks/multi_keys/hastads.py:74-77 | the last steps raise `TypeError` iff no key takes part, otherwise only `ZeroDivisionError`/`ValueError`; the plaintext is the minimal big-endian bytes of the root of the combined value |
| Hastad.RootBytes | attacks/multi_keys/hastads.py:75-76 | the decoded root fails only with `ValueError`, and otherwise reads back as the root, without a leading zero byte |
| Hastad.BroadcastCombines | attacks/multi_keys/hastads.py:58-74 | big-endian ciphertexts `m^E mod n_i` under pairwise coprime moduli combine to exactly `m^E` when `m^E < prod(n)` |
| Hastad.RecoverBroadcast | attacks/multi_keys/hastads.py:74-77 | such a broadcast decodes the bytes of `m`, or of `m - 1` when `m` is a power of two |
| Hastad.AttackRecoversMessage | attacks/multi_keys/hastads.py:51-77 | the attack returns `(None, bytes of m)` for a broadcast of `m` with `m^E < prod(n)`, when `m` is not a power of two and its hex form has even length |
| Hastad.AttackPowerOfTwoMessage | attacks/multi_keys/hastads.py:51-77 | for a power of two `m` the attack returns the bytes of `m - 1`, or `ValueError` when `m - 1` has odd hex length |
| BonehDurfee.MonomialList.Pop | attacks/single_key/boneh_durfee.py:102 | `monomials.pop(i)` returns entry `i` and removes exactly it |
| BonehDurfee.MonomialList.Append | attacks/single_key/boneh_durfee.py:183 | `monomials.append(m)` adds `m` at the end |
| BonehDurfee.RemoveAt | attacks/single_key/boneh_durfee.py:100-102 | removing index `i` shortens by one and shifts later entries down |
| BonehDurfee.RemoveAtSlices | attacks/single_key/boneh_durfee.py:102 | `pop(i)` keeps the entries before `i` and after it, in order |
| BonehDurfee.DeleteIndex | attacks/single_key/boneh_durfee.py:100-101 | deleting column and row `ii` keeps the matrix square and one smaller |
| BonehDurfee.DeleteIndexEntries | attacks/single_key/boneh_durfee.py:100-101 | entry `(r, c)` of the smaller matrix is the original entry at the indices that skip `ii` |
| BonehDurfee.DeletePair | attacks/single_key/boneh_durfee.py:122-123 | deleting columns and rows `{ii, j}` keeps the matrix square and two smaller |
| BonehDurfee.DeletePairEntries | attacks/single_key/boneh_durfee.py:122-123 | entry `(r, c)` of the smaller matrix is the original entry at the indices that skip `ii` and `j` |
| BonehDurfee.CountZero | attacks/single_key/boneh_durfee.py:85-98 | the count of later nonzero entries in a column is 0 iff they are all zero |
| BonehDurfee.AffectedVectors | attacks/single_key/boneh_durfee.py:85-93 | the loop counts the later rows using column `ii` and remembers the last one; zero count iff the column is zero below `ii`, and a count of one names the only such row |
| BonehDurfee.AffectedDeeper | attacks/single_key/boneh_durfee.py:110-115 | the flag is true iff no row below `j` uses column `j` |
| BonehDurfee.TestsMeanRemovable | attacks/single_key/boneh_durfee.py:84-120 | the single test holds iff the diagonal is `>= bound` and no later row uses the column; the pair test holds iff exactly one later row `j` uses it, nothing below `j` uses column `j` and `abs(bound - BB[j,j]) < abs(bound - BB[ii,ii])`; the two are exclusive |
| BonehDurfee.Scan | attacks/single_key/boneh_durfee.py:82-127 | a deletion the scan finds is at or below `current`, and a pair's second index lies above the first and inside the matrix |
| BonehDurfee.ScanFindsHighestRemovable | attacks/single_key/boneh_durfee.py:82-127 | the scan finds nothing iff no index up to `current` is removable, and otherwise the highest removable index: a single deletion when the single test holds, else the pair it passes |
| BonehDurfee.FindDeletion | attacks/single_key/boneh_durfee.py:82-127 | the downward loop over `ii` finds the same deletion as the scan specification |
| BonehDurfee.Trace | attacks/single_key/boneh_durfee.py:73-129 | the deletions made fit the shrinking basis one after another, none are made once `current` is -1 or the dimension is at most 7, and a larger basis never drops below 6 |
| BonehDurfee.TraceStep | attacks/single_key/boneh_durfee.py:82-127 | once the scan finds a deletion it is the first one made, and the rest continue below its index on the smaller basis |
| BonehDurfee.Apply | attacks/single_key/boneh_durfee.py:100-125 | carrying out the deletions keeps the basis square, shrinks it by the number of indices removed and pops as many monomials |
| BonehDurfee.Prune | attacks/single_key/boneh_durfee.py:73-129 | the result stays square with dimension at most the input's, the monomial count changes by the same amount as the dimension, the input is unchanged when `current == -1` or the dimension is at most 7, and a larger input never ends below 6 |
| BonehDurfee.PruneStops | attacks/single_key/boneh_durfee.py:78-129 | when the scan from `current` finds nothing, the basis and the monomials are returned unchanged |
| BonehDurfee.PruneStep | attacks/single_key/boneh_durfee.py:98-127 | once the scan finds a single index or a pair, the result is that of pruning, from `ii - 1`, the basis and monomial list with those indices removed (for a pair, `j` popped before `ii`) |
| BonehDurfee.PairFromEightLeavesSix | attacks/single_key/boneh_durfee.py:78-126 | the dimension check happens only on entry, so a pair deletion at dimension 8 ends at 6 |
| BonehDurfee.RemoveUnhelpful | attacks/single_key/boneh_durfee.py:73-129 | the recursive procedure returns the pruned matrix and leaves the monomial list pruned at the same indices |
| BonehDurfee.DeleteAndContinue | attacks/single_key/boneh_durfee.py:98-127 | deleting the found rows and columns, popping their monomials (larger index first) and recursing from `ii - 1` gives the pruned result of the smaller basis |
| BonehDurfee.SurvivingIndices | attacks/single_key/boneh_durfee.py:100-127 | after any run of deletions the basis is the submatrix on an increasing list of surviving indices, and the monomials are those at the same indices followed by the tail |
| BonehDurfee.KeptAfterSingle | attacks/single_key/boneh_durfee.py:100-102 | survivors of a single deletion followed by more deletions are survivors of the original, through composed index lists |
| BonehDurfee.KeptAfterPair | attacks/single_key/boneh_durfee.py:122-125 | the same for a pair deletion |
| BonehDurfee.PruneKeepsSurvivors | attacks/single_key/boneh_durfee.py:100-127 | the result is the submatrix on an increasing list of surviving indices, and the monomials are those at the same indices followed by any extra tail |
| BonehDurfee.PruneKeepsLowerTriangular | attacks/single_key/boneh_durfee.py:186-197 | a lower-triangular basis, as built, stays lower-triangular after pruning |
| BonehDurfee.XShifts | attacks/single_key/boneh_durfee.py:158-162 | the nested loops append the x-shift index pairs in loop order |
| BonehDurfee.XShiftsExactly | attacks/single_key/boneh_durfee.py:159-162 | the x-shifts are exactly the pairs `(k, i)` with `k <= m` and `i <= m - k`, without repetition |
| BonehDurfee.XShiftCount | attacks/single_key/boneh_durfee.py:159-162 | there are `(m+1)(m+2)/2` x-shifts |
| BonehDurfee.RowStartBelow | attacks/single_key/boneh_durfee.py:175 | the inner loop's start `floor(m/t)*j` is in `[0, m]` for `1 <= j <= t` |
| BonehDurfee.YShifts | attacks/single_key/boneh_durfee.py:174-178 | the nested loops append the y-shift index pairs in loop order |
| BonehDurfee.AppendYShiftRow | attacks/single_key/boneh_durfee.py:175-176 | the inner loop appends the shifts `(j, k)` for `k` from the row start to `m` |
| BonehDurfee.AppendYShiftMonomials | attacks/single_key/boneh_durfee.py:181-183 | the second pair of loops appends the monomials `u^k y^j` of the y-shifts to the list |
| BonehDurfee.AppendYMonomialRow | attacks/single_key/boneh_durfee.py:182-183 | the inner loop appends the monomials `u^k y^j` for `k` from the row start to `m` |
| BonehDurfee.YShiftMembers | attacks/single_key/boneh_durfee.py:174-176 | the first `j` rows of the y-shift loops, each starting at `f*j` (`f = floor(m/t)`), visit exactly the pairs `(j', k)` with `1 <= j' <= j` and `f*j' <= k <= m`, without repetition |
| BonehDurfee.YShiftCount | attacks/single_key/boneh_durfee.py:174-176 | while every row start `f*j` stays within `m`, the first `j` rows hold `j(m+1) - f*j(j+1)/2` y-shifts |
| BonehDurfee.YShiftsExactly | attacks/single_key/boneh_durfee.py:174-178 | `t = 0` makes no y-shifts, and `m/t` is never evaluated then; otherwise the y-shifts are exactly the pairs with `1 <= j <= t` and `floor(m/t)*j <= k <= m`, counted and without repetition |
| BonehDurfee.YMonomialsMatchShifts | attacks/single_key/boneh_durfee.py:174-183 | the monomial loops and the shift loops visit the same pairs in the same order |
| BonehDurfee.YMonomialListMatches | attacks/single_key/boneh_durfee.py:174-183 | the appended monomial `i` is that of y-shift `i`, so rows and monomials stay in step |
| BonehDurfee.BonehDurfeeDecisions | attacks/single_key/boneh_durfee.py:195-257 | with `nn` vectors left after pruning: `(-1, -1)` when `strict` is set and `det >= modulus^(mm*nn)`, and otherwise only as found roots; `(0, 0)` for an empty basis, or, with at least two vectors, dependent vectors or a resultant without rational roots; `IndexError` exactly when one vector is left (`pol2` reads row 1) or `pol1(q, soly)` has no rational root; a positive `solx` is always a root found |
| BonehDurfee.PrunedEmptyOnlyIfEmpty | attacks/single_key/boneh_durfee.py:195-200 | pruning the basis from its last index empties it only when it was empty |
| BonehDurfee.TruncDivSpec | attacks/single_key/boneh_durfee.py:318 | `int(p / e)` truncates toward zero on either sign and is exact on multiples |
| BonehDurfee.FactorSpec | attacks/single_key/boneh_durfee.py:309-322 | for rational roots with `pol(solx, soly) = p/q`: `factor` yields a `d` iff `solx > 0` and `e != 0`, raises only `ZeroDivisionError` (for `e == 0`), and for `e > 0` yields `floor(p / (q e))` when `p >= 0`, with `q e d == p` when the quotient is exact |
| BonehDurfee.FactorIntegerRoots | attacks/single_key/boneh_durfee.py:316-318 | on integer roots `factor` computes `int((1 + x(A + y)) / e)`, truncated toward zero |
| BonehDurfee.BonehDurfeeAttackSpec | attacks/single_key/boneh_durfee.py:325-342 | `OverflowError` and `solx <= 0` give `(None, None)`; an exception from `boneh_durfee` escapes; a `d` gives the key built from the factors `RSA.construct` recovers, and fails exactly when that does |
| BonehDurfee.BonehDurfeeFailures | attacks/single_key/boneh_durfee.py:195-342 | the failure markers of `boneh_durfee` (empty basis, determinant too large in strict mode, and with at least two vectors dependent vectors or no rational root) end as `(None, None)` from `attack`; a one-vector basis and a missing root of `pol1(q, soly)` escape as `IndexError` |
| Utils.GetNumericValue | lib/utils.py:10-16 | every failure is a `ValueError` |
| Utils.GetNumericValueHex | lib/utils.py:13-14 | after `0x` it succeeds iff at least one hex digit (either case) follows and nothing else, with their base-16 value |
| Utils.GetNumericValueRoundTrip | lib/utils.py:10-16 | `"0x" + hex(v)[2:]`, `str(v)` and `"-" + str(v)` read back as `v`, `v` and `-v` |
| Utils.UpperCaseHexDigits | lib/utils.py:13-14 | `"0xFF"` is 255 and `"0xAb"` is 171 |
| Utils.NegativeDecimal | lib/utils.py:15-16 | `"-12"` is -12 |
| Utils.HexLookalikesRejected | lib/utils.py:13-16 | `"0X.."`, `"-0x.."` and a bare `"0x"` raise `ValueError` |
| FactorDb.Split | attacks/single_key/factordb.py:20-22 | `str.split` yields one more piece than there are separators |
| FactorDb.SplitSpec | attacks/single_key/factordb.py:20-22 | no piece holds the separator, and joining the pieces gives the text back |
| FactorDb.JoinSplit | attacks/single_key/factordb.py:20-22 | splitting joined separator-free pieces gives the pieces back |
| FactorDb.SolveForP | attacks/single_key/factordb.py:15-30 | every failure is reported as `FactorizationError` |
| FactorDb.SolveForPRoundTrip | attacks/single_key/factordb.py:19-24 | `solveforp(f"{k}^{j}-{s}") == k**j - s` |
| FactorDb.SolveForPAccepts | attacks/single_key/factordb.py:18-30 | it succeeds iff there is exactly one `^`, exactly one `-` after it, and three pieces `int()` accepts; anything else, such as no `^` or several, raises `FactorizationError` |
| FactorDb.BareExponentRejected | attacks/single_key/factordb.py:18-30 | `"2^10"`, with no `-`, raises `FactorizationError` |
| FactorDb.SolveForPExample | attacks/single_key/factordb.py:19-24 | `"2^10-1"` is 1023 |
| FactorDb.FactorValue | attacks/single_key/factordb.py:60-65 | an all-digit factor is its decimal value, and anything else goes through `solveforp` |
| FactorDb.FactorDbAttackSpec | attacks/single_key/factordb.py:55-80 | a key is returned iff both factors were found and read, not `p == q == n`, and the key constructor accepts them; it holds those factors with `n` and `e`, and no plaintext is returned |
| FactorDb.FactorDbDigits | attacks/single_key/factordb.py:60-80 | two digit-only factors become the key unless both equal `n` or the key constructor rejects them |

## Left out

- **Sage machinery of `boneh_durfee`** (lines 147-257):
  - This covers the polynomial ring quotient, `.monomials()`, the matrix fill from polynomial coefficients (186-192), `.det()`, `.LLL()`, the resultant and root finding.
  - These are foreign-library calls. The determinant, whether the resultant is non-constant, and the first rational roots of the resultant and of `pol1(q, soly)` are inputs of `BonehDurfee.BonehDurfeeResult`. The roots are rationals, and an empty root list of `pol1(q, soly)` gives the `IndexError` that `attack` does not catch; so does a one-vector basis, through `BB[1, jj]` (234).
  - Lower-triangularity of the built basis is a hypothesis of `BonehDurfee.PruneKeepsLowerTriangular`.
- **BonehDurfee.BonehDurfeeResult:** if `pol1(q, soly)` is the zero polynomial, Sage's `roots()` may raise instead of returning an empty list; the model treats that case as a missing root (`IndexError`).
- **Shift polynomials.** `BonehDurfee.XShifts` and `BonehDurfee.YShifts` record the index pairs each loop visits, not the polynomials built from them.
- **The x-shift monomial list** (166-170) and **the sorts `gg.sort()` and `monomials.sort()`** (163, 171): they depend on Sage's monomial order.
- **`floor(mm / tt)`** (175, 182) divides two Python ints as floats. It is modelled as integer division, which agrees with it while `mm < 2^53`; `factor` passes `m = 4`. For larger `mm` the float quotient can round up (`mm = 2^54 - 1`, `tt = 2` gives `2^53`), and that is not modelled.
- **Floating-point setup in `factor`** (278-280, 288):
  - `A = int((N + 1) / 2)` is an input of `BonehDurfee.Factor`.
  - An `OverflowError` is an input of `BonehDurfee.BonehDurfeeAttack`.
- **`RSA.construct` from pycryptodome:**
  - It is a function parameter of `BonehDurfee.BonehDurfeeAttack` that returns the factors or an error.
  - The private key records `p`, `q`, `n` and `e`; the `d` that `PrivateKey` derives is not computed.
  - The assignments `publickey.p`/`publickey.q` on the caller's object are not modelled.
- **BonehDurfee.BonehDurfeeAttack:** the `PrivateKey` constructor of `lib/keys_wrapper` (336-338) is not part of this model and is taken to succeed on the factors `RSA.construct` returns.
- **`helpful_vectors`, `matrix_overview` and the debug printing:** output only.
- **factordb's HTTP requests, HTML scraping with regular expressions, and the prime-modulus branch** (44-53, with `invmod` from a module not shown): network I/O. Scraping is replaced by the optional factor strings passed to `FactorDb.FactorDbAttack`.
- **The error logging in `solveforp`:** a side effect only.
- **FactorDb.FactorDbAttack:** the `PrivateKey` constructor of `lib/keys_wrapper` (71-76) is not part of this model; whether it accepts `p` and `q` is the parameter `builds`, and a failure gives `(None, None)` through the bare `except`. The assignments `publickey.p` and `publickey.q` on the caller's object (60, 65), made also on paths that then return `(None, None)`, are not modelled.
- **`lib/utils.py` beyond `get_numeric_value`** (`sageworks`, `print_results`): an import probe, and logging and file output.
- **`attacks/single_key/smallfraction.py`:** not part of this model. It runs an external Sage script.
- **Python `int()` leniencies:**
  - Surrounding whitespace, `_` separators and non-ASCII digits are not accepted by the model.
  - `str.isdigit` is modelled on ASCII digits only.
  - A leading `+` is accepted, as Python does.
- **Hastad.MulInv:** requires a modulus `b >= 1`. Every caller passes a positive modulus; the behaviour for `b <= 0` is not modelled.
- **Hastad.FindInvPow:** requires an exponent `n >= 1`. For `n <= 0` the source loops forever or works on floats.
- **Hastad.Attack:** requires every key with `e < 11` to have `n >= 1` and `e >= 1`. A non-positive modulus or exponent among them is not modelled.
- **Hastad's `cipher` argument:** it is the list of byte strings. Its default `[]` gives no residues, which the model covers as an empty list.
- **The attack orchestrator that catches every exception and turns it into "no result":** not among the modelled files. The model reports exceptions as `Err` values.
