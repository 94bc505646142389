/** Håstad's broadcast attack: the same message encrypted under a small
    exponent `e` for several coprime moduli is recovered by combining the
    ciphertexts with the Chinese remainder theorem and taking the integer
    `e`-th root. Each routine of the original works by updating variables
    in a loop, so each is a method proved equal to a recursive function
    that follows the same steps; the lemmas state what those functions
    compute. */
module Hastad {
  import opened Outcomes
  import opened Arithmetic
  import opened Encoding

  // ---------------------------------------------------------------------
  // mul_inv: the modular inverse by the extended Euclidean algorithm
  // ---------------------------------------------------------------------

  /** The loop of `mul_inv` from state `(a, b, x0, x1)`: it runs while
      `a > 1`; a zero `b` inside the loop is the `ZeroDivisionError` of
      `a // b`. */
  function EuclidLoop(a: int, b: int, x0: int, x1: int): Result<int>
    requires b >= 0
    decreases b
  {
    if a > 1 then
      if b == 0 then Err(ZeroDivisionError)
      else EuclidLoop(b, a % b, x1 - (a / b) * x0, x0)
    else Ok(x1)
  }

  /** What `mul_inv(a, b)` returns or raises. */
  function ModInverse(a: int, b: int): Result<int>
    requires b >= 1
  {
    if b == 1 then Ok(1)
    else
      match EuclidLoop(a, b, 0, 1)
      case Ok(x1) => Ok(if x1 < 0 then x1 + b else x1)
      case Err(e) => Err(e)
  }

  method MulInv(a0: int, b0: int) returns (r: Result<int>)
    requires b0 >= 1
    ensures r == ModInverse(a0, b0)
  {
    var x0, x1 := 0, 1;
    if b0 == 1 {
      return Ok(1);
    }
    var a, b := a0, b0;
    while a > 1
      invariant b >= 0
      invariant EuclidLoop(a, b, x0, x1) == EuclidLoop(a0, b0, 0, 1)
      decreases b
    {
      if b == 0 {
        return Err(ZeroDivisionError);
      }
      var q := a / b;
      a, b := b, a % b;
      x0, x1 := x1 - q * x0, x0;
    }
    if x1 < 0 {
      x1 := x1 + b0;
    }
    return Ok(x1);
  }

  /** No integer above 1 divides 1. */
  lemma NothingDividesOne()
    ensures forall d :: 1 < d ==> !Divides(d, 1)
  {
    forall d | 1 < d
      ensures !Divides(d, 1)
    {
      DivModUnique(1, d, 0, 1);
    }
  }

  lemma AbsOfDifference(x0: int, x1: int, q: int)
    requires x0 * x1 <= 0 && q >= 0
    ensures Abs(x1 - q * x0) == Abs(x1) + q * Abs(x0)
  {
    if x0 >= 0 {
      assert x0 == 0 || x1 <= 0;
    } else {
      assert x1 >= 0;
    }
  }

  /** The invariants of the `mul_inv` loop started on inputs `A` and `B`:
      `x1 * A ≡ a` and `x0 * A ≡ b` modulo `B`, the cofactors alternate in
      sign and weigh up to `B`, and `(a, b)` has the common divisors of
      `(A, B)`. */
  ghost predicate EuclidInvariant(A: int, B: int, a: int, b: int, x0: int, x1: int)
  {
    && B > 1 && a >= 1 && b >= 0
    && Congruent(x1 * A, a, B) && Congruent(x0 * A, b, B)
    && Abs(x0) * a + Abs(x1) * b == B && x0 * x1 <= 0
    && ((x0 == 0 && x1 == 1 && b == B) || (b < a && Abs(x1) * a < B))
    && forall d :: 1 < d ==> (Divides(d, a) && Divides(d, b) <==> Divides(d, A) && Divides(d, B))
  }

  /** From the invariants, the loop ends normally exactly when `A` and `B`
      are coprime, with an inverse of `A` strictly between `-B` and `B`. */
  lemma {:induction false} EuclidLoopSpec(A: int, B: int, a: int, b: int, x0: int, x1: int)
    requires EuclidInvariant(A, B, a, b, x0, x1)
    ensures EuclidLoop(a, b, x0, x1).Ok? <==> Coprime(A, B)
    ensures EuclidLoop(a, b, x0, x1).Ok? ==>
      Congruent(EuclidLoop(a, b, x0, x1).value * A, 1, B) && Abs(EuclidLoop(a, b, x0, x1).value) < B
    ensures EuclidLoop(a, b, x0, x1).Err? ==> EuclidLoop(a, b, x0, x1).error == ZeroDivisionError
    decreases b
  {
    if a > 1 {
      if b == 0 {
        DividesSelf(a);
        assert Divides(a, a) && Divides(a, b);
        assert Divides(a, A) && Divides(a, B);
      } else {
        EuclidInvariantStep(A, B, a, b, x0, x1);
        EuclidLoopSpec(A, B, b, a % b, x1 - (a / b) * x0, x0);
      }
    } else {
      NothingDividesOne();
      assert a == 1;
    }
  }

  /** One pass of the `mul_inv` loop keeps its invariants. */
  lemma EuclidInvariantStep(A: int, B: int, a: int, b: int, x0: int, x1: int)
    requires EuclidInvariant(A, B, a, b, x0, x1) && a > 1 && b >= 1
    ensures EuclidInvariant(A, B, b, a % b, x1 - (a / b) * x0, x0)
  {
    var q, r := a / b, a % b;
    DivisionIdentity(a, b);
    assert Congruent((x1 - q * x0) * A, r, B) && Abs(x1 - q * x0) * b + Abs(x0) * r == B
      && (x1 - q * x0) * x0 <= 0 by {
      EuclidStep(A, B, a, b, x0, x1);
    }
    assert Abs(x0) * b < B by {
      SmallerWeight(B, a, b, x0, x1);
    }
    assert forall d :: 1 < d ==> (Divides(d, b) && Divides(d, r) <==> Divides(d, A) && Divides(d, B)) by {
      CommonDivisorsShift(A, B, a, b, q, r);
    }
  }

  /** One pass of the `mul_inv` loop keeps the congruences and the weights
      of `EuclidLoopSpec`. */
  lemma EuclidStep(A: int, B: int, a: int, b: int, x0: int, x1: int)
    requires B > 1 && a > 1 && b >= 1
    requires Congruent(x1 * A, a, B) && Congruent(x0 * A, b, B)
    requires Abs(x0) * a + Abs(x1) * b == B && x0 * x1 <= 0
    ensures Congruent((x1 - (a / b) * x0) * A, a % b, B)
    ensures Abs(x1 - (a / b) * x0) * b + Abs(x0) * (a % b) == B
    ensures (x1 - (a / b) * x0) * x0 <= 0
  {
    var q, r := a / b, a % b;
    assert a == b * q + r;
    assert q >= 0 by {
      MulAtLeast(b, q);
    }
    EuclidCongruence(A, B, a, b, x0, x1, q, r);
    CofactorWeights(B, a, b, x0, x1, q, r);
  }

  lemma CommonDivisorsShift(A: int, B: int, a: int, b: int, q: int, r: int)
    requires a - q * b == r
    requires forall d :: 1 < d ==> (Divides(d, a) && Divides(d, b) <==> Divides(d, A) && Divides(d, B))
    ensures forall d :: 1 < d ==> (Divides(d, b) && Divides(d, r) <==> Divides(d, A) && Divides(d, B))
  {
    forall d | 1 < d
      ensures Divides(d, b) && Divides(d, r) <==> Divides(d, A) && Divides(d, B)
    {
      CommonDivisorsStep(d, a, b, q);
    }
  }

  lemma SmallerWeight(B: int, a: int, b: int, x0: int, x1: int)
    requires B > 1 && Abs(x0) * a + Abs(x1) * b == B && b >= 0
    requires (x0 == 0 && x1 == 1 && b == B) || (b < a && Abs(x1) * a < B)
    ensures Abs(x0) * b < B
  {
    if x0 != 0 {
      MulStrict(Abs(x0), b, a);
      var w := Abs(x1);
      assert w * b >= 0 by {
        if w > 0 && b > 0 {
          MulAtLeast(w, b);
        }
      }
    }
  }

  lemma MulStrict(k: int, u: int, v: int)
    requires k > 0 && u < v
    ensures k * u < k * v
  {
    assert k * v - k * u == k * (v - u);
    MulAtLeast(k, v - u);
  }

  lemma EuclidCongruence(A: int, B: int, a: int, b: int, x0: int, x1: int, q: int, r: int)
    requires B > 1 && a == b * q + r
    requires Congruent(x1 * A, a, B) && Congruent(x0 * A, b, B)
    ensures Congruent((x1 - q * x0) * A, r, B)
  {
    assert (x1 - q * x0) * A - r == (x1 * A - a) - q * (x0 * A - b);
    DividesLinear(B, x1 * A - a, x0 * A - b, q);
  }

  lemma CofactorWeights(B: int, a: int, b: int, x0: int, x1: int, q: int, r: int)
    requires a == b * q + r && q >= 0
    requires Abs(x0) * a + Abs(x1) * b == B && x0 * x1 <= 0
    ensures Abs(x1 - q * x0) * b + Abs(x0) * r == B
    ensures (x1 - q * x0) * x0 <= 0
  {
    AbsOfDifference(x0, x1, q);
    var u, v := Abs(x0), Abs(x1);
    assert (v + q * u) * b + u * r == v * b + u * (b * q + r);
    assert (x1 - q * x0) * x0 == x1 * x0 - q * (x0 * x0);
  }

  /** `mul_inv(a, b)`: for a modulus `b > 1` and `a >= 1` it succeeds exactly
      when `a` and `b` are coprime, and then returns the inverse of `a` in
      `[0, b)`; otherwise it raises `ZeroDivisionError`. A modulus of 1 and
      an `a` of at most 1 both give 1. */
  lemma ModInverseCorrect(a: int, b: int)
    requires b >= 1
    ensures b == 1 || a <= 1 ==> ModInverse(a, b) == Ok(1)
    ensures a >= 1 ==> (ModInverse(a, b).Ok? <==> Coprime(a, b))
    ensures a >= 1 && b > 1 && ModInverse(a, b).Ok? ==>
      0 <= ModInverse(a, b).value < b && (a * ModInverse(a, b).value) % b == 1
    ensures ModInverse(a, b).Err? ==> ModInverse(a, b).error == ZeroDivisionError
  {
    NothingDividesOne();
    if b > 1 && a >= 1 {
      ModInverseEuclid(a, b);
    }
  }

  lemma ModInverseEuclid(a: int, b: int)
    requires a >= 1 && b > 1
    ensures ModInverse(a, b).Ok? <==> Coprime(a, b)
    ensures ModInverse(a, b).Ok? ==> 0 <= ModInverse(a, b).value < b && (a * ModInverse(a, b).value) % b == 1
    ensures ModInverse(a, b).Err? ==> ModInverse(a, b).error == ZeroDivisionError
  {
    EuclidStart(a, b);
    EuclidLoopSpec(a, b, a, b, 0, 1);
    var r := EuclidLoop(a, b, 0, 1);
    if r.Ok? {
      InverseInRange(a, b, r.value);
      assert ModInverse(a, b) == Ok(if r.value < 0 then r.value + b else r.value);
    } else {
      assert ModInverse(a, b) == Err(r.error);
    }
  }

  /** The invariant holds on entry to `mul_inv`'s loop. */
  lemma EuclidStart(a: int, b: int)
    requires a >= 1 && b > 1
    ensures EuclidInvariant(a, b, a, b, 0, 1)
  {
    assert Congruent(0 * a, b, b) by {
      MultipleMod(b, -1);
    }
  }

  /** Moving an inverse from `(-b, b)` into `[0, b)`, as `mul_inv` does by
      adding `b` to a negative one, keeps it an inverse. */
  lemma InverseInRange(a: int, b: int, x1: int)
    requires b > 1 && Congruent(x1 * a, 1, b) && Abs(x1) < b
    ensures var v := if x1 < 0 then x1 + b else x1;
      0 <= v < b && (a * v) % b == 1
  {
    var v := if x1 < 0 then x1 + b else x1;
    assert Congruent(v * a, x1 * a, b) by {
      if x1 < 0 {
        assert v * a - x1 * a == b * a;
        MultipleMod(b, a);
      }
    }
    CongruentTransitive(v * a, x1 * a, 1, b);
    CongruentSameMod(v * a, 1, b);
    DivModUnique(1, b, 0, 1);
    assert a * v == v * a;
  }

  // ---------------------------------------------------------------------
  // chinese_remainder
  // ---------------------------------------------------------------------

  /** How many pairs `zip(n, a)` yields. */
  function ZipLength(n: seq<int>, a: seq<int>): nat
  {
    if |n| < |a| then |n| else |a|
  }

  /** The loop of `chinese_remainder` from pair `i` with running `sum`. */
  function CrtSum(n: seq<int>, a: seq<int>, prod: int, i: nat, sum: int): Result<int>
    requires AllPositive(n) && prod >= 1 && i <= ZipLength(n, a)
    decreases ZipLength(n, a) - i
  {
    if i == ZipLength(n, a) then Ok(sum % prod)
    else
      var p := prod / n[i];
      match ModInverse(p, n[i])
      case Ok(inv) => CrtSum(n, a, prod, i + 1, sum + a[i] * inv * p)
      case Err(e) => Err(e)
  }

  /** What `chinese_remainder(n, a)` returns or raises: `reduce` over an
      empty `n` is a `TypeError`. */
  function Crt(n: seq<int>, a: seq<int>): Result<int>
    requires AllPositive(n)
  {
    if n == [] then Err(TypeError)
    else
      ProdPositive(n);
      CrtSum(n, a, Prod(n), 0, 0)
  }

  method ChineseRemainder(n: seq<int>, a: seq<int>) returns (r: Result<int>)
    requires AllPositive(n)
    ensures r == Crt(n, a)
  {
    var sum := 0;
    if n == [] {
      return Err(TypeError);
    }
    var prod := Prod(n);
    ProdPositive(n);
    for i := 0 to ZipLength(n, a)
      invariant CrtSum(n, a, prod, i, sum) == Crt(n, a)
    {
      var p := prod / n[i];
      var inv := MulInv(p, n[i]);
      if inv.Err? {
        return Err(inv.error);
      }
      sum := sum + a[i] * inv.value * p;
    }
    return Ok(sum % prod);
  }

  lemma {:induction false} CrtSumRange(n: seq<int>, a: seq<int>, prod: int, i: nat, sum: int)
    requires AllPositive(n) && prod >= 1 && i <= ZipLength(n, a)
    ensures CrtSum(n, a, prod, i, sum).Ok? ==> 0 <= CrtSum(n, a, prod, i, sum).value < prod
    decreases ZipLength(n, a) - i
  {
    if i < ZipLength(n, a) {
      var p := prod / n[i];
      var inv := ModInverse(p, n[i]);
      if inv.Ok? {
        CrtSumRange(n, a, prod, i + 1, sum + a[i] * inv.value * p);
      }
    }
  }

  /** A result of `chinese_remainder` lies in `[0, prod(n))`. */
  lemma CrtRange(n: seq<int>, a: seq<int>)
    requires AllPositive(n)
    ensures Crt(n, a).Ok? ==> 0 <= Crt(n, a).value < Prod(n)
  {
    if n != [] {
      ProdPositive(n);
      CrtSumRange(n, a, Prod(n), 0, 0);
    }
  }

  /** The loop fails exactly when `mul_inv` fails at some remaining pair,
      and then with `ZeroDivisionError`. */
  lemma {:induction false} CrtSumErrors(n: seq<int>, a: seq<int>, prod: int, i: nat, sum: int)
    requires AllPositive(n) && prod >= 1 && i <= ZipLength(n, a)
    ensures CrtSum(n, a, prod, i, sum).Err? <==>
      exists k :: i <= k < ZipLength(n, a) && ModInverse(prod / n[k], n[k]).Err?
    ensures CrtSum(n, a, prod, i, sum).Err? ==> CrtSum(n, a, prod, i, sum).error == ZeroDivisionError
    decreases ZipLength(n, a) - i
  {
    if i < ZipLength(n, a) {
      var p := prod / n[i];
      var inv := ModInverse(p, n[i]);
      if inv.Ok? {
        CrtSumErrors(n, a, prod, i + 1, sum + a[i] * inv.value * p);
        assert (exists k :: i <= k < ZipLength(n, a) && ModInverse(prod / n[k], n[k]).Err?) ==>
          exists k :: i + 1 <= k < ZipLength(n, a) && ModInverse(prod / n[k], n[k]).Err?;
      } else {
        ModInverseCorrect(p, n[i]);
        assert i <= i < ZipLength(n, a) && ModInverse(prod / n[i], n[i]).Err?;
      }
    }
  }

  /** One step of the loop: `mul_inv(prod // n[i], n[i])` succeeds exactly
      when `n[i]` is coprime to the product of the other moduli. */
  lemma CrtStep(n: seq<int>, i: nat)
    requires AllPositive(n) && i < |n|
    ensures Prod(n) >= 1
    ensures ModInverse(Prod(n) / n[i], n[i]).Ok? <==> Coprime(ProdExcept(n, i), n[i])
  {
    ProdPositive(n);
    ProdDivExcept(n, i);
    ProdPositive(n[..i] + n[i + 1..]);
    ModInverseCorrect(Prod(n) / n[i], n[i]);
  }

  /** `chinese_remainder` raises `TypeError` on no moduli and otherwise
      raises (`ZeroDivisionError`, from `mul_inv`) exactly when some paired
      modulus is not coprime to the product of the others. */
  lemma CrtErrors(n: seq<int>, a: seq<int>)
    requires AllPositive(n)
    ensures n == [] ==> Crt(n, a) == Err(TypeError)
    ensures n != [] ==>
      (Crt(n, a).Err? <==> exists k :: 0 <= k < ZipLength(n, a) && !Coprime(ProdExcept(n, k), n[k]))
    ensures n != [] && Crt(n, a).Err? ==> Crt(n, a).error == ZeroDivisionError
  {
    if n != [] {
      ProdPositive(n);
      CrtSumErrors(n, a, Prod(n), 0, 0);
      forall k | 0 <= k < ZipLength(n, a)
        ensures ModInverse(Prod(n) / n[k], n[k]).Ok? <==> Coprime(ProdExcept(n, k), n[k])
      {
        CrtStep(n, k);
      }
    }
  }

  /** The residue the loop has built for modulus `n[k]` after `i` pairs. */
  function Target(n: seq<int>, a: seq<int>, i: nat, k: nat): int
    requires i <= ZipLength(n, a)
  {
    if k < i then a[k] else 0
  }

  lemma {:induction false} CrtSumCongruent(n: seq<int>, a: seq<int>, i: nat, sum: int)
    requires AllPositive(n) && PairwiseCoprime(n) && |n| >= 1 && i <= ZipLength(n, a)
    requires forall k :: 0 <= k < |n| ==> Congruent(sum, Target(n, a, i, k), n[k])
    ensures Prod(n) >= 1
    ensures CrtSum(n, a, Prod(n), i, sum).Ok?
    ensures forall k :: 0 <= k < |n| ==>
      CrtSum(n, a, Prod(n), i, sum).value % n[k] == Target(n, a, ZipLength(n, a), k) % n[k]
    decreases ZipLength(n, a) - i
  {
    ProdPositive(n);
    var prod := Prod(n);
    if i == ZipLength(n, a) {
      CrtSumFinal(n, a, sum);
    } else {
      var p := prod / n[i];
      ProdDivExcept(n, i);
      ProdPositive(n[..i] + n[i + 1..]);
      CoprimeToProdExcept(n, i);
      ModInverseCorrect(p, n[i]);
      var inv := ModInverse(p, n[i]).value;
      var sum' := sum + a[i] * inv * p;
      assert CrtSum(n, a, prod, i, sum) == CrtSum(n, a, prod, i + 1, sum');
      CrtSumTerm(n, a, i, sum, p, inv);
      CrtSumCongruent(n, a, i + 1, sum');
    }
  }

  /** Once every pair is added, `sum % N` keeps each residue. */
  lemma CrtSumFinal(n: seq<int>, a: seq<int>, sum: int)
    requires AllPositive(n) && |n| >= 1
    requires forall k :: 0 <= k < |n| ==> Congruent(sum, Target(n, a, ZipLength(n, a), k), n[k])
    ensures Prod(n) >= 1
    ensures forall k :: 0 <= k < |n| ==>
      (sum % Prod(n)) % n[k] == Target(n, a, ZipLength(n, a), k) % n[k]
  {
    ProdPositive(n);
    forall k | 0 <= k < |n|
      ensures (sum % Prod(n)) % n[k] == Target(n, a, ZipLength(n, a), k) % n[k]
    {
      ProdSplit(n, k);
      ProdPositive(n[..k] + n[k + 1..]);
      ModOfMultipleModulus(sum, n[k], ProdExcept(n, k));
      CongruentSameMod(sum, Target(n, a, ZipLength(n, a), k), n[k]);
    }
  }

  /** Adding `a_i * inv * p` (with `p = N / n_i` and `inv` its inverse
      modulo `n_i`) makes the sum hit `a_i` modulo `n_i` and changes no
      other residue. */
  lemma CrtSumTerm(n: seq<int>, a: seq<int>, i: nat, sum: int, p: int, inv: int)
    requires AllPositive(n) && PairwiseCoprime(n) && i < ZipLength(n, a)
    requires p == ProdExcept(n, i) && (n[i] == 1 || (p * inv) % n[i] == 1)
    requires forall k :: 0 <= k < |n| ==> Congruent(sum, Target(n, a, i, k), n[k])
    ensures forall k :: 0 <= k < |n| ==> Congruent(sum + a[i] * inv * p, Target(n, a, i + 1, k), n[k])
  {
    forall k | 0 <= k < |n|
      ensures Congruent(sum + a[i] * inv * p, Target(n, a, i + 1, k), n[k])
    {
      if k == i {
        InverseTerm(p, inv, a[i], n[i]);
        CongruentAdd(sum, 0, a[i] * inv * p, a[i], n[i]);
      } else {
        ProdExceptDivisible(n, i, k);
        DividesProduct(n[k], p, a[i] * inv);
        assert a[i] * inv * p == p * (a[i] * inv);
        CongruentAdd(sum, Target(n, a, i, k), a[i] * inv * p, 0, n[k]);
      }
    }
  }

  /** `a * inv * p ≡ a (mod m)` when `inv` inverts `p` modulo `m`. */
  lemma InverseTerm(p: int, inv: int, a: int, m: int)
    requires m >= 1 && (m == 1 || (p * inv) % m == 1)
    ensures Congruent(a * inv * p, a, m)
  {
    if m == 1 {
      DivModUnique(a * inv * p - a, 1, a * inv * p - a, 0);
      return;
    }
    assert Congruent(p * inv, 1, m) by {
      DivModUnique(1, m, 0, 1);
      CongruentSameMod(p * inv, 1, m);
    }
    CongruentScale(p * inv, 1, a, m);
    assert p * inv * a == a * inv * p;
  }

  /** For pairwise coprime moduli, `chinese_remainder(n, a)` succeeds and its
      result is congruent to `a[i]` modulo each paired `n[i]`. A modulus
      with no partner in `a` (when `a` is shorter) gets residue 0, because
      `zip` drops it from the sum. */
  lemma CrtCongruences(n: seq<int>, a: seq<int>)
    requires AllPositive(n) && PairwiseCoprime(n) && n != []
    ensures Crt(n, a).Ok?
    ensures forall k :: 0 <= k < |n| ==>
      Crt(n, a).value % n[k] == (if k < |a| then a[k] % n[k] else 0)
  {
    forall k | 0 <= k < |n|
      ensures Congruent(0, Target(n, a, 0, k), n[k])
    {
      DivModUnique(0, n[k], 0, 0);
    }
    CrtSumCongruent(n, a, 0, 0);
    forall k | 0 <= k < |n|
      ensures Crt(n, a).value % n[k] == (if k < |a| then a[k] % n[k] else 0)
    {
      DivModUnique(0, n[k], 0, 0);
    }
  }

  // ---------------------------------------------------------------------
  // find_invpow: the integer n-th root by doubling and bisection
  // ---------------------------------------------------------------------

  /** The doubling loop: the first power of two `high` with `high^n >= x`. */
  function Bracket(x: int, n: nat, high: int): int
    requires n >= 1 && high >= 1
    decreases if high < x then x - high else 0
  {
    if Pow(high, n) < x then
      PowAtLeastBase(high, n);
      Bracket(x, n, 2 * high)
    else high
  }

  /** The bisection loop from `(low, high)`; `mid` is the last midpoint,
      which the function returns plus one when the loop runs out. */
  function Bisect(x: int, n: nat, low: int, high: int, mid: int): int
    decreases high - low
  {
    if low < high then
      var m := (low + high) / 2;
      if low < m && Pow(m, n) < x then Bisect(x, n, m, high, m)
      else if high > m && Pow(m, n) > x then Bisect(x, n, low, m, m)
      else m
    else mid + 1
  }

  /** What `find_invpow(x, n)` returns. */
  function InvPow(x: int, n: nat): int
    requires n >= 1
  {
    var high := Bracket(x, n, 1);
    Bisect(x, n, high / 2, high, 0)
  }

  method FindInvPow(x: int, n: nat) returns (r: int)
    requires n >= 1
    ensures r == InvPow(x, n)
    ensures x >= 0 ==> r >= 0 && Pow(r, n) <= x <= Pow(r + 1, n)
  {
    var high := 1;
    while Pow(high, n) < x
      invariant high >= 1
      invariant Bracket(x, n, high) == Bracket(x, n, 1)
      decreases x - high
    {
      PowAtLeastBase(high, n);
      high := high * 2;
    }
    var low := high / 2;
    var mid := 0;
    while low < high
      invariant Bisect(x, n, low, high, mid) == InvPow(x, n)
      decreases high - low
    {
      mid := (low + high) / 2;
      if low < mid && Pow(mid, n) < x {
        low := mid;
      } else if high > mid && Pow(mid, n) > x {
        high := mid;
      } else {
        if x >= 0 {
          InvPowBracket(x, n);
        }
        return mid;
      }
    }
    if x >= 0 {
      InvPowBracket(x, n);
    }
    return mid + 1;
  }

  /** For non-negative bases, `a < b` exactly when `a^n < b^n`. */
  lemma PowLess(a: int, b: int, n: nat)
    requires a >= 0 && b >= 0 && n >= 1
    ensures a < b <==> Pow(a, n) < Pow(b, n)
  {
    if a < b {
      PowStrictlyMonotone(a, b, n);
    } else {
      PowMonotone(b, a, n);
    }
  }

  lemma {:induction false} BracketSpec(x: int, n: nat, high: int)
    requires n >= 1 && IsPowerOfTwo(high)
    requires high > 1 ==> Pow(high / 2, n) < x
    ensures IsPowerOfTwo(Bracket(x, n, high)) && x <= Pow(Bracket(x, n, high), n)
    ensures Bracket(x, n, high) > 1 ==> Pow(Bracket(x, n, high) / 2, n) < x
    decreases if high < x then x - high else 0
  {
    PowerOfTwoPositive(high);
    if Pow(high, n) < x {
      PowAtLeastBase(high, n);
      PowerOfTwoDoubles(high);
      BracketSpec(x, n, 2 * high);
    }
  }

  lemma {:induction false} BisectSpec(x: int, n: nat, low: int, high: int, mid: int, top: int)
    requires n >= 1 && x >= 0 && 0 <= low < high <= top
    requires Pow(low, n) <= x <= Pow(high, n)
    requires Pow(high, n) == x ==> high == top
    ensures 0 <= Bisect(x, n, low, high, mid) < top
    ensures Pow(Bisect(x, n, low, high, mid), n) <= x <= Pow(Bisect(x, n, low, high, mid) + 1, n)
    ensures Pow(Bisect(x, n, low, high, mid) + 1, n) == x ==> Bisect(x, n, low, high, mid) + 1 == top
    decreases high - low
  {
    var m := (low + high) / 2;
    PowLess(low, m, n);
    PowLess(m, m + 1, n);
    if low < m && Pow(m, n) < x {
      assert Bisect(x, n, low, high, mid) == Bisect(x, n, m, high, m);
      BisectSpec(x, n, m, high, m, top);
    } else if high > m && Pow(m, n) > x {
      assert Bisect(x, n, low, high, mid) == Bisect(x, n, low, m, m);
      BisectSpec(x, n, low, m, m, top);
    } else {
      assert Bisect(x, n, low, high, mid) == m;
      assert low <= m < high;
      if m == low {
        assert m + 1 == high;
      } else {
        assert Pow(m, n) == x < Pow(m + 1, n);
      }
    }
  }

  /** `find_invpow(x, n)` brackets the real root: `r^n <= x <= (r+1)^n`. The
      upper bound is reached only at the power of two the doubling loop
      stopped at, and the result stays below that power of two. */
  lemma InvPowBracket(x: int, n: nat)
    requires n >= 1 && x >= 0
    ensures 0 <= InvPow(x, n) < Bracket(x, n, 1)
    ensures Pow(InvPow(x, n), n) <= x <= Pow(InvPow(x, n) + 1, n)
    ensures Pow(InvPow(x, n) + 1, n) == x ==>
      InvPow(x, n) + 1 == Bracket(x, n, 1) && IsPowerOfTwo(Bracket(x, n, 1))
  {
    var h := Bracket(x, n, 1);
    BracketSpec(x, n, 1);
    PowerOfTwoPositive(h);
    PowZero(n);
    BisectSpec(x, n, h / 2, h, 0, h);
  }

  /** A negative `x` (no real root to find) gives 1. */
  lemma InvPowNegative(x: int, n: nat)
    requires n >= 1 && x < 0
    ensures InvPow(x, n) == 1
  {
    PowOne(n);
    PowZero(n);
  }

  /** Ordering of powers of two, as an implication usable on any pair. */
  lemma PowerOfTwoOrder(p: int, q: int)
    requires IsPowerOfTwo(p) && IsPowerOfTwo(q)
    ensures p < q ==> 2 * p <= q
  {
    if p < q {
      PowerOfTwoGap(p, q);
    }
  }

  /** Among powers of two, the doubling loop's stopping point is the only one
      whose n-th power can equal `x`. */
  lemma StopIsOnlyPowerOfTwoRoot(h: int, p: int, x: int, n: nat)
    requires n >= 1 && IsPowerOfTwo(h) && IsPowerOfTwo(p)
    requires x <= Pow(h, n) && (h > 1 ==> Pow(h / 2, n) < x) && Pow(p, n) == x
    ensures p == h
  {
    PowerOfTwoPositive(h);
    PowerOfTwoPositive(p);
    PowerOfTwoOrder(p, h);
    PowerOfTwoOrder(h, p);
    PowLess(p, h / 2, n);
    PowLess(h, p, n);
  }

  /** If `root^n` lies between `r^n` and `(r+1)^n`, `root` is `r` or `r + 1`,
      and it is `r` unless `(r+1)^n` is reached. */
  lemma PinRoot(r: int, root: int, n: nat)
    requires r >= 0 && root >= 0 && n >= 1
    requires Pow(r, n) <= Pow(root, n) <= Pow(r + 1, n)
    ensures root == r || root == r + 1
    ensures Pow(root, n) < Pow(r + 1, n) ==> root == r
  {
    PowLess(root, r, n);
    PowLess(r + 1, root, n);
    PowLess(root, r + 1, n);
  }

  /** On an exact power `root^n`, `find_invpow` returns `root`, except when
      `root` is a power of two: then the bisection never tests `root`
      itself and the result is `root - 1`. */
  lemma InvPowOfPower(root: nat, n: nat)
    requires n >= 1
    ensures InvPow(Pow(root, n), n) == if IsPowerOfTwo(root) then root - 1 else root
  {
    if IsPowerOfTwo(root) {
      InvPowOfPowerOfTwo(root, n);
    } else {
      InvPowOfOtherPower(root, n);
    }
  }

  lemma InvPowOfPowerOfTwo(root: nat, n: nat)
    requires n >= 1 && IsPowerOfTwo(root)
    ensures InvPow(Pow(root, n), n) == root - 1
  {
    var x := Pow(root, n);
    PowNonNegative(root, n);
    InvPowBracket(x, n);
    PinRoot(InvPow(x, n), root, n);
    BracketSpec(x, n, 1);
    StopIsOnlyPowerOfTwoRoot(Bracket(x, n, 1), root, x, n);
  }

  lemma InvPowOfOtherPower(root: nat, n: nat)
    requires n >= 1 && !IsPowerOfTwo(root)
    ensures InvPow(Pow(root, n), n) == root
  {
    var x := Pow(root, n);
    PowNonNegative(root, n);
    InvPowBracket(x, n);
    var r := InvPow(x, n);
    PinRoot(r, root, n);
    assert root != r + 1 by {
      assert Pow(r + 1, n) == x ==> IsPowerOfTwo(r + 1);
    }
  }

  /** The right-hand bound is met with equality only at a power-of-two
      bracket: `find_invpow(4, 2) == 1` and `find_invpow(1, 3) == 0`. */
  lemma InvPowExamples()
    ensures InvPow(4, 2) == 1 && Pow(1 + 1, 2) == 4
    ensures InvPow(1, 3) == 0 && Pow(0 + 1, 3) == 1
  {
    assert Pow(2, 2) == 4 && Pow(1, 3) == 1;
    assert IsPowerOfTwo(2) && IsPowerOfTwo(1);
    InvPowOfPower(2, 2);
    InvPowOfPower(1, 3);
  }

  // ---------------------------------------------------------------------
  // attack
  // ---------------------------------------------------------------------

  /** The `publickeys` argument: the attack only runs on a list. */
  datatype KeysArgument = KeyList(keys: seq<PublicKey>) | NotAList

  /** Public exponents below this bound take part in the attack. */
  const SmallExponentBound := 11

  /** The moduli of the keys whose exponent is below the bound, in order. */
  function SmallModuli(keys: seq<PublicKey>): seq<int>
  {
    if keys == [] then []
    else
      var last := keys[|keys| - 1];
      SmallModuli(keys[..|keys| - 1]) + (if last.e < SmallExponentBound then [last.n] else [])
  }

  /** The exponents of the same keys. */
  function SmallExponents(keys: seq<PublicKey>): seq<int>
  {
    if keys == [] then []
    else
      var last := keys[|keys| - 1];
      SmallExponents(keys[..|keys| - 1]) + (if last.e < SmallExponentBound then [last.e] else [])
  }

  function Elements(s: seq<int>): set<int>
  {
    set x | x in s
  }

  /** The ciphertexts as integers, big-endian. */
  function Ciphertexts(cipher: seq<seq<Byte>>): seq<int>
  {
    seq(|cipher|, i requires 0 <= i < |cipher| => FromBytesBig(cipher[i]))
  }

  /** The keys the attack can work with: small-exponent keys have a
      positive modulus and a positive exponent. */
  predicate WellFormedKeys(keys: seq<PublicKey>)
  {
    forall i :: 0 <= i < |keys| && keys[i].e < SmallExponentBound ==> keys[i].n >= 1 && keys[i].e >= 1
  }

  lemma {:induction false} SmallKeysFacts(keys: seq<PublicKey>)
    requires WellFormedKeys(keys)
    ensures |SmallModuli(keys)| == |SmallExponents(keys)|
    ensures AllPositive(SmallModuli(keys))
    ensures forall i :: 0 <= i < |SmallExponents(keys)| ==> 1 <= SmallExponents(keys)[i] < SmallExponentBound
  {
    if keys != [] {
      SmallKeysFacts(keys[..|keys| - 1]);
    }
  }

  /** What `attack(publickeys, cipher)` returns or raises. */
  function HastadSpec(publickeys: KeysArgument, cipher: seq<seq<Byte>>): Result<AttackResult>
    requires publickeys.KeyList? ==> WellFormedKeys(publickeys.keys)
  {
    if publickeys.NotAList? then Ok(NoResult)
    else
      var keys := publickeys.keys;
      var moduli, exponents := SmallModuli(keys), SmallExponents(keys);
      if |Elements(exponents)| != 1 then Ok(NoResult)
      else
        SmallKeysFacts(keys);
        match RecoverPlaintext(moduli, Ciphertexts(cipher), exponents[0])
        case Ok(plain) => Ok(AttackResult(None, Some(plain)))
        case Err(err) => Err(err)
  }

  /** The last steps of `attack`: combine the ciphertexts, take the `e`-th
      root and decode its hex digits as bytes. */
  function RecoverPlaintext(moduli: seq<int>, c: seq<int>, e: nat): Result<seq<Byte>>
    requires AllPositive(moduli) && e >= 1
  {
    match Crt(moduli, c)
    case Err(err) => Err(err)
    case Ok(combined) =>
      CrtRange(moduli, c);
      InvPowBracket(combined, e);
      FromHex(HexString(InvPow(combined, e)))
  }

  lemma SingletonElement(s: set<int>, x: int, y: int)
    requires |s| == 1 && x in s && y in s
    ensures x == y
  {
    assert x !in s - {y} by {
      assert |s - {y}| == 0;
    }
  }

  method Attack(publickeys: KeysArgument, cipher: seq<seq<Byte>>) returns (r: Result<AttackResult>)
    requires publickeys.KeyList? ==> WellFormedKeys(publickeys.keys)
    ensures r == HastadSpec(publickeys, cipher)
  {
    if publickeys.NotAList? {
      return Ok(NoResult);
    }
    var keys := publickeys.keys;
    var c: seq<int> := [];
    for i := 0 to |cipher|
      invariant c == Ciphertexts(cipher[..i])
    {
      assert cipher[..i + 1][..i] == cipher[..i];
      c := c + [FromBytesBig(cipher[i])];
    }
    assert cipher[..|cipher|] == cipher;
    var n: seq<int> := [];
    var e: seq<int> := [];
    for i := 0 to |keys|
      invariant n == SmallModuli(keys[..i]) && e == SmallExponents(keys[..i])
    {
      assert keys[..i + 1][..i] == keys[..i];
      if keys[i].e < SmallExponentBound {
        n := n + [keys[i].n];
        e := e + [keys[i].e];
      }
    }
    assert keys[..|keys|] == keys;
    var exponents := Elements(e);
    if |exponents| != 1 {
      return Ok(NoResult);
    }
    SmallKeysFacts(keys);
    assert e == [] ==> exponents == {};
    assert e[0] in exponents;
    var exponent :| exponent in exponents;
    SingletonElement(exponents, exponent, e[0]);
    var combined := ChineseRemainder(n, c);
    if combined.Err? {
      return Err(combined.error);
    }
    CrtRange(n, c);
    var root := FindInvPow(combined.value, exponent);
    var plain := FromHex(HexString(root));
    if plain.Err? {
      return Err(plain.error);
    }
    return Ok(AttackResult(None, Some(plain.value)));
  }

  /** What the last steps can end with: `TypeError` when no key takes
      part, `ZeroDivisionError` when the moduli share a factor, `ValueError`
      when the root has an odd number of hex digits, and otherwise the
      minimal big-endian bytes of the integer root of the combined
      ciphertext. */
  lemma RecoverPlaintextOutcomes(moduli: seq<int>, c: seq<int>, e: nat)
    requires AllPositive(moduli) && e >= 1
    ensures RecoverPlaintext(moduli, c, e) == Err(TypeError) <==> moduli == []
    ensures RecoverPlaintext(moduli, c, e).Err? ==>
      RecoverPlaintext(moduli, c, e).error in {TypeError, ZeroDivisionError, ValueError}
    ensures RecoverPlaintext(moduli, c, e).Ok? ==>
      var plain := RecoverPlaintext(moduli, c, e).value;
      && Crt(moduli, c).Ok?
      && |plain| >= 1 && plain[0] != 0
      && FromBytesBig(plain) == InvPow(Crt(moduli, c).value, e)
  {
    var combined := Crt(moduli, c);
    assert combined.Err? ==> combined.error == (if moduli == [] then TypeError else ZeroDivisionError) by {
      CrtErrors(moduli, c);
    }
    if combined.Ok? {
      assert InvPow(combined.value, e) >= 0 by {
        CrtRange(moduli, c);
        InvPowBracket(combined.value, e);
      }
      RootBytes(InvPow(combined.value, e));
    }
  }

  /** `bytes.fromhex(hex(v)[2:])` fails only with `ValueError`, and its
      bytes are minimal and read back as `v`. */
  lemma RootBytes(v: nat)
    ensures FromHex(HexString(v)).Err? ==> FromHex(HexString(v)).error == ValueError
    ensures FromHex(HexString(v)).Ok? ==>
      var plain := FromHex(HexString(v)).value;
      |plain| >= 1 && plain[0] != 0 && FromBytesBig(plain) == v
  {
    HexRoundTrip(v);
    if FromHex(HexString(v)).Ok? {
      HexNoLeadingZero(v);
    }
    FromHexValue(HexString(v));
  }

  /** The attack answers `(None, None)` when the keys are not a list or do
      not share exactly one small exponent, and otherwise hands back the
      outcome of the last steps: never a `TypeError`, and on success no
      private key and the plaintext bytes. */
  lemma AttackOutcomes(publickeys: KeysArgument, cipher: seq<seq<Byte>>)
    requires publickeys.KeyList? ==> WellFormedKeys(publickeys.keys)
    ensures publickeys.NotAList? ==> HastadSpec(publickeys, cipher) == Ok(NoResult)
    ensures publickeys.KeyList? && |Elements(SmallExponents(publickeys.keys))| != 1 ==>
      HastadSpec(publickeys, cipher) == Ok(NoResult)
    ensures HastadSpec(publickeys, cipher).Err? ==>
      HastadSpec(publickeys, cipher).error in {ZeroDivisionError, ValueError}
    ensures publickeys.KeyList? && |Elements(SmallExponents(publickeys.keys))| == 1 ==>
      var keys := publickeys.keys;
      && SmallExponents(keys) != []
      && AllPositive(SmallModuli(keys)) && SmallExponents(keys)[0] >= 1
      && HastadSpec(publickeys, cipher).Ok? == RecoverPlaintext(SmallModuli(keys), Ciphertexts(cipher), SmallExponents(keys)[0]).Ok?
      && (HastadSpec(publickeys, cipher).Ok? ==>
            HastadSpec(publickeys, cipher).value ==
            AttackResult(None, Some(RecoverPlaintext(SmallModuli(keys), Ciphertexts(cipher), SmallExponents(keys)[0]).value)))
  {
    if publickeys.KeyList? && |Elements(SmallExponents(publickeys.keys))| == 1 {
      var keys := publickeys.keys;
      SmallKeysFacts(keys);
      var exponents := SmallExponents(keys);
      assert exponents == [] ==> Elements(exponents) == {};
      RecoverPlaintextOutcomes(SmallModuli(keys), Ciphertexts(cipher), exponents[0]);
    }
  }

  /** The last steps on a broadcast of `m` under exponent `E` to pairwise
      coprime moduli with `m^E` below their product: the bytes of `m`, or of
      `m - 1` when `m` is a power of two. */
  lemma RecoverBroadcast(n: seq<int>, cipher: seq<seq<Byte>>, m: nat, E: nat)
    requires AllPositive(n) && PairwiseCoprime(n) && n != [] && Pow(m, E) < Prod(n) && E >= 1
    requires |cipher| == |n|
    requires forall i :: 0 <= i < |n| ==> FromBytesBig(cipher[i]) == Pow(m, E) % n[i]
    ensures !IsPowerOfTwo(m) ==> RecoverPlaintext(n, Ciphertexts(cipher), E) == FromHex(HexString(m))
    ensures m >= 1 && IsPowerOfTwo(m) ==> RecoverPlaintext(n, Ciphertexts(cipher), E) == FromHex(HexString(m - 1))
  {
    BroadcastCombines(n, cipher, m, E);
    InvPowOfPower(m, E);
  }

  /** The moduli of all keys, in order. */
  function Moduli(keys: seq<PublicKey>): seq<int>
  {
    seq(|keys|, i requires 0 <= i < |keys| => keys[i].n)
  }

  /** When every key has exponent `E` below the bound, every key takes part. */
  lemma {:induction false} AllKeysSmall(keys: seq<PublicKey>, E: int)
    requires E < SmallExponentBound
    requires forall i :: 0 <= i < |keys| ==> keys[i].e == E
    ensures SmallModuli(keys) == Moduli(keys)
    ensures |SmallExponents(keys)| == |keys|
    ensures forall i :: 0 <= i < |keys| ==> SmallExponents(keys)[i] == E
  {
    if keys != [] {
      var init := keys[..|keys| - 1];
      AllKeysSmall(init, E);
      assert Moduli(keys) == Moduli(init) + [keys[|keys| - 1].n];
    }
  }

  /** A key whose exponent is not below the bound is dropped silently:
      adding it anywhere in the list changes neither the keys that take
      part nor the outcome of the attack. */
  lemma LargeExponentIgnored(front: seq<PublicKey>, k: PublicKey, back: seq<PublicKey>, cipher: seq<seq<Byte>>)
    requires k.e >= SmallExponentBound
    requires WellFormedKeys(front + back)
    ensures WellFormedKeys(front + [k] + back)
    ensures SmallModuli(front + [k] + back) == SmallModuli(front + back)
    ensures SmallExponents(front + [k] + back) == SmallExponents(front + back)
    ensures HastadSpec(KeyList(front + [k] + back), cipher) == HastadSpec(KeyList(front + back), cipher)
  {
    var all := front + [k] + back;
    assert WellFormedKeys(all) by {
      forall i | 0 <= i < |all| && all[i].e < SmallExponentBound
        ensures all[i].n >= 1 && all[i].e >= 1
      {
        if i < |front| {
          assert all[i] == (front + back)[i];
        } else if i > |front| {
          assert all[i] == (front + back)[i - 1];
        }
      }
    }
    SkipLargeKey(front, k, back);
  }

  lemma {:induction false} SkipLargeKey(front: seq<PublicKey>, k: PublicKey, back: seq<PublicKey>)
    requires k.e >= SmallExponentBound
    ensures SmallModuli(front + [k] + back) == SmallModuli(front + back)
    ensures SmallExponents(front + [k] + back) == SmallExponents(front + back)
    decreases |back|
  {
    if back == [] {
      assert (front + [k])[..|front|] == front;
      assert front + [k] + back == front + [k] && front + back == front;
    } else {
      var init := back[..|back| - 1];
      SkipLargeKey(front, k, init);
      assert (front + [k] + back)[..|front + [k] + back| - 1] == front + [k] + init;
      assert (front + back)[..|front + back| - 1] == front + init;
    }
  }

  /** Keys that all share one exponent `E` below the bound: all of them take
      part, and the exponent set is `{E}`. */
  lemma SharedExponent(keys: seq<PublicKey>, E: int)
    requires keys != [] && 1 <= E < SmallExponentBound
    requires forall i :: 0 <= i < |keys| ==> keys[i].e == E && keys[i].n >= 1
    ensures WellFormedKeys(keys)
    ensures SmallModuli(keys) == Moduli(keys) && AllPositive(Moduli(keys))
    ensures |Elements(SmallExponents(keys))| == 1 && SmallExponents(keys)[0] == E
  {
    AllKeysSmall(keys, E);
    ConstantElements(SmallExponents(keys), E);
    assert AllPositive(Moduli(keys)) by {
      forall i | 0 <= i < |keys| ensures Moduli(keys)[i] >= 1 {
        assert keys[i].n >= 1;
      }
    }
  }

  lemma ConstantElements(s: seq<int>, E: int)
    requires s != [] && forall i :: 0 <= i < |s| ==> s[i] == E
    ensures |Elements(s)| == 1 && s[0] == E
  {
    assert Elements(s) == {E} by {
      assert s[0] in Elements(s);
    }
  }

  /** With one shared small exponent `E`, the attack is the last steps on
      all the moduli with exponent `E`. */
  lemma SharedExponentAttack(keys: seq<PublicKey>, cipher: seq<seq<Byte>>, E: int)
    requires keys != [] && 1 <= E < SmallExponentBound
    requires forall i :: 0 <= i < |keys| ==> keys[i].e == E && keys[i].n >= 1
    ensures WellFormedKeys(keys) && AllPositive(Moduli(keys))
    ensures HastadSpec(KeyList(keys), cipher) ==
      match RecoverPlaintext(Moduli(keys), Ciphertexts(cipher), E)
      case Ok(plain) => Ok(AttackResult(None, Some(plain)))
      case Err(err) => Err(err)
  {
    SharedExponent(keys, E);
  }

  /** A broadcast of `m` under exponent `E` to pairwise coprime moduli: when
      `m^E` is below the product of the moduli, the Chinese remainder step
      recovers `m^E` exactly. */
  lemma BroadcastCombines(n: seq<int>, cipher: seq<seq<Byte>>, m: nat, E: nat)
    requires AllPositive(n) && PairwiseCoprime(n) && n != [] && Pow(m, E) < Prod(n)
    requires |cipher| == |n|
    requires forall i :: 0 <= i < |n| ==> FromBytesBig(cipher[i]) == Pow(m, E) % n[i]
    ensures Crt(n, Ciphertexts(cipher)) == Ok(Pow(m, E))
  {
    PowNonNegative(m, E);
    CrtExact(n, Ciphertexts(cipher), Pow(m, E));
  }

  /** The Chinese remainder theorem as `chinese_remainder` computes it: for
      pairwise coprime moduli and residues `x mod n[i]` of some `x` below
      their product, the result is `x` itself. */
  lemma CrtExact(n: seq<int>, a: seq<int>, x: int)
    requires AllPositive(n) && PairwiseCoprime(n) && n != [] && |a| == |n|
    requires 0 <= x < Prod(n)
    requires forall i :: 0 <= i < |n| ==> a[i] == x % n[i]
    ensures Crt(n, a) == Ok(x)
  {
    assert Crt(n, a).Ok? && 0 <= Crt(n, a).value < Prod(n) by {
      CrtCongruences(n, a);
      CrtRange(n, a);
    }
    var c := Crt(n, a).value;
    forall i | 0 <= i < |n|
      ensures Congruent(c, x, n[i])
    {
      CrtCongruences(n, a);
      DivModUnique(x % n[i], n[i], 0, x % n[i]);
      CongruentSameMod(c, x, n[i]);
    }
    CongruentModProd(n, c, x);
    CongruentSameMod(c, x, Prod(n));
    DivModUnique(c, Prod(n), 0, c);
    DivModUnique(x, Prod(n), 0, x);
  }

  /** Håstad's broadcast attack recovers the message: with `c_i = m^E mod
      n_i` for pairwise coprime moduli and `m^E` below their product, the
      attack returns the big-endian bytes of `m`, as long as `m` is not a
      power of two and its hex form has an even number of digits. */
  lemma AttackRecoversMessage(keys: seq<PublicKey>, cipher: seq<seq<Byte>>, m: nat, E: int)
    requires keys != [] && 1 <= E < SmallExponentBound
    requires forall i :: 0 <= i < |keys| ==> keys[i].e == E && keys[i].n >= 1
    requires PairwiseCoprime(Moduli(keys)) && Pow(m, E) < Prod(Moduli(keys))
    requires |cipher| == |keys|
    requires forall i :: 0 <= i < |keys| ==> FromBytesBig(cipher[i]) == Pow(m, E) % keys[i].n
    requires !IsPowerOfTwo(m) && |HexString(m)| % 2 == 0
    ensures WellFormedKeys(keys)
    ensures HastadSpec(KeyList(keys), cipher).Ok?
    ensures HastadSpec(KeyList(keys), cipher).value.privateKey == None
    ensures HastadSpec(KeyList(keys), cipher).value.plaintext.Some?
    ensures FromBytesBig(HastadSpec(KeyList(keys), cipher).value.plaintext.value) == m
  {
    SharedExponentAttack(keys, cipher, E);
    RecoverBroadcast(Moduli(keys), cipher, m, E);
    HexRoundTrip(m);
  }

  /** The same broadcast when `m` is a power of two: `find_invpow` lands
      one below the root, so the attack returns the bytes of `m - 1` (or
      `ValueError` when `m - 1` has an odd number of hex digits). */
  lemma AttackPowerOfTwoMessage(keys: seq<PublicKey>, cipher: seq<seq<Byte>>, m: nat, E: int)
    requires keys != [] && 1 <= E < SmallExponentBound
    requires forall i :: 0 <= i < |keys| ==> keys[i].e == E && keys[i].n >= 1
    requires PairwiseCoprime(Moduli(keys)) && Pow(m, E) < Prod(Moduli(keys))
    requires |cipher| == |keys|
    requires forall i :: 0 <= i < |keys| ==> FromBytesBig(cipher[i]) == Pow(m, E) % keys[i].n
    requires IsPowerOfTwo(m)
    ensures WellFormedKeys(keys)
    ensures HastadSpec(KeyList(keys), cipher).Ok? <==> |HexString(m - 1)| % 2 == 0
    ensures HastadSpec(KeyList(keys), cipher).Err? ==> HastadSpec(KeyList(keys), cipher).error == ValueError
    ensures HastadSpec(KeyList(keys), cipher).Ok? ==>
      HastadSpec(KeyList(keys), cipher).value.plaintext.Some? &&
      FromBytesBig(HastadSpec(KeyList(keys), cipher).value.plaintext.value) == m - 1
  {
    SharedExponentAttack(keys, cipher, E);
    PowerOfTwoPositive(m);
    RecoverBroadcast(Moduli(keys), cipher, m, E);
    HexRoundTrip(m - 1);
  }
}
