/** Exact integer arithmetic used by the attacks: powers, powers of two,
    divisibility, congruences, coprimality and products of moduli. */
module Arithmetic {

  function Abs(x: int): (r: nat)
    ensures r == x || r == -x
  {
    if x < 0 then -x else x
  }

  /** `b ** e` for a non-negative exponent. */
  function Pow(b: int, e: nat): int
  {
    if e == 0 then 1 else b * Pow(b, e - 1)
  }

  lemma {:induction false} PowNonNegative(b: int, e: nat)
    requires b >= 0
    ensures Pow(b, e) >= 0
  {
    if e > 0 {
      PowNonNegative(b, e - 1);
    }
  }

  lemma {:induction false} PowPositive(b: int, e: nat)
    requires b >= 1
    ensures Pow(b, e) >= 1
  {
    if e > 0 {
      PowPositive(b, e - 1);
      assert b * Pow(b, e - 1) >= Pow(b, e - 1);
    }
  }

  lemma {:induction false} PowZero(e: nat)
    requires e >= 1
    ensures Pow(0, e) == 0
  {
  }

  lemma {:induction false} PowOne(e: nat)
    ensures Pow(1, e) == 1
  {
    if e > 0 {
      PowOne(e - 1);
    }
  }

  /** For a base of at least one, a positive power is at least the base. */
  lemma {:induction false} PowAtLeastBase(b: int, e: nat)
    requires b >= 1 && e >= 1
    ensures Pow(b, e) >= b
  {
    PowPositive(b, e - 1);
    assert b * Pow(b, e - 1) >= b * 1;
  }

  /** Powers with a positive exponent are strictly increasing on naturals. */
  lemma {:induction false} PowStrictlyMonotone(a: int, b: int, e: nat)
    requires 0 <= a < b && e >= 1
    ensures Pow(a, e) < Pow(b, e)
  {
    if e > 1 {
      PowStrictlyMonotone(a, b, e - 1);
      PowNonNegative(a, e - 1);
      MulStrictlyMonotone(a, b, Pow(a, e - 1), Pow(b, e - 1));
    }
  }

  lemma MulStrictlyMonotone(a: int, b: int, x: int, y: int)
    requires 0 <= a < b && 0 <= x < y
    ensures a * x < b * y
  {
    assert b * y - a * x == (b - a) * x + b * (y - x);
    MulAtLeast(b, y - x);
    assert (b - a) * x >= 0;
  }

  lemma PowMonotone(a: int, b: int, e: nat)
    requires 0 <= a <= b
    ensures Pow(a, e) <= Pow(b, e)
  {
    if e == 0 {
    } else if a < b {
      PowStrictlyMonotone(a, b, e);
    }
  }

  /** On naturals, a positive power determines its base. */
  lemma PowInjective(a: int, b: int, e: nat)
    requires a >= 0 && b >= 0 && e >= 1 && Pow(a, e) == Pow(b, e)
    ensures a == b
  {
    if a < b {
      PowStrictlyMonotone(a, b, e);
    } else if b < a {
      PowStrictlyMonotone(b, a, e);
    }
  }

  lemma {:induction false} PowAdd(b: int, e1: nat, e2: nat)
    ensures Pow(b, e1 + e2) == Pow(b, e1) * Pow(b, e2)
  {
    if e1 > 0 {
      PowAdd(b, e1 - 1, e2);
      assert Pow(b, e1 + e2) == b * (Pow(b, e1 - 1) * Pow(b, e2));
    }
  }

  /** 1, 2, 4, 8, ... */
  predicate IsPowerOfTwo(p: int)
    decreases if p > 0 then p else 0
  {
    p == 1 || (p > 1 && p % 2 == 0 && IsPowerOfTwo(p / 2))
  }

  lemma {:induction false} PowerOfTwoDoubles(p: int)
    requires IsPowerOfTwo(p)
    ensures IsPowerOfTwo(2 * p) && (2 * p) / 2 == p
  {
  }

  lemma {:induction false} PowerOfTwoPositive(p: int)
    requires IsPowerOfTwo(p)
    ensures p >= 1
  {
  }

  lemma {:induction false} PowTwoIsPowerOfTwo(k: nat)
    ensures IsPowerOfTwo(Pow(2, k))
  {
    if k > 0 {
      PowTwoIsPowerOfTwo(k - 1);
      PowerOfTwoDoubles(Pow(2, k - 1));
    }
  }

  /** Two distinct powers of two are at least a factor of two apart. */
  lemma {:induction false} PowerOfTwoGap(p: int, q: int)
    requires IsPowerOfTwo(p) && IsPowerOfTwo(q) && p < q
    ensures 2 * p <= q
    decreases q
  {
    if p != 1 {
      PowerOfTwoGap(p / 2, q / 2);
    }
  }

  /** `d` divides `x` (for a positive `d`). */
  predicate Divides(d: int, x: int)
  {
    d > 0 && x % d == 0
  }

  /** No common divisor other than 1. */
  ghost predicate Coprime(a: int, b: int)
  {
    forall d :: 1 < d ==> !(Divides(d, a) && Divides(d, b))
  }

  /** `a` and `b` leave the same remainder modulo `m`. */
  predicate Congruent(a: int, b: int, m: int)
    requires m > 0
  {
    (a - b) % m == 0
  }

  /** A product with a factor of at least one is at least the other factor. */
  lemma MulAtLeast(m: int, t: int)
    requires m > 0
    ensures t >= 1 ==> m * t >= m
    ensures t <= -1 ==> m * t <= -m
  {
    if t >= 1 {
      assert m * t == m * (t - 1) + m;
    } else if t <= -1 {
      assert m * t == m * (t + 1) - m;
    }
  }

  /** Division with remainder, written out for a positive divisor. */
  lemma DivisionIdentity(a: int, b: int)
    requires b > 0
    ensures a - (a / b) * b == a % b && 0 <= a % b < b
  {
  }

  /** Euclidean division is unique. */
  lemma DivModUnique(x: int, m: int, q: int, r: int)
    requires m > 0 && x == m * q + r && 0 <= r < m
    ensures x / m == q && x % m == r
  {
    var t := q - x / m;
    assert m * t == x % m - r;
    MulAtLeast(m, t);
    assert t == 0;
  }

  lemma MultipleMod(m: int, k: int)
    requires m > 0
    ensures (m * k) % m == 0 && (m * k) / m == k
  {
    DivModUnique(m * k, m, k, 0);
  }

  lemma DividesFactor(m: int, x: int)
    requires m > 0
    ensures x % m == 0 <==> x == m * (x / m)
  {
  }

  /** Divisibility by `m` is closed under `u - q * v`. */
  lemma DividesLinear(m: int, u: int, v: int, q: int)
    requires m > 0 && u % m == 0 && v % m == 0
    ensures (u - q * v) % m == 0
  {
    var a, b := u / m, v / m;
    assert u == m * a && v == m * b;
    assert u - q * v == m * (a - q * b);
    MultipleMod(m, a - q * b);
  }

  lemma DividesProduct(m: int, u: int, k: int)
    requires m > 0 && u % m == 0
    ensures (u * k) % m == 0
  {
    DividesLinear(m, 0, u, -k);
  }

  lemma CongruentSymmetric(a: int, b: int, m: int)
    requires m > 0 && Congruent(a, b, m)
    ensures Congruent(b, a, m)
  {
    DividesLinear(m, 0, a - b, 1);
  }

  lemma CongruentTransitive(a: int, b: int, c: int, m: int)
    requires m > 0 && Congruent(a, b, m) && Congruent(b, c, m)
    ensures Congruent(a, c, m)
  {
    DividesLinear(m, a - b, b - c, -1);
  }

  lemma CongruentAdd(a: int, b: int, c: int, d: int, m: int)
    requires m > 0 && Congruent(a, b, m) && Congruent(c, d, m)
    ensures Congruent(a + c, b + d, m)
  {
    DividesLinear(m, a - b, c - d, -1);
  }

  lemma CongruentScale(a: int, b: int, k: int, m: int)
    requires m > 0 && Congruent(a, b, m)
    ensures Congruent(a * k, b * k, m)
  {
    DividesProduct(m, a - b, k);
    assert (a - b) * k == a * k - b * k;
  }

  /** Every value is congruent to its remainder. */
  lemma CongruentMod(a: int, m: int)
    requires m > 0
    ensures Congruent(a, a % m, m)
  {
    assert a - a % m == m * (a / m);
    MultipleMod(m, a / m);
  }

  /** Congruent values have the same remainder. */
  lemma CongruentSameMod(a: int, b: int, m: int)
    requires m > 0
    ensures Congruent(a, b, m) <==> a % m == b % m
  {
    CongruentMod(a, m);
    CongruentMod(b, m);
    if Congruent(a, b, m) {
      CongruentSymmetric(a, a % m, m);
      CongruentTransitive(a % m, a, b, m);
      CongruentTransitive(a % m, b, b % m, m);
      var r := a % m - b % m;
      assert r % m == 0 && -m < r < m;
      DivModUnique(r, m, r / m, 0);
      MulAtLeast(m, r / m);
    } else if a % m == b % m {
      CongruentSymmetric(b, b % m, m);
      CongruentTransitive(a, a % m, b, m);
    }
  }

  /** Reducing modulo a multiple of `m` keeps the class modulo `m`. */
  lemma ModOfMultipleModulus(x: int, m: int, k: int)
    requires m > 0 && k > 0
    ensures (x % (m * k)) % m == x % m
  {
    var mk := m * k;
    assert x - x % mk == mk * (x / mk);
    assert mk * (x / mk) == m * (k * (x / mk));
    MultipleMod(m, k * (x / mk));
    CongruentSameMod(x, x % mk, m);
  }

  /** Common divisors of `a` and `b` are the common divisors of `b` and `a - q * b`. */
  lemma CommonDivisorsStep(d: int, a: int, b: int, q: int)
    requires d > 1
    ensures Divides(d, a) && Divides(d, b) <==> Divides(d, b) && Divides(d, a - q * b)
  {
    if Divides(d, a) && Divides(d, b) {
      DividesLinear(d, a, b, q);
    }
    if Divides(d, b) && Divides(d, a - q * b) {
      DividesLinear(d, a - q * b, b, -q);
      assert a - q * b - (-q) * b == a;
    }
  }

  /** A non-zero value is divisible by its absolute value. */
  lemma DividesSelf(a: int)
    ensures a != 0 ==> Divides(Abs(a), a)
  {
    if a > 0 {
      MultipleMod(a, 1);
    } else if a < 0 {
      MultipleMod(-a, -1);
    }
  }

  /** Bezout: coprime numbers have a linear combination equal to one. */
  lemma {:induction false} Bezout(a: int, b: int) returns (u: int, v: int)
    requires b >= 0 && Coprime(a, b)
    ensures a * u + b * v == 1
    decreases b
  {
    if b == 0 {
      // every d > 1 divides 0, so no d > 1 divides a: a is 1 or -1
      DividesSelf(a);
      assert Divides(2, 0);
      assert a == 1 || a == -1;
      u, v := a, 0;
    } else {
      var q, r := a / b, a % b;
      assert a == b * q + r;
      forall d | 1 < d
        ensures !(Divides(d, b) && Divides(d, r))
      {
        CommonDivisorsStep(d, a, b, q);
        assert a - q * b == r;
      }
      var u', v' := Bezout(b, r);
      u, v := v', u' - q * v';
      calc {
        a * u + b * v;
        a * v' + b * (u' - q * v');
        a * v' + b * u' - b * q * v';
        b * u' + (a - b * q) * v';
        b * u' + r * v';
        1;
      }
    }
  }

  /** Coprimality to `m` is closed under products. */
  lemma CoprimeProduct(x: int, y: int, m: int)
    requires m > 0 && Coprime(x, m) && Coprime(y, m)
    ensures Coprime(x * y, m)
  {
    var u, v := Bezout(y, m);
    forall d | 1 < d
      ensures Divides(d, x * y) && Divides(d, m) ==> Divides(d, x)
    {
      DividesThroughBezout(d, x, y, m, u, v);
    }
  }

  /** With `y * u + m * v == 1`, a common divisor of `x * y` and `m` divides `x`. */
  lemma DividesThroughBezout(d: int, x: int, y: int, m: int, u: int, v: int)
    requires d > 0 && y * u + m * v == 1
    ensures Divides(d, x * y) && Divides(d, m) ==> Divides(d, x)
  {
    if Divides(d, x * y) && Divides(d, m) {
      // x = x * (y * u + m * v) = (x * y) * u + m * (x * v)
      assert x == (x * y) * u + m * (x * v) by {
        assert x * (y * u + m * v) == x * 1;
      }
      DividesProduct(d, x * y, u);
      DividesProduct(d, m, x * v);
      DividesLinear(d, (x * y) * u, m * (x * v), -1);
    }
  }

  lemma CoprimeSymmetric(a: int, b: int)
    requires Coprime(a, b)
    ensures Coprime(b, a)
  {
  }

  /** Two coprime moduli that both divide `z` divide it jointly. */
  lemma CoprimeDivides(m1: int, m2: int, z: int)
    requires m1 > 0 && m2 > 0 && Coprime(m1, m2) && z % m1 == 0 && z % m2 == 0
    ensures z % (m1 * m2) == 0
  {
    var u, v := Bezout(m1, m2);
    // z = z * (m1 * u + m2 * v) = m1 * m2 * (k2 * u) + m1 * m2 * (k1 * v)
    var k1, k2 := z / m1, z / m2;
    assert z == m1 * k1 && z == m2 * k2;
    calc {
      z;
      z * (m1 * u + m2 * v);
      z * m1 * u + z * m2 * v;
      (m2 * k2) * m1 * u + (m1 * k1) * m2 * v;
      (m1 * m2) * (k2 * u + k1 * v);
    }
    MultipleMod(m1 * m2, k2 * u + k1 * v);
  }

  /** The product of a sequence of integers (`reduce(lambda a, b: a * b, n)`). */
  function Prod(s: seq<int>): int
  {
    if s == [] then 1 else Prod(s[..|s| - 1]) * s[|s| - 1]
  }

  /** The product of all entries except the one at `i`. */
  function ProdExcept(s: seq<int>, i: nat): int
    requires i < |s|
  {
    Prod(s[..i] + s[i + 1..])
  }

  predicate AllPositive(s: seq<int>)
  {
    forall i :: 0 <= i < |s| ==> s[i] >= 1
  }

  ghost predicate PairwiseCoprime(s: seq<int>)
  {
    forall i, j :: 0 <= i < |s| && 0 <= j < |s| && i != j ==> Coprime(s[i], s[j])
  }

  lemma {:induction false} ProdPositive(s: seq<int>)
    requires AllPositive(s)
    ensures Prod(s) >= 1
  {
    if s != [] {
      ProdPositive(s[..|s| - 1]);
      assert Prod(s[..|s| - 1]) * s[|s| - 1] >= Prod(s[..|s| - 1]) * 1;
    }
  }

  lemma {:induction false} ProdAppend(s: seq<int>, t: seq<int>)
    ensures Prod(s + t) == Prod(s) * Prod(t)
    decreases |t|
  {
    if t == [] {
      assert s + t == s;
    } else {
      var t' := t[..|t| - 1];
      assert (s + t)[..|s + t| - 1] == s + t';
      ProdAppend(s, t');
    }
  }

  lemma ProdSingle(x: int)
    ensures Prod([x]) == x
  {
    assert [x][..0] == [];
  }

  /** `Prod(s) == s[i] * ProdExcept(s, i)`. */
  lemma ProdSplit(s: seq<int>, i: nat)
    requires i < |s|
    ensures Prod(s) == s[i] * ProdExcept(s, i)
  {
    assert s == s[..i] + [s[i]] + s[i + 1..];
    ProdAround(s[..i], s[i], s[i + 1..]);
  }

  lemma ProdAround(front: seq<int>, x: int, back: seq<int>)
    ensures Prod(front + [x] + back) == x * Prod(front + back)
  {
    ProdAppend(front + [x], back);
    ProdAppend(front, [x]);
    ProdSingle(x);
    ProdAppend(front, back);
    MulRearrange(Prod(front + [x] + back), Prod(front + [x]), Prod(front + back), Prod(front), x, Prod(back));
  }

  lemma MulRearrange(whole: int, left: int, others: int, a: int, b: int, c: int)
    requires whole == left * c && left == a * b && others == a * c
    ensures whole == b * others
  {
  }

  /** `Prod(s) // s[i]` is the product of the other entries. */
  lemma ProdDivExcept(s: seq<int>, i: nat)
    requires i < |s| && AllPositive(s)
    ensures Prod(s) / s[i] == ProdExcept(s, i)
    ensures Prod(s) % s[i] == 0
  {
    ProdSplit(s, i);
    MultipleMod(s[i], ProdExcept(s, i));
  }

  /** Every entry other than `i` divides `ProdExcept(s, i)`. */
  lemma ProdExceptDivisible(s: seq<int>, i: nat, k: nat)
    requires i < |s| && k < |s| && k != i && AllPositive(s)
    ensures ProdExcept(s, i) % s[k] == 0
  {
    var t := s[..i] + s[i + 1..];
    var k' := if k < i then k else k - 1;
    assert t[k'] == s[k];
    assert AllPositive(t);
    ProdDivExcept(t, k');
  }

  /** Pairwise coprime moduli: each is coprime to the product of the others. */
  lemma {:induction false} CoprimeToProd(s: seq<int>, m: int)
    requires m > 0 && forall j :: 0 <= j < |s| ==> Coprime(s[j], m)
    ensures Coprime(Prod(s), m)
    decreases |s|
  {
    if s == [] {
      forall d | 1 < d
        ensures !(Divides(d, 1) && Divides(d, m))
      {
      }
    } else {
      CoprimeToProd(s[..|s| - 1], m);
      CoprimeProduct(Prod(s[..|s| - 1]), s[|s| - 1], m);
    }
  }

  lemma CoprimeToProdExcept(s: seq<int>, i: nat)
    requires i < |s| && AllPositive(s) && PairwiseCoprime(s)
    ensures Coprime(ProdExcept(s, i), s[i])
  {
    var t := s[..i] + s[i + 1..];
    forall j | 0 <= j < |t|
      ensures Coprime(t[j], s[i])
    {
      var j' := if j < i then j else j + 1;
      assert t[j] == s[j'];
    }
    CoprimeToProd(t, s[i]);
  }

  /** Chinese remainder uniqueness: values congruent modulo every
      pairwise-coprime modulus are congruent modulo their product. */
  lemma {:induction false} CongruentModProd(s: seq<int>, x: int, y: int)
    requires AllPositive(s) && PairwiseCoprime(s)
    requires forall i :: 0 <= i < |s| ==> Congruent(x, y, s[i])
    ensures Prod(s) >= 1 && Congruent(x, y, Prod(s))
    decreases |s|
  {
    ProdPositive(s);
    if s == [] {
      MultipleMod(1, x - y);
      assert (x - y) == 1 * (x - y);
    } else {
      var init, last := s[..|s| - 1], s[|s| - 1];
      assert forall i :: 0 <= i < |init| ==> init[i] == s[i];
      CongruentModProd(init, x, y);
      forall j | 0 <= j < |init|
        ensures Coprime(init[j], last)
      {
        assert init[j] == s[j];
      }
      CoprimeToProd(init, last);
      CoprimeDivides(Prod(init), last, x - y);
    }
  }
}
