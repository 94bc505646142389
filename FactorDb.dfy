/** Turning the factor text that factordb.com shows into numbers, and the
    decision the factordb attack takes on the two factors it scraped. */
module FactorDb {
  import opened Outcomes
  import opened Arithmetic
  import opened Encoding

  // ---------------------------------------------------------------------
  // str.split with a one-character separator
  // ---------------------------------------------------------------------

  /** How many times `c` occurs in `s`. */
  function Occurrences(s: string, c: char): nat
  {
    if s == [] then 0 else (if s[0] == c then 1 else 0) + Occurrences(s[1..], c)
  }

  /** Python's `s.split(c)`: the pieces between occurrences of `c`, empty
      pieces included. */
  function Split(s: string, c: char): (parts: seq<string>)
    ensures |parts| == Occurrences(s, c) + 1
  {
    if s == [] then [[]]
    else
      var rest := Split(s[1..], c);
      if s[0] == c then [[]] + rest else [[s[0]] + rest[0]] + rest[1..]
  }

  /** `c.join(parts)`. */
  function Join(parts: seq<string>, c: char): string
    requires |parts| >= 1
  {
    if |parts| == 1 then parts[0] else parts[0] + [c] + Join(parts[1..], c)
  }

  /** `split` makes one more piece than there are separators, no piece
      holds the separator, and joining the pieces gives the text back. */
  lemma {:induction false} SplitSpec(s: string, c: char)
    ensures forall i :: 0 <= i < |Split(s, c)| ==> c !in Split(s, c)[i]
    ensures Join(Split(s, c), c) == s
  {
    if s != [] {
      SplitSpec(s[1..], c);
      var rest := Split(s[1..], c);
      if s[0] == c {
        assert ([[]] + rest)[1..] == rest;
      } else {
        var parts := [[s[0]] + rest[0]] + rest[1..];
        if |rest| > 1 {
          assert parts[1..] == rest[1..];
          assert Join(rest, c) == rest[0] + [c] + Join(rest[1..], c);
        }
        forall i | 0 <= i < |parts|
          ensures c !in parts[i]
        {
          if i > 0 {
            assert parts[i] == rest[i];
          }
        }
      }
    }
  }

  /** Text without the separator is one piece. */
  lemma {:induction false} SplitWithout(s: string, c: char)
    requires c !in s
    ensures Split(s, c) == [s]
  {
    if s != [] {
      SplitWithout(s[1..], c);
      assert [s[0]] + s[1..] == s;
    }
  }

  /** A separator after separator-free text starts a new piece. */
  lemma {:induction false} SplitAt(a: string, c: char, b: string)
    requires c !in a
    ensures Split(a + [c] + b, c) == [a] + Split(b, c)
  {
    if a == [] {
      assert ([c] + b)[1..] == b;
    } else {
      SplitAt(a[1..], c, b);
      assert (a + [c] + b)[1..] == a[1..] + [c] + b;
      assert [a[0]] + a[1..] == a;
    }
  }

  /** Splitting what was joined from separator-free pieces gives the pieces
      back. */
  lemma {:induction false} JoinSplit(parts: seq<string>, c: char)
    requires |parts| >= 1
    requires forall i :: 0 <= i < |parts| ==> c !in parts[i]
    ensures Split(Join(parts, c), c) == parts
    decreases |parts|
  {
    if |parts| == 1 {
      SplitWithout(parts[0], c);
    } else {
      JoinSplit(parts[1..], c);
      SplitAt(parts[0], c, Join(parts[1..], c));
      assert [parts[0]] + parts[1..] == parts;
    }
  }

  // ---------------------------------------------------------------------
  // solveforp
  // ---------------------------------------------------------------------

  /** `solveforp`: text of the form `k^j-s` becomes `k**j - s`. Every
      failure is reported as `FactorizationError`: no `^` (the names `k`
      and `j` are never bound), other than one `^`, no `-` after it (`sub`
      is never bound), other than one `-` after it, or a piece `int()`
      rejects. The exponent part holds no `-`, so `j` is never negative. */
  function SolveForP(equation: string): (r: Result<int>)
    ensures r.Err? ==> r.error == FactorizationError
  {
    if '^' !in equation then Err(FactorizationError)
    else
      var kj := Split(equation, '^');
      if |kj| != 2 then Err(FactorizationError)
      else if '-' !in kj[1] then Err(FactorizationError)
      else
        var js := Split(kj[1], '-');
        if |js| != 2 then Err(FactorizationError)
        else
          match (ParseInt(kj[0]), ParseInt(js[0]), ParseInt(js[1]))
          case (Ok(k), Ok(j), Ok(sub)) =>
            SplitSpec(kj[1], '-');
            ParseIntNoMinus(js[0]);
            Ok(Pow(k, j) - sub)
          case _ => Err(FactorizationError)
  }

  /** `int()`'s form of a possibly negative integer. */
  function SignedDecimal(k: int): string
  {
    if k < 0 then "-" + DecimalString(-k) else DecimalString(k)
  }

  lemma DecimalHasNoSeparator(v: nat)
    ensures '^' !in DecimalString(v) && '-' !in DecimalString(v)
  {
    assert CharValue('^') == 99 && CharValue('-') == 99;
  }

  /** How `k^j-s` splits when no piece holds a separator it should not. */
  lemma SplitEquation(K: string, J: string, S: string)
    requires '^' !in K && '^' !in J && '^' !in S && '-' !in J && '-' !in S
    ensures Split(K + "^" + J + "-" + S, '^') == [K, J + "-" + S]
    ensures Split(J + "-" + S, '-') == [J, S]
    ensures '^' in K + "^" + J + "-" + S && '-' in J + "-" + S
  {
    var tail := J + "-" + S;
    assert '^' !in tail;
    var eq := K + "^" + J + "-" + S;
    assert eq == Join([K, tail], '^');
    JoinSplit([K, tail], '^');
    assert tail == Join([J, S], '-');
    JoinSplit([J, S], '-');
    assert eq[|K|] == '^';
    assert tail[|J|] == '-';
  }

  lemma SolveForPOfPieces(eq: string, K: string, J: string, S: string, k: int, j: nat, s: int)
    requires '^' in eq && Split(eq, '^') == [K, J + "-" + S]
    requires '-' in J + "-" + S && Split(J + "-" + S, '-') == [J, S]
    requires ParseInt(K) == Ok(k) && ParseInt(J) == Ok(j) && ParseInt(S) == Ok(s)
    ensures SolveForP(eq) == Ok(Pow(k, j) - s)
  {
  }

  /** `solveforp(f"{k}^{j}-{s}") == k**j - s`. */
  lemma SolveForPRoundTrip(k: int, j: nat, s: nat)
    ensures SolveForP(SignedDecimal(k) + "^" + DecimalString(j) + "-" + DecimalString(s)) == Ok(Pow(k, j) - s)
  {
    var K, J, S := SignedDecimal(k), DecimalString(j), DecimalString(s);
    DecimalHasNoSeparator(if k < 0 then -k else k);
    DecimalHasNoSeparator(j);
    DecimalHasNoSeparator(s);
    assert '^' !in K;
    SplitEquation(K, J, S);
    assert ParseInt(K) == Ok(k) by {
      ParseIntDecimal(if k < 0 then -k else k);
    }
    assert ParseInt(J) == Ok(j) && ParseInt(S) == Ok(s) by {
      ParseIntDecimal(j);
      ParseIntDecimal(s);
    }
    SolveForPOfPieces(K + "^" + J + "-" + S, K, J, S, k, j, s);
  }

  /** `solveforp` succeeds exactly on text with one `^`, one `-` after it
      and three pieces `int()` accepts; in particular text without `^`,
      with several `^`, or whose exponent part has no `-` or several, is
      rejected. */
  lemma SolveForPAccepts(equation: string)
    ensures SolveForP(equation).Ok? <==>
      && Occurrences(equation, '^') == 1
      && var kj := Split(equation, '^');
      && Occurrences(kj[1], '-') == 1
      && var js := Split(kj[1], '-');
      && ParseInt(kj[0]).Ok? && ParseInt(js[0]).Ok? && ParseInt(js[1]).Ok?
    ensures Occurrences(equation, '^') != 1 ==> SolveForP(equation) == Err(FactorizationError)
  {
    SplitSpec(equation, '^');
    OccursIff(equation, '^');
    var kj := Split(equation, '^');
    if |kj| == 2 {
      SplitSpec(kj[1], '-');
      OccursIff(kj[1], '-');
    }
  }

  lemma {:induction false} OccursIff(s: string, c: char)
    ensures c in s <==> Occurrences(s, c) > 0
  {
    if s != [] {
      OccursIff(s[1..], c);
      assert s == [s[0]] + s[1..];
    }
  }

  /** The exponent-only form `2^10` has no `-` after the `^` and is
      rejected. */
  lemma BareExponentRejected()
    ensures SolveForP("2^10") == Err(FactorizationError)
  {
    SplitWithout("10", '^');
    SplitAt("2", '^', "10");
    assert "2" + ['^'] + "10" == "2^10";
  }

  /** `2^10-1` reads as 1023. */
  lemma SolveForPExample()
    ensures SolveForP("2^10-1") == Ok(1023)
  {
    assert Pow(2, 10) == 1024;
    var eq := "2" + "^" + "10" + "-" + "1";
    assert eq == "2^10-1";
    SplitEquation("2", "10", "1");
    ExamplePieces();
    SolveForPOfPieces(eq, "2", "10", "1", 2, 10, 1);
  }

  lemma ExamplePieces()
    ensures ParseInt("2") == Ok(2) && ParseInt("10") == Ok(10) && ParseInt("1") == Ok(1)
  {
    assert "10"[..1] == "1";
  }

  // ---------------------------------------------------------------------
  // The factordb decision
  // ---------------------------------------------------------------------

  /** `str.isdigit()` on ASCII text: non-empty and all decimal digits. */
  predicate IsDigit(s: string)
  {
    |s| > 0 && AllDigits(s, 10)
  }

  /** A scraped factor: `int(key)` when it is all digits, `solveforp(key)`
      otherwise. */
  function FactorValue(key: string): (r: Result<int>)
    ensures IsDigit(key) ==> r == Ok(ValueOf(key, 10))
    ensures !IsDigit(key) ==> r == SolveForP(key)
  {
    if IsDigit(key) then
      assert CharValue(key[0]) < 10;
      ParseInt(key)
    else SolveForP(key)
  }

  /** What the factordb attack returns for modulus `n` and exponent `e`
      once the factor pages are fetched: `None` stands for a factor the
      page did not have (an `IndexError`). A missing factor, a factor that
      cannot be read (the outer handler catches the error) and the
      "factors" `p == q == n` of a number factordb could not split give
      `(None, None)`; otherwise a key is built from `p` and `q`.
      `builds(p, q)` says whether the `PrivateKey` constructor of
      `lib/keys_wrapper` succeeds on those factors; when it raises, the
      outer handler gives `(None, None)` too. */
  function FactorDbAttack(n: int, e: int, keyP: Option<string>, keyQ: Option<string>, builds: (int, int) -> bool): AttackResult
  {
    if keyP.None? || keyQ.None? then NoResult
    else
      match (FactorValue(keyP.value), FactorValue(keyQ.value))
      case (Ok(p), Ok(q)) =>
        if p == q && q == n then NoResult
        else if !builds(p, q) then NoResult
        else AttackResult(Some(PrivateKey(n, e, None, Some(p), Some(q))), None)
      case _ => NoResult
  }

  /** The attack returns a key exactly when both factors were found and
      read, they are not `p == q == n` and the key constructor accepts
      them; the key then holds those factors together with `n` and `e`,
      and no plaintext is returned. */
  lemma FactorDbAttackSpec(n: int, e: int, keyP: Option<string>, keyQ: Option<string>, builds: (int, int) -> bool)
    ensures FactorDbAttack(n, e, keyP, keyQ, builds).plaintext == None
    ensures FactorDbAttack(n, e, keyP, keyQ, builds).privateKey.Some? <==>
      && keyP.Some? && keyQ.Some?
      && FactorValue(keyP.value).Ok? && FactorValue(keyQ.value).Ok?
      && !(FactorValue(keyP.value).value == FactorValue(keyQ.value).value == n)
      && builds(FactorValue(keyP.value).value, FactorValue(keyQ.value).value)
    ensures FactorDbAttack(n, e, keyP, keyQ, builds).privateKey.Some? ==>
      FactorDbAttack(n, e, keyP, keyQ, builds).privateKey.value ==
        PrivateKey(n, e, None, Some(FactorValue(keyP.value).value), Some(FactorValue(keyQ.value).value))
  {
  }

  /** Two digit-only factors are read with `int()` and become the key,
      unless both equal `n` or the key constructor rejects them. */
  lemma FactorDbDigits(n: int, e: int, p: nat, q: nat, builds: (int, int) -> bool)
    ensures FactorDbAttack(n, e, Some(DecimalString(p)), Some(DecimalString(q)), builds) ==
      if p == q == n || !builds(p, q) then NoResult
      else AttackResult(Some(PrivateKey(n, e, None, Some(p), Some(q))), None)
  {
    ValueOfRender(p, 10);
    ValueOfRender(q, 10);
  }
}
