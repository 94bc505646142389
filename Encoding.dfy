/** Text and byte encodings of integers: digit strings in base 10 and 16
    (Python's `int(s)`, `int(s, 16)`, `hex(v)`, `str(v)`), big-endian byte
    strings (`int.from_bytes(b, "big")`) and `bytes.fromhex`. */
module Encoding {
  import opened Outcomes
  import Arithmetic

  /** The value of a digit character in bases up to 16 (either case for
      letters); 99 for anything that is not a digit. */
  function CharValue(c: char): (v: nat)
    ensures v < 16 || v == 99
  {
    if '0' <= c <= '9' then c as nat - '0' as nat
    else if 'a' <= c <= 'f' then c as nat - 'a' as nat + 10
    else if 'A' <= c <= 'F' then c as nat - 'A' as nat + 10
    else 99
  }

  predicate AllDigits(s: string, base: nat)
  {
    forall i :: 0 <= i < |s| ==> CharValue(s[i]) < base
  }

  /** The value of a digit string, most significant digit first. */
  function ValueOf(s: string, base: nat): nat
    requires AllDigits(s, base)
  {
    if s == [] then 0 else ValueOf(s[..|s| - 1], base) * base + CharValue(s[|s| - 1])
  }

  /** The lower-case digit for `d`, as `hex()` and `str()` print it. */
  function DigitChar(d: nat): (c: char)
    requires d < 16
    ensures CharValue(c) == d
    ensures d >= 10 ==> 'a' <= c <= 'f'
  {
    if d < 10 then ('0' as nat + d) as char else ('a' as nat + d - 10) as char
  }

  /** The minimal digit string of `v` in `base`: `str(v)` for base 10,
      `hex(v)[2:]` for base 16 (so 0 is "0"). */
  function Render(v: nat, base: nat): (s: string)
    requires 2 <= base <= 16
    ensures |s| >= 1 && AllDigits(s, base)
    ensures |s| > 1 ==> CharValue(s[0]) != 0
  {
    if v < base then [DigitChar(v)]
    else
      DivideByBase(v, base);
      var s, c := Render(v / base, base), DigitChar(v % base);
      assert forall i :: 0 <= i < |s| ==> (s + [c])[i] == s[i];
      s + [c]
  }

  lemma DivideByBase(v: nat, base: nat)
    requires 2 <= base <= v
    ensures 1 <= v / base < v && v % base < base
    ensures v == (v / base) * base + v % base
  {
    var q, r := v / base, v % base;
    Arithmetic.DivisionIdentity(v, base);
    assert q >= 1 by {
      if q <= -1 {
        Arithmetic.MulAtLeast(base, q);
      }
    }
    assert q * base >= 2 * q by {
      assert q * base == q * (base - 2) + 2 * q;
      if base > 2 {
        Arithmetic.MulAtLeast(q, base - 2);
      }
    }
  }

  function HexString(v: nat): string
  {
    Render(v, 16)
  }

  function DecimalString(v: nat): string
  {
    Render(v, 10)
  }

  /** Rendering and reading digits are inverse. */
  lemma {:induction false} ValueOfRender(v: nat, base: nat)
    requires 2 <= base <= 16
    ensures ValueOf(Render(v, base), base) == v
  {
    if v >= base {
      DivideByBase(v, base);
      var s := Render(v, base);
      assert s[..|s| - 1] == Render(v / base, base);
      ValueOfRender(v / base, base);
    }
  }

  /** Appending a digit multiplies the value by the base and adds the digit. */
  lemma {:induction false} ValueOfAppend(s: string, c: char, base: nat)
    requires AllDigits(s, base) && CharValue(c) < base
    ensures AllDigits(s + [c], base)
    ensures ValueOf(s + [c], base) == ValueOf(s, base) * base + CharValue(c)
  {
    assert (s + [c])[..|s + [c]| - 1] == s;
  }

  /** Parse a non-empty digit string in `base`; `ValueError` otherwise. */
  function ParseDigits(s: string, base: nat): (r: Result<nat>)
  {
    if s != [] && AllDigits(s, base) then Ok(ValueOf(s, base)) else Err(ValueError)
  }

  /** Python's `int(s)` on a plain decimal literal: an optional sign and at
      least one digit. */
  function ParseInt(s: string): (r: Result<int>)
  {
    if |s| > 0 && s[0] == '-' then
      match ParseDigits(s[1..], 10)
      case Ok(v) => Ok(-(v as int))
      case Err(e) => Err(e)
    else if |s| > 0 && s[0] == '+' then ParseDigits(s[1..], 10)
    else ParseDigits(s, 10)
  }

  /** `int(s)` of a string without a minus sign is not negative. */
  lemma ParseIntNoMinus(s: string)
    requires forall i :: 0 <= i < |s| ==> s[i] != '-'
    ensures ParseInt(s).Ok? ==> ParseInt(s).value >= 0
  {
  }

  /** `int(str(v)) == v` and `int("-" + str(v)) == -v`. */
  lemma ParseIntDecimal(v: nat)
    ensures ParseInt(DecimalString(v)) == Ok(v)
    ensures ParseInt("-" + DecimalString(v)) == Ok(-(v as int))
  {
    var s := DecimalString(v);
    ValueOfRender(v, 10);
    assert ("-" + s)[1..] == s;
    assert CharValue(s[0]) < 10;
  }

  /** `int.from_bytes(b, byteorder="big")`. */
  function FromBytesBig(b: seq<Byte>): nat
  {
    if b == [] then 0 else FromBytesBig(b[..|b| - 1]) * 256 + b[|b| - 1]
  }

  /** `bytes.fromhex(s)` on text without whitespace: each pair of hex
      digits is one byte; an odd count or a non-hex character is a
      `ValueError`. */
  function FromHex(s: string): (r: Result<seq<Byte>>)
    ensures r.Ok? ==> |r.value| * 2 == |s|
    ensures r.Err? ==> r.error == ValueError
  {
    if s == [] then Ok([])
    else if |s| == 1 then Err(ValueError)
    else
      var hi, lo := CharValue(s[|s| - 2]), CharValue(s[|s| - 1]);
      if hi < 16 && lo < 16 then
        match FromHex(s[..|s| - 2])
        case Ok(b) => Ok(b + [(hi * 16 + lo) as Byte])
        case Err(e) => Err(e)
      else Err(ValueError)
  }

  /** `bytes.fromhex` fails exactly on odd-length or non-hex text, and a
      successful result reads back, big-endian, as the hex value. */
  lemma FromHexValue(s: string)
    ensures FromHex(s).Ok? <==> |s| % 2 == 0 && AllDigits(s, 16)
    ensures FromHex(s).Ok? ==> FromBytesBig(FromHex(s).value) == ValueOf(s, 16)
  {
    FromHexAccepts(s);
    if FromHex(s).Ok? {
      FromHexReads(s);
    }
  }

  /** Text is all hex digits exactly when its last two characters are and
      the text before them is. */
  lemma AllHexDigitsSplit(s: string)
    requires |s| >= 2
    ensures AllDigits(s, 16) <==>
      AllDigits(s[..|s| - 2], 16) && CharValue(s[|s| - 2]) < 16 && CharValue(s[|s| - 1]) < 16
  {
    var pre := s[..|s| - 2];
    if AllDigits(pre, 16) && CharValue(s[|s| - 2]) < 16 && CharValue(s[|s| - 1]) < 16 {
      forall k | 0 <= k < |s|
        ensures CharValue(s[k]) < 16
      {
        if k < |pre| {
          assert s[k] == pre[k];
        }
      }
    }
  }

  lemma {:induction false} FromHexAccepts(s: string)
    ensures FromHex(s).Ok? <==> |s| % 2 == 0 && AllDigits(s, 16)
    decreases |s|
  {
    if |s| >= 2 {
      FromHexAccepts(s[..|s| - 2]);
      AllHexDigitsSplit(s);
    } else if |s| == 1 {
      assert !(|s| % 2 == 0);
    }
  }

  lemma {:induction false} FromHexReads(s: string)
    requires AllDigits(s, 16) && FromHex(s).Ok?
    ensures FromBytesBig(FromHex(s).value) == ValueOf(s, 16)
    decreases |s|
  {
    if |s| >= 2 {
      var pre := s[..|s| - 2];
      AllHexDigitsSplit(s);
      FromHexReads(pre);
      var hi, lo := CharValue(s[|s| - 2]), CharValue(s[|s| - 1]);
      var mid := s[..|s| - 1];
      assert mid[..|mid| - 1] == pre;
      assert ValueOf(s, 16) == ValueOf(pre, 16) * 256 + (hi * 16 + lo);
      var b := FromHex(pre).value;
      assert FromHex(s).value == b + [(hi * 16 + lo) as Byte];
      assert (b + [(hi * 16 + lo) as Byte])[..|b|] == b;
    }
  }

  /** The bytes `bytes.fromhex(hex(v)[2:])` returns: `v` itself, big-endian,
      when its minimal hex form has an even number of digits; otherwise
      `ValueError`. */
  lemma HexRoundTrip(v: nat)
    ensures FromHex(HexString(v)).Ok? <==> |HexString(v)| % 2 == 0
    ensures FromHex(HexString(v)).Ok? ==>
      FromBytesBig(FromHex(HexString(v)).value) == v && |FromHex(HexString(v)).value| >= 1
  {
    FromHexValue(HexString(v));
    ValueOfRender(v, 16);
  }

  /** A root whose minimal hex form has an odd number of digits is not
      decodable: `0` ("0") and `0x123` ("123") both raise `ValueError`. */
  lemma OddHexRejected()
    ensures FromHex(HexString(0)) == Err(ValueError)
    ensures FromHex(HexString(0x123)) == Err(ValueError)
  {
    assert HexString(0) == "0";
    assert |HexString(0x123)| == 3 by {
      assert Render(0x123, 16) == Render(0x12, 16) + [DigitChar(3)];
      assert Render(0x12, 16) == Render(1, 16) + [DigitChar(2)];
    }
    HexRoundTrip(0x123);
  }

  /** Minimality: the first byte of a successful `bytes.fromhex(hex(v)[2:])`
      is not zero. */
  lemma HexNoLeadingZero(v: nat)
    requires FromHex(HexString(v)).Ok?
    ensures FromHex(HexString(v)).value[0] != 0
  {
    var s := HexString(v);
    HexRoundTrip(v);
    FromHexFirstByte(s);
  }

  lemma {:induction false} FromHexFirstByte(s: string)
    requires FromHex(s).Ok? && |s| >= 2
    ensures FromHex(s).value[0] == CharValue(s[0]) * 16 + CharValue(s[1])
    decreases |s|
  {
    if |s| > 2 {
      var pre := s[..|s| - 2];
      FromHexFirstByte(pre);
    }
  }
}
