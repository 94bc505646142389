/** Reading a number given on the command line. */
module Utils {
  import opened Outcomes
  import opened Encoding

  /** `get_numeric_value`: text starting with the exact prefix `0x` is read
      as base 16 (`int(value, 16)`, which accepts that prefix), anything
      else as a decimal literal (`int(value)`). */
  function GetNumericValue(value: string): (r: Result<int>)
    ensures r.Err? ==> r.error == ValueError
  {
    if |value| >= 2 && value[0] == '0' && value[1] == 'x' then
      match ParseDigits(value[2..], 16)
      case Ok(v) => Ok(v)
      case Err(e) => Err(e)
    else ParseInt(value)
  }

  /** The hex branch: after `0x` there must be at least one hex digit, in
      either case, and nothing else; the value is those digits in base 16. */
  lemma GetNumericValueHex(digits: string)
    ensures GetNumericValue("0x" + digits).Ok? <==> |digits| > 0 && AllDigits(digits, 16)
    ensures GetNumericValue("0x" + digits).Ok? ==> GetNumericValue("0x" + digits).value == ValueOf(digits, 16)
  {
    assert ("0x" + digits)[2..] == digits;
  }

  /** Round trips: `get_numeric_value("0x" + hex(v)[2:]) == v`,
      `get_numeric_value(str(v)) == v` and `get_numeric_value(str(-v)) == -v`. */
  lemma GetNumericValueRoundTrip(v: nat)
    ensures GetNumericValue("0x" + HexString(v)) == Ok(v)
    ensures GetNumericValue(DecimalString(v)) == Ok(v)
    ensures GetNumericValue("-" + DecimalString(v)) == Ok(-(v as int))
  {
    GetNumericValueHex(HexString(v));
    ValueOfRender(v, 16);
    ParseIntDecimal(v);
    var s := DecimalString(v);
    assert CharValue(s[0]) < 10;
    if |s| >= 2 {
      assert CharValue(s[1]) < 10;
    }
  }

  /** Upper-case hex digits are accepted after the prefix. */
  lemma UpperCaseHexDigits()
    ensures GetNumericValue("0xFF") == Ok(255)
    ensures GetNumericValue("0xAb") == Ok(171)
  {
    GetNumericValueHex("FF");
    GetNumericValueHex("Ab");
    assert "FF"[..1] == "F" && "Ab"[..1] == "A";
  }

  /** A minus sign reads as a negative decimal number. */
  lemma NegativeDecimal()
    ensures GetNumericValue("-12") == Ok(-12)
  {
    assert "-12"[1..] == "12";
    assert "12"[..1] == "1" && "1"[..0] == "";
    assert AllDigits("12", 10);
    assert ValueOf("1", 10) == 1;
    assert ValueOf("12", 10) == 12;
  }

  /** Text that only looks hexadecimal falls to `int(value)` and is
      rejected: the upper-case prefix `0X`, a signed `-0x`, and a bare `0x`
      (rejected by the hex branch). */
  lemma HexLookalikesRejected(rest: string)
    ensures GetNumericValue("0X" + rest) == Err(ValueError)
    ensures GetNumericValue("-0x" + rest) == Err(ValueError)
    ensures GetNumericValue("0x") == Err(ValueError)
  {
    var upper, signed := "0X" + rest, "-0x" + rest;
    assert upper[1] == 'X' && CharValue(upper[1]) == 99;
    assert !AllDigits(upper, 10);
    assert signed[1..][1] == 'x' && CharValue('x') == 99;
    assert !AllDigits(signed[1..], 10);
  }
}
