/** Python's decimal conversions as the emulator uses them: str(x) for
    PUTINT and int(line) for GETINT, restricted to ASCII decimal digits. */
module PyInt {
  import opened Wrappers
  import opened PyStr

  predicate IsDigit(c: char) {
    '0' <= c <= '9'
  }

  predicate AllDigits(s: string) {
    forall k :: 0 <= k < |s| ==> IsDigit(s[k])
  }

  function DigitChar(d: nat): (c: char)
    requires d < 10
    ensures IsDigit(c) && c as int - '0' as int == d
  {
    ('0' as int + d) as char
  }

  /** The value of a string of decimal digits, most significant first. */
  function DigitsValue(s: string): nat
    requires AllDigits(s)
  {
    if s == [] then 0 else 10 * DigitsValue(s[..|s| - 1]) + (s[|s| - 1] as int - '0' as int)
  }

  /** str(n) for n >= 0: no leading zeros, "0" for zero. */
  function NatDecimal(n: nat): (r: string)
    ensures |r| > 0 && AllDigits(r)
    ensures |r| > 1 ==> r[0] != '0'
    decreases n
  {
    if n < 10 then [DigitChar(n)] else NatDecimal(n / 10) + [DigitChar(n % 10)]
  }

  /** str(x): a minus sign before the digits of |x| when x is negative. */
  function Decimal(x: int): string {
    if x < 0 then ['-'] + NatDecimal(-x) else NatDecimal(x)
  }

  /** int(s) for ASCII input: surrounding white space, an optional sign and
      at least one decimal digit; anything else is a ValueError (None). */
  function ParseInt(s: string): Option<int> {
    var t := Strip(s);
    if |t| > 0 && (t[0] == '-' || t[0] == '+') then
      var body := t[1..];
      if |body| > 0 && AllDigits(body) then
        Some(if t[0] == '-' then -(DigitsValue(body) as int) else DigitsValue(body) as int)
      else None
    else if |t| > 0 && AllDigits(t) then Some(DigitsValue(t))
    else None
  }

  /** The digits str produces read back as the number. */
  lemma {:induction false} NatDecimalValue(n: nat)
    ensures DigitsValue(NatDecimal(n)) == n
    decreases n
  {
    var r := NatDecimal(n);
    if n >= 10 {
      NatDecimalValue(n / 10);
      assert r[..|r| - 1] == NatDecimal(n / 10);
    }
  }

  /** int(str(x)) == x: what PUTINT prints, GETINT reads back. */
  lemma {:induction false} ParseDecimal(x: int)
    ensures ParseInt(Decimal(x)) == Some(x)
  {
    if x < 0 {
      ParseNegative(x);
    } else {
      ParseNonNegative(x);
    }
  }

  lemma {:induction false} ParseNonNegative(x: nat)
    ensures ParseInt(Decimal(x)) == Some(x)
  {
    NatDecimalValue(x);
    ParseDigits(NatDecimal(x));
  }

  /** int() of plain digits is their value. */
  lemma {:induction false} ParseDigits(d: string)
    requires |d| > 0 && AllDigits(d)
    ensures ParseInt(d) == Some(DigitsValue(d) as int)
  {
    assert IsDigit(d[0]) && IsDigit(d[|d| - 1]);
    StripResult(d);
  }

  lemma {:induction false} ParseNegative(x: int)
    requires x < 0
    ensures ParseInt(Decimal(x)) == Some(x)
  {
    var d := NatDecimal(-x);
    assert Decimal(x) == ['-'] + d;
    NatDecimalValue(-x);
    assert DigitsValue(d) == -x;
    ParseMinus(d);
    assert ParseInt(['-'] + d) == Some(-(DigitsValue(d) as int));
  }

  /** int() of a minus sign before plain digits is minus their value. */
  lemma {:induction false} ParseMinus(d: string)
    requires |d| > 0 && AllDigits(d)
    ensures ParseInt(['-'] + d) == Some(-(DigitsValue(d) as int))
  {
    var s := ['-'] + d;
    assert s[1..] == d;
    assert s[|s| - 1] == d[|d| - 1] && IsDigit(d[|d| - 1]);
    StripResult(s);
  }

  /** Text that is not a number is rejected: a string with no digit at all. */
  lemma {:induction false} ParseNeedsDigit(s: string)
    requires forall k :: 0 <= k < |s| ==> !IsDigit(s[k])
    ensures ParseInt(s) == None
  {
    var t := Strip(s);
    StripIsInfix(s);
    if |t| > 0 {
      assert !IsDigit(t[0]);
      if t[0] == '-' || t[0] == '+' {
        if |t| > 1 {
          assert !IsDigit(t[1]);
        }
      }
    }
  }

  lemma {:induction false} StripIsInfix(s: string)
    ensures forall k :: 0 <= k < |Strip(s)| ==> Strip(s)[k] in s
  {
    var l := LStrip(s);
    var r := RStrip(l);
    assert Strip(s) == r;
    forall k | 0 <= k < |r|
      ensures r[k] in s
    {
      assert r[k] == l[k];
      assert l[k] == s[|s| - |l| + k];
    }
  }
}
