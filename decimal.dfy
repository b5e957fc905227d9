/** The decimal text `WriteInt` stores: `std::to_wstring` of an `int`, an
    optional minus sign and the digits without leading zeros. */
module Decimal {
  import opened Text
  import opened Parser

  /** An `int` of the source: 32 bits, two's complement range. */
  type int32 = x: int | -0x8000_0000 <= x < 0x8000_0000

  datatype Option<T> = None | Some(value: T)

  predicate IsDigit(c: char) {
    '0' <= c <= '9'
  }

  predicate AllDigits(s: string) {
    forall i :: 0 <= i < |s| ==> IsDigit(s[i])
  }

  function DigitChar(n: nat): (c: char)
    requires n < 10
    ensures IsDigit(c) && c as int - '0' as int == n
  {
    ('0' as int + n) as char
  }

  /** The digits of `n`, most significant first, without leading zeros. */
  function Digits(n: nat): (s: string)
    ensures |s| >= 1 && AllDigits(s)
    ensures |s| > 1 ==> s[0] != '0'
  {
    if n < 10 then [DigitChar(n)] else Digits(n / 10) + [DigitChar(n % 10)]
  }

  /** `std::to_wstring(value)`. */
  function ToDecimal(x: int32): (s: string)
    ensures s != [] && (s[0] == '-' <==> x < 0)
    ensures x < 0 ==> AllDigits(s[1..]) && s[1..] == Digits(-(x as int))
    ensures x >= 0 ==> s == Digits(x)
  {
    if x < 0 then "-" + Digits(-(x as int)) else Digits(x)
  }

  /** The value of a run of decimal digits. */
  function DigitsValue(s: string): nat
    requires AllDigits(s)
  {
    if s == [] then 0 else DigitsValue(s[..|s| - 1]) * 10 + (s[|s| - 1] as int - '0' as int)
  }

  /** An independent reader of the same format: an optional minus sign, then
      at least one digit and nothing else. */
  function DecimalValue(s: string): (r: Option<int>)
    ensures r.Some? ==> s != []
  {
    if s != [] && s[0] == '-' && |s| > 1 && AllDigits(s[1..]) then Some(-(DigitsValue(s[1..]) as int))
    else if s != [] && AllDigits(s) then Some(DigitsValue(s))
    else None
  }

  lemma {:induction false} DigitsValueOfDigits(n: nat)
    ensures DigitsValue(Digits(n)) == n
  {
    if n >= 10 {
      var s := Digits(n);
      assert s[..|s| - 1] == Digits(n / 10);
      DigitsValueOfDigits(n / 10);
    }
  }

  /** Reading the text back gives the integer: the formatter loses nothing. */
  lemma DecimalRoundTrip(x: int32)
    ensures DecimalValue(ToDecimal(x)) == Some(x)
  {
    var s := ToDecimal(x);
    if x < 0 {
      DigitsValueOfDigits(-(x as int));
      assert s[0] == '-' && |s| > 1;
    } else {
      DigitsValueOfDigits(x);
    }
  }

  /** Different integers are stored as different text. */
  lemma ToDecimalInjective(x: int32, y: int32)
    requires ToDecimal(x) == ToDecimal(y)
    ensures x == y
  {
    DecimalRoundTrip(x);
    DecimalRoundTrip(y);
  }

  /** The text has no whitespace, quote or line feed, so the parser reads it
      back as it was stored. */
  lemma DecimalIsPlain(x: int32)
    ensures PlainValue(ToDecimal(x))
  {
    var s := ToDecimal(x);
    assert forall i :: 0 <= i < |s| ==> s[i] == '-' || IsDigit(s[i]) by {
      forall i | 0 <= i < |s| ensures s[i] == '-' || IsDigit(s[i]) {
        if x < 0 && i > 0 {
          assert s[i] == s[1..][i - 1];
        }
      }
    }
  }
}
