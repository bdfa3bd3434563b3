/**
 * Kotlin's rendering of an `Int` in a string template (`"$offset"`): optional
 * minus sign, then the decimal digits without leading zeros.  Its partner is
 * the parser a server applies to the query value.
 */
module Decimal {

  import opened Wrappers

  /** Kotlin's `Int`: a 32-bit two's complement integer. */
  type Int32 = x: int | -0x8000_0000 <= x < 0x8000_0000

  /** Wraps an unbounded integer to 32 bits, as `Int` arithmetic does on overflow. */
  function Wrap32(x: int): (r: Int32)
    ensures (r - x) % 0x1_0000_0000 == 0
    ensures -0x8000_0000 <= x < 0x8000_0000 ==> r == x
  {
    (x + 0x8000_0000) % 0x1_0000_0000 - 0x8000_0000
  }

  predicate IsDigit(c: char) {
    '0' <= c <= '9'
  }

  function DigitChar(d: int): (c: char)
    requires 0 <= d < 10
    ensures IsDigit(c)
  {
    ('0' as int + d) as char
  }

  /** The decimal digits of a natural number, most significant first. */
  function Digits(n: nat): (s: string)
    ensures |s| >= 1
    ensures forall i :: 0 <= i < |s| ==> IsDigit(s[i])
    ensures |s| > 1 ==> s[0] != '0'
  {
    if n < 10 then [DigitChar(n)] else Digits(n / 10) + [DigitChar(n % 10)]
  }

  /** `Int.toString()`. */
  function IntToString(n: int): (s: string)
    ensures forall i :: 0 <= i < |s| ==> IsDigit(s[i]) || (i == 0 && s[i] == '-')
  {
    if n < 0 then "-" + Digits(-n) else Digits(n)
  }

  function DigitsValue(s: string): Option<nat>
  {
    if s == [] then None
    else if |s| == 1 then (if IsDigit(s[0]) then Some(s[0] as int - '0' as int) else None)
    else
      var prefix := DigitsValue(s[..|s| - 1]);
      var last := s[|s| - 1];
      if prefix.None? || !IsDigit(last) then None
      else Some(prefix.value * 10 + (last as int - '0' as int))
  }

  /** The value of an optionally signed decimal numeral. */
  function ParseInt(s: string): Option<int> {
    if s != [] && s[0] == '-' then
      var d := DigitsValue(s[1..]);
      if d.None? then None else Some(0 - d.value as int)
    else
      var d := DigitsValue(s);
      if d.None? then None else Some(d.value)
  }

  lemma {:induction false} DigitsRoundTrip(n: nat)
    ensures DigitsValue(Digits(n)) == Some(n)
  {
    if n >= 10 {
      DigitsRoundTrip(n / 10);
      var s := Digits(n);
      assert s[..|s| - 1] == Digits(n / 10);
    }
  }

  /** The rendering is lossless: parsing it gives the number back. */
  lemma IntToStringRoundTrip(n: int)
    ensures ParseInt(IntToString(n)) == Some(n)
  {
    if n < 0 {
      DigitsRoundTrip(-n);
      assert IntToString(n)[1..] == Digits(-n);
    } else {
      DigitsRoundTrip(n);
    }
  }

  /** Renderings that the source's tests spell out, and a negative one. */
  lemma IntToStringExamples()
    ensures IntToString(2016) == "2016" && IntToString(10) == "10"
    ensures IntToString(14) == "14" && IntToString(12) == "12"
    ensures IntToString(0) == "0" && IntToString(50) == "50"
    ensures IntToString(-15) == "-15"
  {
  }
}
