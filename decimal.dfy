/**
 * Decimal text of integers: the rendering done by std::to_string on an int
 * and the parsing done by a stream's `>> int` on one whitespace-free token.
 */
module Decimal {
  import opened Wrappers

  /** The signed 32-bit range of the C++ `int` the events parser reads into. */
  const IntMin: int := -0x8000_0000
  const IntMax: int := 0x7fff_ffff

  predicate IsDigit(c: char) { '0' <= c <= '9' }

  predicate AllDigits(s: string) { forall i :: 0 <= i < |s| ==> IsDigit(s[i]) }

  function DigitChar(d: nat): (c: char)
    requires d < 10
    ensures IsDigit(c) && c as int - '0' as int == d
  {
    ('0' as int + d) as char
  }

  /** The decimal digits of `n`, most significant first, without leading zeros. */
  function ShowNat(n: nat): (s: string)
    ensures |s| > 0 && AllDigits(s)
    ensures n > 0 ==> s[0] != '0'
    decreases n
  {
    if n < 10 then [DigitChar(n)] else ShowNat(n / 10) + [DigitChar(n % 10)]
  }

  /** std::to_string on an integer: a minus sign for negative values, then the digits. */
  function Show(n: int): (s: string)
    ensures |s| > 0 && (s[0] == '-' <==> n < 0)
    ensures forall i :: 0 <= i < |s| ==> s[i] == '-' || IsDigit(s[i])
  {
    if n < 0 then "-" + ShowNat(-n) else ShowNat(n)
  }

  /** The value of a string of decimal digits, read left to right. */
  function DigitsValue(s: string): nat
    requires AllDigits(s)
  {
    if s == [] then 0 else DigitsValue(s[..|s| - 1]) * 10 + (s[|s| - 1] as int - '0' as int)
  }

  /**
   * A whole token read as a decimal integer: an optional '+' or '-' followed by
   * one or more digits and nothing else.
   */
  function Parse(s: string): (r: Option<int>)
    ensures r.Some? ==> |s| > 0
    ensures r.Some? && s[0] != '-' ==> r.value >= 0
    ensures r.Some? && s[0] == '-' ==> r.value <= 0
  {
    var signed := |s| > 0 && (s[0] == '-' || s[0] == '+');
    var digits := if signed then s[1..] else s;
    if digits == [] || !AllDigits(digits) then None
    else
      var magnitude: int := DigitsValue(digits);
      Some(if signed && s[0] == '-' then -magnitude else magnitude)
  }

  /** `>> int`: a token is accepted only when its value fits an `int`; otherwise the stream fails. */
  function ParseInt(s: string): (r: Option<int>)
    ensures r.Some? ==> IntMin <= r.value <= IntMax
    ensures r.Some? <==> Parse(s).Some? && IntMin <= Parse(s).value <= IntMax
    ensures r.Some? ==> r == Parse(s)
  {
    match Parse(s)
    case Some(v) => if IntMin <= v <= IntMax then Some(v) else None
    case None => None
  }

  lemma {:induction false} DigitsValueOfShowNat(n: nat)
    ensures DigitsValue(ShowNat(n)) == n
    decreases n
  {
    var s := ShowNat(n);
    if n >= 10 {
      DigitsValueOfShowNat(n / 10);
      assert s[..|s| - 1] == ShowNat(n / 10);
    }
  }

  /** A token is accepted exactly when it is an optional sign followed by one or more digits. */
  lemma ParseAcceptsIff(s: string)
    ensures Parse(s).Some? <==>
      (|s| > 0 && (s[0] == '-' || s[0] == '+') && s[1..] != [] && AllDigits(s[1..]))
      || (s != [] && AllDigits(s))
  {
    if s != [] && AllDigits(s) {
      assert IsDigit(s[0]);
    }
  }

  /** A leading zero adds nothing to the value of a digit string. */
  lemma {:induction false} LeadingZeroValue(d: string)
    requires AllDigits(d)
    ensures AllDigits("0" + d) && DigitsValue("0" + d) == DigitsValue(d)
    decreases |d|
  {
    if d != [] {
      var z := "0" + d;
      assert z[..|z| - 1] == "0" + d[..|d| - 1];
      LeadingZeroValue(d[..|d| - 1]);
    }
  }

  /** An unsigned digit string reads as its value, and a leading zero does not change it. */
  lemma ParseDigits(d: string)
    requires d != [] && AllDigits(d)
    ensures Parse(d) == Some(DigitsValue(d))
    ensures Parse("0" + d) == Some(DigitsValue(d))
  {
    assert IsDigit(d[0]);
    LeadingZeroValue(d);
    assert ("0" + d)[0] == '0';
  }

  /** An explicit '+' reads a digit string as its value, and '-' as its negation. */
  lemma ParseSigned(d: string)
    requires d != [] && AllDigits(d)
    ensures Parse("+" + d) == Some(DigitsValue(d))
    ensures Parse("-" + d) == Some(-(DigitsValue(d) as int))
  {
    var plus, minus := "+" + d, "-" + d;
    assert plus[0] == '+' && plus[1..] == d;
    assert minus[0] == '-' && minus[1..] == d;
  }

  /** Reading back what std::to_string wrote gives the original integer. */
  lemma ParseShow(n: int)
    ensures Parse(Show(n)) == Some(n)
  {
    if n < 0 {
      DigitsValueOfShowNat(-n);
      assert Show(n)[1..] == ShowNat(-n);
    } else {
      DigitsValueOfShowNat(n);
    }
  }

  /** The same for the `int` reader, for every value that fits an `int`. */
  lemma ParseIntShow(n: int)
    requires IntMin <= n <= IntMax
    ensures ParseInt(Show(n)) == Some(n)
  {
    ParseShow(n);
  }
}
