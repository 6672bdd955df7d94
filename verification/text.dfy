/** The few pieces of Python string handling the store and the controllers
    rely on: `str(n)` for naturals, `int(s)` for flag values, and
    `s.strip() == ""` for blank passwords. */
module Text {
  import opened Results

  predicate IsDigit(c: char) {
    '0' <= c <= '9'
  }

  predicate AllDigits(s: string) {
    forall i :: 0 <= i < |s| ==> IsDigit(s[i])
  }

  function DigitChar(d: nat): (c: char)
    requires d < 10
    ensures IsDigit(c)
  {
    (('0' as int) + d) as char
  }

  function DigitValue(c: char): (d: nat)
    requires IsDigit(c)
    ensures d < 10
  {
    (c as int) - ('0' as int)
  }

  /** Python's `str(n)` for a natural number: decimal, no leading zeros. */
  function DecimalString(n: nat): (s: string)
    ensures 0 < |s|
    ensures AllDigits(s)
    ensures n < 10 <==> |s| == 1
    decreases n
  {
    if n < 10 then [DigitChar(n)] else DecimalString(n / 10) + [DigitChar(n % 10)]
  }

  /** The value of a string of decimal digits, most significant first. */
  function DigitsValue(s: string): nat
    requires AllDigits(s)
  {
    if |s| == 0 then 0
    else DigitsValue(s[..|s| - 1]) * 10 + DigitValue(s[|s| - 1])
  }

  /** Python's `int(s)`: surrounding whitespace is ignored, then an optional
      sign followed by ASCII digits is read; anything else raises, modelled
      as `None`. */
  function ParseInt(s: string): Option<int> {
    ParseSigned(Strip(s))
  }

  /** An optional sign followed by ASCII digits, with nothing around them. */
  function ParseSigned(s: string): Option<int> {
    if 0 < |s| && (s[0] == '+' || s[0] == '-') then
      var body := s[1..];
      if 0 < |body| && AllDigits(body) then
        Some(if s[0] == '-' then -(DigitsValue(body) as int) else DigitsValue(body) as int)
      else None
    else if 0 < |s| && AllDigits(s) then Some(DigitsValue(s) as int)
    else None
  }

  lemma DigitRoundTrip(d: nat)
    requires d < 10
    ensures DigitValue(DigitChar(d)) == d
  {
  }

  lemma {:induction false} DigitsOfDecimal(n: nat)
    ensures DigitsValue(DecimalString(n)) == n
    decreases n
  {
    var s := DecimalString(n);
    if n < 10 {
      DigitRoundTrip(n);
      assert s[..0] == [];
    } else {
      DigitsOfDecimal(n / 10);
      DigitRoundTrip(n % 10);
      assert s[..|s| - 1] == DecimalString(n / 10);
    }
  }

  /** `int(str(n)) == n`: reading back what was written gives the number. */
  lemma DecimalRoundTrip(n: nat)
    ensures ParseInt(DecimalString(n)) == Some(n as int)
  {
    DigitsOfDecimal(n);
    StripKeepsDigits(DecimalString(n));
  }

  /** `int()` reads a number written with whitespace on either side as the
      number itself. */
  lemma ParseIgnoresSpace(n: nat, before: string, after: string)
    requires IsBlank(before) && IsBlank(after)
    ensures ParseInt(before + DecimalString(n) + after) == Some(n as int)
  {
    var d := DecimalString(n);
    assert before + d + after == before + (d + after);
    StripLeftPadded(before, d + after);
    assert !IsSpace((d + after)[0]);
    StripRightPadded(d, after);
    DecimalRoundTrip(n);
  }

  /** Whitespace in front does not change what stripping on the left
      leaves. */
  lemma {:induction false} StripLeftPadded(pad: string, s: string)
    requires IsBlank(pad)
    ensures StripLeft(pad + s) == StripLeft(s)
    decreases |pad|
  {
    if |pad| == 0 {
      assert pad + s == s;
    } else {
      assert (pad + s)[0] == pad[0] && (pad + s)[1..] == pad[1..] + s;
      StripLeftPadded(pad[1..], s);
    }
  }

  /** Whitespace behind does not change what stripping on the right
      leaves. */
  lemma {:induction false} StripRightPadded(s: string, pad: string)
    requires IsBlank(pad)
    ensures StripRight(s + pad) == StripRight(s)
    decreases |pad|
  {
    if |pad| == 0 {
      assert s + pad == s;
    } else {
      var n := |pad| - 1;
      assert (s + pad)[|s + pad| - 1] == pad[n] && (s + pad)[..|s + pad| - 1] == s + pad[..n];
      StripRightPadded(s, pad[..n]);
    }
  }

  /** A digit is not whitespace, so stripping leaves a digit string as it
      is. */
  lemma StripKeepsDigits(s: string)
    requires 0 < |s| && AllDigits(s)
    ensures Strip(s) == s
  {
    assert !IsSpace(s[0]) && !IsSpace(s[|s| - 1]);
  }

  /** Distinct numbers have distinct decimal strings. */
  lemma DecimalInjective(m: nat, n: nat)
    requires DecimalString(m) == DecimalString(n)
    ensures m == n
  {
    DecimalRoundTrip(m);
    DecimalRoundTrip(n);
  }

  /** The characters Python's `str.strip()` removes when given no argument. */
  predicate IsSpace(c: char) {
    c == ' ' || ('\t' <= c <= '\r') || ('\U{1C}' <= c <= '\U{1F}')
    || c == '\U{85}' || c == '\U{A0}' || c == '\U{1680}'
    || ('\U{2000}' <= c <= '\U{200A}') || c == '\U{2028}' || c == '\U{2029}'
    || c == '\U{202F}' || c == '\U{205F}' || c == '\U{3000}'
  }

  /** Leading whitespace removed. */
  function StripLeft(s: string): (r: string)
    ensures |r| <= |s|
  {
    if 0 < |s| && IsSpace(s[0]) then StripLeft(s[1..]) else s
  }

  /** Trailing whitespace removed. */
  function StripRight(s: string): (r: string)
    ensures |r| <= |s|
  {
    if 0 < |s| && IsSpace(s[|s| - 1]) then StripRight(s[..|s| - 1]) else s
  }

  /** Python's `s.strip()`. */
  function Strip(s: string): string {
    StripRight(StripLeft(s))
  }

  /** Every character is whitespace. */
  predicate IsBlank(s: string) {
    forall i :: 0 <= i < |s| ==> IsSpace(s[i])
  }

  lemma {:induction false} StripLeftEmpty(s: string)
    ensures StripLeft(s) == [] <==> IsBlank(s)
    decreases |s|
  {
    if 0 < |s| && IsSpace(s[0]) {
      StripLeftEmpty(s[1..]);
      if IsBlank(s[1..]) {
        forall i | 0 <= i < |s| ensures IsSpace(s[i]) {
          if 0 < i { assert s[i] == s[1..][i - 1]; }
        }
      }
      if IsBlank(s) {
        forall i | 0 <= i < |s[1..]| ensures IsSpace(s[1..][i]) {
          assert s[1..][i] == s[i + 1];
        }
      }
    }
  }

  lemma {:induction false} StripRightKeepsNonBlank(s: string)
    requires 0 < |s| && !IsSpace(s[0])
    ensures StripRight(s) != []
    decreases |s|
  {
    if IsSpace(s[|s| - 1]) {
      assert |s| != 1;
      StripRightKeepsNonBlank(s[..|s| - 1]);
    }
  }

  /** `s.strip() == ""` holds exactly for all-whitespace strings, the empty
      one included. */
  lemma StripEmptyIffBlank(s: string)
    ensures Strip(s) == [] <==> IsBlank(s)
  {
    StripLeftEmpty(s);
    var l := StripLeft(s);
    if l != [] {
      StripLeftStopsAtNonSpace(s);
      StripRightKeepsNonBlank(l);
    }
  }

  lemma {:induction false} StripLeftStopsAtNonSpace(s: string)
    requires StripLeft(s) != []
    ensures !IsSpace(StripLeft(s)[0])
    decreases |s|
  {
    if 0 < |s| && IsSpace(s[0]) {
      StripLeftStopsAtNonSpace(s[1..]);
    }
  }
}
