/**
 * Decimal numerals as Python's `decimal` module holds them, and the three
 * operations the temperature migration composes: reading a numeral from its
 * text (`Decimal(s)`), rounding it to two fractional digits (`round(d, 2)`,
 * which quantizes with the default context's half-to-even rounding) and
 * printing the two-digit result (`str(d)`).
 */
module Decimals {
  import opened Wrappers

  /** The value is (-1)^negative * coef * 10^exp.  The sign is kept apart from
      the coefficient because Python's decimals have a signed zero. */
  datatype Decimal = Decimal(negative: bool, coef: nat, exp: int)

  function Pow10(k: nat): (p: nat)
    ensures p >= 1
  {
    if k == 0 then 1 else 10 * Pow10(k - 1)
  }

  // ---------------------------------------------------------------------
  // Digit strings

  predicate IsDigit(c: char) {
    '0' <= c <= '9'
  }

  predicate AllDigits(s: string) {
    forall i | 0 <= i < |s| :: IsDigit(s[i])
  }

  function DigitChar(d: nat): (c: char)
    requires d < 10
    ensures IsDigit(c) && c as int - '0' as int == d
  {
    ('0' as int + d) as char
  }

  /** The number a string of decimal digits denotes, most significant first. */
  function DigitsValue(s: string): nat
    requires AllDigits(s)
    decreases |s|
  {
    if s == [] then 0 else DigitsValue(s[..|s| - 1]) * 10 + (s[|s| - 1] as int - '0' as int)
  }

  /** Python's `str` of a non-negative integer: the shortest digit string. */
  function NatToString(n: nat): (s: string)
    ensures AllDigits(s) && |s| >= 1
    ensures DigitsValue(s) == n
    ensures |s| == 1 || s[0] != '0'
  {
    if n < 10 then [DigitChar(n)]
    else
      var prefix := NatToString(n / 10);
      var s := prefix + [DigitChar(n % 10)];
      assert s[..|s| - 1] == prefix;
      s
  }

  /** Position of the first character of `s` that is one of `stops`, or |s|. */
  function IndexOf(s: string, stops: set<char>): (i: nat)
    ensures i <= |s|
    ensures i < |s| ==> s[i] in stops
    ensures forall j | 0 <= j < i :: s[j] !in stops
  {
    if s == [] then 0
    else if s[0] in stops then 0
    else 1 + IndexOf(s[1..], stops)
  }

  // ---------------------------------------------------------------------
  // Decimal(s): reading a numeral

  /** An optional sign followed by a non-empty digit string. */
  function ParseExponent(t: string): (r: Option<int>)
    ensures r.Some? ==> |t| >= 1
  {
    var negative := |t| > 0 && t[0] == '-';
    var digits := if |t| > 0 && (t[0] == '-' || t[0] == '+') then t[1..] else t;
    if |digits| > 0 && AllDigits(digits) then
      var magnitude: int := DigitsValue(digits);
      Some(if negative then -magnitude else magnitude)
    else None
  }

  /** The sign of a numeral and the text after it. */
  function SplitSign(s: string): (bool, string)
  {
    if |s| > 0 && (s[0] == '-' || s[0] == '+') then (s[0] == '-', s[1..]) else (false, s)
  }

  /**
   * The finite numerals Python's `Decimal` constructor accepts:
   *   [sign] (digits '.' [digits] | ['.'] digits) [('e' | 'E') [sign] digits]
   * A numeral with f fractional digits and exponent x gets exponent x - f and
   * keeps every digit (no normalisation), as `Decimal` does.
   */
  function ParseDecimal(s: string): (r: Option<Decimal>)
    ensures r.Some? ==> (r.value.negative <==> |s| > 0 && s[0] == '-')
  {
    var (negative, body) := SplitSign(s);
    var e := IndexOf(body, {'e', 'E'});
    var exponent := if e < |body| then ParseExponent(body[e + 1..]) else Some(0);
    if exponent.None? then None else ParseMantissa(negative, body[..e], exponent.value)
  }

  /** The part before the exponent: digits around at most one point. */
  function ParseMantissa(negative: bool, mantissa: string, exponent: int): (r: Option<Decimal>)
    ensures r.Some? ==> |mantissa| >= 1
  {
    var dot := IndexOf(mantissa, {'.'});
    var whole := mantissa[..dot];
    var fraction := if dot < |mantissa| then mantissa[dot + 1..] else [];
    if AllDigits(whole) && AllDigits(fraction) && |whole| + |fraction| >= 1 then
      Some(Decimal(negative, DigitsValue(whole + fraction), exponent - |fraction|))
    else None
  }

  // ---------------------------------------------------------------------
  // round(d, 2): quantize to exponent -2, half-to-even

  /** q * p is a multiple of p nearest to c; on a tie q is even. */
  ghost predicate NearestEven(c: nat, p: nat, q: nat) {
    var error := if q * p >= c then q * p - c else c - q * p;
    2 * error <= p && (2 * error == p ==> q % 2 == 0)
  }

  /** Python's `round(d, 2)` under the default context (precision overflow
      aside): the result has exponent -2 and keeps the sign. */
  function Round2(d: Decimal): (r: Decimal)
    ensures r.exp == -2 && r.negative == d.negative
    ensures d.exp >= -2 ==> r.coef == d.coef * Pow10(d.exp + 2)
    ensures d.exp < -2 ==> NearestEven(d.coef, Pow10(-2 - d.exp), r.coef)
  {
    if d.exp >= -2 then Decimal(d.negative, d.coef * Pow10(d.exp + 2), -2)
    else Decimal(d.negative, RoundQuotient(d.coef, Pow10(-2 - d.exp)), -2)
  }

  /** c / p rounded half-to-even. */
  function RoundQuotient(c: nat, p: nat): (q: nat)
    requires p >= 1
    ensures NearestEven(c, p, q)
  {
    var q := c / p;
    var rest := c % p;
    var up := 2 * rest > p || (2 * rest == p && q % 2 == 1);
    RoundedUpOrDown(c, p, q, rest, up);
    if up then q + 1 else q
  }

  lemma RoundedUpOrDown(c: nat, p: nat, q: nat, rest: nat, up: bool)
    requires p >= 1 && q == c / p && rest == c % p
    requires up == (2 * rest > p || (2 * rest == p && q % 2 == 1))
    ensures NearestEven(c, p, if up then q + 1 else q)
  {
    var m := q * p;
    assert c == m + rest && rest < p;
    if up {
      var m' := (q + 1) * p;
      assert m' == m + p;
      assert m' >= c && m' - c == p - rest;
    } else {
      assert m <= c && c - m == rest;
    }
  }

  // ---------------------------------------------------------------------
  // str(d) for a numeral with exponent -2

  /** Python's `str` of a decimal whose exponent is -2: always plain notation,
      an optional '-', the integer part and exactly two fractional digits. */
  function Render(d: Decimal): (s: string)
    requires d.exp == -2
    ensures FixedTwoPlaces(s)
  {
    (if d.negative then "-" else "")
      + NatToString(d.coef / 100) + "." + [DigitChar(d.coef / 10 % 10), DigitChar(d.coef % 10)]
  }

  /** An optional '-', an integer part without a leading zero (unless it is
      the single digit 0), a point, exactly two digits. */
  predicate FixedTwoPlaces(s: string) {
    var body := if |s| > 0 && s[0] == '-' then s[1..] else s;
    |body| >= 4 && body[|body| - 3] == '.'
      && AllDigits(body[..|body| - 3]) && AllDigits(body[|body| - 2..])
      && (|body| == 4 || body[0] != '0')
  }

  // ---------------------------------------------------------------------
  // Value equality of numerals written with different exponents

  ghost function Scaled(d: Decimal, e: int): int
    requires e <= d.exp
  {
    (if d.negative then -1 else 1) * d.coef * Pow10(d.exp - e)
  }

  /** The two numerals denote the same number (signed zeros are equal). */
  ghost predicate SameValue(a: Decimal, b: Decimal) {
    var e := if a.exp <= b.exp then a.exp else b.exp;
    Scaled(a, e) == Scaled(b, e)
  }

  // ---------------------------------------------------------------------
  // Lemmas

  lemma DigitsValueAppend2(s: string, a: char, b: char)
    requires AllDigits(s) && IsDigit(a) && IsDigit(b)
    ensures AllDigits(s + [a, b])
    ensures DigitsValue(s + [a, b]) == DigitsValue(s) * 100 + (a as int - '0' as int) * 10 + (b as int - '0' as int)
  {
    var t := s + [a, b];
    assert t[..|t| - 1] == s + [a];
    assert (s + [a])[..|s|] == s;
  }

  lemma HundredsTensUnits(c: nat)
    ensures (c / 100) * 100 + (c / 10 % 10) * 10 + c % 10 == c
  {
    var t := c / 10;
    assert c == t * 10 + c % 10;
    assert t == (t / 10) * 10 + t % 10;
    assert c / 100 == t / 10;
  }

  lemma IndexOfAbsent(s: string, stops: set<char>)
    requires forall j | 0 <= j < |s| :: s[j] !in stops
    ensures IndexOf(s, stops) == |s|
  {
  }

  /** Text with no exponent marker is read as a mantissa with exponent 0. */
  lemma ParseWithoutExponent(negative: bool, body: string)
    requires |body| >= 1 && body[0] != '-' && body[0] != '+'
    requires forall j | 0 <= j < |body| :: body[j] !in {'e', 'E'}
    ensures ParseDecimal((if negative then "-" else "") + body) == ParseMantissa(negative, body, 0)
  {
    var s := (if negative then "-" else "") + body;
    if negative {
      assert s[1..] == body;
    } else {
      assert s == body;
    }
    assert SplitSign(s) == (negative, body);
    IndexOfAbsent(body, {'e', 'E'});
    assert body[..|body|] == body;
  }

  lemma ParseFixedMantissa(negative: bool, whole: string, tail: string)
    requires AllDigits(whole) && AllDigits(tail) && |whole| >= 1
    ensures ParseMantissa(negative, whole + "." + tail, 0)
            == Some(Decimal(negative, DigitsValue(whole + tail), -|tail|))
  {
    var body := whole + "." + tail;
    forall j | 0 <= j < |whole| ensures body[j] !in {'.'} { assert body[j] == whole[j]; }
    assert body[|whole|] == '.';
    assert IndexOf(body, {'.'}) == |whole|;
    assert body[..|whole|] == whole;
    assert body[|whole| + 1..] == tail;
  }

  /** Fixed-point text without an exponent reads back as the digits' value
      with exponent minus the number of fractional digits. */
  lemma ParseFixedPoint(negative: bool, whole: string, tail: string)
    requires AllDigits(whole) && |whole| >= 1 && AllDigits(tail)
    ensures ParseDecimal((if negative then "-" else "") + whole + "." + tail)
            == Some(Decimal(negative, DigitsValue(whole + tail), -|tail|))
  {
    var body := whole + "." + tail;
    forall j | 0 <= j < |body| ensures body[j] !in {'e', 'E'} {
      if j < |whole| { assert body[j] == whole[j]; }
      else if j > |whole| { assert body[j] == tail[j - |whole| - 1]; }
    }
    assert body[0] == whole[0];
    assert (if negative then "-" else "") + whole + "." + tail == (if negative then "-" else "") + body;
    ParseWithoutExponent(negative, body);
    ParseFixedMantissa(negative, whole, tail);
  }

  /** The digits Render prints for a coefficient spell that coefficient. */
  lemma CentsDigitsValue(c: nat)
    ensures AllDigits(NatToString(c / 100) + [DigitChar(c / 10 % 10), DigitChar(c % 10)])
    ensures DigitsValue(NatToString(c / 100) + [DigitChar(c / 10 % 10), DigitChar(c % 10)]) == c
  {
    var whole := NatToString(c / 100);
    var tens := DigitChar(c / 10 % 10);
    var units := DigitChar(c % 10);
    DigitsValueAppend2(whole, tens, units);
    assert DigitsValue(whole) == c / 100;
    HundredsTensUnits(c);
  }

  /** Reading back what Render prints gives the same numeral. */
  lemma ParseRender(d: Decimal)
    requires d.exp == -2
    ensures ParseDecimal(Render(d)) == Some(d)
  {
    var whole := NatToString(d.coef / 100);
    var tail: string := [DigitChar(d.coef / 10 % 10), DigitChar(d.coef % 10)];
    assert Render(d) == (if d.negative then "-" else "") + whole + "." + tail;
    ParseFixedPoint(d.negative, whole, tail);
    assert whole + tail == NatToString(d.coef / 100) + [DigitChar(d.coef / 10 % 10), DigitChar(d.coef % 10)];
    CentsDigitsValue(d.coef);
  }

  /** Every text in the fixed two-place form is a numeral with exponent -2. */
  lemma FixedTwoPlacesParses(s: string)
    ensures FixedTwoPlaces(s) ==> ParseDecimal(s).Some? && ParseDecimal(s).value.exp == -2
  {
    if FixedTwoPlaces(s) {
      var negative := |s| > 0 && s[0] == '-';
      var body := if negative then s[1..] else s;
      var whole := body[..|body| - 3];
      var tail := body[|body| - 2..];
      assert body == whole + "." + tail;
      assert s == (if negative then "-" else "") + whole + "." + tail;
      ParseFixedPoint(negative, whole, tail);
    }
  }

  lemma MantissaNeedsDigit(negative: bool, mantissa: string, exponent: int)
    requires forall i | 0 <= i < |mantissa| :: !IsDigit(mantissa[i])
    ensures ParseMantissa(negative, mantissa, exponent).None?
  {
    var dot := IndexOf(mantissa, {'.'});
    var whole := mantissa[..dot];
    var fraction := if dot < |mantissa| then mantissa[dot + 1..] else [];
    if |whole| >= 1 {
      assert whole[0] == mantissa[0];
      assert !AllDigits(whole);
    } else if |fraction| >= 1 {
      assert fraction[0] == mantissa[dot + 1];
      assert !AllDigits(fraction);
    }
  }

  /** Every numeral has at least one digit. */
  lemma NoDigitNoNumeral(s: string)
    requires forall i | 0 <= i < |s| :: !IsDigit(s[i])
    ensures ParseDecimal(s).None?
  {
    var (negative, body) := SplitSign(s);
    forall i | 0 <= i < |body| ensures !IsDigit(body[i]) {
      if |s| > 0 && (s[0] == '-' || s[0] == '+') { assert body[i] == s[i + 1]; } else { assert body[i] == s[i]; }
    }
    var e := IndexOf(body, {'e', 'E'});
    var mantissa := body[..e];
    forall i | 0 <= i < |mantissa| ensures !IsDigit(mantissa[i]) { assert mantissa[i] == body[i]; }
    var exponent := if e < |body| then ParseExponent(body[e + 1..]) else Some(0);
    if exponent.Some? {
      MantissaNeedsDigit(negative, mantissa, exponent.value);
    }
  }

  /** A numeral already at exponent -2 is left as it is by rounding. */
  lemma RoundFixesTwoPlaces(d: Decimal)
    requires d.exp == -2
    ensures Round2(d) == d
  {
  }

  /** Rounding never moves the value by more than half a hundredth.  This is
      the first half of `NearestEven` in `Round2`'s contract, stated on its
      own for the reader. */
  lemma RoundIsClose(d: Decimal)
    requires d.exp < -2
    ensures var p := Pow10(-2 - d.exp);
            var r := Round2(d);
            2 * (if r.coef * p >= d.coef then r.coef * p - d.coef else d.coef - r.coef * p) <= p
  {
  }
}
