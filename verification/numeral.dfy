/**
 The decimal literals that Python's `float()` accepts for the duration token
 of a movement command, restricted to an optional sign followed by digits
 with at most one decimal point (`3`, `-2.5`, `+.5`, `4.`). Values are exact
 rationals.
 */
module Numeral {
  import opened Wrappers

  predicate IsDigit(c: char) {
    '0' <= c <= '9'
  }

  predicate AllDigits(s: string) {
    forall i :: 0 <= i < |s| ==> IsDigit(s[i])
  }

  /** Characters a literal of this grammar may contain. */
  predicate IsNumeralChar(c: char) {
    IsDigit(c) || c == '.' || c == '+' || c == '-'
  }

  function DigitValue(c: char): nat
    requires IsDigit(c)
  {
    c as int - '0' as int
  }

  /** The value of a digit string read in base ten; the empty string is 0. */
  function DigitsValue(s: string): nat
    requires AllDigits(s)
    decreases |s|
  {
    if s == [] then 0 else DigitsValue(s[..|s| - 1]) * 10 + DigitValue(s[|s| - 1])
  }

  function Pow10(n: nat): (p: nat)
    ensures p >= 1
  {
    if n == 0 then 1 else 10 * Pow10(n - 1)
  }

  /** Position of the first decimal point. */
  function DotIndex(s: string): (i: nat)
    requires '.' in s
    ensures i < |s| && s[i] == '.'
    ensures forall j :: 0 <= j < i ==> s[j] != '.'
  {
    if s[0] == '.' then 0 else 1 + DotIndex(s[1..])
  }

  /** The value of the digits after a point: they count in tenths, hundredths, and so on. */
  function Fraction(frac: string): (v: real)
    requires AllDigits(frac)
    ensures 0.0 <= v
  {
    DigitsValue(frac) as real / Pow10(|frac|) as real
  }

  /** The value of `whole.frac`. */
  function PointValue(whole: string, frac: string): (v: real)
    requires AllDigits(whole) && AllDigits(frac)
    ensures v >= 0.0
  {
    DigitsValue(whole) as real + Fraction(frac)
  }

  /** An unsigned literal: digits, optionally split by one point, with at least one digit. */
  function ParseUnsigned(s: string): (r: Option<real>)
    ensures r.Some? ==> s != [] && r.value >= 0.0
    ensures r.Some? ==> forall i :: 0 <= i < |s| ==> IsDigit(s[i]) || s[i] == '.'
  {
    if '.' in s then
      var i := DotIndex(s);
      var whole, frac := s[..i], s[i + 1..];
      if AllDigits(whole) && AllDigits(frac) && |whole| + |frac| > 0 then
        assert forall j :: 0 <= j < |s| && j != i ==> (j < i ==> s[j] == whole[j]) && (j > i ==> s[j] == frac[j - i - 1]);
        Some(PointValue(whole, frac))
      else
        None
    else if s != [] && AllDigits(s) then
      Some(DigitsValue(s) as real)
    else
      None
  }

  /** `float(s)` on the literal grammar above; `None` is Python's `ValueError`.
      A negative value can only come from a leading minus sign. */
  function ParseNum(s: string): (r: Option<real>)
    ensures r.Some? ==> s != [] && forall i :: 0 <= i < |s| ==> IsNumeralChar(s[i])
    ensures r.Some? && r.value < 0.0 ==> s[0] == '-'
    ensures r.Some? && s[0] != '-' ==> r.value >= 0.0
    ensures r.Some? && s[0] == '-' ==> r.value <= 0.0
  {
    if s != [] && (s[0] == '+' || s[0] == '-') then
      match ParseUnsigned(s[1..])
      case None => None
      case Some(v) => Some(if s[0] == '-' then -v else v)
    else
      ParseUnsigned(s)
  }

  function DigitChar(d: nat): (c: char)
    requires d < 10
    ensures IsDigit(c) && DigitValue(c) == d
  {
    ('0' as int + d) as char
  }

  /** `str(n)` for a natural number. */
  function ShowNat(n: nat): (s: string)
    ensures s != [] && AllDigits(s)
  {
    if n < 10 then [DigitChar(n)] else ShowNat(n / 10) + [DigitChar(n % 10)]
  }

  /** Reading back the decimal digits of `n` gives `n`. */
  lemma {:induction false} DigitsOfShowNat(n: nat)
    ensures DigitsValue(ShowNat(n)) == n
  {
    if n >= 10 {
      var s := ShowNat(n);
      assert s[..|s| - 1] == ShowNat(n / 10);
      DigitsOfShowNat(n / 10);
    }
  }

  /** The first point of `whole + "." + rest` is the one after `whole`. */
  lemma {:induction false} DotAfterDigits(whole: string, rest: string)
    requires AllDigits(whole)
    ensures '.' in whole + "." + rest && DotIndex(whole + "." + rest) == |whole|
  {
    var s := whole + "." + rest;
    assert s[|whole|] == '.';
    if whole != [] {
      assert s[0] == whole[0];
      assert s[1..] == whole[1..] + "." + rest;
      DotAfterDigits(whole[1..], rest);
    }
  }

  /** A literal with a point: the digits before it are the whole part and the digits
      after it the fraction, either side possibly empty but not both (`2.5`, `.5`, `4.`). */
  lemma ParsePoint(whole: string, frac: string)
    requires AllDigits(whole) && AllDigits(frac) && |whole| + |frac| > 0
    ensures ParseNum(whole + "." + frac) == Some(PointValue(whole, frac))
  {
    var s := whole + "." + frac;
    var v := PointValue(whole, frac);
    assert ParseUnsigned(s) == Some(v) by {
      DotAfterDigits(whole, frac);
      assert s[..|whole|] == whole;
      assert s[|whole| + 1..] == frac;
    }
    assert s[0] != '+' && s[0] != '-' by {
      if whole != [] {
        assert s[0] == whole[0];
      }
    }
  }

  /** A sign in front of an unsigned literal: `-` negates its value and `+` keeps it;
      a literal that does not parse does not parse with a sign either. */
  lemma ParseSigned(u: string)
    requires u == [] || (u[0] != '+' && u[0] != '-')
    ensures ParseNum("+" + u) == ParseNum(u)
    ensures ParseNum("-" + u) == if ParseNum(u).Some? then Some(-ParseNum(u).value) else None
  {
    assert ("+" + u)[1..] == u && ("-" + u)[1..] == u;
  }

  /** `float(str(n)) == n` and `float("-" + str(n)) == -n`. */
  lemma ParseShowNat(n: nat)
    ensures ParseNum(ShowNat(n)) == Some(n as real)
    ensures ParseNum("-" + ShowNat(n)) == Some(-(n as real))
  {
    var s := ShowNat(n);
    DigitsOfShowNat(n);
    assert '.' !in s by {
      forall i | 0 <= i < |s| ensures s[i] != '.' {
        assert IsDigit(s[i]);
      }
    }
    assert ("-" + s)[1..] == s;
  }

  /** `float(str(n) + "." + f) == n + 0.f` for any digit string `f`, with or without a minus. */
  lemma ParseShowPoint(n: nat, frac: string)
    requires AllDigits(frac)
    ensures ParseNum(ShowNat(n) + "." + frac) == Some(n as real + Fraction(frac))
    ensures ParseNum("-" + (ShowNat(n) + "." + frac)) == Some(-(n as real + Fraction(frac)))
  {
    var w := ShowNat(n);
    var u := w + "." + frac;
    DigitsOfShowNat(n);
    ParsePoint(w, frac);
    assert u[0] == w[0] && IsDigit(w[0]);
    ParseSigned(u);
  }

  /** A plain digit string, leading zeros included (`3`, `03`), is read in base ten. */
  lemma ParseDigits(d: string)
    requires AllDigits(d) && d != []
    ensures ParseNum(d) == Some(DigitsValue(d) as real)
  {
    assert '.' !in d by {
      forall i | 0 <= i < |d| ensures d[i] != '.' {
        assert IsDigit(d[i]);
      }
    }
    assert IsDigit(d[0]);
  }

  /** Conversely, every unsigned literal that is accepted is digits, optionally followed
      by a point and more digits, with a digit somewhere; its value is read off those parts. */
  lemma UnsignedForm(u: string) returns (whole: string, frac: string, point: bool)
    requires ParseUnsigned(u).Some?
    ensures AllDigits(whole) && AllDigits(frac) && |whole| + |frac| > 0
    ensures !point ==> frac == [] && whole != []
    ensures u == whole + (if point then "." + frac else [])
    ensures ParseUnsigned(u).value == PointValue(whole, frac)
  {
    if '.' in u {
      var i := DotIndex(u);
      whole, frac, point := u[..i], u[i + 1..], true;
      assert u == whole + ("." + frac);
    } else {
      whole, frac, point := u, [], false;
      assert u == whole + [];
    }
  }

  /** Every accepted literal is an optional sign in front of such an unsigned literal, and
      its value is the unsigned value, negated exactly for a minus sign. So `1.2.3`, `.`,
      `-`, `+-3` and `3-` are all rejected. */
  lemma ParseNumForm(s: string) returns (sign: string, whole: string, frac: string, point: bool)
    requires ParseNum(s).Some?
    ensures sign == "" || sign == "+" || sign == "-"
    ensures AllDigits(whole) && AllDigits(frac) && |whole| + |frac| > 0
    ensures !point ==> frac == [] && whole != []
    ensures s == sign + (whole + (if point then "." + frac else []))
    ensures ParseNum(s).value == if sign == "-" then -PointValue(whole, frac) else PointValue(whole, frac)
  {
    if s != [] && (s[0] == '+' || s[0] == '-') {
      sign := [s[0]];
      whole, frac, point := UnsignedForm(s[1..]);
      assert s == sign + s[1..];
    } else {
      sign := "";
      whole, frac, point := UnsignedForm(s);
      assert s == sign + s;
    }
  }
}
