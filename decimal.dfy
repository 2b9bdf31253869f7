/**
 * Decimal rendering of integers, the `"\(age)"` string interpolation of an
 * `Int`, together with a parser that is its inverse.
 */
module Decimal {

  datatype Option<+T> = None | Some(value: T)

  predicate IsDigit(c: char) {
    '0' <= c <= '9'
  }

  predicate AllDigits(s: string) {
    forall i :: 0 <= i < |s| ==> IsDigit(s[i])
  }

  function DigitChar(d: nat): (c: char)
    requires d < 10
    ensures IsDigit(c)
  {
    ('0' as int + d) as char
  }

  function DigitValue(c: char): (d: nat)
    requires IsDigit(c)
    ensures d < 10
    ensures DigitChar(d) == c
  {
    c as int - '0' as int
  }

  /** The shortest base-10 rendering of `n`: no sign, no leading zero. */
  function NatToDecimal(n: nat): (s: string)
    ensures |s| >= 1 && AllDigits(s)
    ensures s[0] == '0' <==> n == 0
    ensures n < 10 <==> |s| == 1
  {
    if n < 10 then [DigitChar(n)] else NatToDecimal(n / 10) + [DigitChar(n % 10)]
  }

  /** The rendering of an `Int` in a string interpolation: a leading `-` for negatives. */
  function IntToDecimal(n: int): (s: string)
    ensures IsCanonical(s)
    ensures (|s| > 0 && s[0] == '-') <==> n < 0
  {
    if n < 0 then "-" + NatToDecimal(-n) else NatToDecimal(n)
  }

  /** Digits without a superfluous leading zero, optionally after a `-` that is not followed by zero. */
  predicate IsCanonicalNat(s: string) {
    |s| >= 1 && AllDigits(s) && (s[0] == '0' ==> |s| == 1)
  }

  predicate IsCanonical(s: string) {
    IsCanonicalNat(s) || (|s| >= 2 && s[0] == '-' && IsCanonicalNat(s[1..]) && s[1] != '0')
  }

  /** The value of a string of digits, read most significant digit first (zero for the empty string). */
  function ParseDigits(s: string): nat
    requires AllDigits(s)
    decreases |s|
  {
    if s == [] then 0 else ParseDigits(s[..|s| - 1]) * 10 + DigitValue(s[|s| - 1])
  }

  /** Reads an optional `-` followed by one or more digits; anything else is rejected. */
  function ParseDecimal(s: string): (r: Option<int>)
    ensures r.Some? <==> (|s| >= 1 && AllDigits(s)) || (|s| >= 2 && s[0] == '-' && AllDigits(s[1..]))
  {
    if |s| >= 2 && s[0] == '-' && AllDigits(s[1..]) then Some(-(ParseDigits(s[1..]) as int))
    else if |s| >= 1 && AllDigits(s) then Some(ParseDigits(s))
    else None
  }

  lemma {:induction false} ParseDigitsOfNat(n: nat)
    ensures ParseDigits(NatToDecimal(n)) == n
  {
    var s := NatToDecimal(n);
    if n < 10 {
      assert s[..0] == [];
    } else {
      ParseDigitsOfNat(n / 10);
      assert s[..|s| - 1] == NatToDecimal(n / 10);
    }
  }

  /** Rendering then parsing gives the number back. */
  lemma {:induction false} ParseOfIntToDecimal(n: int)
    ensures ParseDecimal(IntToDecimal(n)) == Some(n)
  {
    var s := IntToDecimal(n);
    if n < 0 {
      var t := NatToDecimal(-n);
      assert s[1..] == t;
      ParseDigitsOfNat(-n);
      assert ParseDecimal(s) == Some(-(ParseDigits(t) as int));
    } else {
      ParseDigitsOfNat(n);
      assert s[0] != '-';
    }
  }

  lemma {:induction false} ParseDigitsPositive(s: string)
    requires |s| >= 1 && AllDigits(s) && s[0] != '0'
    ensures ParseDigits(s) >= 1
  {
    if |s| > 1 {
      ParseDigitsPositive(s[..|s| - 1]);
    }
  }

  lemma {:induction false} NatToDecimalOfParse(s: string)
    requires IsCanonicalNat(s)
    ensures NatToDecimal(ParseDigits(s)) == s
  {
    var p := s[..|s| - 1];
    var d := DigitValue(s[|s| - 1]);
    if |s| == 1 {
      assert p == [];
      assert NatToDecimal(d) == [s[0]];
    } else {
      ParseDigitsPositive(p);
      NatToDecimalOfParse(p);
      var n := ParseDigits(s);
      assert n / 10 == ParseDigits(p) && n % 10 == d;
      assert s == p + [s[|s| - 1]];
    }
  }

  /** Parsing then rendering gives back every canonical string: the rendering is onto the canonical strings. */
  lemma IntToDecimalOfParse(s: string)
    requires IsCanonical(s)
    ensures ParseDecimal(s).Some? && IntToDecimal(ParseDecimal(s).value) == s
  {
    if IsCanonicalNat(s) {
      NatToDecimalOfParse(s);
      if |s| >= 2 {
        assert s[0] != '-';
      }
    } else {
      var t := s[1..];
      NatToDecimalOfParse(t);
      ParseDigitsPositive(t);
      assert s == "-" + t;
    }
  }

  /** A canonical string is determined by the value it parses to: it is that value's rendering. */
  lemma CanonicalIsRendering(s: string, n: int)
    requires IsCanonical(s) && ParseDecimal(s) == Some(n)
    ensures s == IntToDecimal(n)
  {
    IntToDecimalOfParse(s);
  }

  /** Distinct integers render differently. */
  lemma IntToDecimalInjective(m: int, n: int)
    ensures IntToDecimal(m) == IntToDecimal(n) <==> m == n
  {
    ParseOfIntToDecimal(m);
    ParseOfIntToDecimal(n);
  }
}
