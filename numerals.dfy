/** Decimal text as the store writes and reads integers: INCR and HINCRBY
    parse the stored text as a canonical decimal (an optional '-', no '+',
    no leading zeros, no "-0") and write the new value back as text. */
module Numerals {
  import opened Wrappers

  /** The decimal digits of a natural number, most significant first. */
  function Digits(n: nat): (r: string)
    ensures r != []
    ensures forall i :: 0 <= i < |r| ==> IsDigit(r[i])
    ensures n > 0 ==> r[0] != '0'
  {
    if n < 10 then [DigitChar(n)] else Digits(n / 10) + [DigitChar(n % 10)]
  }

  predicate IsDigit(c: char) {
    '0' <= c <= '9'
  }

  function DigitChar(d: nat): (c: char)
    requires d < 10
    ensures IsDigit(c) && CharValue(c) == d
  {
    ['0', '1', '2', '3', '4', '5', '6', '7', '8', '9'][d]
  }

  function CharValue(c: char): (d: nat)
    requires IsDigit(c)
    ensures d < 10
  {
    (c as int - '0' as int) as nat
  }

  /** The number a string of digits spells. */
  function DigitsValue(t: string): nat
    requires forall i :: 0 <= i < |t| ==> IsDigit(t[i])
  {
    if t == [] then 0 else DigitsValue(t[..|t| - 1]) * 10 + CharValue(t[|t| - 1])
  }

  /** An integer as decimal text, with a '-' in front of a negative one. */
  function IntText(n: int): string {
    if n < 0 then "-" + Digits(-n) else Digits(n)
  }

  /** A canonical unsigned numeral: digits only, and no leading zero unless
      it is "0" itself. */
  predicate Canonical(t: string) {
    t != [] && (forall i :: 0 <= i < |t| ==> IsDigit(t[i])) && (t[0] == '0' ==> t == "0")
  }

  /** The store's reading of a text as an integer; None when it is not a
      canonical decimal. */
  function ParseInt(s: string): Option<int> {
    if s != [] && s[0] == '-' then
      if Canonical(s[1..]) && s[1] != '0' then Some(-(DigitsValue(s[1..]) as int)) else None
    else if Canonical(s) then Some(DigitsValue(s))
    else None
  }

  lemma {:induction false} DigitsValueOfDigits(n: nat)
    ensures DigitsValue(Digits(n)) == n
  {
    if n >= 10 {
      var d := Digits(n);
      assert d[..|d| - 1] == Digits(n / 10);
      DigitsValueOfDigits(n / 10);
    }
  }

  lemma {:induction false} DigitsOfValue(t: string)
    requires Canonical(t)
    ensures Digits(DigitsValue(t)) == t
  {
    if |t| > 1 {
      var init := t[..|t| - 1];
      assert init[0] == t[0];
      assert Canonical(init);
      DigitsOfValue(init);
      DigitsPositive(init);
      var v := DigitsValue(t);
      assert v / 10 == DigitsValue(init) && v % 10 == CharValue(t[|t| - 1]);
      assert DigitChar(CharValue(t[|t| - 1])) == t[|t| - 1];
      assert t == init + [t[|t| - 1]];
    } else {
      assert DigitChar(CharValue(t[0])) == t[0];
    }
  }

  lemma DigitsPositive(t: string)
    requires Canonical(t) && t[0] != '0'
    ensures DigitsValue(t) >= 1
  {
    if |t| > 1 {
      var init := t[..|t| - 1];
      assert init[0] == t[0];
      DigitsPositive(init);
    }
  }

  /** Reading back what was written gives the same integer. */
  lemma ParseIntText(n: int)
    ensures ParseInt(IntText(n)) == Some(n)
  {
    if n < 0 {
      assert IntText(n) == "-" + Digits(-n);
      ParseNegativeText(-n);
    } else {
      assert IntText(n) == Digits(n);
      ParseDigits(n);
    }
  }

  lemma ParseDigits(n: nat)
    ensures ParseInt(Digits(n)) == Some(n)
  {
    var d := Digits(n);
    assert n == 0 ==> d == "0";
    assert Canonical(d);
    DigitsValueOfDigits(n);
  }

  lemma ParseNegativeText(m: nat)
    requires m > 0
    ensures ParseInt("-" + Digits(m)) == Some(-(m as int))
  {
    var d := Digits(m);
    var s := "-" + d;
    assert s[0] == '-' && s[1..] == d;
    assert Canonical(d);
    DigitsValueOfDigits(m);
  }

  /** A text the store accepts as an integer is exactly how that integer is
      written: parsing and printing are inverse on canonical numerals. */
  lemma TextOfParseInt(s: string)
    requires ParseInt(s).Some?
    ensures IntText(ParseInt(s).value) == s
  {
    if s[0] == '-' {
      var t := s[1..];
      assert Canonical(t) && t[0] != '0';
      var v := DigitsValue(t);
      DigitsPositive(t);
      DigitsOfValue(t);
      assert ParseInt(s) == Some(-(v as int));
      assert IntText(-(v as int)) == "-" + Digits(v);
      assert s == "-" + t;
    } else {
      var v := DigitsValue(s);
      assert ParseInt(s) == Some(v as int);
      DigitsOfValue(s);
      assert IntText(v) == Digits(v);
    }
  }
}
