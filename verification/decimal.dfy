/** Canonical decimal text of integers: the text an `IntValue` renders to.
    `ParseDecimal` is the strict inverse used to state what that text means. */
module Decimal {
  import opened Wrappers

  predicate IsDigit(c: char) {
    '0' <= c <= '9'
  }

  predicate AllDigits(s: string) {
    forall i :: 0 <= i < |s| ==> IsDigit(s[i])
  }

  /** Digits without a redundant leading zero: "0", "7", "120", never "", "007". */
  predicate IsCanonicalNat(s: string) {
    && |s| > 0
    && AllDigits(s)
    && (s[0] == '0' ==> |s| == 1)
  }

  /** A canonical natural, optionally preceded by '-', never "-0". */
  predicate IsCanonicalInt(s: string) {
    || IsCanonicalNat(s)
    || (|s| >= 2 && s[0] == '-' && IsCanonicalNat(s[1..]) && s[1..] != "0")
  }

  function DigitChar(d: nat): (c: char)
    requires d < 10
  {
    (('0' as int) + d) as char
  }

  function DigitValue(c: char): nat
    requires IsDigit(c)
  {
    (c as int) - ('0' as int)
  }

  /** Most significant digit first. */
  function NatDigits(n: nat): (s: string)
    ensures |s| > 0 && AllDigits(s)
    ensures s[0] == '0' <==> n == 0
    decreases n
  {
    if n < 10 then [DigitChar(n)] else NatDigits(n / 10) + [DigitChar(n % 10)]
  }

  function DigitsValue(s: string): nat
    requires AllDigits(s)
  {
    if s == [] then 0 else DigitsValue(s[..|s| - 1]) * 10 + DigitValue(s[|s| - 1])
  }

  /** The decimal text of `n`: a '-' for negatives, then the digits of |n|. */
  function IntToDecimal(n: int): (s: string)
    ensures IsCanonicalInt(s)
    ensures s[0] == '-' <==> n < 0
  {
    if n < 0 then "-" + NatDigits(-n) else NatDigits(n)
  }

  /** Strict parser: accepts exactly the canonical texts. */
  function ParseDecimal(s: string): (r: Option<int>)
    ensures r.Some? <==> IsCanonicalInt(s)
  {
    if IsCanonicalNat(s) then Some(DigitsValue(s))
    else if |s| >= 2 && s[0] == '-' && IsCanonicalNat(s[1..]) && s[1..] != "0" then Some(-(DigitsValue(s[1..]) as int))
    else None
  }

  lemma {:induction false} DigitsOfNat(n: nat)
    ensures DigitsValue(NatDigits(n)) == n
    decreases n
  {
    if n >= 10 {
      DigitsOfNat(n / 10);
      var s := NatDigits(n);
      assert s[..|s| - 1] == NatDigits(n / 10);
    }
  }

  lemma {:induction false} LeadingDigitPositive(s: string)
    requires IsCanonicalNat(s) && s[0] != '0'
    ensures DigitsValue(s) > 0
    decreases |s|
  {
    if |s| > 1 {
      LeadingDigitPositive(s[..|s| - 1]);
    }
  }

  lemma {:induction false} NatOfDigits(s: string)
    requires IsCanonicalNat(s)
    ensures NatDigits(DigitsValue(s)) == s
    decreases |s|
  {
    var p := s[..|s| - 1];
    if |p| > 0 {
      assert p[0] == s[0];
      assert s[0] != '0';
      LeadingDigitPositive(p);
      NatOfDigits(p);
      var n := DigitsValue(s);
      assert n / 10 == DigitsValue(p) && n % 10 == DigitValue(s[|s| - 1]);
      assert s == p + [s[|s| - 1]];
    }
  }

  /** Decimal text parses back to the integer it was made from. */
  lemma ParseOfDecimal(n: int)
    ensures ParseDecimal(IntToDecimal(n)) == Some(n)
  {
    if n < 0 {
      var s := IntToDecimal(n);
      assert s[1..] == NatDigits(-n);
      DigitsOfNat(-n);
    } else {
      DigitsOfNat(n);
    }
  }

  /** Every text the parser accepts is the decimal text of its value. */
  lemma DecimalOfParse(s: string)
    requires ParseDecimal(s).Some?
    ensures IntToDecimal(ParseDecimal(s).value) == s
  {
    if IsCanonicalNat(s) {
      NatOfDigits(s);
    } else {
      var t := s[1..];
      NatOfDigits(t);
      LeadingDigitPositive(t);
      assert s == "-" + t;
    }
  }

  /** Distinct integers render to distinct texts. */
  lemma DecimalInjective(a: int, b: int)
    requires IntToDecimal(a) == IntToDecimal(b)
    ensures a == b
  {
    ParseOfDecimal(a);
    ParseOfDecimal(b);
  }
}
