/**
 * Plain decimal rendering of integers, as Swift's string interpolation writes
 * `created_at` and `kind` into the event commitment, and its parser.
 */
module Decimal {
  import opened Results

  predicate IsDigit(ch: char) {
    '0' <= ch <= '9'
  }

  predicate IsDigits(s: string) {
    forall i :: 0 <= i < |s| ==> IsDigit(s[i])
  }

  /** Digit strings without a superfluous leading zero. */
  predicate IsCanonicalDigits(s: string) {
    |s| >= 1 && IsDigits(s) && (s[0] == '0' ==> |s| == 1)
  }

  function DigitChar(d: nat): (ch: char)
    requires d < 10
    ensures IsDigit(ch) && ch as int - '0' as int == d
  {
    ('0' as int + d) as char
  }

  /** The decimal digits of a natural number, most significant first. */
  function NatToDecimal(n: nat): (s: string)
    ensures IsCanonicalDigits(s)
    decreases n
  {
    if n < 10 then [DigitChar(n)]
    else NatToDecimal(n / 10) + [DigitChar(n % 10)]
  }

  /** Decimal text of any integer: a leading '-' exactly for negatives, then canonical digits. */
  function IntToDecimal(n: int): (s: string)
    ensures |s| >= 1
    ensures s[0] == '-' <==> n < 0
    ensures n < 0 ==> IsCanonicalDigits(s[1..]) && s[1] != '0'
    ensures n >= 0 ==> IsCanonicalDigits(s)
  {
    if n < 0 then "-" + NatToDecimal(-n) else NatToDecimal(n)
  }

  /** The value of a digit string, read most significant first. */
  function DigitsValue(s: string): nat
    requires IsDigits(s)
  {
    if |s| == 0 then 0
    else DigitsValue(s[..|s| - 1]) * 10 + (s[|s| - 1] as int - '0' as int)
  }

  /**
   * Reads exactly the texts `IntToDecimal` writes: canonical digits, or '-'
   * followed by canonical digits of a non-zero number. "007" and "-0" are rejected.
   */
  function ParseDecimal(s: string): (r: Option<int>)
    ensures r.Some? <==> IsCanonicalDigits(s) || (|s| >= 2 && s[0] == '-' && s[1] != '0' && IsCanonicalDigits(s[1..]))
    ensures r.Some? && s[0] == '-' ==> r.value < 0
    ensures r.Some? && s[0] != '-' ==> r.value >= 0
  {
    if |s| >= 2 && s[0] == '-' && s[1] != '0' && IsCanonicalDigits(s[1..]) then
      LeadingNonZeroPositive(s[1..]);
      var v: int := DigitsValue(s[1..]);
      Some(-v)
    else if IsCanonicalDigits(s) then Some(DigitsValue(s))
    else None
  }

  lemma {:induction false} DigitsValueOfNat(n: nat)
    ensures DigitsValue(NatToDecimal(n)) == n
    decreases n
  {
    var s := NatToDecimal(n);
    if n >= 10 {
      DigitsValueOfNat(n / 10);
      assert s[..|s| - 1] == NatToDecimal(n / 10);
    }
  }

  /** Round trip: the parser reads back exactly the integer that was rendered. */
  lemma ParseIntToDecimal(n: int)
    ensures ParseDecimal(IntToDecimal(n)) == Some(n)
  {
    var s := IntToDecimal(n);
    if n < 0 {
      assert s[1..] == NatToDecimal(-n);
      DigitsValueOfNat(-n);
    } else {
      DigitsValueOfNat(n);
    }
  }

  /** Rendering is injective: distinct integers have distinct decimal texts. */
  lemma IntToDecimalInjective(a: int, b: int)
    requires IntToDecimal(a) == IntToDecimal(b)
    ensures a == b
  {
    ParseIntToDecimal(a);
    ParseIntToDecimal(b);
  }

  lemma {:induction false} LeadingNonZeroPositive(s: string)
    requires IsDigits(s) && |s| >= 1 && s[0] != '0'
    ensures DigitsValue(s) > 0
  {
    if |s| > 1 {
      LeadingNonZeroPositive(s[..|s| - 1]);
    }
  }

  /** Canonical digit strings are exactly the renderings: no other text reads as the same number. */
  lemma {:induction false} NatToDecimalOfDigits(s: string)
    requires IsCanonicalDigits(s)
    ensures NatToDecimal(DigitsValue(s)) == s
  {
    if |s| > 1 {
      var p := s[..|s| - 1];
      var d := s[|s| - 1] as int - '0' as int;
      LeadingNonZeroPositive(p);
      NatToDecimalOfDigits(p);
      var n := DigitsValue(s);
      assert n == DigitsValue(p) * 10 + d;
      assert n / 10 == DigitsValue(p) && n % 10 == d;
      assert p + [s[|s| - 1]] == s;
    }
  }

  /** The parser and the renderer are inverse: a text parses to `n` exactly when it is `n`'s rendering. */
  lemma ParseDecimalIffRendering(s: string, n: int)
    ensures ParseDecimal(s) == Some(n) <==> s == IntToDecimal(n)
  {
    ParseIntToDecimal(n);
    ParseDecimalSound(s);
  }

  /** Every text the parser accepts is the rendering of the value it reads. */
  lemma ParseDecimalSound(s: string)
    ensures ParseDecimal(s).Some? ==> s == IntToDecimal(ParseDecimal(s).value)
  {
    if ParseDecimal(s).Some? {
      if s[0] == '-' {
        var m: int := DigitsValue(s[1..]);
        NatToDecimalOfDigits(s[1..]);
        LeadingNonZeroPositive(s[1..]);
        assert ParseDecimal(s).value == -m;
        assert IntToDecimal(-m) == "-" + NatToDecimal(m);
        assert s == "-" + s[1..];
      } else {
        NatToDecimalOfDigits(s);
      }
    }
  }

  /** Zero-padded and negative-zero texts are not numbers to the parser. */
  lemma NonCanonicalRejected()
    ensures ParseDecimal("007") == None
    ensures ParseDecimal("-0") == None
    ensures ParseDecimal("-") == None && ParseDecimal("") == None
  {
  }
}
