/** Decimal rendering of a natural number, as Go's `%d` verb prints it. */
module Text {

  predicate IsDigit(c: char) { '0' <= c <= '9' }

  predicate AllDigits(s: string) { forall i | 0 <= i < |s| :: IsDigit(s[i]) }

  function Digit(d: nat): (c: char)
    requires d < 10
    ensures IsDigit(c) && c as int - '0' as int == d
  {
    ('0' as int + d) as char
  }

  /** The shortest decimal numeral of `n`: digits only, and never empty. */
  function Decimal(n: nat): (s: string)
    ensures 1 <= |s| && AllDigits(s)
    ensures |s| == 1 <==> n < 10
    decreases n
  {
    if n < 10 then [Digit(n)] else Decimal(n / 10) + [Digit(n % 10)]
  }

  /** A few numerals, as `%d` prints them. */
  lemma DecimalExamples()
    ensures Decimal(0) == "0" && Decimal(9) == "9"
    ensures Decimal(16) == "16" && Decimal(255) == "255"
  {
  }

  /** Different numbers print differently. */
  lemma {:induction false} DecimalInjective(a: nat, b: nat)
    requires Decimal(a) == Decimal(b)
    ensures a == b
    decreases a
  {
    if 10 <= a {
      var s := Decimal(a);
      assert s[..|s| - 1] == Decimal(a / 10) && s[..|s| - 1] == Decimal(b / 10);
      DecimalInjective(a / 10, b / 10);
      assert Digit(a % 10) == s[|s| - 1] == Digit(b % 10);
    } else {
      assert Digit(a) == Decimal(a)[0] == Digit(b);
    }
  }

  /**
   * A separator that is not a digit splits a digit string from whatever
   * follows it in exactly one way.
   */
  lemma SplitAtSeparator(a: string, b: string, c: string, d: string, sep: char)
    requires AllDigits(a) && AllDigits(c) && !IsDigit(sep)
    requires a + [sep] + b == c + [sep] + d
    ensures a == c && b == d
  {
    var s := a + [sep] + b;
    DigitsThenSeparator(a, sep, b);
    DigitsThenSeparator(c, sep, d);
    if |a| != |c| {
      assert false;
    } else {
      assert a == s[..|a|] == c;
      assert b == s[|a| + 1..] == d;
    }
  }

  /** In `a + [sep] + b`, the first non-digit is at position |a|. */
  lemma DigitsThenSeparator(a: string, sep: char, b: string)
    requires AllDigits(a) && !IsDigit(sep)
    ensures !IsDigit((a + [sep] + b)[|a|])
    ensures forall k | 0 <= k < |a| :: IsDigit((a + [sep] + b)[k])
  {
  }
}
