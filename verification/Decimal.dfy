/** Decimal numerals over ASCII digits. */
module Decimal {
  predicate IsDigit(c: char) {
    '0' <= c <= '9'
  }

  predicate AllDigits(s: string) {
    forall i | 0 <= i < |s| :: IsDigit(s[i])
  }

  function Digit(n: nat): char
    requires n < 10
  {
    '0' + n as char
  }

  function Numeral(n: nat): (s: string)
    ensures s != "" && AllDigits(s)
  {
    if n < 10 then [Digit(n)] else Numeral(n / 10) + [Digit(n % 10)]
  }

  function Value(s: string): nat
    requires AllDigits(s)
  {
    if s == "" then 0 else 10 * Value(s[..|s| - 1]) + (s[|s| - 1] - '0') as nat
  }

  /** No leading zero, except in `0` itself. */
  predicate Canonical(s: string) {
    s != "" && AllDigits(s) && (|s| > 1 ==> s[0] != '0')
  }

  lemma {:induction false} ValueOfNumeral(n: nat)
    ensures Value(Numeral(n)) == n && Canonical(Numeral(n)) && (n > 0 ==> Numeral(n)[0] != '0')
    decreases n
  {
    if n >= 10 {
      ValueOfNumeral(n / 10);
      assert Numeral(n)[..|Numeral(n)| - 1] == Numeral(n / 10);
    } else {
      assert Numeral(n)[..0] == "";
    }
  }

  lemma {:induction false} Positive(s: string)
    requires AllDigits(s) && s != "" && s[0] != '0'
    ensures Value(s) > 0
    decreases |s|
  {
    if |s| > 1 {
      Positive(s[..|s| - 1]);
    } else {
      assert s[..0] == "";
    }
  }

  /** Reading and printing again gives the text back exactly when it has no leading zero. */
  lemma {:induction false} NumeralOfValue(s: string)
    requires AllDigits(s) && s != ""
    ensures Numeral(Value(s)) == s <==> Canonical(s)
    decreases |s|
  {
    ValueOfNumeral(Value(s));
    if Canonical(s) {
      CanonicalIsNumeral(s);
    }
  }

  lemma {:induction false} CanonicalIsNumeral(s: string)
    requires Canonical(s)
    ensures Numeral(Value(s)) == s
    decreases |s|
  {
    var init, last := s[..|s| - 1], s[|s| - 1];
    if init != "" {
      CanonicalIsNumeral(init);
      Positive(init);
      assert Value(s) / 10 == Value(init) && Digit(Value(s) % 10) == last;
    }
    assert s == init + [last];
  }
}
