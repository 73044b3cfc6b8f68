/** Decimal numerals, as std::to_string prints them, in names and object paths. */
module Decimals {
  const DIGITS := "0123456789"

  function Decimal(n: nat): (d: string)
    ensures d != []
    ensures forall i :: 0 <= i < |d| ==> d[i] != '_'
  {
    if n < 10 then [DIGITS[n]] else Decimal(n / 10) + [DIGITS[n % 10]]
  }

  lemma DecimalUnfold(n: nat)
    ensures var d := Decimal(n);
            && d[|d| - 1] == DIGITS[n % 10]
            && (n < 10 <==> |d| == 1)
            && (n >= 10 ==> d[..|d| - 1] == Decimal(n / 10))
  {
  }

  lemma DigitsInjective(a: nat, b: nat)
    requires a < 10 && b < 10 && DIGITS[a] == DIGITS[b]
    ensures a == b
  {
  }

  lemma {:induction false} DecimalInjective(m: nat, n: nat)
    requires Decimal(m) == Decimal(n)
    ensures m == n
    decreases m
  {
    DecimalUnfold(m);
    DecimalUnfold(n);
    DigitsInjective(m % 10, n % 10);
    if m >= 10 {
      DecimalInjective(m / 10, n / 10);
    }
  }

  lemma SuffixesEqual(pre: string, a: string, b: string)
    requires pre + a == pre + b
    ensures a == b
  {
    assert (pre + a)[|pre|..] == a && (pre + b)[|pre|..] == b;
  }
}
