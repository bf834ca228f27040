/** Decimal digits, and splitting a string at the last occurrence of a separator:
    what makes the composed keys and byte streams of the gates readable back. */
module Decimals {

  const DIGITS := "0123456789"

  function Decimal(n: nat): string {
    if n < 10 then [DIGITS[n]] else Decimal(n / 10) + [DIGITS[n % 10]]
  }

  function DigitValue(c: char): (d: nat)
    requires '0' <= c <= '9'
    ensures d < 10
  {
    c as int - '0' as int
  }

  predicate AllDigits(s: string) {
    forall i :: 0 <= i < |s| ==> '0' <= s[i] <= '9'
  }

  function ParseDecimal(s: string): nat
    requires AllDigits(s)
  {
    if s == "" then 0 else 10 * ParseDecimal(s[..|s| - 1]) + DigitValue(s[|s| - 1])
  }

  /** Reading the digits back gives the number. */
  lemma {:induction false} DecimalRoundTrip(n: nat)
    ensures Decimal(n) != "" && AllDigits(Decimal(n)) && ParseDecimal(Decimal(n)) == n
  {
    if n >= 10 {
      DecimalRoundTrip(n / 10);
      var s := Decimal(n);
      assert s[..|s| - 1] == Decimal(n / 10) && s[|s| - 1] == DIGITS[n % 10];
    } else {
      assert Decimal(n)[..0] == "" && Decimal(n)[0] == DIGITS[n % 10];
      assert ParseDecimal("") == 0;
    }
  }

  lemma DecimalIsInjective(m: nat, n: nat)
    ensures Decimal(m) == Decimal(n) ==> m == n
  {
    DecimalRoundTrip(m);
    DecimalRoundTrip(n);
  }

  lemma SeparatorIsInLongerTail<T>(before: seq<T>, after: seq<T>, before': seq<T>, after': seq<T>, sep: T)
    requires before + [sep] + after == before' + [sep] + after' && |after| < |after'|
    ensures sep in after'
  {
    assert (before + [sep] + after)[|before|] == sep;
    assert (before' + [sep] + after')[|before|] == after'[|before| - |before'| - 1];
  }

  lemma SeparatorIsInLongerHead<T>(before: seq<T>, after: seq<T>, before': seq<T>, after': seq<T>, sep: T)
    requires before + [sep] + after == before' + [sep] + after' && |before| < |before'|
    ensures sep in before'
  {
    assert (before + [sep] + after)[|before|] == sep;
    assert (before' + [sep] + after')[|before|] == before'[|before|];
  }

  lemma SplitAtSamePlace<T>(before: seq<T>, after: seq<T>, before': seq<T>, after': seq<T>, sep: T)
    requires before + [sep] + after == before' + [sep] + after' && |before| == |before'|
    ensures before == before' && after == after'
  {
    var whole := before + [sep] + after;
    assert before == whole[..|before|] && before' == (before' + [sep] + after')[..|before|];
    assert after == whole[|before| + 1..] && after' == (before' + [sep] + after')[|before| + 1..];
  }

  /** A string splits in one way at the last occurrence of a separator. */
  lemma SplitAtLast<T>(before: seq<T>, after: seq<T>, before': seq<T>, after': seq<T>, sep: T)
    requires sep !in after && sep !in after'
    requires before + [sep] + after == before' + [sep] + after'
    ensures before == before' && after == after'
  {
    if |after| < |after'| {
      SeparatorIsInLongerTail(before, after, before', after', sep);
    } else if |after'| < |after| {
      SeparatorIsInLongerTail(before', after', before, after, sep);
    } else {
      SplitAtSamePlace(before, after, before', after', sep);
    }
  }

  /** ... and at the first. */
  lemma SplitAtFirst<T>(before: seq<T>, after: seq<T>, before': seq<T>, after': seq<T>, sep: T)
    requires sep !in before && sep !in before'
    requires before + [sep] + after == before' + [sep] + after'
    ensures before == before' && after == after'
  {
    if |before| < |before'| {
      SeparatorIsInLongerHead(before, after, before', after', sep);
    } else if |before'| < |before| {
      SeparatorIsInLongerHead(before', after', before, after, sep);
    } else {
      SplitAtSamePlace(before, after, before', after', sep);
    }
  }
}
