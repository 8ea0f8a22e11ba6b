/** Integer.valueOf on the text of a cluster id, and the decimal form that
    writes an int so that Integer.valueOf reads it back. */
module Decimal {
  import opened Outcomes

  const MinInt: int := -0x8000_0000
  const MaxInt: int := 0x7fff_ffff

  predicate IsDigit(ch: char) { '0' <= ch <= '9' }

  predicate AllDigits(s: string) { forall t :: 0 <= t < |s| ==> IsDigit(s[t]) }

  /** The number an all-digit string denotes in base 10. */
  function DigitsValue(s: string): nat
    requires AllDigits(s)
  {
    if |s| == 0 then 0
    else DigitsValue(s[..|s| - 1]) * 10 + (s[|s| - 1] as int - '0' as int)
  }

  /** Integer.valueOf(s): an optional sign, then at least one digit, and the value
      within the range of a Java int; anything else is a NumberFormatException. */
  function ParseInt(s: string): (r: Option<int>)
    ensures r.Some? ==> MinInt <= r.value <= MaxInt
    ensures r.Some? ==> |s| > 0
    ensures r.Some? && s[0] == '-' ==> r.value <= 0
    ensures r.Some? && s[0] != '-' ==> r.value >= 0
  {
    if |s| == 0 then None
    else if s[0] == '-' || s[0] == '+' then
      var digits := s[1..];
      if |digits| == 0 || !AllDigits(digits) then None
      else
        var v: int := if s[0] == '-' then 0 - DigitsValue(digits) as int else DigitsValue(digits);
        if MinInt <= v <= MaxInt then Some(v) else None
    else if !AllDigits(s) then None
    else if DigitsValue(s) <= MaxInt then Some(DigitsValue(s))
    else None
  }

  function DigitChar(v: nat): char
    requires v < 10
  {
    ('0' as int + v) as char
  }

  /** Decimal digits of n with no leading zero. */
  function ShowNat(n: nat): (r: string)
    ensures |r| > 0 && AllDigits(r)
  {
    if n < 10 then [DigitChar(n)] else ShowNat(n / 10) + [DigitChar(n % 10)]
  }

  /** Integer.toString: the text the clustering step writes for a cluster id. */
  function Show(x: int): string
  {
    if x < 0 then "-" + ShowNat(-x) else ShowNat(x)
  }

  lemma {:induction false} DigitsOfShowNat(n: nat)
    ensures DigitsValue(ShowNat(n)) == n
  {
    if n >= 10 {
      var s := ShowNat(n);
      DigitsOfShowNat(n / 10);
      assert s[..|s| - 1] == ShowNat(n / 10);
    }
  }

  /** Every int reads back from its decimal form. */
  lemma ParseShow(x: int)
    requires MinInt <= x <= MaxInt
    ensures ParseInt(Show(x)) == Some(x)
  {
    var s := Show(x);
    if x < 0 {
      var digits := ShowNat(-x);
      assert s[0] == '-' && s[1..] == digits;
      DigitsOfShowNat(-x);
      assert AllDigits(digits) && DigitsValue(digits) == -x;
    } else {
      assert IsDigit(s[0]);
      DigitsOfShowNat(x);
    }
  }
}
