/** Decimal text of integers: the exact decimal rendering of an integer (what
    JavaScript prints for an integer Number of magnitude at most 2^53; larger
    rowids reach JavaScript rounded to a double, which this module does not
    model), which path parameters isInt() accepts, and how SQLite reads such a
    parameter when it is compared with an INTEGER column. */
module Decimal {
  import opened Wrappers

  predicate IsDigit(c: char) {
    '0' <= c <= '9'
  }

  predicate AllDigits(s: string) {
    forall i :: 0 <= i < |s| ==> IsDigit(s[i])
  }

  function Digit(d: nat): (c: char)
    requires d < 10
    ensures IsDigit(c) && c as int - '0' as int == d
  {
    ('0' as int + d) as char
  }

  function DigitValue(c: char): nat
    requires IsDigit(c)
  {
    c as int - '0' as int
  }

  /** Decimal digits of `n`, most significant first. */
  function NatText(n: nat): (s: string)
    ensures |s| >= 1 && AllDigits(s)
    ensures s[0] == '0' ==> n == 0
    decreases n
  {
    if n < 10 then [Digit(n)] else NatText(n / 10) + [Digit(n % 10)]
  }

  /** The value of a string of digits, read in base ten (leading zeros allowed). */
  function DigitsValue(s: string): nat
    requires AllDigits(s)
    decreases |s|
  {
    if s == [] then 0 else DigitsValue(s[..|s| - 1]) * 10 + DigitValue(s[|s| - 1])
  }

  /** The exact decimal rendering of an integer, with a leading '-' when negative.
      JavaScript prints an integer Number this way while its magnitude is at most
      2^53; above that the Number is already a rounded double. */
  function IntText(i: int): string {
    if i < 0 then "-" + NatText(-i) else NatText(i)
  }

  /** The text after an optional leading sign. */
  function Unsigned(s: string): string {
    if |s| > 0 && (s[0] == '-' || s[0] == '+') then s[1..] else s
  }

  /** What isInt() accepts with its default options: an optional sign followed by
      one or more ASCII digits, leading zeros allowed. */
  predicate IsIntText(s: string) {
    var d := Unsigned(s);
    |d| >= 1 && AllDigits(d)
  }

  /** The integer such a text denotes; None for any other text. */
  function ParseInt(s: string): (r: Option<int>)
    ensures r.Some? <==> IsIntText(s)
    ensures r.Some? && s[0] == '-' ==> r.value <= 0
    ensures r.Some? && s[0] != '-' ==> r.value >= 0
  {
    if !IsIntText(s) then None
    else
      var v: int := DigitsValue(Unsigned(s));
      Some(if s[0] == '-' then -v else v)
  }

  lemma {:induction false} NatTextValue(n: nat)
    ensures DigitsValue(NatText(n)) == n
    decreases n
  {
    if n >= 10 {
      NatTextValue(n / 10);
      var s := NatText(n);
      assert s[..|s| - 1] == NatText(n / 10);
    }
  }

  /** Reading back what JavaScript writes gives the same integer. */
  lemma ParseIntText(i: int)
    ensures IsIntText(IntText(i))
    ensures ParseInt(IntText(i)) == Some(i)
  {
    var s := IntText(i);
    if i < 0 {
      NatTextValue(-i);
      assert Unsigned(s) == NatText(-i);
    } else {
      NatTextValue(i);
      assert Unsigned(s) == NatText(i);
    }
  }

  /** Leading zeros and a sign leave the key a path id denotes unchanged up to
      that sign: "007" and "+7" both denote 7, and "-007" denotes -7. */
  lemma ParseIntPadded(zeros: nat, n: nat)
    ensures var d := Zeros(zeros) + NatText(n);
      && ParseInt(d) == Some(n)
      && ParseInt("+" + d) == Some(n)
      && ParseInt("-" + d) == Some(-(n as int))
  {
    var d := Zeros(zeros) + NatText(n);
    DigitsValueZeros(zeros, NatText(n));
    NatTextValue(n);
    ParseIntDigits(d);
  }

  /** Unsigned digits denote their value, with a '+' the same, with a '-' its negation. */
  lemma ParseIntDigits(d: string)
    requires |d| >= 1 && AllDigits(d)
    ensures ParseInt(d) == Some(DigitsValue(d))
    ensures ParseInt("+" + d) == Some(DigitsValue(d))
    ensures ParseInt("-" + d) == Some(-(DigitsValue(d) as int))
  {
    assert IsDigit(d[0]);
    assert Unsigned(d) == d;
    assert Unsigned("+" + d) == d;
    assert Unsigned("-" + d) == d;
  }

  /** A run of `k` zero digits. */
  function Zeros(k: nat): (z: string)
    ensures |z| == k && forall i :: 0 <= i < k ==> z[i] == '0'
  {
    if k == 0 then [] else Zeros(k - 1) + ['0']
  }

  lemma {:induction false} DigitsValueZeros(k: nat, s: string)
    requires AllDigits(s)
    ensures AllDigits(Zeros(k) + s)
    ensures DigitsValue(Zeros(k) + s) == DigitsValue(s)
    decreases |s|, k
  {
    var d := Zeros(k) + s;
    assert AllDigits(d) by {
      forall i | 0 <= i < |d| ensures IsDigit(d[i]) {
        if i >= k {
          assert d[i] == s[i - k];
        }
      }
    }
    if s == [] {
      assert d == Zeros(k);
      if k > 0 {
        DigitsValueZeros(k - 1, []);
        assert Zeros(k)[..k - 1] == Zeros(k - 1) + [];
      }
    } else {
      var init := s[..|s| - 1];
      assert AllDigits(init) by {
        forall i | 0 <= i < |init| ensures IsDigit(init[i]) {
          assert init[i] == s[i];
        }
      }
      DigitsValueZeros(k, init);
      assert d[..|d| - 1] == Zeros(k) + init;
      assert d[|d| - 1] == s[|s| - 1];
    }
  }

  /** Distinct integers are rendered as distinct strings. */
  lemma IntTextInjective(a: int, b: int)
    ensures IntText(a) == IntText(b) ==> a == b
  {
    ParseIntText(a);
    ParseIntText(b);
  }
}
