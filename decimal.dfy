/**
 * Decimal digit strings: the `\d` class of Go's regexp package (ASCII 0-9 only),
 * `strconv.ParseInt(s, 10, 64)` on such strings, and `strconv.FormatInt(n, 10)` /
 * `fmt`'s `%d` on non-negative numbers.
 */
module Decimal {
  import opened Wrappers

  /** The largest value of Go's int64. */
  const MaxInt64: int := 0x7FFF_FFFF_FFFF_FFFF

  predicate IsDigit(c: char) {
    '0' <= c <= '9'
  }

  predicate AllDigits(s: string) {
    forall i :: 0 <= i < |s| ==> IsDigit(s[i])
  }

  function DigitValue(c: char): (d: nat)
    requires IsDigit(c)
    ensures d < 10
  {
    c as int - '0' as int
  }

  function DigitChar(d: nat): (c: char)
    requires d < 10
    ensures IsDigit(c) && DigitValue(c) == d
  {
    ('0' as int + d) as char
  }

  /** The number a string of decimal digits denotes (leading zeros allowed). */
  function Value(s: string): nat
    requires AllDigits(s)
  {
    if s == [] then 0 else Value(s[..|s| - 1]) * 10 + DigitValue(s[|s| - 1])
  }

  /** The canonical decimal form of `n`: never empty, no leading zero. */
  function Format(n: nat): (s: string)
    ensures AllDigits(s) && |s| > 0
    ensures s[0] != '0' || s == "0"
  {
    if n < 10 then [DigitChar(n)] else Format(n / 10) + [DigitChar(n % 10)]
  }

  /** Reading back what Format wrote gives the number again. */
  lemma {:induction false} ValueOfFormat(n: nat)
    ensures Value(Format(n)) == n
  {
    if n >= 10 {
      var s := Format(n);
      assert s[..|s| - 1] == Format(n / 10);
      ValueOfFormat(n / 10);
    }
  }

  /** A digit string without leading zeros is the Format of its value. */
  lemma {:induction false} FormatOfValue(s: string)
    requires AllDigits(s) && |s| > 0
    requires s[0] != '0' || |s| == 1
    ensures Format(Value(s)) == s
  {
    if |s| > 1 {
      var init := s[..|s| - 1];
      assert AllDigits(init) && init[0] == s[0];
      FormatOfValue(init);
      ValueAtLeastLeading(init);
      assert Value(s) / 10 == Value(init);
      assert Value(s) % 10 == DigitValue(s[|s| - 1]);
    }
  }

  /** A digit string with a non-zero leading digit denotes at least 1. */
  lemma {:induction false} ValueAtLeastLeading(s: string)
    requires AllDigits(s) && |s| > 0 && s[0] != '0'
    ensures Value(s) >= 1
  {
    if |s| > 1 {
      ValueAtLeastLeading(s[..|s| - 1]);
    }
  }

  /**
   * strconv.ParseInt(s, 10, 64) for a non-empty digit string: the value, or the
   * range error when it does not fit in an int64.
   */
  function ParseInt64(s: string): (r: Option<int>)
    requires AllDigits(s) && |s| > 0
    ensures r.Some? <==> Value(s) <= MaxInt64
    ensures r.Some? ==> 0 <= r.value == Value(s)
  {
    Accumulate(s, 0, 0)
  }

  /**
   * A digit loop equivalent to strconv's: with the digits before `i` read into
   * `acc`, take the next one as `acc * 10 + d`, and stop with the range error as
   * soon as that exceeds the int64 maximum. (strconv checks a uint64 cutoff in
   * its loop and the int64 bound after it; the outcome is the same.)
   */
  function Accumulate(s: string, i: nat, acc: nat): (r: Option<int>)
    requires AllDigits(s) && i <= |s| && acc == Value(s[..i]) && acc <= MaxInt64
    ensures r.Some? <==> Value(s) <= MaxInt64
    ensures r.Some? ==> 0 <= r.value == Value(s)
    decreases |s| - i
  {
    if i == |s| then
      assert s[..i] == s;
      Some(acc)
    else
      var n := acc * 10 + DigitValue(s[i]);
      assert Value(s[..i + 1]) == n by {
        assert s[..i + 1][..i] == s[..i];
      }
      if n > MaxInt64 then
        ValuePrefixBound(s, i + 1);
        None
      else Accumulate(s, i + 1, n)
  }

  /** A prefix of a digit string denotes no more than the whole string. */
  lemma {:induction false} ValuePrefixBound(s: string, i: nat)
    requires AllDigits(s) && i <= |s|
    ensures Value(s[..i]) <= Value(s)
    decreases |s| - i
  {
    if i == |s| {
      assert s[..i] == s;
    } else {
      ValuePrefixBound(s, i + 1);
      assert s[..i + 1][..i] == s[..i];
    }
  }

  /** Parsing the formatted form of an int64-sized number gives it back; a larger one overflows. */
  lemma ParseFormatRoundTrip(n: nat)
    ensures n <= MaxInt64 ==> ParseInt64(Format(n)) == Some(n)
    ensures n > MaxInt64 ==> ParseInt64(Format(n)) == None
  {
    ValueOfFormat(n);
  }
}
