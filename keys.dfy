/**
 * How a key field is compared with the integer being searched for.
 * PHP compares the field string with the integer numerically; here the
 * field is read as the integer its leading, optionally signed, run of
 * decimal digits denotes (0 when it has none). This is a simplification of
 * PHP 7's reading of a leading-numeric string; README.md, "## Left out",
 * lists what it does not cover.
 */
module Keys {
  import opened Records

  const ZERO: byte := 48
  const NINE: byte := 57
  const PLUS: byte := 43
  const MINUS: byte := 45

  predicate IsDigit(b: byte) {
    ZERO <= b <= NINE
  }

  predicate AllDigits(d: seq<byte>) {
    forall k :: 0 <= k < |d| ==> IsDigit(d[k])
  }

  function Pow10(n: nat): (p: nat)
    ensures p >= 1
  {
    if n == 0 then 1 else 10 * Pow10(n - 1)
  }

  /** The longest prefix of `s` made of decimal digits. */
  function LeadingDigits(s: seq<byte>): (d: seq<byte>)
    ensures d <= s
    ensures AllDigits(d)
    ensures |d| < |s| ==> !IsDigit(s[|d|])
    ensures AllDigits(s) ==> d == s
  {
    if s == [] || !IsDigit(s[0]) then [] else [s[0]] + LeadingDigits(s[1..])
  }

  /** The number a run of decimal digits denotes; it has at most `|d|` digits. */
  function DecimalValue(d: seq<byte>): (v: nat)
    requires AllDigits(d)
    ensures v < Pow10(|d|)
  {
    if d == [] then 0
    else DecimalValue(d[..|d| - 1]) * 10 + (d[|d| - 1] - ZERO) as nat
  }

  /** The integer a key field stands for in the comparison with the query. */
  function KeyOf(field: seq<byte>): (k: int)
    ensures AllDigits(field) ==> k == DecimalValue(field)
    ensures |field| > 0 && field[0] == MINUS ==> k <= 0
    ensures field == [] || (!IsDigit(field[0]) && field[0] != MINUS && field[0] != PLUS) ==> k == 0
  {
    if |field| > 0 && field[0] == MINUS then -(DecimalValue(LeadingDigits(field[1..])) as int)
    else if |field| > 0 && field[0] == PLUS then DecimalValue(LeadingDigits(field[1..]))
    else DecimalValue(LeadingDigits(field))
  }

  /** The leading digits of a numeral followed by anything but a digit are that numeral. */
  lemma {:induction false} LeadingDigitsOf(d: seq<byte>, t: seq<byte>)
    requires AllDigits(d) && (t == [] || !IsDigit(t[0]))
    ensures LeadingDigits(d + t) == d
  {
    if d != [] {
      assert (d + t)[1..] == d[1..] + t;
      LeadingDigitsOf(d[1..], t);
    } else {
      assert d + t == t;
    }
  }

  /**
   * A field made of an optional sign, a run of digits `d` and a tail that
   * does not start with a digit compares as the signed value of `d`: "12\n"
   * as 12, "-5" as -5, "+7x" as 7.
   */
  lemma KeyOfNumeral(d: seq<byte>, t: seq<byte>)
    requires AllDigits(d) && (t == [] || !IsDigit(t[0]))
    ensures d != [] ==> KeyOf(d + t) == DecimalValue(d)
    ensures KeyOf([MINUS] + (d + t)) == -(DecimalValue(d) as int)
    ensures KeyOf([PLUS] + (d + t)) == DecimalValue(d)
  {
    LeadingDigitsOf(d, t);
    if d != [] {
      var f := d + t;
      assert f[0] == d[0] && IsDigit(f[0]);
      assert KeyOf(f) == DecimalValue(LeadingDigits(f));
    }
    var neg := [MINUS] + (d + t);
    assert neg[0] == MINUS && neg[1..] == d + t;
    assert KeyOf(neg) == -(DecimalValue(LeadingDigits(d + t)) as int);
    var pos := [PLUS] + (d + t);
    assert pos[0] == PLUS && pos[1..] == d + t;
    assert KeyOf(pos) == DecimalValue(LeadingDigits(d + t));
  }

  /** A numeral without a leading zero is at least the smallest number of its length. */
  lemma {:induction false} DecimalValueLowerBound(d: seq<byte>)
    requires AllDigits(d) && |d| > 0 && d[0] != ZERO
    ensures DecimalValue(d) >= Pow10(|d| - 1)
  {
    if |d| > 1 {
      DecimalValueLowerBound(d[..|d| - 1]);
    }
  }

  lemma {:induction false} Pow10Monotone(m: nat, n: nat)
    requires m <= n
    ensures Pow10(m) <= Pow10(n)
  {
    if m < n {
      Pow10Monotone(m, n - 1);
    }
  }

  /**
   * Keys compare as numbers, not as text: a shorter numeral is the smaller
   * key whatever its digits, so "9" sorts before "10".
   */
  lemma NumericOrder(a: seq<byte>, b: seq<byte>)
    requires AllDigits(a) && AllDigits(b) && |a| < |b| && b[0] != ZERO
    ensures KeyOf(a) < KeyOf(b)
  {
    DecimalValueLowerBound(b);
    Pow10Monotone(|a|, |b| - 1);
  }
}
