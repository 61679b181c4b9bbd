/** Decimal text of non-negative integers: `Number.prototype.toString`,
    `String.prototype.padStart(2, '0')` as used by `pad`, and the part of
    `Number(string)` that the time strings of the timetable exercise. */
module Decimal {
  import opened Wrappers

  predicate IsDigit(c: char) {
    '0' <= c <= '9'
  }

  predicate AllDigits(s: string) {
    forall i :: 0 <= i < |s| ==> IsDigit(s[i])
  }

  function CharValue(c: char): (v: nat)
    requires IsDigit(c)
    ensures v < 10
  {
    c as int - '0' as int
  }

  function DigitChar(v: nat): (c: char)
    requires v < 10
    ensures IsDigit(c) && CharValue(c) == v
  {
    (('0' as int) + v) as char
  }

  /** The value of a string of decimal digits, most significant first.
      The empty string is 0, as `Number("")` is. */
  function DigitsValue(s: string): nat
    requires AllDigits(s)
  {
    if |s| == 0 then 0 else DigitsValue(s[..|s| - 1]) * 10 + CharValue(s[|s| - 1])
  }

  /** `n.toString()` for the non-negative integers the script formats (all
      far below 1e21, where JavaScript switches to exponent notation): the
      shortest decimal text. */
  function NatToString(n: nat): (s: string)
    ensures 1 <= |s| && AllDigits(s) && DigitsValue(s) == n
    ensures |s| == 1 <==> n < 10
    ensures n < 100 ==> |s| <= 2
    ensures |s| > 1 ==> s[0] != '0'
  {
    if n < 10 then [DigitChar(n)]
    else
      var s := NatToString(n / 10) + [DigitChar(n % 10)];
      assert s[..|s| - 1] == NatToString(n / 10);
      s
  }

  /** `Number(field)` for the fields a time string splits into: the empty
      field is 0, a run of digits is its decimal value, anything else is NaN. */
  function NumberOf(field: string): (r: Option<nat>)
    ensures r.Some? <==> AllDigits(field)
    ensures r.Some? ==> r.value == DigitsValue(field)
    ensures field == "" ==> r == Some(0)
  {
    if AllDigits(field) then Some(DigitsValue(field)) else None
  }

  /** `pad(n)`: the decimal text of `n`, left-padded with '0' to two characters. */
  function Pad(n: nat): (r: string)
    ensures AllDigits(r) && DigitsValue(r) == n
    ensures 2 <= |r|
    ensures n >= 10 ==> r == NatToString(n)
    ensures n < 10 ==> r == ['0', DigitChar(n)]
    ensures n < 100 <==> |r| == 2
  {
    var s := NatToString(n);
    if |s| >= 2 then s
    else
      var r := "0" + s;
      assert r[..|r| - 1] == "0";
      r
  }

  /** Leading zeros do not change a digit string's value. */
  lemma {:induction false} LeadingZero(s: string)
    requires AllDigits(s)
    ensures AllDigits("0" + s) && DigitsValue("0" + s) == DigitsValue(s)
  {
    if |s| == 0 {
      assert ("0" + s)[..0] == "";
    } else {
      var t := "0" + s;
      assert t[..|t| - 1] == "0" + s[..|s| - 1];
      LeadingZero(s[..|s| - 1]);
    }
  }

  /** `toString` is the inverse of reading digits back: every digit string
      without a superfluous leading zero is the text of its own value. */
  lemma {:induction false} NatToStringCanonical(s: string)
    requires 1 <= |s| && AllDigits(s)
    requires |s| > 1 ==> s[0] != '0'
    ensures NatToString(DigitsValue(s)) == s
  {
    var n := DigitsValue(s);
    if |s| == 1 {
      assert s[..0] == "";
      assert n == CharValue(s[0]) by { assert DigitsValue(s[..0]) == 0; }
      assert s == [DigitChar(n)];
    } else {
      var p := s[..|s| - 1];
      assert p[0] == s[0];
      PositiveValue(p);
      NatToStringCanonical(p);
      assert n / 10 == DigitsValue(p) && n % 10 == CharValue(s[|s| - 1]);
      assert s == p + [s[|s| - 1]];
    }
  }

  /** A digit string that does not start with '0' denotes at least 1. */
  lemma {:induction false} PositiveValue(s: string)
    requires 1 <= |s| && AllDigits(s) && s[0] != '0'
    ensures DigitsValue(s) >= 1
  {
    if |s| > 1 {
      var p := s[..|s| - 1];
      assert p[0] == s[0];
      PositiveValue(p);
    }
  }

  /** `Number` reads back what `toString` writes. */
  lemma NumberOfNatToString(n: nat)
    ensures NumberOf(NatToString(n)) == Some(n)
  {
  }

  /** `Number` ignores a leading '0', so a padded field reads as the number
      it pads. */
  lemma NumberOfLeadingZero(s: string)
    ensures NumberOf("0" + s) == NumberOf(s)
  {
    if AllDigits(s) {
      LeadingZero(s);
    } else {
      var i :| 0 <= i < |s| && !IsDigit(s[i]);
      assert ("0" + s)[i + 1] == s[i];
    }
  }
}
