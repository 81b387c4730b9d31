/** The remaining helpers of CHMS/src/config/helpers.php: ages from a calendar interval, the
    age text, the overdue check of one due date, avatar initials and the phone-number check. */
module Helpers {
  import opened Wrappers
  import opened Text
  import opened Seqs
  import Php
  import opened Calendar

  /** The whole years and remaining months of `DateTime::diff` between the date of birth and now.
      `diff` itself reads the clock and is not modelled; it always yields `months < 12`. */
  datatype Interval = Interval(years: nat, months: nat)

  /** `calculateAgeInMonths($dob)`: the interval in months. Whole years and remaining months can be
      read back from it. */
  function AgeInMonths(iv: Interval): (n: nat)
    ensures iv.months < 12 ==> n / 12 == iv.years && n % 12 == iv.months
    ensures n >= iv.months
  {
    iv.years * 12 + iv.months
  }

  /** The unit word, with a plural `s` unless the count is exactly 1. */
  function Unit(n: nat, unit: string): string {
    unit + (if n != 1 then "s" else "")
  }

  /** `"N unit"` or `"N units"`. */
  function Quantity(n: nat, unit: string): string {
    NatToString(n) + " " + Unit(n, unit)
  }

  /** `calculateAgeString($dob)` on the interval from birth to now (CHMS/src/config/helpers.php:63-70):
      months only when there are no whole years, years only when there are no remaining months,
      otherwise both. Every branch is a leading numeral, a space and its unit, which is what makes
      the text readable back (`AgeStringInjective`). */
  function CalculateAgeString(iv: Interval): (s: string)
    ensures iv.years == 0 ==> s == NatToString(iv.months) + " " + Unit(iv.months, "month")
    ensures iv.years != 0 ==> s == NatToString(iv.years) + " " + (Unit(iv.years, "year") + AfterYears(iv.months))
  {
    if iv.years == 0 then Quantity(iv.months, "month")
    else if iv.months == 0 then Quantity(iv.years, "year")
    else Quantity(iv.years, "year") + " " + Quantity(iv.months, "month")
  }

  /** A numeral followed by a space can be split off again: the text after it is determined. */
  lemma NumeralPrefix(a: nat, b: nat, s: string, t: string)
    requires NatToString(a) + " " + s == NatToString(b) + " " + t
    ensures a == b && s == t
  {
    var na, nb := NatToString(a), NatToString(b);
    var x := na + " " + s;
    assert |na| == |nb| by {
      assert forall i :: 0 <= i < |na| ==> x[i] == na[i];
      assert forall i :: 0 <= i < |nb| ==> x[i] == nb[i];
      assert x[|na|] == ' ' && x[|nb|] == ' ';
    }
    assert na == x[..|na|] == nb;
    NatToStringInjective(a, b);
    assert s == x[|na| + 1..] == t;
  }

  /** Years and months follow an age text's leading numeral: the tail after `"N years"`. */
  function AfterYears(months: nat): string {
    if months == 0 then "" else " " + Quantity(months, "month")
  }

  /** Different ages never share a text: the age text determines the years and the months. */
  lemma AgeStringInjective(iv1: Interval, iv2: Interval)
    requires CalculateAgeString(iv1) == CalculateAgeString(iv2)
    ensures iv1 == iv2
  {
    var (y1, m1, y2, m2) := (iv1.years, iv1.months, iv2.years, iv2.months);
    if y1 == 0 && y2 == 0 {
      NumeralPrefix(m1, m2, Unit(m1, "month"), Unit(m2, "month"));
    } else if y1 != 0 && y2 != 0 {
      NumeralPrefix(y1, y2, Unit(y1, "year") + AfterYears(m1), Unit(y2, "year") + AfterYears(m2));
      var u := Unit(y1, "year");
      var s1, s2 := AfterYears(m1), AfterYears(m2);
      assert s1 == (u + s1)[|u|..] == (u + s2)[|u|..] == s2;
      if m1 != 0 && m2 != 0 {
        assert Quantity(m1, "month") == s1[1..] == s2[1..] == Quantity(m2, "month");
        NumeralPrefix(m1, m2, Unit(m1, "month"), Unit(m2, "month"));
      }
    } else if y1 == 0 {
      NumeralPrefix(m1, y2, Unit(m1, "month"), Unit(y2, "year") + AfterYears(m2));
    } else {
      NumeralPrefix(y1, m2, Unit(y1, "year") + AfterYears(m1), Unit(m2, "month"));
    }
  }

  /** The age text spells the singular unit exactly when the count is 1. */
  lemma SingularExactlyAtOne(n: nat, unit: string)
    ensures Unit(n, unit) == unit <==> n == 1
  {
    if n != 1 {
      assert |Unit(n, unit)| == |unit| + 1;
    }
  }

  /** `isVaccinationOverdue($nextDueDate)`: false without a due date; otherwise whether midnight at
      the start of the due date is already past at instant `now`. A due date of today is
      therefore overdue from one second after midnight on. */
  function IsVaccinationOverdue(nextDue: Option<Date>, now: Instant): (r: bool)
    ensures nextDue.None? ==> !r
    ensures nextDue.Some? && nextDue.value < DayOf(now) ==> r
    ensures nextDue.Some? && nextDue.value > DayOf(now) ==> !r
    ensures nextDue.Some? && nextDue.value == DayOf(now) ==> (r <==> now > Midnight(DayOf(now)))
  {
    nextDue.Some? && Midnight(nextDue.value) < now
  }

  /** The words of a name that `empty()` does not discard: `explode(' ', ...)` minus "" and "0". */
  function InitialWords(name: string): (ws: seq<string>)
    ensures forall i :: 0 <= i < |ws| ==> |ws[i]| > 0 && ws[i] != "0" && ' ' !in ws[i]
  {
    Filter(Split(name, ' '), (w: string) => !Php.Empty(w))
  }

  /** `getInitials($name)`: the upper-cased first characters of the kept words, at most two. */
  function GetInitials(name: string): (r: string)
    ensures |r| <= 2
    ensures |r| == if |InitialWords(name)| < 2 then |InitialWords(name)| else 2
    ensures forall k :: 0 <= k < |r| ==> r[k] == UpperChar(InitialWords(name)[k][0])
    ensures name == "" ==> r == ""
  {
    if name == "" then NoWordsInEmpty(); "" else Take(Firsts(InitialWords(name)), 2)
  }

  /** The upper-cased first character of each word. */
  function Firsts(ws: seq<string>): (r: string)
    requires forall i :: 0 <= i < |ws| ==> |ws[i]| > 0
    ensures |r| == |ws|
    ensures forall k :: 0 <= k < |r| ==> r[k] == UpperChar(ws[k][0])
  {
    seq(|ws|, i requires 0 <= i < |ws| => UpperChar(ws[i][0]))
  }

  lemma NoWordsInEmpty()
    ensures InitialWords("") == []
  {
    assert Split("", ' ') == [""];
  }

  /** A character of the phone-number class `[0-9\s\-()]` as PCRE reads it in PHP: digits, the
      six ASCII white-space characters, `-`, `(` and `)`. */
  predicate PhpPhoneChar(c: char) {
    IsDigit(c) || c == ' ' || c == '\t' || c == '\n' || c as int == 0x0B || c as int == 0x0C || c == '\r'
    || c == '-' || c == '(' || c == ')'
  }

  /** `^[+]?C+$` for a character class `C`: an optional plus, then at least one class character. */
  predicate PlusThenClass(s: string, cls: char -> bool) {
    if |s| > 0 && s[0] == '+' then |s| > 1 && forall i :: 1 <= i < |s| ==> cls(s[i])
    else |s| > 0 && forall i :: 0 <= i < |s| ==> cls(s[i])
  }

  /** `validatePhone($phone)` (CHMS/src/config/helpers.php:33-36): a non-empty text of digits,
      white space, dashes and parentheses, with at most a leading plus in front; a lone plus fails. */
  function ValidatePhone(s: string): (ok: bool)
    ensures ok <==> s != "" && s != "+" && forall i :: 0 <= i < |s| ==> PhpPhoneChar(s[i]) || (i == 0 && s[i] == '+')
  {
    PlusThenClass(s, PhpPhoneChar)
  }
}
