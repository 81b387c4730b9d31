/** The browser-side checks of CHMS/assets/js/app.js: the email and phone patterns and the age
    text computed from a day count. JavaScript instants are integers of milliseconds; the clock and
    `Date` parsing are parameters. */
module ClientValidation {
  import opened Text
  import Helpers

  /** JavaScript's `\s`: the ASCII white space plus the Unicode space separators, line and paragraph
      separators, and the byte-order mark. */
  predicate JsSpace(c: char) {
    c == ' ' || c == '\t' || c == '\n' || c as int == 0x0B || c as int == 0x0C || c == '\r'
    || c as int == 0xA0 || c as int == 0x1680 || (0x2000 <= c as int <= 0x200A)
    || c as int == 0x2028 || c as int == 0x2029 || c as int == 0x202F || c as int == 0x205F
    || c as int == 0x3000 || c as int == 0xFEFF
  }

  /** `[^\s@]`. */
  predicate Plain(c: char) {
    !JsSpace(c) && c != '@'
  }

  /** `s[lo..hi]` is a run of `[^\s@]`. */
  predicate PlainRun(s: string, lo: int, hi: int)
    requires 0 <= lo <= hi <= |s|
  {
    forall k :: lo <= k < hi ==> Plain(s[k])
  }

  /** `validateEmail`: `^[^\s@]+@[^\s@]+\.[^\s@]+$`, read as the places `i` of the `@` and `j` of
      the dot that split the text into three non-empty runs. */
  predicate ValidateEmail(s: string) {
    exists i, j :: 0 < i && i + 1 < j && j + 1 < |s| && s[i] == '@' && s[j] == '.'
      && PlainRun(s, 0, i) && PlainRun(s, i + 1, j) && PlainRun(s, j + 1, |s|)
  }

  /** The rule in words: no white space anywhere, exactly one `@` with text before it, and after it
      a dot with text on both sides. */
  predicate EmailRule(s: string) {
    (forall k :: 0 <= k < |s| ==> !JsSpace(s[k]))
    && (exists i :: 0 < i < |s| && s[i] == '@' && (forall k :: 0 <= k < |s| && s[k] == '@' ==> k == i)
         && (exists j :: i + 1 < j < |s| - 1 && s[j] == '.'))
  }

  /** The pattern accepts exactly the strings the rule describes. */
  lemma EmailPatternIsRule(s: string)
    ensures ValidateEmail(s) <==> EmailRule(s)
  {
    if ValidateEmail(s) {
      PatternMeetsRule(s);
    }
    if EmailRule(s) {
      RuleMeetsPattern(s);
    }
  }

  lemma PatternMeetsRule(s: string)
    requires ValidateEmail(s)
    ensures EmailRule(s)
  {
    var i, j :| 0 < i && i + 1 < j && j + 1 < |s| && s[i] == '@' && s[j] == '.'
      && PlainRun(s, 0, i) && PlainRun(s, i + 1, j) && PlainRun(s, j + 1, |s|);
    assert forall k :: 0 <= k < |s| && k != i && k != j ==> Plain(s[k]);
  }

  lemma RuleMeetsPattern(s: string)
    requires EmailRule(s)
    ensures ValidateEmail(s)
  {
    var i :| 0 < i < |s| && s[i] == '@' && (forall k :: 0 <= k < |s| && s[k] == '@' ==> k == i)
      && exists j :: i + 1 < j < |s| - 1 && s[j] == '.';
    var j :| i + 1 < j < |s| - 1 && s[j] == '.';
    assert PlainRun(s, 0, i) && PlainRun(s, i + 1, j) && PlainRun(s, j + 1, |s|);
  }

  /** A character of `[0-9\s\-()]` in JavaScript. */
  predicate JsPhoneChar(c: char) {
    IsDigit(c) || JsSpace(c) || c == '-' || c == '(' || c == ')'
  }

  /** `validatePhone`: `^[+]?[0-9\s\-()]+$`, the server's shape over JavaScript's `\s`. */
  predicate ValidatePhone(s: string) {
    Helpers.PlusThenClass(s, JsPhoneChar)
  }

  /** On ASCII text the browser and the server accept the same phone numbers. */
  lemma PhoneAgreesOnAscii(s: string)
    requires forall k :: 0 <= k < |s| ==> s[k] as int < 0x80
    ensures ValidatePhone(s) <==> Helpers.ValidatePhone(s)
  {
    assert forall k :: 0 <= k < |s| ==> (JsPhoneChar(s[k]) <==> Helpers.PhpPhoneChar(s[k]));
  }

  /** Beyond ASCII they part: a no-break space passes the browser's check and fails the server's. */
  lemma NoBreakSpaceSplitsPhoneChecks()
    ensures ValidatePhone("1\U{A0}2") && !Helpers.ValidatePhone("1\U{A0}2")
  {
    var s := "1\U{A0}2";
    assert !Helpers.PhpPhoneChar(s[1]);
  }

  const MillisPerDay: int := 1000 * 60 * 60 * 24

  /** `Math.abs(a - b)`. */
  function Distance(a: int, b: int): nat {
    if a >= b then a - b else b - a
  }

  /** Whole years and the months after them, as `calculateAge` splits a day count. */
  datatype ClientAge = ClientAge(days: nat, years: nat, months: nat)

  /** `calculateAge`'s arithmetic: the absolute difference of the two instants, rounded up to whole
      days, then 365-day years and 30-day months of the remainder. */
  function AgeParts(birthMs: int, nowMs: int): (a: ClientAge)
    ensures a.days * MillisPerDay >= Distance(nowMs, birthMs)
    ensures a.days > 0 ==> (a.days - 1) * MillisPerDay < Distance(nowMs, birthMs)
    ensures a.days == 365 * a.years + a.days % 365
    ensures 30 * a.months <= a.days % 365 < 30 * a.months + 30
    ensures a.months <= 12
  {
    var diff := Distance(nowMs, birthMs);
    var days := (diff + MillisPerDay - 1) / MillisPerDay;
    ClientAge(days, days / 365, (days % 365) / 30)
  }

  /** The wording at the end of `calculateAge`: months only without whole years, years only without
      remaining months, otherwise both, each unit plural unless its count is exactly 1. It is the
      server's wording for the same years and months. */
  function AgeText(years: nat, months: nat): (t: string)
    ensures t == Helpers.CalculateAgeString(Helpers.Interval(years, months))
  {
    var ys := NatToString(years) + " year" + (if years != 1 then "s" else "");
    var ms := NatToString(months) + " month" + (if months != 1 then "s" else "");
    assert ys == Helpers.Quantity(years, "year");
    assert ms == Helpers.Quantity(months, "month");
    if years == 0 then ms
    else if months == 0 then ys
    else ys + " " + ms
  }

  /** `calculateAge($dob)`: the age text of the client's years and months, worded exactly as the
      server's `calculateAgeString` would word them; only the arithmetic producing them differs. */
  function CalculateAge(birthMs: int, nowMs: int): (t: string)
    ensures var a := AgeParts(birthMs, nowMs);
            t == Helpers.CalculateAgeString(Helpers.Interval(a.years, a.months))
  {
    var a := AgeParts(birthMs, nowMs);
    AgeText(a.years, a.months)
  }

  /** The difference is taken in absolute value, so a date of birth in the future gives the same
      (positive) age as the same distance in the past. */
  lemma AgeIsSymmetric(birthMs: int, nowMs: int)
    ensures AgeParts(birthMs, nowMs) == AgeParts(nowMs, birthMs)
    ensures CalculateAge(birthMs, nowMs) == CalculateAge(nowMs, birthMs)
  {
  }

  /** 360 to 364 days make "12 months": the remainder of a 365-day year holds twelve 30-day months. */
  lemma TwelveMonthsAppears(birthMs: int)
    ensures AgeParts(birthMs, birthMs + 360 * MillisPerDay) == ClientAge(360, 0, 12)
    ensures CalculateAge(birthMs, birthMs + 360 * MillisPerDay) == Helpers.CalculateAgeString(Helpers.Interval(0, 12))
  {
    var diff := 360 * MillisPerDay;
    assert (diff + MillisPerDay - 1) / MillisPerDay == 360;
  }

  /** The server never writes that text: its intervals keep months below 12, and the age text
      determines years and months. */
  lemma ServerNeverSaysTwelveMonths(iv: Helpers.Interval)
    requires iv.months < 12
    ensures Helpers.CalculateAgeString(iv) != Helpers.CalculateAgeString(Helpers.Interval(0, 12))
  {
    if Helpers.CalculateAgeString(iv) == Helpers.CalculateAgeString(Helpers.Interval(0, 12)) {
      Helpers.AgeStringInjective(iv, Helpers.Interval(0, 12));
    }
  }
}
