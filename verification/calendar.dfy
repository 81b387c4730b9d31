/** Calendar dates as the application handles them: day numbers for comparisons and windows,
    second-resolution instants for timestamps, and `Y-m-d` text with PHP's parse-and-reformat check. */
module Calendar {
  import opened Wrappers
  import opened Text
  import opened Php

  /** A calendar date as a day number (consecutive days have consecutive numbers). */
  type Date = int

  /** A point in time in seconds, on the same origin as `Date`: day `d` starts at `d * SecondsPerDay`. */
  type Instant = int

  const SecondsPerDay: int := 86400

  /** Midnight at the start of day `d` (`new DateTime('Y-m-d')`). */
  function Midnight(d: Date): Instant {
    d * SecondsPerDay
  }

  /** The date an instant falls on (`CURDATE()` when the instant is `NOW()`). */
  function DayOf(t: Instant): (d: Date)
    ensures Midnight(d) <= t < Midnight(d + 1)
  {
    t / SecondsPerDay
  }

  /** A year, month and day as written in `Y-m-d` text. */
  datatype Civil = Civil(year: int, month: int, day: int)

  predicate IsLeapYear(y: int) {
    y % 4 == 0 && (y % 100 != 0 || y % 400 == 0)
  }

  function DaysInMonth(y: int, m: int): (n: int)
    requires 1 <= m <= 12
    ensures 28 <= n <= 31
  {
    if m == 2 then (if IsLeapYear(y) then 29 else 28)
    else if m == 4 || m == 6 || m == 9 || m == 11 then 30
    else 31
  }

  /** A date that exists in the proleptic Gregorian calendar. */
  predicate ValidCivil(c: Civil) {
    1 <= c.month <= 12 && 1 <= c.day <= DaysInMonth(c.year, c.month)
  }

  /** Day `d` counted from the first of month `m` of year `y`: day 0 is the last day of the
      previous month, days past the end roll into the following months (PHP's date overflow). */
  function RollDays(y: int, m: int, d: nat): (c: Civil)
    requires 1 <= m <= 12
    ensures ValidCivil(c)
    ensures 1 <= d <= DaysInMonth(y, m) ==> c == Civil(y, m, d)
    decreases d
  {
    if d == 0 then
      var py := if m == 1 then y - 1 else y;
      var pm := if m == 1 then 12 else m - 1;
      Civil(py, pm, DaysInMonth(py, pm))
    else if d <= DaysInMonth(y, m) then Civil(y, m, d)
    else
      var ny := if m == 12 then y + 1 else y;
      var nm := if m == 12 then 1 else m + 1;
      RollDays(ny, nm, d - DaysInMonth(y, m))
  }

  /** The date PHP builds from possibly out-of-range fields: month 0 is December of the previous
      year, months past 12 roll into later years, then the day rolls as in `RollDays`. */
  function Normalize(y: int, m: nat, d: nat): (c: Civil)
    ensures ValidCivil(c)
    ensures ValidCivil(Civil(y, m, d)) ==> c == Civil(y, m, d)
  {
    var m0 := m - 1;
    RollDays(y + m0 / 12, m0 % 12 + 1, d)
  }

  /** `n` written with at least `width` digits, padded with leading zeros. */
  function Pad(n: nat, width: nat): (r: string)
    ensures |r| >= width
    ensures forall i :: 0 <= i < |r| ==> IsDigit(r[i])
    decreases width
  {
    var digits := NatToString(n);
    if |digits| >= width then digits else "0" + Pad(n, width - 1)
  }

  lemma {:induction false} PadValue(n: nat, width: nat)
    ensures ParseDigits(Pad(n, width)) == n
    decreases width
  {
    ParseNatToString(n);
    if |NatToString(n)| < width {
      PadValue(n, width - 1);
      LeadingZero(Pad(n, width - 1));
    }
  }

  lemma {:induction false} LeadingZero(s: string)
    requires forall i :: 0 <= i < |s| ==> IsDigit(s[i])
    ensures ParseDigits("0" + s) == ParseDigits(s)
    decreases |s|
  {
    if |s| > 0 {
      var t := "0" + s;
      assert t[..|t| - 1] == "0" + s[..|s| - 1];
      LeadingZero(s[..|s| - 1]);
    }
  }

  lemma PadSmall(n: nat, width: nat)
    requires width >= 1
    requires |NatToString(n)| <= width
    ensures |Pad(n, width)| == width
    decreases width
  {
    if |NatToString(n)| < width {
      PadSmall(n, width - 1);
    }
  }

  lemma NumeralLength(n: nat, k: nat)
    requires n < Pow10(k)
    requires k >= 1
    ensures |NatToString(n)| <= k
    decreases k
  {
    if n >= 10 {
      NumeralLength(n / 10, k - 1);
    }
  }

  function Pow10(k: nat): nat {
    if k == 0 then 1 else 10 * Pow10(k - 1)
  }

  /** `$d->format('Y-m-d')`: the year with at least four digits (a minus sign before years BCE),
      month and day with two. */
  function FormatYmd(c: Civil): string
    requires ValidCivil(c)
  {
    var y := if c.year < 0 then "-" + Pad(-c.year, 4) else Pad(c.year, 4);
    y + "-" + Pad(c.month, 2) + "-" + Pad(c.day, 2)
  }

  /** Length of a leading run of at most `max` digits. */
  function DigitsUpTo(s: string, max: nat): (k: nat)
    ensures k <= max && k <= |s|
    ensures forall i :: 0 <= i < k ==> IsDigit(s[i])
  {
    var k := DigitRun(s);
    if k <= max then k else max
  }

  /** `DateTime::createFromFormat('Y-m-d', $s)`: a year of up to four digits, `-`, a month of one
      or two digits, `-`, a day of one or two digits, and nothing after; the fields are then
      normalised as PHP does, so out-of-range months and days roll over instead of failing. */
  function ParseYmd(s: string): Option<Civil> {
    var yl := DigitsUpTo(s, 4);
    if yl == 0 || yl >= |s| || s[yl] != '-' then None
    else
      var r1 := s[yl + 1..];
      var ml := DigitsUpTo(r1, 2);
      if ml == 0 || ml >= |r1| || r1[ml] != '-' then None
      else
        var r2 := r1[ml + 1..];
        var dl := DigitsUpTo(r2, 2);
        if dl == 0 || dl != |r2| then None
        else Some(Normalize(ParseDigits(s[..yl]), ParseDigits(r1[..ml]), ParseDigits(r2)))
  }

  /** `validateDate($s)` (CHMS/src/config/helpers.php:220-223): the text parses and formatting the
      parsed date gives back exactly the same text. What passes is exactly the `Y-m-d` writing of
      an existing date of years 0..9999: rolled-over dates (2024-02-30) and unpadded fields
      (2024-2-3) are rejected. */
  function ValidateDate(s: string): (ok: bool)
    ensures ok <==> exists c :: ValidCivil(c) && 0 <= c.year <= 9999 && FormatYmd(c) == s
  {
    RoundTripExactly(s);
    match ParseYmd(s)
    case None => false
    case Some(c) => FormatYmd(c) == s
  }

  /** Every existing date of years 0..9999, written as `Y-m-d`, parses back to itself. */
  lemma {:induction false} ParseFormat(c: Civil)
    requires ValidCivil(c) && 0 <= c.year <= 9999
    ensures ParseYmd(FormatYmd(c)) == Some(c)
  {
    FormatLayout(c);
    PadValue(c.year, 4);
    PadValue(c.month, 2);
    PadValue(c.day, 2);
    ParseOfFields(Pad(c.year, 4), Pad(c.month, 2), Pad(c.day, 2));
  }

  /** For years 0..9999 the writing is exactly four, two and two digits joined by dashes. */
  lemma FormatLayout(c: Civil)
    requires ValidCivil(c) && 0 <= c.year <= 9999
    ensures |Pad(c.year, 4)| == 4 && |Pad(c.month, 2)| == 2 && |Pad(c.day, 2)| == 2
    ensures FormatYmd(c) == Pad(c.year, 4) + "-" + Pad(c.month, 2) + "-" + Pad(c.day, 2)
  {
    NumeralLength(c.year, 4);
    NumeralLength(c.month, 2);
    NumeralLength(c.day, 2);
    PadSmall(c.year, 4);
    PadSmall(c.month, 2);
    PadSmall(c.day, 2);
  }

  /** Where the fields of a four-two-two writing sit. */
  lemma SplitFields(ys: string, ms: string, ds: string)
    requires |ys| == 4 && |ms| == 2 && |ds| == 2
    ensures var s := ys + "-" + ms + "-" + ds;
      && |s| == 10 && s[..4] == ys && s[4] == '-' && s[5..7] == ms && s[7] == '-' && s[8..] == ds
      && s[5..] == ms + "-" + ds
  {
  }

  /** Four, two and two digits joined by dashes parse as those three numbers. */
  lemma ParseOfFields(ys: string, ms: string, ds: string)
    requires |ys| == 4 && |ms| == 2 && |ds| == 2
    requires AllDigits(ys) && AllDigits(ms) && AllDigits(ds)
    ensures ParseYmd(ys + "-" + ms + "-" + ds) == Some(Normalize(ParseDigits(ys), ParseDigits(ms), ParseDigits(ds)))
  {
    var s := ys + "-" + ms + "-" + ds;
    SplitFields(ys, ms, ds);
    assert DigitRun(s) == 4 by { assert forall i :: 0 <= i < 4 ==> s[i] == ys[i]; }
    var r1 := s[5..];
    assert DigitRun(r1) == 2 by { assert r1[2] == '-'; assert forall i :: 0 <= i < 2 ==> r1[i] == ms[i]; }
    assert r1[..2] == ms;
    var r2 := r1[3..];
    assert r2 == ds;
    assert DigitRun(r2) == 2;
  }

  /** The texts that parse and format back to themselves are exactly the `Y-m-d` writings of
      existing dates of years 0..9999. */
  lemma RoundTripExactly(s: string)
    ensures (ParseYmd(s).Some? && FormatYmd(ParseYmd(s).value) == s)
            <==> exists c :: ValidCivil(c) && 0 <= c.year <= 9999 && FormatYmd(c) == s
  {
    if ParseYmd(s).Some? && FormatYmd(ParseYmd(s).value) == s {
      var c := ParseYmd(s).value;
      ParsedYearRange(s);
      assert ValidCivil(c) && 0 <= c.year <= 9999 && FormatYmd(c) == s;
    }
    if c :| ValidCivil(c) && 0 <= c.year <= 9999 && FormatYmd(c) == s {
      ParseFormat(c);
    }
  }

  /** A parsed date whose `Y-m-d` writing is the input lies in years 0..9999. */
  lemma ParsedYearRange(s: string)
    requires ParseYmd(s).Some?
    requires FormatYmd(ParseYmd(s).value) == s
    ensures 0 <= ParseYmd(s).value.year <= 9999
  {
    var c := ParseYmd(s).value;
    assert |s| <= 10 by {
      var yl := DigitsUpTo(s, 4);
      var r1 := s[yl + 1..];
      var ml := DigitsUpTo(r1, 2);
      var r2 := r1[ml + 1..];
      assert |r2| <= 2;
    }
    assert s[0] != '-' by {
      assert DigitsUpTo(s, 4) > 0;
      assert IsDigit(s[0]);
    }
    FormatShape(c);
  }

  /** The first character of a `Y-m-d` writing is `-` exactly for years BCE, and years past 9999
      take more than ten characters. */
  lemma FormatShape(c: Civil)
    requires ValidCivil(c)
    ensures FormatYmd(c)[0] == '-' <==> c.year < 0
    ensures c.year > 9999 ==> |FormatYmd(c)| > 10
  {
    if c.year > 9999 {
      assert Pow10(4) == 10000;
      NumeralAtLeast(c.year, 4);
    }
  }

  lemma NumeralAtLeast(n: nat, k: nat)
    requires n >= Pow10(k)
    ensures |NatToString(n)| >= k + 1
    decreases k
  {
    if k > 0 {
      NumeralAtLeast(n / 10, k - 1);
    }
  }

  /** The `Y-m-d` writing of a date of years 0..9999 has ten characters, and its three numeric
      fields read back as the year, month and day. */
  lemma FormatFields(c: Civil)
    requires ValidCivil(c) && 0 <= c.year <= 9999
    ensures |FormatYmd(c)| == 10 && FormatYmd(c)[4] == '-' && FormatYmd(c)[7] == '-'
    ensures AllDigits(FormatYmd(c)[..4]) && AllDigits(FormatYmd(c)[5..7]) && AllDigits(FormatYmd(c)[8..])
    ensures ParseDigits(FormatYmd(c)[..4]) == c.year
    ensures ParseDigits(FormatYmd(c)[5..7]) == c.month
    ensures ParseDigits(FormatYmd(c)[8..]) == c.day
  {
    FormatLayout(c);
    PadValue(c.year, 4);
    PadValue(c.month, 2);
    PadValue(c.day, 2);
    SplitFields(Pad(c.year, 4), Pad(c.month, 2), Pad(c.day, 2));
  }

  predicate AllDigits(s: string) {
    forall i :: 0 <= i < |s| ==> IsDigit(s[i])
  }

  /** Every accepted string is ten characters `YYYY-MM-DD` whose fields name an existing date;
      in particular unpadded fields (2024-2-3) never pass. */
  lemma ValidatedShape(s: string)
    requires ValidateDate(s)
    ensures |s| == 10 && s[4] == '-' && s[7] == '-'
    ensures AllDigits(s[..4]) && AllDigits(s[5..7]) && AllDigits(s[8..])
    ensures ValidCivil(Civil(ParseDigits(s[..4]), ParseDigits(s[5..7]), ParseDigits(s[8..])))
  {
    var c :| ValidCivil(c) && 0 <= c.year <= 9999 && FormatYmd(c) == s;
    FormatFields(c);
  }

  /** A February 30th never passes: PHP reads it as March 1st and writes it back differently. */
  lemma February30Rejected(s: string)
    requires |s| == 10 && s[5..7] == "02" && s[8..] == "30"
    ensures !ValidateDate(s)
  {
    assert ParseDigits("02") == 2 by { assert "02"[..1] == "0"; assert "0"[..0] == ""; }
    assert ParseDigits("30") == 30 by { assert "30"[..1] == "3"; assert "3"[..0] == ""; }
    if ValidateDate(s) {
      ValidatedShape(s);
      assert false;
    }
  }
}
