/** The PHP built-ins the application leans on, stated over Unicode scalar strings:
    `empty()` on strings, `trim`, `stripslashes`, `htmlspecialchars`, the application's `sanitize`,
    the `(int)` cast of a request parameter, `round`, and `strlen` as a UTF-8 byte count. */
module Php {
  import opened Wrappers
  import opened Text

  /** `empty($s)` for a string: only "" and "0" are empty. */
  predicate Empty(s: string) {
    s == "" || s == "0"
  }

  /** `empty($x)` for a request value that may be missing (`$_POST['k'] ?? null`). */
  predicate EmptyOpt(o: Option<string>) {
    o.None? || Empty(o.value)
  }

  /** The characters `trim` strips by default: space, tab, newline, carriage return, NUL, vertical tab. */
  predicate IsTrimmed(c: char) {
    c == ' ' || c == '\t' || c == '\n' || c == '\r' || c == '\0' || c as int == 0x0B
  }

  /** Index of the first character `trim` keeps. */
  function TrimStart(s: string): (k: nat)
    ensures k <= |s|
    ensures forall i :: 0 <= i < k ==> IsTrimmed(s[i])
    ensures k < |s| ==> !IsTrimmed(s[k])
    decreases |s|
  {
    if |s| == 0 || !IsTrimmed(s[0]) then 0 else 1 + TrimStart(s[1..])
  }

  /** Index just past the last character `trim` keeps. */
  function TrimEnd(s: string): (k: nat)
    ensures k <= |s|
    ensures forall i :: k <= i < |s| ==> IsTrimmed(s[i])
    ensures k > 0 ==> !IsTrimmed(s[k - 1])
    decreases |s|
  {
    if |s| == 0 || !IsTrimmed(s[|s| - 1]) then |s| else TrimEnd(s[..|s| - 1])
  }

  /** `trim($s)`: the longest middle slice that neither starts nor ends with a stripped character. */
  function Trim(s: string): (r: string)
    ensures |r| <= |s|
    ensures exists i :: OccursAt(s, r, i)
    ensures |r| > 0 ==> !IsTrimmed(r[0]) && !IsTrimmed(r[|r| - 1])
    ensures (forall i :: 0 <= i < |s| ==> IsTrimmed(s[i])) ==> r == ""
  {
    var a := TrimStart(s);
    if a == |s| then
      assert OccursAt(s, "", 0);
      ""
    else
      var b := TrimEnd(s);
      assert a < b by {
        assert !IsTrimmed(s[a]);
      }
      assert OccursAt(s, s[a..b], a);
      s[a..b]
  }

  /** Trimming a string with nothing to strip at either end leaves it unchanged. */
  lemma TrimKeeps(s: string)
    requires |s| > 0 && !IsTrimmed(s[0]) && !IsTrimmed(s[|s| - 1])
    ensures Trim(s) == s
  {
  }

  /** `stripslashes($s)`: a backslash escapes the next character, `\0` becomes NUL, and a
      backslash at the very end disappears. */
  function StripSlashes(s: string): (r: string)
    ensures |r| <= |s|
    ensures '\\' !in s ==> r == s
    decreases |s|
  {
    if |s| == 0 then ""
    else if s[0] != '\\' then [s[0]] + StripSlashes(s[1..])
    else if |s| == 1 then ""
    else (if s[1] == '0' then "\0" else [s[1]]) + StripSlashes(s[2..])
  }

  /** The five characters `htmlspecialchars` rewrites under ENT_QUOTES. */
  predicate IsHtmlSpecial(c: char) {
    c == '&' || c == '"' || c == '\'' || c == '<' || c == '>'
  }

  function EscapeChar(c: char): string {
    match c
    case '&' => "&amp;"
    case '"' => "&quot;"
    case '\'' => "&#039;"
    case '<' => "&lt;"
    case '>' => "&gt;"
    case _ => [c]
  }

  /** `htmlspecialchars($s, ENT_QUOTES, 'UTF-8')`. */
  function HtmlSpecialChars(s: string): (r: string)
    ensures |r| >= |s|
    ensures (forall i :: 0 <= i < |s| ==> !IsHtmlSpecial(s[i])) ==> r == s
    ensures forall i :: 0 <= i < |r| ==> !IsHtmlSpecial(r[i]) || r[i] == '&'
    decreases |s|
  {
    if |s| == 0 then "" else EscapeChar(s[0]) + HtmlSpecialChars(s[1..])
  }

  /** `htmlspecialchars_decode($s, ENT_QUOTES)` restricted to the five entities produced above. */
  function HtmlDecode(s: string): string
    decreases |s|
  {
    if |s| == 0 then ""
    else if IsPrefix("&amp;", s) then "&" + HtmlDecode(s[5..])
    else if IsPrefix("&quot;", s) then "\"" + HtmlDecode(s[6..])
    else if IsPrefix("&#039;", s) then "'" + HtmlDecode(s[6..])
    else if IsPrefix("&lt;", s) then "<" + HtmlDecode(s[4..])
    else if IsPrefix("&gt;", s) then ">" + HtmlDecode(s[4..])
    else [s[0]] + HtmlDecode(s[1..])
  }

  lemma DecodeEscaped(c: char, t: string)
    ensures HtmlDecode(EscapeChar(c) + t) == [c] + HtmlDecode(t)
  {
    var e := EscapeChar(c) + t;
    var n := |EscapeChar(c)|;
    assert e[..n] == EscapeChar(c);
    assert e[n..] == t;
    if !IsHtmlSpecial(c) {
      assert e[0] == c;
      assert !IsPrefix("&amp;", e) && !IsPrefix("&quot;", e) && !IsPrefix("&#039;", e);
      assert !IsPrefix("&lt;", e) && !IsPrefix("&gt;", e);
    } else if c == '"' {
      assert !IsPrefix("&amp;", e) by { assert e[1] == 'q'; }
    } else if c == '\'' {
      assert !IsPrefix("&amp;", e) by { assert e[1] == '#'; }
      assert !IsPrefix("&quot;", e) by { assert e[1] == '#'; }
    } else if c == '<' {
      assert !IsPrefix("&amp;", e) by { assert e[1] == 'l'; }
      assert !IsPrefix("&quot;", e) by { assert e[1] == 'l'; }
      assert !IsPrefix("&#039;", e) by { assert e[1] == 'l'; }
    } else if c == '>' {
      assert !IsPrefix("&amp;", e) by { assert e[1] == 'g'; }
      assert !IsPrefix("&quot;", e) by { assert e[1] == 'g'; }
      assert !IsPrefix("&#039;", e) by { assert e[1] == 'g'; }
      assert !IsPrefix("&lt;", e) by { assert e[1] == 'g'; }
    }
  }

  /** Escaping loses nothing: decoding gives back the original text. */
  lemma {:induction false} HtmlRoundTrip(s: string)
    ensures HtmlDecode(HtmlSpecialChars(s)) == s
    decreases |s|
  {
    if |s| > 0 {
      HtmlRoundTrip(s[1..]);
      DecodeEscaped(s[0], HtmlSpecialChars(s[1..]));
    }
  }

  /** The application's `sanitize`: trim, then strip slashes, then escape HTML
      (CHMS/src/config/helpers.php:12-17). No markup character but `&` survives, and decoding the
      entities gives back the trimmed, unslashed text. */
  function Sanitize(s: string): (r: string)
    ensures forall i :: 0 <= i < |r| ==> !IsHtmlSpecial(r[i]) || r[i] == '&'
    ensures HtmlDecode(r) == StripSlashes(Trim(s))
    ensures (forall i :: 0 <= i < |s| ==> IsTrimmed(s[i])) ==> r == ""
  {
    HtmlRoundTrip(StripSlashes(Trim(s)));
    HtmlSpecialChars(StripSlashes(Trim(s)))
  }

  /** `v` is what `sanitize` makes of `raw`, as far as it can be read back: no markup character but
      `&` is left, and decoding the entities gives the trimmed, unslashed text. */
  predicate SanitizedFrom(raw: string, v: string) {
    (forall i :: 0 <= i < |v| ==> !IsHtmlSpecial(v[i]) || v[i] == '&')
    && HtmlDecode(v) == StripSlashes(Trim(raw))
  }

  /** Text free of backslashes and HTML-special characters is only trimmed by `sanitize`. */
  lemma {:induction false} SanitizePlain(s: string)
    requires forall i :: 0 <= i < |s| ==> s[i] != '\\' && !IsHtmlSpecial(s[i])
    ensures Sanitize(s) == Trim(s)
  {
    var t := Trim(s);
    var i :| OccursAt(s, t, i);
    assert forall k :: 0 <= k < |t| ==> t[k] == s[i + k];
    assert '\\' !in t;
  }

  predicate IsCastSpace(c: char) {
    c == ' ' || c == '\t' || c == '\n' || c == '\r' || c as int == 0x0B || c as int == 0x0C
  }

  /** Length of the run of leading digits of `s`. */
  function DigitRun(s: string): (k: nat)
    ensures k <= |s|
    ensures forall i :: 0 <= i < k ==> IsDigit(s[i])
    ensures k < |s| ==> !IsDigit(s[k])
    decreases |s|
  {
    if |s| == 0 || !IsDigit(s[0]) then 0 else 1 + DigitRun(s[1..])
  }

  /** `PHP_INT_MAX` and `PHP_INT_MIN` of a 64-bit build. */
  const IntMax: int := 0x7FFF_FFFF_FFFF_FFFF
  const IntMin: int := -0x8000_0000_0000_0000

  /** A value out of the 64-bit range saturates at the nearer end, as PHP's string-to-integer
      conversion does for a numeral that overflows. */
  function Saturate(v: int): (r: int)
    ensures IntMin <= r <= IntMax
    ensures IntMin <= v <= IntMax ==> r == v
    ensures v > IntMax ==> r == IntMax
    ensures v < IntMin ==> r == IntMin
  {
    if v > IntMax then IntMax else if v < IntMin then IntMin else v
  }

  /** `(int)$s` for a request parameter: leading white space, an optional sign, then the longest
      run of digits; anything else after them is ignored, and no digits at all give 0. A value
      beyond the 64-bit range is capped at `PHP_INT_MAX` or `PHP_INT_MIN`. */
  function IntCast(s: string): (r: int)
    ensures |s| == 0 ==> r == 0
    ensures IntMin <= r <= IntMax
    decreases |s|
  {
    if |s| > 0 && IsCastSpace(s[0]) then IntCast(s[1..])
    else if |s| > 0 && (s[0] == '-' || s[0] == '+') then
      var digits := s[1..][..DigitRun(s[1..])];
      Saturate(if s[0] == '-' then -(ParseDigits(digits) as int) else ParseDigits(digits))
    else Saturate(ParseDigits(s[..DigitRun(s)]))
  }

  /** A numeral casts back to its number up to `PHP_INT_MAX`; a larger one casts to `PHP_INT_MAX`. */
  lemma IntCastNumeral(n: nat)
    ensures n <= IntMax ==> IntCast(NatToString(n)) == n
    ensures n > IntMax ==> IntCast(NatToString(n)) == IntMax
  {
    var s := NatToString(n);
    ParseNatToString(n);
    assert DigitRun(s) == |s|;
    assert s[..|s|] == s;
  }

  /** The negated numeral of `PHP_INT_MAX + 1` is the one value below `-PHP_INT_MAX` that the cast
      still reaches exactly: `PHP_INT_MIN`. */
  lemma IntCastMinimum()
    ensures IntCast("-" + NatToString(IntMax + 1)) == IntMin
  {
    var t := NatToString(IntMax + 1);
    var s := "-" + t;
    ParseNatToString(IntMax + 1);
    assert s[1..] == t;
    assert DigitRun(t) == |t|;
    assert t[..|t|] == t;
  }

  /** A parameter whose first non-blank character is neither a sign nor a digit casts to 0. */
  lemma {:induction false} IntCastNonNumeric(s: string)
    requires forall i :: 0 <= i < |s| && !IsCastSpace(s[i]) ==>
               !IsDigit(s[i]) && s[i] != '-' && s[i] != '+' && (forall j :: 0 <= j < i ==> IsCastSpace(s[j]))
    ensures IntCast(s) == 0
    decreases |s|
  {
    if |s| > 0 && IsCastSpace(s[0]) {
      assert forall i :: 0 <= i < |s[1..]| ==> s[1..][i] == s[i + 1];
      IntCastNonNumeric(s[1..]);
    } else if |s| > 0 {
      assert DigitRun(s) == 0;
      assert s[..0] == "";
    }
  }

  /** PHP `round($x)`: the nearest integer, halves rounded away from zero. */
  function Round(x: real): (r: int)
    ensures -(1.0 / 2.0) <= r as real - x <= 1.0 / 2.0
    ensures x >= 0.0 ==> r >= 0
    ensures r as real - x == 1.0 / 2.0 ==> x >= 0.0
    ensures x - r as real == 1.0 / 2.0 ==> x <= 0.0
  {
    if x >= 0.0 then (x + 0.5).Floor else -((-x + 0.5).Floor)
  }

  /** `round` returns the integer nearest to its argument. */
  lemma RoundIsNearest(x: real, k: int)
    ensures Abs(Round(x) as real - x) <= Abs(k as real - x)
  {
    var r := Round(x);
    if k > r {
      assert k as real >= r as real + 1.0;
    } else if k < r {
      assert k as real <= r as real - 1.0;
    }
  }

  function Abs(x: real): real {
    if x < 0.0 then -x else x
  }

  /** `round` never leaves an interval with integer ends. */
  lemma RoundWithin(x: real, lo: int, hi: int)
    requires lo as real <= x <= hi as real
    ensures lo <= Round(x) <= hi
  {
  }

  /** A total of `n` values that each lie in `lo..hi` has its mean in `lo..hi`. */
  lemma MeanWithin(total: int, n: int, lo: int, hi: int)
    requires n > 0 && lo * n <= total <= hi * n
    ensures lo as real <= total as real / n as real <= hi as real
  {
    var q := total as real / n as real;
    assert q * n as real == total as real;
    assert (lo * n) as real == lo as real * n as real;
    assert (hi * n) as real == hi as real * n as real;
  }

  /** Number of bytes of the UTF-8 encoding of one character. */
  function Utf8Width(c: char): (n: nat)
    ensures 1 <= n <= 4
  {
    if c as int < 0x80 then 1
    else if c as int < 0x800 then 2
    else if c as int < 0x10000 then 3
    else 4
  }

  /** `strlen($s)`: the length in bytes of the UTF-8 encoding. */
  function Strlen(s: string): (n: nat)
    ensures |s| <= n <= 4 * |s|
    ensures (forall i :: 0 <= i < |s| ==> s[i] as int < 0x80) ==> n == |s|
    decreases |s|
  {
    if |s| == 0 then 0 else Utf8Width(s[0]) + Strlen(s[1..])
  }
}
