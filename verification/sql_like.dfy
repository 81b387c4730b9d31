/** MySQL `LIKE` matching under the tables' case-insensitive collation, with ASCII case folding:
    `%` matches any run of characters, `_` exactly one, and `\` makes the next character literal. */
module SqlLike {
  import opened Text

  /** The pattern characters that do not stand for themselves. */
  predicate IsWild(c: char) {
    c == '%' || c == '_' || c == '\\'
  }

  /** A search term with no wildcard or escape character in it. */
  predicate Plain(t: string) {
    forall i :: 0 <= i < |t| ==> !IsWild(t[i])
  }

  function Like(s: string, pat: string): bool
    decreases |s| + |pat|
  {
    if |pat| == 0 then |s| == 0
    else if pat[0] == '%' then Like(s, pat[1..]) || (|s| > 0 && Like(s[1..], pat))
    else if pat[0] == '_' then |s| > 0 && Like(s[1..], pat[1..])
    else if pat[0] == '\\' && |pat| >= 2 then
      |s| > 0 && LowerChar(s[0]) == LowerChar(pat[1]) && Like(s[1..], pat[2..])
    else |s| > 0 && LowerChar(s[0]) == LowerChar(pat[0]) && Like(s[1..], pat[1..])
  }

  /** `%` alone matches every string. */
  lemma {:induction false} PercentMatchesAll(s: string)
    ensures Like(s, "%")
    decreases |s|
  {
    if |s| > 0 {
      PercentMatchesAll(s[1..]);
    }
  }

  /** A plain term followed by `%` matches exactly the strings it begins, ignoring case. */
  lemma {:induction false} PlainPrefix(s: string, t: string)
    requires Plain(t)
    ensures Like(s, t + "%") <==> IsPrefix(Lower(t), Lower(s))
    decreases |t|
  {
    if |t| == 0 {
      assert t + "%" == "%";
      PercentMatchesAll(s);
    } else {
      assert (t + "%")[0] == t[0] && !IsWild(t[0]);
      assert (t + "%")[1..] == t[1..] + "%";
      if |s| > 0 {
        PlainPrefix(s[1..], t[1..]);
        assert Lower(t)[1..] == Lower(t[1..]);
        assert Lower(s)[1..] == Lower(s[1..]);
        if IsPrefix(Lower(t), Lower(s)) {
          assert Lower(s)[..|t|][1..] == Lower(s[1..])[..|t| - 1];
        }
        if LowerChar(s[0]) == LowerChar(t[0]) && IsPrefix(Lower(t[1..]), Lower(s[1..])) {
          assert Lower(s)[..|t|] == [Lower(s)[0]] + Lower(s[1..])[..|t| - 1];
          assert Lower(t) == [Lower(t)[0]] + Lower(t[1..]);
        }
      }
    }
  }

  /** `Child::search` wraps its term in `%...%`; for a plain term this is case-insensitive
      containment. */
  lemma {:induction false} PlainSearchIsContainment(s: string, t: string)
    requires Plain(t)
    ensures Like(s, "%" + t + "%") <==> ContainsIgnoringCase(s, t)
    decreases |s|
  {
    var pat := "%" + t + "%";
    assert pat[0] == '%' && pat[1..] == t + "%";
    PlainPrefix(s, t);
    if |s| > 0 {
      PlainSearchIsContainment(s[1..], t);
      assert Lower(s)[1..] == Lower(s[1..]);
    }
  }

  /** The term is not escaped, so a search for `_` matches every non-empty name. */
  lemma UnderscoreMatchesAnyNonEmpty(s: string)
    ensures Like(s, "%" + "_" + "%") <==> |s| > 0
  {
    assert ("%" + "_" + "%")[1..] == "_%";
    assert "_%"[1..] == "%";
    if |s| > 0 {
      PercentMatchesAll(s[1..]);
    }
  }
}
