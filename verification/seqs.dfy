/** Sequence operations that stand for SQL `WHERE`, `ORDER BY`, `LIMIT`, `COUNT` and `SUM` over a table. */
module Seqs {

  /** The elements of `s` that satisfy `p`, in their original order (`array_filter` / `WHERE`). */
  function Filter<T(!new)>(s: seq<T>, p: T -> bool): (r: seq<T>)
    ensures |r| <= |s|
    ensures forall x :: x in r <==> x in s && p(x)
    ensures forall i :: 0 <= i < |r| ==> p(r[i])
    ensures multiset(r) <= multiset(s)
  {
    if |s| == 0 then []
    else
      assert s == [s[0]] + s[1..];
      if p(s[0]) then [s[0]] + Filter(s[1..], p) else Filter(s[1..], p)
  }

  /** How many elements of `s` satisfy `p` (`COUNT(*) ... WHERE`). */
  function Count<T(!new)>(s: seq<T>, p: T -> bool): nat {
    |Filter(s, p)|
  }

  /** `a` is obtained from `b` by deleting elements: the relative order of what remains is kept. */
  predicate IsSubsequence<T(==)>(a: seq<T>, b: seq<T>)
    decreases |b|
  {
    if |a| == 0 then true
    else if |b| == 0 then false
    else if a[0] == b[0] then IsSubsequence(a[1..], b[1..])
    else IsSubsequence(a, b[1..])
  }

  lemma {:induction false} FilterIsSubsequence<T(!new)>(s: seq<T>, p: T -> bool)
    ensures IsSubsequence(Filter(s, p), s)
    decreases |s|
  {
    if |s| > 0 {
      FilterIsSubsequence(s[1..], p);
    }
  }

  /** Filtering twice by two conditions does not depend on the order of the two filters. */
  lemma {:induction false} FilterCommutes<T(!new)>(s: seq<T>, p: T -> bool, q: T -> bool)
    ensures Filter(Filter(s, p), q) == Filter(Filter(s, q), p)
    decreases |s|
  {
    if |s| > 0 {
      FilterCommutes(s[1..], p, q);
      FilterCons(s[0], s[1..], p);
      FilterCons(s[0], s[1..], q);
      var fp := Filter(s[1..], p);
      var fq := Filter(s[1..], q);
      if p(s[0]) { FilterCons(s[0], fp, q); }
      if q(s[0]) { FilterCons(s[0], fq, p); }
    }
  }

  /** Filtering by two conditions in a row is filtering by their conjunction. */
  lemma {:induction false} FilterFilter<T(!new)>(s: seq<T>, p: T -> bool, q: T -> bool)
    ensures Filter(Filter(s, p), q) == Filter(s, x => p(x) && q(x))
    decreases |s|
  {
    if |s| > 0 {
      FilterFilter(s[1..], p, q);
      FilterCons(s[0], s[1..], p);
      if p(s[0]) { FilterCons(s[0], Filter(s[1..], p), q); }
    }
  }

  /** Filtering by `p` and then by `q` is filtering by any condition that agrees with their conjunction. */
  lemma {:induction false} FilterFilterAs<T(!new)>(s: seq<T>, p: T -> bool, q: T -> bool, pq: T -> bool)
    requires forall i :: 0 <= i < |s| ==> pq(s[i]) == (p(s[i]) && q(s[i]))
    ensures Filter(Filter(s, p), q) == Filter(s, pq)
    decreases |s|
  {
    if |s| > 0 {
      FilterFilterAs(s[1..], p, q, pq);
      FilterCons(s[0], s[1..], p);
      if p(s[0]) { FilterCons(s[0], Filter(s[1..], p), q); }
    }
  }

  /** Appending a row adds it to the filtered rows exactly when it satisfies the condition. */
  lemma {:induction false} FilterSnoc<T(!new)>(s: seq<T>, x: T, p: T -> bool)
    ensures Filter(s + [x], p) == Filter(s, p) + (if p(x) then [x] else [])
    decreases |s|
  {
    if |s| == 0 {
      assert s + [x] == [x] + [];
      FilterCons(x, [], p);
    } else {
      assert s + [x] == [s[0]] + (s[1..] + [x]);
      assert s == [s[0]] + s[1..];
      FilterSnoc(s[1..], x, p);
      FilterCons(s[0], s[1..] + [x], p);
      FilterCons(s[0], s[1..], p);
    }
  }

  /** Appending one element raises a count by one exactly when the element satisfies the condition. */
  lemma CountSnoc<T(!new)>(s: seq<T>, x: T, p: T -> bool)
    ensures Count(s + [x], p) == Count(s, p) + if p(x) then 1 else 0
  {
    FilterSnoc(s, x, p);
  }

  lemma FilterCons<T(!new)>(x: T, s: seq<T>, p: T -> bool)
    ensures Filter([x] + s, p) == if p(x) then [x] + Filter(s, p) else Filter(s, p)
  {
    assert ([x] + s)[1..] == s;
  }

  /** A filter whose condition holds everywhere keeps the whole sequence. */
  lemma {:induction false} FilterAll<T(!new)>(s: seq<T>, p: T -> bool)
    requires forall i :: 0 <= i < |s| ==> p(s[i])
    ensures Filter(s, p) == s
    decreases |s|
  {
    if |s| > 0 {
      FilterAll(s[1..], p);
    }
  }

  /** A condition and its negation split a sequence into two parts whose sizes add up. */
  lemma {:induction false} FilterSplitsLength<T(!new)>(s: seq<T>, p: T -> bool)
    ensures |Filter(s, p)| + |Filter(s, x => !p(x))| == |s|
    decreases |s|
  {
    if |s| > 0 {
      FilterSplitsLength(s[1..], p);
    }
  }

  /** Conditions that agree on every element select the same elements. */
  lemma {:induction false} FilterCongruent<T(!new)>(s: seq<T>, p: T -> bool, q: T -> bool)
    requires forall i :: 0 <= i < |s| ==> p(s[i]) == q(s[i])
    ensures Filter(s, p) == Filter(s, q)
    decreases |s|
  {
    if |s| > 0 {
      FilterCongruent(s[1..], p, q);
    }
  }

  /** A weaker condition selects at least as many elements. */
  lemma {:induction false} SubsetFilterLength<T(!new)>(s: seq<T>, p: T -> bool, q: T -> bool)
    requires forall i :: 0 <= i < |s| ==> p(s[i]) ==> q(s[i])
    ensures |Filter(s, p)| <= |Filter(s, q)|
    decreases |s|
  {
    if |s| > 0 {
      SubsetFilterLength(s[1..], p, q);
    }
  }

  /** Two conditions that never hold together select at most |s| elements between them. */
  lemma {:induction false} DisjointFiltersLength<T(!new)>(s: seq<T>, p: T -> bool, q: T -> bool)
    requires forall i :: 0 <= i < |s| ==> !(p(s[i]) && q(s[i]))
    ensures |Filter(s, p)| + |Filter(s, q)| <= |s|
    decreases |s|
  {
    if |s| > 0 {
      DisjointFiltersLength(s[1..], p, q);
    }
  }

  /** Sum of `f` over `s` (`SUM(...)`, `array_sum(array_column(...))`). */
  function SumOf<T>(s: seq<T>, f: T -> int): int {
    if |s| == 0 then 0 else f(s[0]) + SumOf(s[1..], f)
  }

  /** A sum of terms that lie in `lo..hi` lies in `lo*|s|..hi*|s|`. */
  lemma {:induction false} SumOfBounds<T>(s: seq<T>, f: T -> int, lo: int, hi: int)
    requires forall i :: 0 <= i < |s| ==> lo <= f(s[i]) <= hi
    ensures lo * |s| <= SumOf(s, f) <= hi * |s|
    decreases |s|
  {
    if |s| > 0 {
      SumOfBounds(s[1..], f, lo, hi);
    }
  }

  /** One pass over `s` that counts the elements satisfying `p` and, separately, those satisfying
      its complement `q` (a `foreach` with an `if`/`else` incrementing one of two counters). */
  method Tally<T(!new)>(s: seq<T>, p: T -> bool, q: T -> bool) returns (yes: nat, no: nat)
    requires forall i :: 0 <= i < |s| ==> (q(s[i]) <==> !p(s[i]))
    ensures yes == Count(s, p) && no == Count(s, q)
    ensures yes + no == |s|
  {
    yes, no := 0, 0;
    var k := 0;
    while k < |s|
      invariant 0 <= k <= |s|
      invariant yes == Count(s[..k], p)
      invariant no == Count(s[..k], q)
      invariant yes + no == k
    {
      var x := s[k];
      CountPrefixStep(s, k, p);
      CountPrefixStep(s, k, q);
      if p(x) {
        yes := yes + 1;
      } else {
        no := no + 1;
      }
      k := k + 1;
    }
    assert s[..k] == s;
  }

  /** Extending a prefix by one element adds one to the count exactly when that element matches. */
  lemma CountPrefixStep<T(!new)>(s: seq<T>, k: nat, p: T -> bool)
    requires k < |s|
    ensures Count(s[..k + 1], p) == Count(s[..k], p) + if p(s[k]) then 1 else 0
  {
    assert s[..k + 1] == s[..k] + [s[k]];
    CountSnoc(s[..k], s[k], p);
  }

  /** Sum of a real-valued `f` over `s` (`SUM` / `AVG` over a decimal column). */
  function SumReal<T>(s: seq<T>, f: T -> real): real {
    if |s| == 0 then 0.0 else f(s[0]) + SumReal(s[1..], f)
  }

  /** A sum of terms that lie in `lo..hi` lies in `lo*|s|..hi*|s|`. */
  lemma {:induction false} SumRealBounds<T>(s: seq<T>, f: T -> real, lo: real, hi: real)
    requires forall i :: 0 <= i < |s| ==> lo <= f(s[i]) <= hi
    ensures lo * |s| as real <= SumReal(s, f) <= hi * |s| as real
    decreases |s|
  {
    if |s| > 0 {
      SumRealBounds(s[1..], f, lo, hi);
    }
  }

  /** A total of `n` values that each lie in `lo..hi` has its mean in `lo..hi`. */
  lemma RealMeanWithin(total: real, n: real, lo: real, hi: real)
    requires n > 0.0 && lo * n <= total <= hi * n
    ensures lo <= total / n <= hi
  {
    var q := total / n;
    assert q * n == total;
    assert (q - lo) * n == total - lo * n;
    assert (hi - q) * n == hi * n - total;
  }

  /** The set of values `f` takes on `s` (`COUNT(DISTINCT ...)` is its size). */
  function Image<T, U(!new)>(s: seq<T>, f: T -> U): (r: set<U>)
    ensures |r| <= |s|
    ensures forall y :: y in r <==> exists i :: 0 <= i < |s| && f(s[i]) == y
  {
    if |s| == 0 then {}
    else
      var rest := Image(s[1..], f);
      ImageStep(s, f, rest);
      {f(s[0])} + rest
  }

  lemma ImageStep<T, U(!new)>(s: seq<T>, f: T -> U, rest: set<U>)
    requires |s| > 0
    requires forall y :: y in rest <==> exists i :: 0 <= i < |s[1..]| && f(s[1..][i]) == y
    ensures forall y :: y in {f(s[0])} + rest <==> exists i :: 0 <= i < |s| && f(s[i]) == y
  {
    forall y | y in rest
      ensures exists i :: 0 <= i < |s| && f(s[i]) == y
    {
      var i :| 0 <= i < |s[1..]| && f(s[1..][i]) == y;
      assert f(s[i + 1]) == y;
    }
    forall y | y !in rest && y != f(s[0])
      ensures forall i :: 0 <= i < |s| ==> f(s[i]) != y
    {
      forall i | 0 <= i < |s|
        ensures f(s[i]) != y
      {
        if i > 0 {
          assert f(s[1..][i - 1]) == f(s[i]);
        }
      }
    }
  }

  /** `s` is in ascending order of `key`. */
  predicate SortedBy<T>(s: seq<T>, key: T -> int) {
    forall i, j :: 0 <= i < j < |s| ==> key(s[i]) <= key(s[j])
  }

  /** Places `x` into the sorted `s` before the first element with a greater-or-equal key. */
  function Insert<T>(x: T, s: seq<T>, key: T -> int): (r: seq<T>)
    requires SortedBy(s, key)
    ensures SortedBy(r, key)
    ensures multiset(r) == multiset(s) + multiset{x}
    ensures |r| == |s| + 1
  {
    if |s| == 0 then [x]
    else if key(x) <= key(s[0]) then [x] + s
    else
      var rest := Insert(x, s[1..], key);
      InsertHeadBound(x, s, key, rest);
      ConsSorted(s[0], rest, key);
      assert s == [s[0]] + s[1..];
      [s[0]] + rest
  }

  /** Every element of the tail of a sorted `s` with `x` added, where `x` is above the head, is at
      least the head. */
  lemma InsertHeadBound<T>(x: T, s: seq<T>, key: T -> int, rest: seq<T>)
    requires SortedBy(s, key) && |s| > 0 && key(s[0]) < key(x)
    requires multiset(rest) == multiset(s[1..]) + multiset{x}
    ensures forall k :: 0 <= k < |rest| ==> key(s[0]) <= key(rest[k])
  {
    forall k | 0 <= k < |rest|
      ensures key(s[0]) <= key(rest[k])
    {
      assert rest[k] in multiset(rest);
      if rest[k] != x {
        assert rest[k] in multiset(s[1..]);
        var j :| 0 <= j < |s[1..]| && s[1..][j] == rest[k];
        assert s[1..][j] == s[j + 1];
      }
    }
  }

  /** A sorted list behind a head no greater than any of its keys is sorted. */
  lemma ConsSorted<T>(a: T, rest: seq<T>, key: T -> int)
    requires SortedBy(rest, key)
    requires forall k :: 0 <= k < |rest| ==> key(a) <= key(rest[k])
    ensures SortedBy([a] + rest, key)
  {
    var r := [a] + rest;
    forall i, j | 0 <= i < j < |r|
      ensures key(r[i]) <= key(r[j])
    {
      if i > 0 {
        assert r[i] == rest[i - 1] && r[j] == rest[j - 1];
      } else {
        assert r[j] == rest[j - 1];
      }
    }
  }

  /** A stable ascending sort by `key` (`ORDER BY key ASC`; rows with equal keys keep table order). */
  function SortBy<T>(s: seq<T>, key: T -> int): (r: seq<T>)
    ensures SortedBy(r, key)
    ensures multiset(r) == multiset(s)
    ensures |r| == |s|
  {
    if |s| == 0 then []
    else
      assert s == [s[0]] + s[1..];
      Insert(s[0], SortBy(s[1..], key), key)
  }

  /** Both halves of a sorted list are sorted, and nothing in the front half has a greater key than
      anything in the back half. */
  lemma SortedSplit<T>(s: seq<T>, k: nat, key: T -> int)
    requires SortedBy(s, key) && k <= |s|
    ensures SortedBy(s[..k], key) && SortedBy(s[k..], key)
    ensures forall i, j :: 0 <= i < k <= j < |s| ==> key(s[i]) <= key(s[j])
  {
    assert forall i :: 0 <= i < |s| - k ==> s[k..][i] == s[k + i];
  }

  /** `s` is in descending order of `key`. */
  predicate SortedDescBy<T>(s: seq<T>, key: T -> int) {
    forall i, j :: 0 <= i < j < |s| ==> key(s[i]) >= key(s[j])
  }

  /** A descending sort by `key` (`ORDER BY key DESC`). */
  function SortDescBy<T>(s: seq<T>, key: T -> int): (r: seq<T>)
    ensures SortedDescBy(r, key)
    ensures multiset(r) == multiset(s)
    ensures |r| == |s|
  {
    var neg := (x: T) => -key(x);
    var r := SortBy(s, neg);
    assert forall i, j :: 0 <= i < j < |r| ==> neg(r[i]) <= neg(r[j]);
    r
  }

  /** Elements of a sequence and of any permutation of it coincide. */
  lemma SameElements<T>(a: seq<T>, b: seq<T>)
    requires multiset(a) == multiset(b)
    ensures forall x :: x in a <==> x in b
  {
    forall x ensures x in a <==> x in b {
      assert x in a <==> x in multiset(a);
      assert x in b <==> x in multiset(b);
    }
  }

  /** The first `n` elements, or all of them when there are fewer (`LIMIT n`). */
  function Take<T>(s: seq<T>, n: nat): (r: seq<T>)
    ensures |r| == if n < |s| then n else |s|
    ensures forall i :: 0 <= i < |r| ==> r[i] == s[i]
  {
    if n < |s| then s[..n] else s
  }

  /** `r` holds exactly the elements of `s` that satisfy `p`, each as often as in `s`, in any order. */
  ghost predicate IsSelection<T(!new)>(r: seq<T>, s: seq<T>, p: T -> bool) {
    forall x :: multiset(r)[x] == if p(x) then multiset(s)[x] else 0
  }

  lemma {:induction false} FilterSelects<T(!new)>(s: seq<T>, p: T -> bool)
    ensures IsSelection(Filter(s, p), s, p)
    decreases |s|
  {
    if |s| > 0 {
      FilterSelects(s[1..], p);
      assert s == [s[0]] + s[1..];
      FilterCons(s[0], s[1..], p);
    }
  }

  /** Membership in a selection. */
  lemma SelectionMembers<T(!new)>(r: seq<T>, s: seq<T>, p: T -> bool)
    requires IsSelection(r, s, p)
    ensures forall x :: x in r <==> x in s && p(x)
  {
    forall x ensures x in r <==> x in s && p(x) {
      assert x in r <==> multiset(r)[x] > 0;
      assert x in s <==> multiset(s)[x] > 0;
    }
  }

  /** Every row of a selection satisfies its condition. */
  lemma SelectionHolds<T(!new)>(r: seq<T>, s: seq<T>, p: T -> bool)
    requires IsSelection(r, s, p)
    ensures forall k :: 0 <= k < |r| ==> p(r[k])
  {
    forall k | 0 <= k < |r| ensures p(r[k]) {
      assert multiset(r)[r[k]] > 0;
    }
  }

  /** `SELECT ... WHERE p ORDER BY key ASC`: the selected rows, ascending, ties in table order. */
  function SelectAsc<T(!new)>(s: seq<T>, p: T -> bool, key: T -> int): (r: seq<T>)
    ensures IsSelection(r, s, p)
    ensures SortedBy(r, key)
    ensures forall x :: x in r <==> x in s && p(x)
  {
    var f := Filter(s, p);
    FilterSelects(s, p);
    var r := SortBy(f, key);
    SelectionMembers(r, s, p);
    r
  }

  /** `SELECT ... WHERE p ORDER BY key DESC`. */
  function SelectDesc<T(!new)>(s: seq<T>, p: T -> bool, key: T -> int): (r: seq<T>)
    ensures IsSelection(r, s, p)
    ensures SortedDescBy(r, key)
    ensures forall x :: x in r <==> x in s && p(x)
  {
    var f := Filter(s, p);
    FilterSelects(s, p);
    var r := SortDescBy(f, key);
    SelectionMembers(r, s, p);
    r
  }

  /** Two selections by the same condition have the same size. */
  lemma SelectionLength<T(!new)>(r: seq<T>, s: seq<T>, p: T -> bool)
    requires IsSelection(r, s, p)
    ensures |r| == Count(s, p)
  {
    FilterSelects(s, p);
    assert multiset(r) == multiset(Filter(s, p));
    assert |multiset(r)| == |multiset(Filter(s, p))|;
  }

  /** Two conditions that are each other's negation on `s` split it into parts whose sizes add up. */
  lemma {:induction false} ComplementaryFiltersLength<T(!new)>(s: seq<T>, p: T -> bool, q: T -> bool)
    requires forall i :: 0 <= i < |s| ==> (p(s[i]) <==> !q(s[i]))
    ensures Count(s, p) + Count(s, q) == |s|
    decreases |s|
  {
    if |s| > 0 {
      ComplementaryFiltersLength(s[1..], p, q);
    }
  }

  /** Applying `f` to every element (`array_map`, or picking result columns). */
  function Map<T, U>(s: seq<T>, f: T -> U): (r: seq<U>)
    ensures |r| == |s|
    ensures forall i :: 0 <= i < |s| ==> r[i] == f(s[i])
  {
    seq(|s|, i requires 0 <= i < |s| => f(s[i]))
  }

  /** A selection by a stronger condition is contained, with multiplicity, in one by a weaker condition. */
  lemma SelectionNarrows<T(!new)>(r1: seq<T>, r2: seq<T>, s: seq<T>, p: T -> bool, q: T -> bool)
    requires IsSelection(r1, s, p) && IsSelection(r2, s, q)
    requires forall x :: p(x) ==> q(x)
    ensures multiset(r1) <= multiset(r2)
  {
    forall x ensures multiset(r1)[x] <= multiset(r2)[x] {
    }
  }

  /** Two selections of the same table by equivalent conditions have the same size, whatever order
      each query sorts them in. */
  lemma SelectionsSameSize<T(!new)>(r1: seq<T>, r2: seq<T>, s: seq<T>, p: T -> bool, q: T -> bool)
    requires IsSelection(r1, s, p) && IsSelection(r2, s, q)
    requires forall x :: p(x) <==> q(x)
    ensures |r1| == |r2|
  {
    assert multiset(r1) == multiset(r2) by {
      forall x ensures multiset(r1)[x] == multiset(r2)[x] {
      }
    }
    assert |multiset(r1)| == |multiset(r2)|;
  }

  /** A prefix of `s` holds no element more often than `s` does. */
  lemma TakeMultiset<T>(s: seq<T>, n: nat)
    ensures multiset(Take(s, n)) <= multiset(s)
  {
    if n < |s| {
      assert s == s[..n] + s[n..];
    }
  }

  /** The head of a descending list carries the largest key (`ORDER BY key DESC LIMIT 1`). */
  lemma SortedDescHead<T>(s: seq<T>, key: T -> int)
    requires SortedDescBy(s, key) && |s| > 0
    ensures forall x :: x in s ==> key(x) <= key(s[0])
  {
    forall x | x in s ensures key(x) <= key(s[0]) {
      var k :| 0 <= k < |s| && s[k] == x;
    }
  }

  /** The last element of a descending list carries the smallest key. */
  lemma SortedDescLast<T>(s: seq<T>, key: T -> int)
    requires SortedDescBy(s, key) && |s| > 0
    ensures forall x :: x in s ==> key(s[|s| - 1]) <= key(x)
  {
    forall x | x in s ensures key(s[|s| - 1]) <= key(x) {
      var k :| 0 <= k < |s| && s[k] == x;
    }
  }

  /** Two equally long sequences whose elements agree position by position on `p` have equal counts. */
  lemma {:induction false} CountPointwise<T(!new)>(a: seq<T>, b: seq<T>, p: T -> bool)
    requires |a| == |b|
    requires forall k :: 0 <= k < |a| ==> p(a[k]) == p(b[k])
    ensures Count(a, p) == Count(b, p)
    decreases |a|
  {
    if |a| > 0 {
      CountPointwise(a[1..], b[1..], p);
    }
  }

  /** An element found at two positions occurs at least twice. */
  lemma TwoPositions<T>(s: seq<T>, i: nat, j: nat)
    requires i < j < |s| && s[i] == s[j]
    ensures multiset(s)[s[i]] >= 2
  {
    assert s == s[..j] + s[j..];
    assert s[..j][i] == s[i];
    assert s[j..][0] == s[j];
  }

  /** In an ascending selection, an element held once and strictly above every other selected
      element sits at the end and nowhere else. */
  lemma SelectedMaxIsLast<T(!new)>(r: seq<T>, s: seq<T>, p: T -> bool, key: T -> int, x: T)
    requires IsSelection(r, s, p) && SortedBy(r, key)
    requires x in s && p(x) && multiset(s)[x] == 1
    requires forall y :: y in s && p(y) && y != x ==> key(y) < key(x)
    ensures |r| > 0 && r[|r| - 1] == x
    ensures forall i :: 0 <= i < |r| - 1 ==> r[i] != x
  {
    SelectionMembers(r, s, p);
    assert multiset(r)[x] == 1;
    var k :| 0 <= k < |r| && r[k] == x;
    var last := r[|r| - 1];
    assert last in r;
    assert key(r[k]) <= key(last);
    forall i | 0 <= i < |r| - 1 ensures r[i] != x {
      if r[i] == x {
        TwoPositions(r, i, |r| - 1);
      }
    }
  }
}
