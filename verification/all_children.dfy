/** The doctor's list of all children: a name search or the full listing, narrowed by an optional
    gender and an optional age band, with the counts and average age shown above the list. */
module AllChildren {
  import opened Wrappers
  import opened Seqs
  import opened Records
  import Php
  import Children

  /** The values the age-band select submits, plus every other value, which filters nothing. */
  datatype AgeBand = UpToSix | SevenToTwelve | ThirteenToTwentyFour | TwentyFivePlus | AnyAge

  function ParseAgeBand(s: string): (b: AgeBand)
    ensures b == UpToSix <==> s == "0-6"
    ensures b == SevenToTwelve <==> s == "7-12"
    ensures b == ThirteenToTwentyFour <==> s == "13-24"
    ensures b == TwentyFivePlus <==> s == "25+"
  {
    if s == "0-6" then UpToSix
    else if s == "7-12" then SevenToTwelve
    else if s == "13-24" then ThirteenToTwentyFour
    else if s == "25+" then TwentyFivePlus
    else AnyAge
  }

  /** The `switch` inside the age filter's callback. */
  predicate InBand(b: AgeBand, months: int) {
    match b
    case UpToSix => months <= 6
    case SevenToTwelve => 7 <= months <= 12
    case ThirteenToTwentyFour => 13 <= months <= 24
    case TwentyFivePlus => months >= 25
    case AnyAge => true
  }

  /** The band a month count falls in; negative counts land in the first band. */
  function BandOf(months: int): (b: AgeBand)
    ensures b != AnyAge && InBand(b, months)
  {
    if months <= 6 then UpToSix
    else if months <= 12 then SevenToTwelve
    else if months <= 24 then ThirteenToTwentyFour
    else TwentyFivePlus
  }

  /** The four named bands cover every month count and do not overlap: a count lies in a named
      band exactly when that band is its `BandOf`. */
  lemma BandsPartition(months: int, b: AgeBand)
    requires b != AnyAge
    ensures InBand(b, months) <==> b == BandOf(months)
  {
  }

  /** The list before filtering: the name search for a non-empty term, otherwise every child
      (`$_GET['search'] ?? ''` and `!empty(...)`). */
  function Listing(children: seq<Child>, search: Option<string>): (r: seq<Child>)
    ensures Php.EmptyOpt(search) ==> multiset(r) == multiset(children)
    ensures Php.EmptyOpt(search) ==> SortedDescBy(r, Children.CreatedAt)
    ensures !Php.EmptyOpt(search) ==> r == Children.Search(children, search.value, None)
  {
    if Php.EmptyOpt(search) then
      Children.ReadAllFalsyIsEverything(children, None);
      Children.ReadAll(children, None)
    else Children.Search(children, search.value, None)
  }

  function GenderIs(gender: string): Child -> bool {
    (c: Child) => c.gender == gender
  }

  function AgeIn(b: AgeBand): Child -> bool {
    (c: Child) => InBand(b, c.ageMonths)
  }

  function GenderAndAge(gender: string, b: AgeBand): Child -> bool {
    (c: Child) => c.gender == gender && InBand(b, c.ageMonths)
  }

  /** The gender filter; an empty (or missing) value keeps every child. */
  function GenderFilter(list: seq<Child>, gender: Option<string>): (r: seq<Child>)
    ensures IsSubsequence(r, list)
    ensures forall c :: c in r <==> c in list && (Php.EmptyOpt(gender) || c.gender == gender.value)
  {
    if Php.EmptyOpt(gender) then
      FilterAll(list, (c: Child) => true);
      FilterIsSubsequence(list, (c: Child) => true);
      list
    else
      FilterIsSubsequence(list, GenderIs(gender.value));
      Filter(list, GenderIs(gender.value))
  }

  /** The age filter; an empty value keeps every child, and so does a value that names no band. */
  function AgeFilter(list: seq<Child>, age: Option<string>): (r: seq<Child>)
    ensures IsSubsequence(r, list)
    ensures forall c :: c in r <==> c in list && (Php.EmptyOpt(age) || InBand(ParseAgeBand(age.value), c.ageMonths))
  {
    if Php.EmptyOpt(age) then
      FilterAll(list, (c: Child) => true);
      FilterIsSubsequence(list, (c: Child) => true);
      list
    else
      FilterIsSubsequence(list, AgeIn(ParseAgeBand(age.value)));
      Filter(list, AgeIn(ParseAgeBand(age.value)))
  }

  /** An age value that names no band filters nothing. */
  lemma UnknownBandKeepsAll(list: seq<Child>, age: string)
    requires age !in {"0-6", "7-12", "13-24", "25+"}
    ensures AgeFilter(list, Some(age)) == list
  {
    if !Php.Empty(age) {
      FilterAll(list, AgeIn(ParseAgeBand(age)));
    }
  }

  /** The two filters can be applied in either order. */
  lemma {:induction false} FiltersCommute(list: seq<Child>, gender: Option<string>, age: Option<string>)
    ensures AgeFilter(GenderFilter(list, gender), age) == GenderFilter(AgeFilter(list, age), gender)
  {
    if !Php.EmptyOpt(gender) && !Php.EmptyOpt(age) {
      FilterCommutes(list, GenderIs(gender.value), AgeIn(ParseAgeBand(age.value)));
    }
  }

  /** `$children` after the search and both filters. */
  function Page(children: seq<Child>, search: Option<string>, gender: Option<string>, age: Option<string>)
    : (r: seq<Child>)
    ensures forall c :: c in r <==>
      c in Listing(children, search)
      && (Php.EmptyOpt(gender) || c.gender == gender.value)
      && (Php.EmptyOpt(age) || InBand(ParseAgeBand(age.value), c.ageMonths))
  {
    AgeFilter(GenderFilter(Listing(children, search), gender), age)
  }

  /** The filters only delete children from the listing: what remains keeps its relative order. */
  lemma PageOnlyRemoves(children: seq<Child>, search: Option<string>, gender: Option<string>, age: Option<string>)
    ensures IsSubsequence(Page(children, search, gender, age), Listing(children, search))
  {
    var l := Listing(children, search);
    if !Php.EmptyOpt(gender) && !Php.EmptyOpt(age) {
      var b := ParseAgeBand(age.value);
      FilterFilterAs(l, GenderIs(gender.value), AgeIn(b), GenderAndAge(gender.value, b));
      FilterIsSubsequence(l, GenderAndAge(gender.value, b));
    }
  }

  /** The male and female tiles: two disjoint counts, so together at most the list size. */
  function GenderCounts(list: seq<Child>): (counts: (nat, nat))
    ensures counts.0 == Count(list, GenderIs("male"))
    ensures counts.1 == Count(list, GenderIs("female"))
    ensures counts.0 + counts.1 <= |list|
  {
    DisjointFiltersLength(list, GenderIs("male"), GenderIs("female"));
    (|Filter(list, GenderIs("male"))|, |Filter(list, GenderIs("female"))|)
  }

  function AgeMonths(c: Child): int {
    c.ageMonths
  }

  /** The average-age tile: the rounded mean of `age_months`, or 0 for an empty list. */
  function AverageAge(list: seq<Child>): (avg: int)
    ensures |list| == 0 ==> avg == 0
    ensures |list| > 0 ==>
      -(1.0 / 2.0) <= avg as real - SumOf(list, AgeMonths) as real / |list| as real <= 1.0 / 2.0
  {
    if |list| == 0 then 0 else Php.Round(SumOf(list, AgeMonths) as real / |list| as real)
  }

  /** The average of ages that all lie in `lo..hi` lies in `lo..hi` too. */
  lemma AverageAgeWithin(list: seq<Child>, lo: int, hi: int)
    requires |list| > 0
    requires forall i :: 0 <= i < |list| ==> lo <= list[i].ageMonths <= hi
    ensures lo <= AverageAge(list) <= hi
  {
    var n := |list|;
    var s := SumOf(list, AgeMonths);
    SumOfBounds(list, AgeMonths, lo, hi);
    Php.MeanWithin(s, n, lo, hi);
    var q := s as real / n as real;
    Php.RoundWithin(q, lo, hi);
  }
}
