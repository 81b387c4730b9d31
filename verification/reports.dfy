/** The doctor's report page: coverage of six canonical vaccines per child, the children missing
    each vaccine, coverage percentages and averages, and the split of children with and without
    health records. The page lists every child (`Children.ReadAll` without a mother). */
module Reports {
  import opened Wrappers
  import opened Seqs
  import opened Text
  import Php
  import opened Calendar
  import opened Records
  import Immunizations
  import HealthRecords

  /** The six canonical vaccines the report looks for. */
  datatype Vaccine = BCG | HepatitisB | DPT | Polio | Measles | MMR

  /** The text searched for, case-insensitively, in a recorded vaccine name. */
  function Key(v: Vaccine): string {
    match v
    case BCG => "BCG"
    case HepatitisB => "Hepatitis B"
    case DPT => "DPT"
    case Polio => "Polio"
    case Measles => "Measles"
    case MMR => "MMR"
  }

  const Canonical: set<Vaccine> := {BCG, HepatitisB, DPT, Polio, Measles, MMR}

  lemma EveryVaccineCanonical(v: Vaccine)
    ensures v in Canonical
  {
    match v
    case BCG =>
    case HepatitisB =>
    case DPT =>
    case Polio =>
    case Measles =>
    case MMR =>
  }

  /** A recorded name credits a canonical vaccine when it contains its key, ignoring case. */
  predicate Credits(name: string, v: Vaccine) {
    ContainsIgnoringCase(name, Key(v))
  }

  /** The child has some immunization whose name credits `v`. */
  predicate Credited(imms: seq<Immunization>, childId: int, v: Vaccine) {
    exists i :: i in imms && i.childId == childId && Credits(i.vaccineName, v)
  }

  /** The canonical vaccines that one recorded name credits (the inner loop over the six keys). */
  function NameCredits(name: string): (g: set<Vaccine>)
    ensures forall v :: v in g <==> Credits(name, v)
  {
    var g := set v | v in Canonical && Credits(name, v);
    assert forall v :: v in g <==> Credits(name, v) by {
      forall v: Vaccine ensures v in g <==> Credits(name, v) {
        EveryVaccineCanonical(v);
      }
    }
    g
  }

  /** `given_vaccines` for one list of immunizations: every canonical vaccine some name credits. */
  function GivenVaccines(imms: seq<Immunization>): (g: set<Vaccine>)
    ensures forall v :: v in g <==> exists i :: i in imms && Credits(i.vaccineName, v)
    decreases |imms|
  {
    if |imms| == 0 then {}
    else
      assert forall i :: i in imms <==> i == imms[0] || i in imms[1..] by {
        assert imms == [imms[0]] + imms[1..];
      }
      NameCredits(imms[0].vaccineName) + GivenVaccines(imms[1..])
  }

  /** A set of canonical vaccines has at most six members. */
  lemma AtMostSix(g: set<Vaccine>)
    ensures |g| <= 6
  {
    forall v | v in g ensures v in Canonical {
      EveryVaccineCanonical(v);
    }
    assert g <= Canonical;
    assert |Canonical| == 6;
    assert |Canonical| == |g| + |Canonical - g| by {
      assert Canonical == g + (Canonical - g);
    }
  }

  /** One entry of `$vaccinationData`. */
  datatype ChildVaccination = ChildVaccination(
    child: Child, given: set<Vaccine>, total: nat, immunizations: seq<Immunization>)

  /** The entry the outer loop builds for one child: its immunizations (latest first), the set of
      credited vaccines and its size. */
  function ChildEntry(imms: seq<Immunization>, c: Child): (d: ChildVaccination)
    ensures d.child == c
    ensures forall v :: v in d.given <==> Credited(imms, c.childId, v)
    ensures d.total == |d.given| && d.total <= 6
    ensures forall i :: i in d.immunizations <==> i in imms && i.childId == c.childId
  {
    var list := Immunizations.ReadByChild(imms, c.childId);
    SelectionMembers(list, imms, (i: Immunization) => i.childId == c.childId);
    var g := GivenVaccines(list);
    AtMostSix(g);
    ChildVaccination(c, g, |g|, list)
  }

  /** `$vaccinationData`: one entry per listed child, in listing order. */
  function VaccinationData(allChildren: seq<Child>, imms: seq<Immunization>): (r: seq<ChildVaccination>)
    ensures |r| == |allChildren|
    ensures forall k :: 0 <= k < |r| ==> r[k].child == allChildren[k] && r[k].total <= 6
    ensures forall k, v :: 0 <= k < |r| ==> (v in r[k].given <==> Credited(imms, allChildren[k].childId, v))
  {
    Map(allChildren, c => ChildEntry(imms, c))
  }

  /** `$totalVaccinesGiven`: the per-child totals added up. */
  function TotalVaccinesGiven(data: seq<ChildVaccination>): (n: int)
    ensures (forall k :: 0 <= k < |data| ==> data[k].total <= 6) ==> 0 <= n <= 6 * |data|
  {
    var total := (d: ChildVaccination) => d.total;
    if forall k :: 0 <= k < |data| ==> data[k].total <= 6 then
      SumOfBounds(data, total, 0, 6);
      SumOf(data, total)
    else
      SumOf(data, total)
  }

  /** `r` is a whole number of tenths: it has at most one decimal. */
  predicate OneDecimal(r: real) {
    (r * 10.0).Floor as real == r * 10.0
  }

  /** PHP `round($x, 1)`: a multiple of a tenth, within half a tenth of `x`. */
  function RoundTenths(x: real): (r: real)
    ensures OneDecimal(r)
    ensures -(1.0 / 20.0) <= r - x <= 1.0 / 20.0
  {
    var k := Php.Round(x * 10.0);
    assert (k as real / 10.0) * 10.0 == k as real;
    k as real / 10.0
  }

  /** `$averageVaccinesPerChild`: the mean number of canonical vaccines per child to one decimal,
      or 0 for an empty report. */
  function AverageVaccinesPerChild(data: seq<ChildVaccination>): (avg: real)
    ensures |data| == 0 ==> avg == 0.0
    ensures OneDecimal(avg)
    ensures |data| > 0 ==>
      -(1.0 / 20.0) <= avg - TotalVaccinesGiven(data) as real / |data| as real <= 1.0 / 20.0
  {
    if |data| == 0 then 0.0 else RoundTenths(TotalVaccinesGiven(data) as real / |data| as real)
  }

  /** The average of a report whose totals are canonical counts lies between 0 and 6. */
  lemma AverageWithinRange(data: seq<ChildVaccination>)
    requires forall k :: 0 <= k < |data| ==> data[k].total <= 6
    ensures 0.0 <= AverageVaccinesPerChild(data) <= 6.0
  {
    if |data| > 0 {
      var t := TotalVaccinesGiven(data);
      var n := |data|;
      var q := t as real / n as real;
      assert 0.0 <= q <= 6.0 by {
        assert q * n as real == t as real;
        assert t as real <= 6.0 * n as real;
      }
      Php.RoundWithin(q * 10.0, 0, 60);
    }
  }

  /** The entry lists `v` among its given vaccines. */
  function HasVaccine(v: Vaccine): ChildVaccination -> bool {
    (d: ChildVaccination) => v in d.given
  }

  /** The entry does not list `v`: the condition of the missing cohort's `array_filter`. */
  function LacksVaccine(v: Vaccine): ChildVaccination -> bool {
    (d: ChildVaccination) => v !in d.given
  }

  /** `$childrenMissingVaccines[$key]`: the entries that do not list `v` among their given vaccines. */
  function Missing(data: seq<ChildVaccination>, v: Vaccine): (r: seq<ChildVaccination>)
    ensures forall d :: d in r <==> d in data && v !in d.given
    ensures IsSubsequence(r, data)
  {
    FilterIsSubsequence(data, LacksVaccine(v));
    Filter(data, LacksVaccine(v))
  }

  /** `$given` for one vaccine: the children not in its missing cohort. */
  function GivenCount(data: seq<ChildVaccination>, v: Vaccine): (n: int)
    ensures n == Count(data, HasVaccine(v))
    ensures 0 <= n <= |data|
  {
    ComplementaryFiltersLength(data, HasVaccine(v), LacksVaccine(v));
    |data| - |Missing(data, v)|
  }

  /** The covered and the missing children of a vaccine partition the report: every child is in
      exactly one of the two, and their sizes add up to the number of children. */
  lemma CoverageDecomposes(allChildren: seq<Child>, imms: seq<Immunization>, v: Vaccine)
    ensures var data := VaccinationData(allChildren, imms);
      forall k :: 0 <= k < |data| ==>
        (data[k] in Missing(data, v) <==> !Credited(imms, allChildren[k].childId, v))
    ensures var data := VaccinationData(allChildren, imms);
      GivenCount(data, v) + |Missing(data, v)| == |allChildren|
  {
    var data := VaccinationData(allChildren, imms);
    forall k | 0 <= k < |data|
      ensures data[k] in Missing(data, v) <==> !Credited(imms, allChildren[k].childId, v)
    {
      assert data[k] in data;
    }
  }

  /** A share of a whole as a rounded percentage, 0 for an empty whole (`!empty(...) ? round(...) : 0`). */
  function Percent(part: nat, whole: nat): (p: int)
    requires part <= whole
    ensures whole == 0 ==> p == 0
    ensures 0 <= p <= 100
    ensures whole > 0 ==>
      -(1.0 / 2.0) <= p as real - part as real / whole as real * 100.0 <= 1.0 / 2.0
  {
    if whole == 0 then 0
    else
      var q := part as real / whole as real;
      assert q <= 1.0 by {
        assert q * whole as real == part as real;
      }
      Php.RoundWithin(q * 100.0, 0, 100);
      Php.Round(q * 100.0)
  }

  /** All of the whole is 100 percent; none of it is 0 percent. */
  lemma PercentExtremes(whole: nat)
    requires whole > 0
    ensures Percent(whole, whole) == 100 && Percent(0, whole) == 0
  {
    assert whole as real / whole as real == 1.0;
  }

  /** The coverage percentage of one vaccine among the listed children. */
  function CoveragePercent(data: seq<ChildVaccination>, v: Vaccine): (p: int)
    ensures |data| == 0 ==> p == 0
    ensures 0 <= p <= 100
    ensures |data| > 0 ==>
      -(1.0 / 2.0) <= p as real - GivenCount(data, v) as real / |data| as real * 100.0 <= 1.0 / 2.0
  {
    Percent(GivenCount(data, v), |data|)
  }

  /** Every child is covered: the percentage is 100. No child is covered: it is 0. */
  lemma FullAndNoCoverage(data: seq<ChildVaccination>, v: Vaccine)
    requires |data| > 0
    ensures (forall k :: 0 <= k < |data| ==> v in data[k].given) ==> CoveragePercent(data, v) == 100
    ensures (forall k :: 0 <= k < |data| ==> v !in data[k].given) ==> CoveragePercent(data, v) == 0
  {
    if forall k :: 0 <= k < |data| ==> v in data[k].given {
      FullCoverage(data, v);
    }
    if forall k :: 0 <= k < |data| ==> v !in data[k].given {
      NoCoverage(data, v);
    }
  }

  lemma FullCoverage(data: seq<ChildVaccination>, v: Vaccine)
    requires |data| > 0
    requires forall k :: 0 <= k < |data| ==> v in data[k].given
    ensures CoveragePercent(data, v) == 100
  {
    PercentExtremes(|data|);
    FilterAll(data, HasVaccine(v));
  }

  lemma NoCoverage(data: seq<ChildVaccination>, v: Vaccine)
    requires |data| > 0
    requires forall k :: 0 <= k < |data| ==> v !in data[k].given
    ensures CoveragePercent(data, v) == 0
  {
    PercentExtremes(|data|);
    FilterAll(data, LacksVaccine(v));
    ComplementaryFiltersLength(data, HasVaccine(v), LacksVaccine(v));
  }

  /** The child has at least one health record (`!empty($records)`). */
  predicate HasRecords(records: seq<HealthRecord>, c: Child) {
    |HealthRecords.ReadByChild(records, c.childId)| > 0
  }

  function WithRecords(records: seq<HealthRecord>): Child -> bool {
    c => HasRecords(records, c)
  }

  function WithoutRecords(records: seq<HealthRecord>): Child -> bool {
    c => !HasRecords(records, c)
  }

  /** Having records means a row of the table carries the child's id. */
  lemma HasRecordsIffRow(records: seq<HealthRecord>, c: Child)
    ensures HasRecords(records, c) <==> exists h :: h in records && h.childId == c.childId
  {
    var r := HealthRecords.ReadByChild(records, c.childId);
    if h :| h in records && h.childId == c.childId {
      assert h in r;
    }
    if |r| > 0 {
      assert r[0] in r;
    }
  }

  /** `$childrenNoRecords`: the listed children with no health record, in listing order. */
  function ChildrenNoRecords(allChildren: seq<Child>, records: seq<HealthRecord>): (r: seq<Child>)
    ensures forall c :: c in r <==> c in allChildren && !HasRecords(records, c)
    ensures IsSubsequence(r, allChildren)
  {
    FilterIsSubsequence(allChildren, WithoutRecords(records));
    Filter(allChildren, WithoutRecords(records))
  }

  /** The loop that counts `$childrenWithRecords` and `$childrenWithoutRecords`. The two counts add
      up to the number of children, and the second is the size of the no-records list the page
      builds separately. */
  method RecordCoverage(allChildren: seq<Child>, records: seq<HealthRecord>)
    returns (withRecords: nat, withoutRecords: nat)
    ensures withRecords == Count(allChildren, WithRecords(records))
    ensures withoutRecords == |ChildrenNoRecords(allChildren, records)|
    ensures withRecords + withoutRecords == |allChildren|
  {
    withRecords, withoutRecords := Tally(allChildren, WithRecords(records), WithoutRecords(records));
  }

  /** The "Last Vaccine" cell as written: `end()` of the child's immunizations, which the model
      returns newest first, so the cell shows the date of the EARLIEST dose. */
  function LastVaccineAsWritten(imms: seq<Immunization>, childId: int): (r: Option<Date>)
    ensures r.None? <==> forall i :: i in imms ==> i.childId != childId
    ensures r.Some? ==> exists i :: i in imms && i.childId == childId && i.dateGiven == r.value
    ensures r.Some? ==> forall i :: i in imms && i.childId == childId ==> r.value <= i.dateGiven
  {
    var list := Immunizations.ReadByChild(imms, childId);
    SelectionMembers(list, imms, (i: Immunization) => i.childId == childId);
    if |list| == 0 then None
    else
      SortedDescLast(list, (i: Immunization) => i.dateGiven);
      assert list[|list| - 1] in list;
      Some(list[|list| - 1].dateGiven)
  }

  /** The "Last Vaccine" cell as intended: the head of the newest-first list, the latest dose. */
  function LastVaccine(imms: seq<Immunization>, childId: int): (r: Option<Date>)
    ensures r.None? <==> forall i :: i in imms ==> i.childId != childId
    ensures r.Some? ==> exists i :: i in imms && i.childId == childId && i.dateGiven == r.value
    ensures r.Some? ==> forall i :: i in imms && i.childId == childId ==> i.dateGiven <= r.value
  {
    var list := Immunizations.ReadByChild(imms, childId);
    SelectionMembers(list, imms, (i: Immunization) => i.childId == childId);
    if |list| == 0 then None
    else
      SortedDescHead(list, (i: Immunization) => i.dateGiven);
      assert list[0] in list;
      Some(list[0].dateGiven)
  }

  /** As soon as a child has doses on two different days, the cell as written shows an older date
      than the latest dose. */
  lemma LastVaccineShowsEarliest(imms: seq<Immunization>, childId: int, a: Immunization, b: Immunization)
    requires a in imms && b in imms && a.childId == childId && b.childId == childId
    requires a.dateGiven < b.dateGiven
    ensures LastVaccineAsWritten(imms, childId).Some? && LastVaccine(imms, childId).Some?
    ensures LastVaccineAsWritten(imms, childId).value < LastVaccine(imms, childId).value
  {
    var w := LastVaccineAsWritten(imms, childId);
    var l := LastVaccine(imms, childId);
    assert w.value <= a.dateGiven;
    assert b.dateGiven <= l.value;
  }

  /** Coverage and `vaccineExists` disagree: a dose recorded as "BCG vaccine" credits BCG in the
      report, while the exact-name check finds no "BCG". */
  lemma CoverageIsNotExactMatch()
    ensures var imms := [Immunization(1, 7, "BCG vaccine", 100, None)];
      Credited(imms, 7, BCG) && !Immunizations.VaccineExists(imms, 7, "BCG")
  {
    var imms := [Immunization(1, 7, "BCG vaccine", 100, None)];
    var low := Lower("BCG vaccine");
    assert low[..3] == "bcg";
    assert Lower(Key(BCG)) == "bcg";
    assert Credits(imms[0].vaccineName, BCG);
    assert imms[0] in imms;
  }

  /** One recorded name can credit several canonical vaccines: "Measles MMR" credits both. */
  lemma OneNameTwoVaccines()
    ensures {Measles, MMR} <= NameCredits("Measles MMR")
  {
    var name := "Measles MMR";
    var low := Lower(name);
    assert low[..7] == "measles";
    assert Lower(Key(Measles)) == "measles";
    assert Credits(name, Measles);
    assert low[8..11] == "mmr";
    assert Lower(Key(MMR)) == "mmr";
    ContainsIffOccurs(low, "mmr");
    assert OccursAt(low, "mmr", 8);
    assert Credits(name, MMR);
  }
}
