/** The child health-record store: a child's history and growth trend, the latest record, the
    date-range listing, the limited listing, the six-column update, the dashboard statistics
    and the one-record-per-day check. */
module HealthRecords {
  import opened Wrappers
  import opened Seqs
  import opened Calendar
  import opened Records

  function RecordDate(h: HealthRecord): int {
    h.recordDate
  }

  /** `readByChild`: the child's records, most recent first. */
  function ReadByChild(records: seq<HealthRecord>, childId: int): (r: seq<HealthRecord>)
    ensures IsSelection(r, records, (h: HealthRecord) => h.childId == childId)
    ensures SortedDescBy(r, RecordDate)
    ensures forall h :: h in r <==> h in records && h.childId == childId
  {
    SelectDesc(records, (h: HealthRecord) => h.childId == childId, RecordDate)
  }

  /** `readAll`: every record, most recent first, cut to `limit` rows when a non-zero limit is given. */
  function ReadAll(records: seq<HealthRecord>, limit: Option<nat>): (r: seq<HealthRecord>)
    ensures SortedDescBy(r, RecordDate)
    ensures multiset(r) <= multiset(records)
    ensures limit.Some? && limit.value != 0 ==> |r| == if limit.value < |records| then limit.value else |records|
    ensures limit.None? || limit.value == 0 ==> multiset(r) == multiset(records)
  {
    var all := SortDescBy(records, RecordDate);
    if limit.Some? && limit.value != 0 then
      TakeMultiset(all, limit.value);
      Take(all, limit.value)
    else all
  }

  /** A limited listing is the head of the unlimited one. */
  lemma LimitIsPrefix(records: seq<HealthRecord>, n: nat)
    ensures ReadAll(records, Some(n)) == ReadAll(records, None)[..|ReadAll(records, Some(n))|]
  {
  }

  /** `update`: the row with that id takes the new weight, height, nutrition status, vaccinations,
      notes and date; its id and child stay, and every other row is untouched. */
  function Update(records: seq<HealthRecord>, upd: HealthRecord): (r: seq<HealthRecord>)
    ensures |r| == |records|
    ensures forall k :: 0 <= k < |r| && records[k].recordId != upd.recordId ==> r[k] == records[k]
    ensures forall k :: 0 <= k < |r| && records[k].recordId == upd.recordId ==>
      r[k] == upd.(childId := records[k].childId)
  {
    seq(|records|, k requires 0 <= k < |records| =>
      var h := records[k];
      if h.recordId == upd.recordId then
        h.(weight := upd.weight, height := upd.height, nutritionStatus := upd.nutritionStatus,
           vaccinations := upd.vaccinations, doctorNotes := upd.doctorNotes, recordDate := upd.recordDate)
      else h)
  }

  /** No update moves a record to another child or changes any record id; updating twice with the
      same values is updating once. */
  lemma UpdateKeepsOwnership(records: seq<HealthRecord>, upd: HealthRecord)
    ensures forall k :: 0 <= k < |records| ==>
      Update(records, upd)[k].childId == records[k].childId && Update(records, upd)[k].recordId == records[k].recordId
    ensures Update(Update(records, upd), upd) == Update(records, upd)
  {
  }

  /** `getLatestRecord`: a record of the child carrying its latest date, or none when it has no
      records (which of several same-day records is returned is not fixed). */
  function GetLatestRecord(records: seq<HealthRecord>, childId: int): (r: Option<HealthRecord>)
    ensures r.None? <==> forall h :: h in records ==> h.childId != childId
    ensures r.Some? ==> r.value in records && r.value.childId == childId
    ensures r.Some? ==> forall h :: h in records && h.childId == childId ==> h.recordDate <= r.value.recordDate
  {
    var rs := ReadByChild(records, childId);
    if |rs| == 0 then None
    else
      SortedDescHead(rs, RecordDate);
      Some(rs[0])
  }

  /** A point of the growth chart. */
  datatype TrendPoint = TrendPoint(recordDate: Date, weight: real, height: real)

  function Point(h: HealthRecord): TrendPoint {
    TrendPoint(h.recordDate, h.weight, h.height)
  }

  /** The child's records, oldest first; the rows behind the growth trend. */
  function TrendRows(records: seq<HealthRecord>, childId: int): (r: seq<HealthRecord>)
    ensures IsSelection(r, records, (h: HealthRecord) => h.childId == childId)
    ensures SortedBy(r, RecordDate)
    ensures forall h :: h in r <==> h in records && h.childId == childId
  {
    SelectAsc(records, (h: HealthRecord) => h.childId == childId, RecordDate)
  }

  /** `getGrowthTrend`: the date, weight and height of each of the child's records, oldest first. */
  function GetGrowthTrend(records: seq<HealthRecord>, childId: int): (r: seq<TrendPoint>)
    ensures |r| == Count(records, (h: HealthRecord) => h.childId == childId)
    ensures forall i, j :: 0 <= i < j < |r| ==> r[i].recordDate <= r[j].recordDate
  {
    var sel := TrendRows(records, childId);
    SelectionLength(sel, records, (h: HealthRecord) => h.childId == childId);
    var r := Map(sel, Point);
    assert forall k :: 0 <= k < |r| ==> r[k].recordDate == RecordDate(sel[k]);
    r
  }

  /** Every trend point is read from one of the child's records, and every record gives a point. */
  lemma TrendPointsAreRecords(records: seq<HealthRecord>, childId: int)
    ensures forall p :: p in GetGrowthTrend(records, childId)
                        <==> exists h :: h in records && h.childId == childId && Point(h) == p
  {
    var sel := TrendRows(records, childId);
    var r := GetGrowthTrend(records, childId);
    assert r == Map(sel, Point);
    forall p | p in r ensures exists h :: h in records && h.childId == childId && Point(h) == p {
      var k :| 0 <= k < |r| && r[k] == p;
      assert sel[k] in sel;
    }
    forall h | h in records && h.childId == childId ensures Point(h) in r {
      var k :| 0 <= k < |sel| && sel[k] == h;
      assert r[k] == Point(h);
    }
  }

  /** The trend and the history list the same number of records. */
  lemma TrendMatchesHistory(records: seq<HealthRecord>, childId: int)
    ensures |GetGrowthTrend(records, childId)| == |ReadByChild(records, childId)|
  {
    SelectionLength(ReadByChild(records, childId), records, (h: HealthRecord) => h.childId == childId);
  }

  predicate InRange(childId: int, start: Date, end: Date, h: HealthRecord) {
    h.childId == childId && start <= h.recordDate <= end
  }

  /** `getRecordsByDateRange`: the child's records dated from `start` to `end`, both included,
      most recent first. */
  function GetRecordsByDateRange(records: seq<HealthRecord>, childId: int, start: Date, end: Date): (r: seq<HealthRecord>)
    ensures IsSelection(r, records, h => InRange(childId, start, end, h))
    ensures SortedDescBy(r, RecordDate)
    ensures forall h :: h in r <==> h in records && h.childId == childId && start <= h.recordDate <= end
  {
    SelectDesc(records, h => InRange(childId, start, end, h), RecordDate)
  }

  /** The range listing is part of the child's history, and is empty when the range is reversed. */
  lemma DateRangeWithinHistory(records: seq<HealthRecord>, childId: int, start: Date, end: Date)
    ensures multiset(GetRecordsByDateRange(records, childId, start, end)) <= multiset(ReadByChild(records, childId))
    ensures start > end ==> GetRecordsByDateRange(records, childId, start, end) == []
  {
    SelectionNarrows(GetRecordsByDateRange(records, childId, start, end), ReadByChild(records, childId), records,
                     h => InRange(childId, start, end, h), (h: HealthRecord) => h.childId == childId);
  }

  /** The dashboard aggregates; the averages are NULL over an empty table. */
  datatype HealthStats = HealthStats(
    totalRecords: nat, childrenMonitored: nat, avgWeight: Option<real>, avgHeight: Option<real>)

  /** `AVG` over a column: NULL for no rows, otherwise the sum divided by the row count. */
  function Average(records: seq<HealthRecord>, f: HealthRecord -> real): (a: Option<real>)
    ensures a.None? <==> |records| == 0
  {
    if |records| == 0 then None else Some(SumReal(records, f) / |records| as real)
  }

  /** An average lies between any bounds of the values averaged. */
  lemma AverageBounds(records: seq<HealthRecord>, f: HealthRecord -> real, lo: real, hi: real)
    requires |records| > 0
    requires forall h :: h in records ==> lo <= f(h) <= hi
    ensures lo <= Average(records, f).value <= hi
  {
    assert forall i :: 0 <= i < |records| ==> records[i] in records;
    SumRealBounds(records, f, lo, hi);
    RealMeanWithin(SumReal(records, f), |records| as real, lo, hi);
  }

  /** `getStatistics`: a child is counted as monitored once however many records it has, so no more
      children than records; each average lies between the smallest and largest value. */
  function GetStatistics(records: seq<HealthRecord>): (st: HealthStats)
    ensures st.totalRecords == |records|
    ensures st.childrenMonitored <= st.totalRecords
    ensures st.childrenMonitored == |Image(records, (h: HealthRecord) => h.childId)|
    ensures st.avgWeight.None? <==> |records| == 0
    ensures st.avgHeight.None? <==> |records| == 0
  {
    HealthStats(|records|, |Image(records, (h: HealthRecord) => h.childId)|,
                Average(records, (h: HealthRecord) => h.weight), Average(records, (h: HealthRecord) => h.height))
  }

  predicate SameDayClash(childId: int, date: Date, exclude: Option<int>, h: HealthRecord) {
    h.childId == childId && h.recordDate == date && (!Given(exclude) || h.recordId != exclude.value)
  }

  /** `recordExistsForDate`: whether the child has a record on that date other than the excluded
      one; an exclusion of 0 or none excludes nothing. */
  function RecordExistsForDate(records: seq<HealthRecord>, childId: int, date: Date, exclude: Option<int>): (b: bool)
    ensures b <==> exists h :: h in records && h.childId == childId && h.recordDate == date
                              && (exclude.None? || exclude.value == 0 || h.recordId != exclude.value)
  {
    var hits := Filter(records, h => SameDayClash(childId, date, exclude, h));
    if |hits| > 0 then
      assert hits[0] in hits;
      true
    else false
  }

  /** A zero exclusion is no exclusion, and without one the check agrees with the child's history. */
  lemma ExistsForDateAgreesWithHistory(records: seq<HealthRecord>, childId: int, date: Date)
    ensures RecordExistsForDate(records, childId, date, Some(0)) == RecordExistsForDate(records, childId, date, None)
    ensures RecordExistsForDate(records, childId, date, None)
        <==> exists h :: h in ReadByChild(records, childId) && h.recordDate == date
  {
  }
}
