/** The mother health-record store: a mother's history, the joined listing with optional type and
    mother filters, the update, the latest record, the chart trend, the upcoming check-ups and the
    per-type statistics. */
module MotherRecords {
  import opened Wrappers
  import opened Seqs
  import opened Calendar
  import opened Records
  import opened Php

  function RecordDate(m: MotherRecord): int {
    m.recordDate
  }

  /** `readByMother`: the mother's records, most recent first. */
  function ReadByMother(records: seq<MotherRecord>, motherId: int): (r: seq<MotherRecord>)
    ensures IsSelection(r, records, (m: MotherRecord) => m.motherId == motherId)
    ensures SortedDescBy(r, RecordDate)
    ensures forall m :: m in r <==> m in records && m.motherId == motherId
  {
    SelectDesc(records, (m: MotherRecord) => m.motherId == motherId, RecordDate)
  }

  /** The inner join with `users`: a record whose mother has no user row is never listed. */
  predicate Joined(users: seq<User>, m: MotherRecord) {
    FindUser(users, m.motherId).Some?
  }

  predicate ReadAllCond(users: seq<User>, recordType: Option<string>, motherId: Option<int>, m: MotherRecord) {
    Joined(users, m)
    && (EmptyOpt(recordType) || m.recordType == recordType.value)
    && (!Given(motherId) || m.motherId == motherId.value)
  }

  /** `readAll`: the records of users that exist, of the given type and mother when those are given,
      most recent first. */
  function ReadAll(records: seq<MotherRecord>, users: seq<User>, recordType: Option<string>,
                   motherId: Option<int>): (r: seq<MotherRecord>)
    ensures IsSelection(r, records, m => ReadAllCond(users, recordType, motherId, m))
    ensures SortedDescBy(r, RecordDate)
    ensures forall m :: m in r <==> m in records && ReadAllCond(users, recordType, motherId, m)
  {
    SelectDesc(records, m => ReadAllCond(users, recordType, motherId, m), RecordDate)
  }

  /** The two filters are conjunctive: a record is listed under both exactly when it is listed under
      each one alone. */
  lemma ReadAllFiltersConjoin(records: seq<MotherRecord>, users: seq<User>, recordType: Option<string>,
                              motherId: Option<int>)
    ensures forall m :: m in ReadAll(records, users, recordType, motherId)
                        <==> m in ReadAll(records, users, recordType, None) && m in ReadAll(records, users, None, motherId)
  {
  }

  /** `update`: the row with that id takes every submitted column; its mother and id never change
      and every other row is untouched. */
  function Update(records: seq<MotherRecord>, upd: MotherRecord): (r: seq<MotherRecord>)
    ensures |r| == |records|
    ensures forall k :: 0 <= k < |r| && records[k].recordId != upd.recordId ==> r[k] == records[k]
    ensures forall k :: 0 <= k < |r| && records[k].recordId == upd.recordId ==>
      r[k] == upd.(motherId := records[k].motherId)
  {
    seq(|records|, k requires 0 <= k < |records| =>
      if records[k].recordId == upd.recordId then upd.(motherId := records[k].motherId) else records[k])
  }

  /** No update moves a record between mothers, so every mother keeps as many records. */
  lemma UpdateKeepsMother(records: seq<MotherRecord>, upd: MotherRecord, motherId: int)
    ensures forall k :: 0 <= k < |records| ==> Update(records, upd)[k].motherId == records[k].motherId
    ensures |ReadByMother(Update(records, upd), motherId)| == |ReadByMother(records, motherId)|
  {
    var r := Update(records, upd);
    var p := (m: MotherRecord) => m.motherId == motherId;
    CountPointwise(r, records, p);
    SelectionLength(ReadByMother(r, motherId), r, p);
    SelectionLength(ReadByMother(records, motherId), records, p);
  }

  /** `getLatestRecord`: a record of the mother with her latest date, or none when she has none. */
  function GetLatestRecord(records: seq<MotherRecord>, motherId: int): (r: Option<MotherRecord>)
    ensures r.None? <==> forall m :: m in records ==> m.motherId != motherId
    ensures r.Some? ==> r.value in records && r.value.motherId == motherId
    ensures r.Some? ==> forall m :: m in records && m.motherId == motherId ==> m.recordDate <= r.value.recordDate
  {
    var rs := ReadByMother(records, motherId);
    if |rs| == 0 then None
    else
      SortedDescHead(rs, RecordDate);
      Some(rs[0])
  }

  /** The mother's records, oldest first: the rows the trend query sorts before its limit. */
  function TrendRows(records: seq<MotherRecord>, motherId: int): (r: seq<MotherRecord>)
    ensures IsSelection(r, records, (m: MotherRecord) => m.motherId == motherId)
    ensures SortedBy(r, RecordDate)
  {
    SelectAsc(records, (m: MotherRecord) => m.motherId == motherId, RecordDate)
  }

  function Min(a: nat, b: nat): nat {
    if a < b then a else b
  }

  /** `getHealthTrend` as written: ascending by date, then `LIMIT`, so it yields the OLDEST `limit`
      records: nothing it returns is later than a record it leaves out. */
  function HealthTrendAsWritten(records: seq<MotherRecord>, motherId: int, limit: nat): (r: seq<MotherRecord>)
    ensures |r| == Min(limit, |TrendRows(records, motherId)|)
    ensures r == TrendRows(records, motherId)[..|r|]
    ensures var all := TrendRows(records, motherId);
      forall i, j :: 0 <= i < |r| <= j < |all| ==> RecordDate(all[i]) <= RecordDate(all[j])
  {
    var all := TrendRows(records, motherId);
    var n := Min(limit, |all|);
    SortedSplit(all, n, RecordDate);
    all[..n]
  }

  /** The trend the documentation describes: the most recent `limit` records, still oldest first:
      nothing it returns is earlier than a record it leaves out. */
  function RecentHealthTrend(records: seq<MotherRecord>, motherId: int, limit: nat): (r: seq<MotherRecord>)
    ensures |r| == Min(limit, |TrendRows(records, motherId)|)
    ensures var all := TrendRows(records, motherId); r == all[|all| - |r|..]
    ensures SortedBy(r, RecordDate)
    ensures var all := TrendRows(records, motherId);
      forall i, j :: 0 <= i < |all| - |r| <= j < |all| ==> RecordDate(all[i]) <= RecordDate(all[j])
  {
    var all := TrendRows(records, motherId);
    var n := Min(limit, |all|);
    SortedSplit(all, |all| - n, RecordDate);
    all[|all| - n..]
  }

  /** When the mother has more records than the limit and one record of hers, held once, is strictly
      newer than all her others, the trend as written leaves that record out and the intended trend
      keeps it. */
  lemma TrendAsWrittenDropsNewest(records: seq<MotherRecord>, motherId: int, limit: nat, newest: MotherRecord)
    requires newest in records && newest.motherId == motherId && multiset(records)[newest] == 1
    requires forall m :: m in records && m.motherId == motherId && m != newest ==> m.recordDate < newest.recordDate
    requires limit >= 1 && Count(records, (m: MotherRecord) => m.motherId == motherId) > limit
    ensures newest !in HealthTrendAsWritten(records, motherId, limit)
    ensures newest in RecentHealthTrend(records, motherId, limit)
  {
    var all := TrendRows(records, motherId);
    var p := (m: MotherRecord) => m.motherId == motherId;
    SelectionLength(all, records, p);
    SelectedMaxIsLast(all, records, p, RecordDate, newest);
    OnlyLastMissesPrefix(all, limit, newest);
  }

  /** When `x` sits only at the end of `all` and the limit is below its length, the first `limit`
      elements miss `x` and the last `limit` elements hold it. */
  lemma OnlyLastMissesPrefix(all: seq<MotherRecord>, limit: nat, x: MotherRecord)
    requires 1 <= limit < |all| && all[|all| - 1] == x
    requires forall i :: 0 <= i < |all| - 1 ==> all[i] != x
    ensures x !in Take(all, limit)
    ensures x in all[|all| - Min(limit, |all|)..]
  {
    var r := Take(all, limit);
    assert forall i :: 0 <= i < |r| ==> r[i] == all[i];
    var c := all[|all| - limit..];
    assert c[|c| - 1] == x;
  }

  predicate CheckupCond(users: seq<User>, today: Date, daysAhead: int, m: MotherRecord) {
    Joined(users, m) && m.nextCheckup.Some? && today <= m.nextCheckup.value <= today + daysAhead
  }

  function CheckupDay(m: MotherRecord): int {
    m.nextCheckup.GetOr(0)
  }

  /** `getUpcomingCheckups`: records of existing users whose next check-up falls from today to
      `daysAhead` days ahead, both ends included, soonest first. */
  function GetUpcomingCheckups(records: seq<MotherRecord>, users: seq<User>, today: Date, daysAhead: int): (r: seq<MotherRecord>)
    ensures IsSelection(r, records, m => CheckupCond(users, today, daysAhead, m))
    ensures SortedBy(r, CheckupDay)
    ensures forall m :: m in r ==> m.nextCheckup.Some? && today <= m.nextCheckup.value <= today + daysAhead
  {
    var r := SelectAsc(records, m => CheckupCond(users, today, daysAhead, m), CheckupDay);
    r
  }

  /** The check-up window with its default length of seven days. */
  function GetUpcomingCheckupsDefault(records: seq<MotherRecord>, users: seq<User>, today: Date): (r: seq<MotherRecord>)
    ensures forall m :: m in r <==> m in records && Joined(users, m) && m.nextCheckup.Some?
                                     && today <= m.nextCheckup.value <= today + 7
  {
    GetUpcomingCheckups(records, users, today, 7)
  }

  /** One group of `GROUP BY record_type`. */
  datatype TypeStats = TypeStats(count: nat, uniqueMothers: nat)

  function OfType(records: seq<MotherRecord>, t: string): seq<MotherRecord> {
    Filter(records, (m: MotherRecord) => m.recordType == t)
  }

  /** The distinct mothers with a record of type `t` (`COUNT(DISTINCT mother_id)` of its group). */
  ghost function MothersOfType(records: seq<MotherRecord>, t: string): set<int> {
    set m | m in records && m.recordType == t :: m.motherId
  }

  /** The group of one record type: its size and its number of distinct mothers. */
  function GroupStats(records: seq<MotherRecord>, t: string): (g: TypeStats)
    requires exists m :: m in records && m.recordType == t
    ensures 1 <= g.uniqueMothers <= g.count
    ensures g.count == Count(records, (m: MotherRecord) => m.recordType == t)
    ensures g.uniqueMothers == |MothersOfType(records, t)|
  {
    var rows := OfType(records, t);
    var w :| w in records && w.recordType == t;
    assert w in rows;
    var mothers := Image(rows, (m: MotherRecord) => m.motherId);
    assert w.motherId in mothers by {
      var k :| 0 <= k < |rows| && rows[k] == w;
    }
    assert mothers == MothersOfType(records, t) by {
      forall id | id in MothersOfType(records, t) ensures id in mothers {
        var m :| m in records && m.recordType == t && m.motherId == id;
        assert m in rows;
        var k :| 0 <= k < |rows| && rows[k] == m;
      }
      forall id | id in mothers ensures id in MothersOfType(records, t) {
        var k :| 0 <= k < |rows| && rows[k].motherId == id;
        assert rows[k] in rows;
      }
    }
    TypeStats(|rows|, |mothers|)
  }

  /** `getStatistics`: one entry per record type present, counting its records and its distinct
      mothers, of which there are at least one and at most as many as records. */
  function GetStatistics(records: seq<MotherRecord>): (st: map<string, TypeStats>)
    ensures forall t :: t in st <==> exists m :: m in records && m.recordType == t
    ensures forall t :: t in st ==> 1 <= st[t].uniqueMothers <= st[t].count
    ensures forall t :: t in st ==> st[t].count == Count(records, (m: MotherRecord) => m.recordType == t)
    ensures forall t :: t in st ==> st[t].uniqueMothers == |MothersOfType(records, t)|
  {
    map t | t in (set m | m in records :: m.recordType) :: GroupStats(records, t)
  }
}
