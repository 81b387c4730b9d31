/** The mother profile page's request half: the id check, the target-role check, the own-profile
    access decision, and the data the page reads for an admitted request. */
module MotherProfile {
  import opened Wrappers
  import opened Seqs
  import Session
  import opened Request
  import opened Records
  import MotherRecords
  import Children

  /** The number of trend points the page asks for. */
  const TrendLimit: nat := 12

  /** What the page shows for an admitted request. */
  datatype MotherPage = MotherPage(
    mother: User,
    records: seq<MotherRecord>,
    trend: seq<MotherRecord>,
    children: seq<Child>,
    showCharts: bool,
    latest: Option<MotherRecord>)

  /** The latest-vitals panel: the head of the newest-first list, or nothing for an empty list. */
  function Latest(records: seq<MotherRecord>): (r: Option<MotherRecord>)
    ensures r.None? <==> |records| == 0
    ensures r.Some? ==> r.value == records[0]
  {
    if |records| == 0 then None else Some(records[0])
  }

  /** The page: login first; then a positive `id`; then the target must be a user whose role is
      'mother' (checked before ownership, so a mother probing any other account is told "Mother not
      found"); then a mother may see only her own profile while other roles see any. An admitted
      request reads her records newest first, her twelve most recent records as the trend
      (the corrected `getHealthTrend`, see `MotherRecords.RecentHealthTrend`; the query as written
      returns her twelve oldest, `MotherRecords.HealthTrendAsWritten`, with as many points),
      her children, shows the charts only for at least two trend points, and takes the latest
      vitals from the head of the records. */
  function View(s: Session.SessionMap, get: Form, users: seq<User>, records: seq<MotherRecord>,
                children: seq<Child>): (r: Verdict<MotherPage>)
    ensures !Session.IsLoggedIn(s) ==> r == Err(LoginRequired)
    ensures Session.IsLoggedIn(s) && IntParam(get, "id") <= 0 ==> r == Err(Message("Invalid mother ID"))
    ensures var u := FindUser(users, IntParam(get, "id"));
      Session.IsLoggedIn(s) && IntParam(get, "id") > 0 && (u.None? || u.value.role != "mother") ==>
        r == Err(Message("Mother not found"))
    ensures var u := FindUser(users, IntParam(get, "id"));
      Session.IsLoggedIn(s) && IntParam(get, "id") > 0 && u.Some? && u.value.role == "mother"
      && RoleIs(s, "mother") && Session.CurrentUserId(s) != Some(IntParam(get, "id")) ==>
        r == Err(Message("Unauthorized access"))
    ensures var u := FindUser(users, IntParam(get, "id"));
      r.Ok? <==> Session.IsLoggedIn(s) && IntParam(get, "id") > 0 && u.Some? && u.value.role == "mother"
                 && (!RoleIs(s, "mother") || Session.CurrentUserId(s) == Some(IntParam(get, "id")))
    ensures r.Ok? ==> r.value.mother.userId == IntParam(get, "id") && r.value.mother in users
    ensures r.Ok? ==> r.value.records == MotherRecords.ReadByMother(records, IntParam(get, "id"))
    ensures r.Ok? ==> r.value.trend == MotherRecords.RecentHealthTrend(records, IntParam(get, "id"), TrendLimit)
    ensures r.Ok? ==> (r.value.showCharts <==> |r.value.trend| > 1)
    ensures r.Ok? ==> r.value.latest == Latest(r.value.records)
    ensures r.Ok? ==> forall m :: m in r.value.records <==> m in records && m.motherId == IntParam(get, "id")
    ensures r.Ok? ==> forall c :: c in r.value.children <==> c in children && c.motherId == IntParam(get, "id")
    ensures r.Ok? ==> r.value.children == Children.ReadAll(children, Some(IntParam(get, "id")))
  {
    var id := IntParam(get, "id");
    if LoginGuard(s).Some? then Err(LoginRequired)
    else if id <= 0 then Err(Message("Invalid mother ID"))
    else
      match FindUser(users, id)
      case None => Err(Message("Mother not found"))
      case Some(u) =>
        if u.role != "mother" then Err(Message("Mother not found"))
        else if RoleIs(s, "mother") && Session.CurrentUserId(s) != Some(id) then Err(Message("Unauthorized access"))
        else
          var mine := MotherRecords.ReadByMother(records, id);
          var trend := MotherRecords.RecentHealthTrend(records, id, TrendLimit);
          var kids := Children.ReadAll(children, Some(id));
          Ok(MotherPage(u, mine, trend, kids, |trend| > 1, Latest(mine)))
  }

  /** A mother who asks for another mother's profile, or for any account that is not a mother's,
      is refused; the refusal names the role check whenever the target is not a mother. */
  lemma RoleCheckedBeforeOwnership(s: Session.SessionMap, get: Form, users: seq<User>, records: seq<MotherRecord>,
                                   children: seq<Child>, doctor: User)
    requires Session.IsLoggedIn(s) && RoleIs(s, "mother") && Session.CurrentUserId(s) != Some(doctor.userId)
    requires doctor in users && doctor.role == "doctor" && doctor.userId > 0
    requires IntParam(get, "id") == doctor.userId
    requires forall v :: v in users ==> v.userId != doctor.userId || v == doctor
    ensures View(s, get, users, records, children) == Err(Message("Mother not found"))
  {
    var u := FindUser(users, doctor.userId);
    assert u.Some?;
  }

  /** The charts appear exactly when the mother has at least two records: the trend keeps up to
      twelve of them. */
  lemma ChartsNeedTwoRecords(records: seq<MotherRecord>, motherId: int)
    ensures |MotherRecords.RecentHealthTrend(records, motherId, TrendLimit)| > 1
        <==> |MotherRecords.ReadByMother(records, motherId)| >= 2
  {
    var all := MotherRecords.TrendRows(records, motherId);
    var mine := MotherRecords.ReadByMother(records, motherId);
    SelectionsSameSize(all, mine, records,
      (m: MotherRecord) => m.motherId == motherId, (m: MotherRecord) => m.motherId == motherId);
  }

  /** The latest-vitals panel shows a record of the mother with her latest date, and is empty
      exactly when she has none; on its date it agrees with `getLatestRecord`. */
  lemma LatestIsNewest(s: Session.SessionMap, get: Form, users: seq<User>, records: seq<MotherRecord>,
                       children: seq<Child>)
    requires View(s, get, users, records, children).Ok?
    ensures var p := View(s, get, users, records, children).value;
      var g := MotherRecords.GetLatestRecord(records, p.mother.userId);
      && (p.latest.None? <==> g.None?)
      && (p.latest.Some? ==> p.latest.value in records && p.latest.value.motherId == p.mother.userId
                             && p.latest.value.recordDate == g.value.recordDate)
  {
    var p := View(s, get, users, records, children).value;
    var id := p.mother.userId;
    if |p.records| > 0 {
      assert p.records[0] in p.records;
      SortedDescHead(p.records, MotherRecords.RecordDate);
    }
  }
}
