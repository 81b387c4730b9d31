/** The child profile page's request half: the id check, the lookup, the mother-owns-child access
    decision, and the data the page reads for an admitted request. */
module ChildProfile {
  import opened Wrappers
  import opened Seqs
  import Session
  import opened Request
  import opened Records
  import HealthRecords
  import Immunizations
  import Alerts
  import Php
  import Children

  /** What the page shows for an admitted request. */
  datatype ChildPage = ChildPage(
    child: Child,
    history: seq<HealthRecord>,
    trend: seq<HealthRecords.TrendPoint>,
    immunizations: seq<Immunization>,
    alerts: seq<Alert>,
    doctorLinks: bool)

  /** The access rule after the lookup: a mother sees only her own child; any other role (or none)
      is unrestricted. */
  predicate MayView(s: Session.SessionMap, c: Child) {
    !RoleIs(s, "mother") || Session.CurrentUserId(s) == Some(c.motherId)
  }

  /** The page: login first; then a positive `id` (a missing or non-numeric id casts to 0); then the
      child must exist; then the access rule. An admitted request reads the child's health history
      (newest first), growth trend, immunizations and every alert of the child whatever its status,
      and offers the add-record and add-immunization links only to doctors. */
  function View(s: Session.SessionMap, get: Form, children: seq<Child>, records: seq<HealthRecord>,
                imms: seq<Immunization>, alerts: seq<Alert>): (r: Verdict<ChildPage>)
    ensures !Session.IsLoggedIn(s) ==> r == Err(LoginRequired)
    ensures Session.IsLoggedIn(s) && IntParam(get, "id") <= 0 ==> r == Err(Message("Invalid child ID"))
    ensures Session.IsLoggedIn(s) && IntParam(get, "id") > 0 && FindChild(children, IntParam(get, "id")).None? ==>
      r == Err(Message("Child not found"))
    ensures var c := FindChild(children, IntParam(get, "id"));
      Session.IsLoggedIn(s) && IntParam(get, "id") > 0 && c.Some? && !MayView(s, c.value) ==>
        r == Err(Message("Unauthorized access"))
    ensures var c := FindChild(children, IntParam(get, "id"));
      r.Ok? <==> Session.IsLoggedIn(s) && IntParam(get, "id") > 0 && c.Some? && MayView(s, c.value)
    ensures r.Ok? ==> r.value.child == FindChild(children, IntParam(get, "id")).value
    ensures r.Ok? ==> (r.value.doctorLinks <==> RoleIs(s, "doctor"))
  {
    var id := IntParam(get, "id");
    if LoginGuard(s).Some? then Err(LoginRequired)
    else if id <= 0 then Err(Message("Invalid child ID"))
    else
      match FindChild(children, id)
      case None => Err(Message("Child not found"))
      case Some(c) =>
        if !MayView(s, c) then Err(Message("Unauthorized access"))
        else
          Ok(ChildPage(
            c,
            HealthRecords.ReadByChild(records, id),
            HealthRecords.GetGrowthTrend(records, id),
            Immunizations.ReadByChild(imms, id),
            Alerts.ReadAll(alerts, children, None, Some(id), None),
            RoleIs(s, "doctor")))
  }

  /** An admitted page lists exactly the child's records, immunizations and alerts: pending and
      resolved alerts alike, each row once per occurrence in its table. */
  lemma PageShowsEverything(s: Session.SessionMap, get: Form, children: seq<Child>, records: seq<HealthRecord>,
                            imms: seq<Immunization>, alerts: seq<Alert>)
    requires View(s, get, children, records, imms, alerts).Ok?
    ensures var p := View(s, get, children, records, imms, alerts).value;
      && (forall h :: h in p.history <==> h in records && h.childId == p.child.childId)
      && (forall i :: i in p.immunizations <==> i in imms && i.childId == p.child.childId)
      && (forall a :: a in p.alerts <==> a in alerts && a.childId == p.child.childId)
  {
    var p := View(s, get, children, records, imms, alerts).value;
    var id := p.child.childId;
    SelectionMembers(p.immunizations, imms, (i: Immunization) => i.childId == id);
    SelectionMembers(p.alerts, alerts, a => Alerts.ReadAllCond(children, None, Some(id), None, a));
  }

  /** With unique child ids the page and the child handler agree: a logged-in mother is admitted
      to a child's page exactly when `isOwnedByMother` holds for that child and her. */
  lemma MotherSeesOwnChildOnly(s: Session.SessionMap, get: Form, children: seq<Child>, records: seq<HealthRecord>,
                               imms: seq<Immunization>, alerts: seq<Alert>, u: int)
    requires Session.IsLoggedIn(s) && RoleIs(s, "mother") && Session.CurrentUserId(s) == Some(u)
    requires UniqueChildIds(children)
    ensures View(s, get, children, records, imms, alerts).Ok?
        <==> IntParam(get, "id") > 0 && Children.IsOwnedByMother(children, IntParam(get, "id"), u)
  {
    Children.OwnershipAgreesWithLookup(children, IntParam(get, "id"), u);
  }

  /** A non-numeric id is turned away before any lookup. */
  lemma NonNumericIdRejected(s: Session.SessionMap, get: Form, children: seq<Child>, records: seq<HealthRecord>,
                             imms: seq<Immunization>, alerts: seq<Alert>)
    requires Session.IsLoggedIn(s)
    requires "id" in get && get["id"] == "abc"
    ensures View(s, get, children, records, imms, alerts) == Err(Message("Invalid child ID"))
  {
    CastOfWord();
    assert IntParam(get, "id") == 0;
  }

  lemma CastOfWord()
    ensures Php.IntCast("abc") == 0
  {
    assert Php.DigitRun("abc") == 0;
    assert "abc"[..0] == "";
  }
}
