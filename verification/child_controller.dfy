/** The child form handler: action dispatch, and create, update and delete as ordered chains of
    guards and checks that end in the work to do or the first error. The database outcome of the
    work (the id an insert assigns, whether an update or delete succeeded) is a parameter. */
module ChildController {
  import opened Wrappers
  import Session
  import opened Request
  import Php
  import Calendar
  import Children
  import opened Records

  /** The handlers a request can reach. */
  datatype Route = CreateChild | UpdateChild | DeleteChild | NoAction

  /** The file's top level: every request must be logged in, and a POST is dispatched on its
      `action` field; an unknown (or missing) action is an error. */
  function Dispatch(s: Session.SessionMap, requestMethod: string, post: Form): (r: Verdict<Route>)
    ensures !Session.IsLoggedIn(s) ==> r == Err(LoginRequired)
    ensures Session.IsLoggedIn(s) && requestMethod != "POST" ==> r == Ok(NoAction)
    ensures Session.IsLoggedIn(s) && requestMethod == "POST" ==>
      (r.Err? <==> FieldOr(post, "action", "") !in {"create", "update", "delete"})
    ensures Session.IsLoggedIn(s) && r.Err? ==> r.reason == Message("Invalid action")
    ensures r == Ok(CreateChild) <==> Session.IsLoggedIn(s) && requestMethod == "POST" && FieldOr(post, "action", "") == "create"
  {
    if LoginGuard(s).Some? then Err(LoginRequired)
    else if requestMethod != "POST" then Ok(NoAction)
    else
      match FieldOr(post, "action", "")
      case "create" => Ok(CreateChild)
      case "update" => Ok(UpdateChild)
      case "delete" => Ok(DeleteChild)
      case _ => Err(Message("Invalid action"))
  }

  /** The sanitized name, date of birth and gender of the child form (`sanitize($_POST[...] ?? '')`). */
  datatype ChildForm = ChildForm(name: string, dob: string, gender: string)

  /** The three fields as `handleCreate` and `handleUpdate` read them: each sanitized, and empty when
      it was not submitted. */
  function ReadChildForm(post: Form): (f: ChildForm)
    ensures Php.SanitizedFrom(FieldOr(post, "name", ""), f.name)
    ensures Php.SanitizedFrom(FieldOr(post, "dob", ""), f.dob)
    ensures Php.SanitizedFrom(FieldOr(post, "gender", ""), f.gender)
    ensures "name" !in post ==> f.name == ""
    ensures "dob" !in post ==> f.dob == ""
    ensures "gender" !in post ==> f.gender == ""
  {
    ChildForm(
      Php.Sanitize(FieldOr(post, "name", "")),
      Php.Sanitize(FieldOr(post, "dob", "")),
      Php.Sanitize(FieldOr(post, "gender", "")))
  }

  predicate AllFilled(f: ChildForm) {
    !Php.Empty(f.name) && !Php.Empty(f.dob) && !Php.Empty(f.gender)
  }

  /** The first health record written after a successful create. */
  datatype InitialRecord = InitialRecord(
    childId: int, weight: string, height: string, nutritionStatus: string,
    vaccinations: string, doctorNotes: string, recordDate: string)

  /** What a successful create writes: the child row and, optionally, its first health record. */
  datatype NewChild = NewChild(motherId: Session.Value, form: ChildForm, childId: int, initialRecord: Option<InitialRecord>)

  /** The checks of `handleCreate`, in order. */
  function CreateChecks(f: ChildForm): seq<Check> {
    [ Check(AllFilled(f), "All required fields must be filled"),
      Check(Calendar.ValidateDate(f.dob), "Invalid date format"),
      Check(f.gender == "male" || f.gender == "female", "Invalid gender selected") ]
  }

  /** What a create that passed its checks writes, with `childId` the id the insert assigned. The
      child belongs to the logged-in mother. A first health record is written exactly when both
      weight and height are non-empty in PHP's sense (so "0" skips it); it is marked 'Normal' and
      dated at birth without any growth assessment. */
  function CreateWork(s: Session.SessionMap, f: ChildForm, weight: Option<string>, height: Option<string>,
                      childId: int): (w: NewChild)
    requires "user_id" in s
    ensures w.motherId == s["user_id"] && w.form == f && w.childId == childId
    ensures w.initialRecord.Some? <==> !Php.EmptyOpt(weight) && !Php.EmptyOpt(height)
    ensures w.initialRecord.Some? ==>
      w.initialRecord.value == InitialRecord(childId, weight.value, height.value, "Normal", "", "Initial birth record", f.dob)
  {
    var initial :=
      if !Php.EmptyOpt(weight) && !Php.EmptyOpt(height) then
        Some(InitialRecord(childId, weight.value, height.value, "Normal", "", "Initial birth record", f.dob))
      else None;
    NewChild(s["user_id"], f, childId, initial)
  }

  /** `handleCreate` on the sanitized form `f` and the raw weight and height fields: only mothers;
      then required fields, then the date format, then the gender, each stopping the request with
      its own message; then the insert, whose assigned id is `inserted`. */
  function HandleCreate(s: Session.SessionMap, f: ChildForm, weight: Option<string>, height: Option<string>,
                        inserted: Option<int>): (r: Verdict<NewChild>)
    ensures !Session.HasRole(s, "mother") ==> r.Err? && (r.reason == LoginRequired || r.reason == RoleRequired)
    ensures Session.HasRole(s, "mother") && !AllFilled(f) ==> r == Err(Message("All required fields must be filled"))
    ensures Session.HasRole(s, "mother") && AllFilled(f) && !Calendar.ValidateDate(f.dob) ==>
      r == Err(Message("Invalid date format"))
    ensures Session.HasRole(s, "mother") && AllFilled(f) && Calendar.ValidateDate(f.dob) && f.gender != "male" && f.gender != "female" ==>
      r == Err(Message("Invalid gender selected"))
    ensures r.Ok? <==>
      Session.HasRole(s, "mother") && AllFilled(f) && Calendar.ValidateDate(f.dob) && (f.gender == "male" || f.gender == "female")
      && inserted.Some?
    ensures r.Ok? ==> r.value == CreateWork(s, f, weight, height, inserted.value)
  {
    match RoleGuard(s, "mother")
    case Some(why) => Err(why)
    case None =>
      if !AllFilled(f) then Err(Message("All required fields must be filled"))
      else if !Calendar.ValidateDate(f.dob) then Err(Message("Invalid date format"))
      else if f.gender != "male" && f.gender != "female" then Err(Message("Invalid gender selected"))
      else if inserted.None? then Err(Message("Failed to create child profile"))
      else
        Ok(CreateWork(s, f, weight, height, inserted.value))
  }

  /** `handleCreate` is the first-failure chain over its three checks: once the role guard passes,
      the first failing check's message is the error, and only a fully valid form reaches the insert. */
  lemma {:induction false} CreateIsFirstFailure(s: Session.SessionMap, f: ChildForm, weight: Option<string>,
                                                height: Option<string>, inserted: Option<int>)
    requires Session.HasRole(s, "mother")
    ensures FirstFailure(CreateChecks(f)).Some? ==>
      HandleCreate(s, f, weight, height, inserted) == Err(Message(FirstFailure(CreateChecks(f)).value))
    ensures FirstFailure(CreateChecks(f)).None? ==>
      (HandleCreate(s, f, weight, height, inserted).Ok? <==> inserted.Some?)
  {
    var checks := CreateChecks(f);
    FirstFailureOfThree(checks[0], checks[1], checks[2]);
    assert checks == [checks[0], checks[1], checks[2]];
  }

  /** The ownership step of update and delete: a mother must own the child; any other role passes. */
  predicate MayChange(s: Session.SessionMap, children: seq<Child>, childId: int) {
    !RoleIs(s, "mother")
    || (Session.CurrentUserId(s).Some? && Children.IsOwnedByMother(children, childId, Session.CurrentUserId(s).value))
  }

  /** What a successful update writes. */
  datatype ChildEdit = ChildEdit(childId: int, form: ChildForm)

  function UpdateChecks(s: Session.SessionMap, children: seq<Child>, childId: int, f: ChildForm): seq<Check> {
    [ Check(childId > 0, "Invalid child ID"),
      Check(MayChange(s, children, childId), "Unauthorized access"),
      Check(AllFilled(f), "All fields are required") ]
  }

  /** `handleUpdate` on the child id `id` and the sanitized form `f`: a positive id, then ownership
      for mothers, then non-empty fields. There is no date or gender validation here. `updated` is
      whether the database update succeeded. */
  function HandleUpdate(s: Session.SessionMap, id: int, f: ChildForm, children: seq<Child>, updated: bool)
    : (r: Verdict<ChildEdit>)
    ensures !Session.IsLoggedIn(s) ==> r == Err(LoginRequired)
    ensures Session.IsLoggedIn(s) && id <= 0 ==> r == Err(Message("Invalid child ID"))
    ensures Session.IsLoggedIn(s) && id > 0 && !MayChange(s, children, id) ==> r == Err(Message("Unauthorized access"))
    ensures Session.IsLoggedIn(s) && id > 0 && MayChange(s, children, id) && !AllFilled(f) ==>
      r == Err(Message("All fields are required"))
    ensures r.Ok? <==> Session.IsLoggedIn(s) && id > 0 && MayChange(s, children, id) && AllFilled(f) && updated
    ensures r.Ok? ==> r.value == ChildEdit(id, f)
  {
    var checks := UpdateChecks(s, children, id, f);
    if LoginGuard(s).Some? then Err(LoginRequired)
    else if !checks[0].passes then
      FirstFailureDecides(checks, 0);
      Err(Message(FirstFailure(checks).value))
    else if !checks[1].passes then
      FirstFailureDecides(checks, 1);
      Err(Message(FirstFailure(checks).value))
    else if !checks[2].passes then
      FirstFailureDecides(checks, 2);
      Err(Message(FirstFailure(checks).value))
    else if !updated then Err(Message("Failed to update child profile"))
    else Ok(ChildEdit(id, f))
  }

  function DeleteChecks(s: Session.SessionMap, children: seq<Child>, childId: int): seq<Check> {
    [ Check(childId > 0, "Invalid child ID"),
      Check(MayChange(s, children, childId), "Unauthorized access") ]
  }

  /** `handleDelete` on the child id `id`: a positive id, then ownership for mothers; `deleted` is
      whether the database delete succeeded. */
  function HandleDelete(s: Session.SessionMap, id: int, children: seq<Child>, deleted: bool): (r: Verdict<int>)
    ensures !Session.IsLoggedIn(s) ==> r == Err(LoginRequired)
    ensures Session.IsLoggedIn(s) && id <= 0 ==> r == Err(Message("Invalid child ID"))
    ensures Session.IsLoggedIn(s) && id > 0 && !MayChange(s, children, id) ==> r == Err(Message("Unauthorized access"))
    ensures r.Ok? <==> Session.IsLoggedIn(s) && id > 0 && MayChange(s, children, id) && deleted
    ensures r.Ok? ==> r.value == id
  {
    var checks := DeleteChecks(s, children, id);
    if LoginGuard(s).Some? then Err(LoginRequired)
    else if !checks[0].passes then
      FirstFailureDecides(checks, 0);
      Err(Message(FirstFailure(checks).value))
    else if !checks[1].passes then
      FirstFailureDecides(checks, 1);
      Err(Message(FirstFailure(checks).value))
    else if !deleted then Err(Message("Failed to delete child profile"))
    else Ok(id)
  }

  /** A logged-in mother may change exactly the children she owns; doctors may change any child. */
  lemma OwnershipDecides(s: Session.SessionMap, children: seq<Child>, childId: int)
    requires Session.IsLoggedIn(s)
    ensures Session.HasRole(s, "doctor") ==> MayChange(s, children, childId)
    ensures Session.HasRole(s, "mother") && Session.CurrentUserId(s).Some? ==>
      (MayChange(s, children, childId) <==>
        exists c :: c in children && c.childId == childId && c.motherId == Session.CurrentUserId(s).value)
  {
  }

  /** Update validates less than create: a form whose date does not exist and whose gender is
      neither option is stored by update, while create rejects the same fields. */
  lemma UpdateSkipsCreateChecks(s: Session.SessionMap, children: seq<Child>)
    requires Session.HasRole(s, "mother") && Session.CurrentUserId(s) == Some(1)
    requires Child(5, 1, "Ana", 0, "female", 0, 0) in children
    ensures var f := ChildForm("Ana", "2024-02-30", "other");
      HandleUpdate(s, 5, f, children, true).Ok? && HandleCreate(s, f, None, None, Some(9)) == Err(Message("Invalid date format"))
  {
    var f := ChildForm("Ana", "2024-02-30", "other");
    Calendar.February30Rejected("2024-02-30");
    assert Children.IsOwnedByMother(children, 5, 1);
    assert AllFilled(f);
  }

  /** `sanitize` leaves short plain words alone. */
  lemma PlainSanitized(w: string)
    requires |w| > 0 && forall i :: 0 <= i < |w| ==> 'a' <= w[i] <= 'z' || 'A' <= w[i] <= 'Z' || '0' <= w[i] <= '9' || w[i] == '-'
    ensures Php.Sanitize(w) == w
  {
    Php.SanitizePlain(w);
    Php.TrimKeeps(w);
  }
}
