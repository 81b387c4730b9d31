/** The add-mother-health-record page's request half: the doctor gate, the target-mother check,
    and how the submitted form becomes the row to insert. Today's date and the outcome of the insert
    are parameters. */
module AddMotherRecord {
  import opened Wrappers
  import Session
  import opened Request
  import opened Records
  import Php

  /** The row a submission inserts, with every value still as submitted text. */
  datatype Draft = Draft(
    motherId: int, recordType: string, recordDate: string,
    weight: Option<string>, bloodPressure: Option<string>, hemoglobin: Option<string>,
    bloodSugar: Option<string>, pregnancyWeek: Option<string>, deliveryDate: Option<string>,
    deliveryType: Option<string>, complications: Option<string>, medications: Option<string>,
    doctorNotes: Option<string>, nextCheckup: Option<string>)

  /** `!empty($_POST[key]) ? $_POST[key] : null`: an empty (or missing) field becomes null. */
  function Filled(post: Form, key: string): (v: Option<string>)
    ensures v.None? <==> Php.EmptyOpt(Lookup(post, key))
    ensures v.Some? ==> v == Lookup(post, key)
  {
    if Php.EmptyOpt(Lookup(post, key)) then None else Lookup(post, key)
  }

  /** The stored value of a `!empty(...) ? ... : null` field: null exactly when the field is empty or
      missing, otherwise the submitted text. */
  predicate NullIfEmpty(post: Form, key: string, v: Option<string>) {
    (v.None? <==> Php.EmptyOpt(Lookup(post, key)))
    && (v.Some? ==> key in post && v.value == post[key])
  }

  /** The stored value of a `?? null` field: null exactly when the field is missing, otherwise the
      submitted text, even when it is empty. */
  predicate NullIfMissing(post: Form, key: string, v: Option<string>) {
    (v.None? <==> key !in post)
    && (v.Some? ==> key in post && v.value == post[key])
  }

  /** The form as the page reads it: the type defaults to 'general' and the date to today only when
      missing; the vitals, pregnancy week, delivery fields and next check-up become null when
      empty; complications, medications and notes use `??`, so an empty value is kept. */
  function ReadDraft(post: Form, motherId: int, today: string): (d: Draft)
    ensures d.motherId == motherId
    ensures d.recordType == FieldOr(post, "record_type", "general")
    ensures d.recordDate == FieldOr(post, "record_date", today)
    ensures NullIfEmpty(post, "weight", d.weight)
    ensures NullIfEmpty(post, "blood_pressure", d.bloodPressure)
    ensures NullIfEmpty(post, "hemoglobin", d.hemoglobin)
    ensures NullIfEmpty(post, "blood_sugar", d.bloodSugar)
    ensures NullIfEmpty(post, "pregnancy_week", d.pregnancyWeek)
    ensures NullIfEmpty(post, "delivery_date", d.deliveryDate)
    ensures NullIfEmpty(post, "delivery_type", d.deliveryType)
    ensures NullIfEmpty(post, "next_checkup_date", d.nextCheckup)
    ensures NullIfMissing(post, "complications", d.complications)
    ensures NullIfMissing(post, "medications", d.medications)
    ensures NullIfMissing(post, "doctor_notes", d.doctorNotes)
  {
    Draft(
      motherId,
      FieldOr(post, "record_type", "general"),
      FieldOr(post, "record_date", today),
      Filled(post, "weight"), Filled(post, "blood_pressure"), Filled(post, "hemoglobin"),
      Filled(post, "blood_sugar"), Filled(post, "pregnancy_week"), Filled(post, "delivery_date"),
      Filled(post, "delivery_type"),
      Lookup(post, "complications"), Lookup(post, "medications"), Lookup(post, "doctor_notes"),
      Filled(post, "next_checkup_date"))
  }

  /** What an admitted request does: show the form (no submission) or insert a record. */
  datatype Outcome = ShowForm | Added(draft: Draft)

  /** The page: only doctors pass the gate; then `mother_id` must name a user whose role is
      'mother', even when nothing is submitted; a POST then inserts the draft, and `inserted` says
      whether the insert succeeded. No record type is checked against a list and no vital is
      required. */
  function Handle(s: Session.SessionMap, requestMethod: string, get: Form, post: Form, users: seq<User>,
                  today: string, inserted: bool): (r: Verdict<Outcome>)
    ensures !Session.HasRole(s, "doctor") ==> r.Err? && (r.reason == LoginRequired || r.reason == RoleRequired)
    ensures var u := FindUser(users, IntParam(get, "mother_id"));
      Session.HasRole(s, "doctor") && (u.None? || u.value.role != "mother") ==>
        r == Err(Message("Invalid mother selected"))
    ensures var u := FindUser(users, IntParam(get, "mother_id"));
      r.Ok? <==> Session.HasRole(s, "doctor") && u.Some? && u.value.role == "mother"
                 && (requestMethod == "POST" ==> inserted)
    ensures r.Ok? && requestMethod != "POST" ==> r.value == ShowForm
    ensures r.Ok? && requestMethod == "POST" ==>
      r.value.Added? && r.value.draft.motherId == IntParam(get, "mother_id")
      && FindUser(users, r.value.draft.motherId).value.role == "mother"
    ensures r.Ok? && requestMethod == "POST" ==> r.value == Added(ReadDraft(post, IntParam(get, "mother_id"), today))
  {
    var motherId := IntParam(get, "mother_id");
    match RoleGuard(s, "doctor")
    case Some(why) => Err(why)
    case None =>
      var mother := FindUser(users, motherId);
      if mother.None? || mother.value.role != "mother" then Err(Message("Invalid mother selected"))
      else if requestMethod != "POST" then Ok(ShowForm)
      else if !inserted then Err(Message("Failed to add health record"))
      else Ok(Added(ReadDraft(post, motherId, today)))
  }

  /** "At least one vital" is enforced only in the browser: a submission without any vital is
      inserted with all four vitals null. */
  lemma NoVitalsAccepted(s: Session.SessionMap, get: Form, post: Form, users: seq<User>, today: string)
    requires Session.HasRole(s, "doctor")
    requires var u := FindUser(users, IntParam(get, "mother_id")); u.Some? && u.value.role == "mother"
    requires "weight" !in post && "blood_pressure" !in post && "hemoglobin" !in post && "blood_sugar" !in post
    ensures var r := Handle(s, "POST", get, post, users, today, true);
      r.Ok? && r.value.Added?
      && r.value.draft.weight.None? && r.value.draft.bloodPressure.None?
      && r.value.draft.hemoglobin.None? && r.value.draft.bloodSugar.None?
  {
  }

  /** The two empty-field rules differ: an empty weight is stored as null, while empty notes are
      stored as the empty string; an empty submitted date stays empty rather than becoming today. */
  lemma EmptyFieldRulesDiffer(post: Form, motherId: int, today: string)
    requires "weight" in post && post["weight"] == ""
    requires "doctor_notes" in post && post["doctor_notes"] == ""
    requires "record_date" in post && post["record_date"] == ""
    ensures ReadDraft(post, motherId, today).weight == None
    ensures ReadDraft(post, motherId, today).doctorNotes == Some("")
    ensures ReadDraft(post, motherId, today).recordDate == ""
  {
  }
}
