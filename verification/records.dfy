/** The rows of the application's tables, with dates as day numbers and timestamps as instants,
    and the lookups the queries make through their joins. Each table is a sequence in storage order. */
module Records {
  import opened Wrappers
  import opened Calendar

  /** A `users` row. */
  datatype User = User(userId: int, name: string, email: string, phone: string, role: string)

  /** A `children` row. `ageMonths` is the whole-month age the queries compute against the current day. */
  datatype Child = Child(
    childId: int, motherId: int, name: string, dob: Date, gender: string,
    ageMonths: int, createdAt: Instant)

  /** A `health_records` row. */
  datatype HealthRecord = HealthRecord(
    recordId: int, childId: int, weight: real, height: real, nutritionStatus: string,
    vaccinations: string, doctorNotes: string, recordDate: Date)

  /** An `immunizations` row; the next due date is nullable. */
  datatype Immunization = Immunization(
    immunizationId: int, childId: int, vaccineName: string, dateGiven: Date, nextDue: Option<Date>)

  /** An `alerts` row. */
  datatype Alert = Alert(
    alertId: int, childId: int, alertType: string, message: string, status: string, createdAt: Instant)

  /** A `mother_health_records` row. Measurements are kept as the submitted text; every column but
      the ids, the type and the date is nullable. */
  datatype MotherRecord = MotherRecord(
    recordId: int, motherId: int, recordType: string, recordDate: Date,
    weight: Option<string>, bloodPressure: Option<string>, hemoglobin: Option<string>,
    bloodSugar: Option<string>, pregnancyWeek: Option<string>, deliveryDate: Option<Date>,
    deliveryType: Option<string>, complications: Option<string>, medications: Option<string>,
    doctorNotes: Option<string>, nextCheckup: Option<Date>)

  /** PHP truthiness of an optional id argument (`if ($motherId)`): present and non-zero. */
  predicate Given(id: Option<int>) {
    id.Some? && id.value != 0
  }

  /** The `children` row with primary key `childId`, as a join on it finds it. */
  function FindChild(children: seq<Child>, childId: int): (r: Option<Child>)
    ensures r.Some? ==> r.value in children && r.value.childId == childId
    ensures r.None? <==> forall c :: c in children ==> c.childId != childId
  {
    if |children| == 0 then None
    else if children[0].childId == childId then Some(children[0])
    else FindChild(children[1..], childId)
  }

  /** The `users` row with primary key `userId`. */
  function FindUser(users: seq<User>, userId: int): (r: Option<User>)
    ensures r.Some? ==> r.value in users && r.value.userId == userId
    ensures r.None? <==> forall u :: u in users ==> u.userId != userId
  {
    if |users| == 0 then None
    else if users[0].userId == userId then Some(users[0])
    else FindUser(users[1..], userId)
  }

  /** Primary keys are unique. */
  predicate UniqueChildIds(children: seq<Child>) {
    forall i, j :: 0 <= i < j < |children| ==> children[i].childId != children[j].childId
  }

  /** `c.mother_id = :mother_id` after `LEFT JOIN children c ON x.child_id = c.child_id`: true only
      when the child row exists and belongs to that mother (a NULL join row never matches). */
  predicate ChildOfMother(children: seq<Child>, childId: int, motherId: int) {
    var c := FindChild(children, childId);
    c.Some? && c.value.motherId == motherId
  }

  /** The optional mother restriction the models add when `$motherId` is truthy. */
  predicate MotherFilter(children: seq<Child>, childId: int, motherId: Option<int>) {
    !Given(motherId) || ChildOfMother(children, childId, motherId.value)
  }

  /** With unique keys, the joined row is the only row with that key, so the join belongs to a
      mother exactly when some row with that id and that mother exists. */
  lemma ChildOfMotherIffRow(children: seq<Child>, childId: int, motherId: int)
    requires UniqueChildIds(children)
    ensures ChildOfMother(children, childId, motherId)
        <==> exists c :: c in children && c.childId == childId && c.motherId == motherId
  {
    var f := FindChild(children, childId);
    if c :| c in children && c.childId == childId && c.motherId == motherId {
      var i :| 0 <= i < |children| && children[i] == c;
      var j :| 0 <= j < |children| && children[j] == f.value;
      assert i == j;
    }
  }
}
