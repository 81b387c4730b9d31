/** The child store: registration, the per-mother listing, the three-column update, the listing
    joined with each child's latest health record, the summary statistics, the name search and the
    ownership check. */
module Children {
  import opened Wrappers
  import opened Seqs
  import opened Calendar
  import opened Records
  import SqlLike
  import opened Text

  /** What `create` leaves: the table and the object's `child_id`. */
  datatype Created = Created(children: seq<Child>, childId: Option<int>)

  /** `create`: `inserted` is the id the insert assigns, or none when the insert fails. Only a
      successful insert adds the row and sets the object's id; otherwise both stay as they were. */
  function Create(children: seq<Child>, priorId: Option<int>, motherId: int, name: string, dob: Date,
                  gender: string, ageMonths: int, now: Instant, inserted: Option<int>): (r: Created)
    ensures inserted.None? ==> r.children == children && r.childId == priorId
    ensures inserted.Some? ==> r.childId == inserted && |r.children| == |children| + 1
    ensures inserted.Some? ==> r.children[..|children|] == children
    ensures inserted.Some? ==> var c := r.children[|children|];
      c.childId == inserted.value && c.motherId == motherId && c.name == name && c.dob == dob && c.gender == gender
  {
    match inserted
    case None => Created(children, priorId)
    case Some(id) => Created(children + [Child(id, motherId, name, dob, gender, ageMonths, now)], Some(id))
  }

  /** The mother restriction of `readAll`, `getStatistics` and `search`. */
  predicate OfMother(motherId: Option<int>, c: Child) {
    !Given(motherId) || c.motherId == motherId.value
  }

  function CreatedAt(c: Child): int {
    c.createdAt
  }

  /** `readAll`: the mother's children, or every child when no mother (or 0) is given, newest first. */
  function ReadAll(children: seq<Child>, motherId: Option<int>): (r: seq<Child>)
    ensures IsSelection(r, children, c => OfMother(motherId, c))
    ensures SortedDescBy(r, CreatedAt)
    ensures forall c :: c in r <==> c in children && (!Given(motherId) || c.motherId == motherId.value)
  {
    SelectDesc(children, c => OfMother(motherId, c), CreatedAt)
  }

  /** With a falsy mother id the listing is the whole table, reordered. */
  lemma ReadAllFalsyIsEverything(children: seq<Child>, motherId: Option<int>)
    requires !Given(motherId)
    ensures multiset(ReadAll(children, motherId)) == multiset(children)
  {
    var r := ReadAll(children, motherId);
    assert forall x :: multiset(r)[x] == multiset(children)[x];
  }

  /** `update`: the rows with that id take the new name, date of birth and gender. */
  function Update(children: seq<Child>, childId: int, name: string, dob: Date, gender: string): (r: seq<Child>)
    ensures |r| == |children|
    ensures forall k :: 0 <= k < |r| && children[k].childId != childId ==> r[k] == children[k]
    ensures forall k :: 0 <= k < |r| && children[k].childId == childId ==>
      r[k].name == name && r[k].dob == dob && r[k].gender == gender
  {
    seq(|children|, k requires 0 <= k < |children| =>
      if children[k].childId == childId then children[k].(name := name, dob := dob, gender := gender)
      else children[k])
  }

  /** An update never touches the mother, id or creation time of any row, so ownership is unchanged. */
  lemma UpdateKeepsMother(children: seq<Child>, childId: int, name: string, dob: Date, gender: string)
    ensures forall k :: 0 <= k < |children| ==>
      var c := Update(children, childId, name, dob, gender)[k];
      c.motherId == children[k].motherId && c.childId == children[k].childId && c.createdAt == children[k].createdAt
    ensures forall id, m :: IsOwnedByMother(Update(children, childId, name, dob, gender), id, m)
                            == IsOwnedByMother(children, id, m)
  {
    var r := Update(children, childId, name, dob, gender);
    forall id, m ensures IsOwnedByMother(r, id, m) == IsOwnedByMother(children, id, m) {
      if IsOwnedByMother(r, id, m) {
        var c :| c in r && c.childId == id && c.motherId == m;
        var k :| 0 <= k < |r| && r[k] == c;
        assert children[k].childId == id && children[k].motherId == m;
      }
      if IsOwnedByMother(children, id, m) {
        var c :| c in children && c.childId == id && c.motherId == m;
        var k :| 0 <= k < |children| && children[k] == c;
        assert r[k].childId == id && r[k].motherId == m;
      }
    }
  }

  /** `isOwnedByMother`: whether a child with that id belongs to that mother. */
  function IsOwnedByMother(children: seq<Child>, childId: int, motherId: int): (b: bool)
    ensures b <==> exists c :: c in children && c.childId == childId && c.motherId == motherId
  {
    var hits := Filter(children, (c: Child) => c.childId == childId && c.motherId == motherId);
    if |hits| > 0 then
      assert hits[0] in hits;
      true
    else false
  }

  /** With unique ids the ownership check agrees with looking the child up and comparing its mother,
      which is how the profile page decides. */
  lemma OwnershipAgreesWithLookup(children: seq<Child>, childId: int, motherId: int)
    requires UniqueChildIds(children)
    ensures IsOwnedByMother(children, childId, motherId) <==> ChildOfMother(children, childId, motherId)
  {
    ChildOfMotherIffRow(children, childId, motherId);
  }

  /** A row of `getChildrenWithLatestRecords`: the child and the joined latest record, or none. */
  datatype LatestRow = LatestRow(child: Child, vitals: Option<HealthRecord>)

  /** The rows joined to one child: one per record on its latest date, or a single row without
      vitals when it has no records. */
  predicate LatestRowOk(records: seq<HealthRecord>, row: LatestRow) {
    match row.vitals
    case None => forall h :: h in records ==> h.childId != row.child.childId
    case Some(h) =>
      h in records && h.childId == row.child.childId
      && forall g :: g in records && g.childId == h.childId ==> g.recordDate <= h.recordDate
  }

  /** `MAX(record_date)` of a child's records. */
  function MaxDate(records: seq<HealthRecord>, childId: int): (d: Option<Date>)
    ensures d.None? <==> forall h :: h in records ==> h.childId != childId
    ensures d.Some? ==> exists h :: h in records && h.childId == childId && h.recordDate == d.value
    ensures d.Some? ==> forall h :: h in records && h.childId == childId ==> h.recordDate <= d.value
    decreases |records|
  {
    if |records| == 0 then None
    else
      var rest := MaxDate(records[1..], childId);
      var h := records[0];
      assert forall g :: g in records ==> g == h || g in records[1..];
      if h.childId != childId then rest
      else if rest.None? || rest.value <= h.recordDate then Some(h.recordDate)
      else rest
  }

  /** A record of child `childId` taken on day `d`. */
  function OnDate(childId: int, d: Date): HealthRecord -> bool {
    (h: HealthRecord) => h.childId == childId && h.recordDate == d
  }

  /** How many rows the join gives one child: one per record on its latest date, or one without
      vitals when it has no records. */
  function LatestCount(records: seq<HealthRecord>, c: Child): nat {
    match MaxDate(records, c.childId)
    case None => 1
    case Some(d) => Count(records, OnDate(c.childId, d))
  }

  /** How many rows of a join carry child `c`. */
  function RowsOf(r: seq<LatestRow>, c: Child): nat {
    if |r| == 0 then 0 else (if r[0].child == c then 1 else 0) + RowsOf(r[1..], c)
  }

  lemma {:induction false} RowsOfAppend(a: seq<LatestRow>, b: seq<LatestRow>, c: Child)
    ensures RowsOf(a + b, c) == RowsOf(a, c) + RowsOf(b, c)
    decreases |a|
  {
    if |a| == 0 {
      assert a + b == b;
    } else {
      assert (a + b)[0] == a[0];
      assert (a + b)[1..] == a[1..] + b;
      RowsOfAppend(a[1..], b, c);
    }
  }

  /** Rows that all carry one child are counted for that child only. */
  lemma {:induction false} RowsOfUniform(r: seq<LatestRow>, c: Child, x: Child)
    requires forall row :: row in r ==> row.child == c
    ensures RowsOf(r, x) == if x == c then |r| else 0
    decreases |r|
  {
    if |r| > 0 {
      assert r[0] in r;
      assert forall row :: row in r[1..] ==> row in r;
      RowsOfUniform(r[1..], c, x);
    }
  }

  /** The key the joined rows are ordered by: the child's `created_at`. */
  function RowCreatedAt(row: LatestRow): int {
    row.child.createdAt
  }

  /** The subquery rows for one child, in table order. */
  function RowsFor(records: seq<HealthRecord>, c: Child): (r: seq<LatestRow>)
    ensures |r| >= 1
    ensures forall row :: row in r ==> row.child == c && LatestRowOk(records, row)
    ensures forall h :: h in records && h.childId == c.childId && MaxDate(records, c.childId) == Some(h.recordDate)
                        ==> LatestRow(c, Some(h)) in r
    ensures |r| == LatestCount(records, c)
  {
    var max := MaxDate(records, c.childId);
    if max.None? then [LatestRow(c, None)]
    else
      var top := Filter(records, OnDate(c.childId, max.value));
      var w :| w in records && w.childId == c.childId && w.recordDate == max.value;
      assert OnDate(c.childId, max.value)(w);
      assert w in top;
      var r := Map(top, (h: HealthRecord) => LatestRow(c, Some(h)));
      assert forall k :: 0 <= k < |top| ==> top[k] in top;
      forall h | h in records && h.childId == c.childId && max == Some(h.recordDate)
        ensures LatestRow(c, Some(h)) in r
      {
        assert OnDate(c.childId, max.value)(h);
        var k :| 0 <= k < |top| && top[k] == h;
        assert r[k] == LatestRow(c, Some(h));
      }
      r
  }

  /** Membership facts of the join carry over from the first child's block and the rest's rows. */
  lemma JoinMembersStep(cs: seq<Child>, records: seq<HealthRecord>, head: seq<LatestRow>, tail: seq<LatestRow>)
    requires |cs| > 0 && |head| >= 1
    requires forall row :: row in head ==> row.child == cs[0] && LatestRowOk(records, row)
    requires forall h :: h in records && h.childId == cs[0].childId && MaxDate(records, cs[0].childId) == Some(h.recordDate)
                         ==> LatestRow(cs[0], Some(h)) in head
    requires forall row :: row in tail ==> row.child in cs[1..] && LatestRowOk(records, row)
    requires forall c :: c in cs[1..] ==> exists row :: row in tail && row.child == c
    requires forall c, h ::
      (c in cs[1..] && h in records && h.childId == c.childId && MaxDate(records, c.childId) == Some(h.recordDate))
      ==> LatestRow(c, Some(h)) in tail
    ensures forall row :: row in head + tail ==> row.child in cs && LatestRowOk(records, row)
    ensures forall c :: c in cs ==> exists row :: row in head + tail && row.child == c
    ensures forall c, h ::
      (c in cs && h in records && h.childId == c.childId && MaxDate(records, c.childId) == Some(h.recordDate))
      ==> LatestRow(c, Some(h)) in head + tail
  {
    assert head[0] in head;
    assert forall c :: c in cs ==> c == cs[0] || c in cs[1..];
  }

  /** Row counts add up child by child: a block for the first child followed by the rows of the rest. */
  lemma JoinCountStep(cs: seq<Child>, head: seq<LatestRow>, tail: seq<LatestRow>, records: seq<HealthRecord>)
    requires |cs| > 0
    requires forall row :: row in head ==> row.child == cs[0]
    requires |head| == LatestCount(records, cs[0])
    requires forall c :: RowsOf(tail, c) == multiset(cs[1..])[c] * LatestCount(records, c)
    ensures forall c :: RowsOf(head + tail, c) == multiset(cs)[c] * LatestCount(records, c)
  {
    forall c ensures RowsOf(head + tail, c) == multiset(cs)[c] * LatestCount(records, c) {
      RowsOfAppend(head, tail, c);
      RowsOfUniform(head, cs[0], c);
      ConsMultiplicity(cs, c);
      AddOneFactor(multiset(cs[1..])[c], LatestCount(records, c));
    }
  }

  lemma ConsMultiplicity(cs: seq<Child>, c: Child)
    requires |cs| > 0
    ensures multiset(cs)[c] == multiset(cs[1..])[c] + (if c == cs[0] then 1 else 0)
  {
    assert cs == [cs[0]] + cs[1..];
  }

  lemma AddOneFactor(m: nat, l: nat)
    ensures (m + 1) * l == m * l + l
  {
  }

  /** A child's block of rows followed by the rows of later (older) children keeps the order. */
  lemma JoinStaysSorted(cs: seq<Child>, head: seq<LatestRow>, tail: seq<LatestRow>)
    requires |cs| > 0
    requires forall row :: row in head ==> row.child == cs[0]
    requires forall row :: row in tail ==> row.child in cs[1..]
    requires SortedDescBy(cs[1..], CreatedAt) ==> SortedDescBy(tail, RowCreatedAt)
    ensures SortedDescBy(cs, CreatedAt) ==> SortedDescBy(head + tail, RowCreatedAt)
  {
    if SortedDescBy(cs, CreatedAt) {
      assert SortedDescBy(cs[1..], CreatedAt) by {
        forall i, j | 0 <= i < j < |cs| - 1 ensures CreatedAt(cs[1..][i]) >= CreatedAt(cs[1..][j]) {
          assert cs[1..][i] == cs[i + 1] && cs[1..][j] == cs[j + 1];
        }
      }
      forall k | 0 <= k < |tail| ensures RowCreatedAt(tail[k]) <= CreatedAt(cs[0]) {
        assert tail[k] in tail;
        var m :| 0 <= m < |cs| - 1 && cs[1..][m] == tail[k].child;
        assert cs[m + 1] == tail[k].child;
      }
      var r := head + tail;
      forall i, j | 0 <= i < j < |r| ensures RowCreatedAt(r[i]) >= RowCreatedAt(r[j]) {
        if i < |head| {
          assert head[i] in head;
          if j < |head| { assert head[j] in head; }
        }
      }
    }
  }

  /** The joined rows for a list of children, child by child: each child as often as it is listed
      times its row count, and in the order of the list. */
  function JoinLatest(cs: seq<Child>, records: seq<HealthRecord>): (r: seq<LatestRow>)
    ensures forall row :: row in r ==> row.child in cs && LatestRowOk(records, row)
    ensures forall c :: c in cs ==> exists row :: row in r && row.child == c
    ensures forall c, h ::
      (c in cs && h in records && h.childId == c.childId && MaxDate(records, c.childId) == Some(h.recordDate))
      ==> LatestRow(c, Some(h)) in r
    ensures forall c :: RowsOf(r, c) == multiset(cs)[c] * LatestCount(records, c)
    ensures SortedDescBy(cs, CreatedAt) ==> SortedDescBy(r, RowCreatedAt)
    decreases |cs|
  {
    if |cs| == 0 then []
    else
      var head := RowsFor(records, cs[0]);
      var tail := JoinLatest(cs[1..], records);
      JoinMembersStep(cs, records, head, tail);
      JoinCountStep(cs, head, tail, records);
      JoinStaysSorted(cs, head, tail);
      head + tail
  }

  /** `getChildrenWithLatestRecords`: every listed child, newest first, with the record(s) carrying
      its latest date; a child without records appears once with no vitals, and each record tied on
      the latest date gives its own row. */
  function GetChildrenWithLatestRecords(children: seq<Child>, records: seq<HealthRecord>,
                                        motherId: Option<int>): (r: seq<LatestRow>)
    ensures forall row :: row in r ==> row.child in children && OfMother(motherId, row.child)
    ensures forall row :: row in r ==> LatestRowOk(records, row)
    ensures forall c :: c in children && OfMother(motherId, c) ==> exists row :: row in r && row.child == c
    ensures forall c, h ::
      (c in children && OfMother(motherId, c) && h in records && h.childId == c.childId
       && MaxDate(records, c.childId) == Some(h.recordDate))
      ==> LatestRow(c, Some(h)) in r
    ensures forall c :: RowsOf(r, c) == (if OfMother(motherId, c) then multiset(children)[c] else 0)
                                        * LatestCount(records, c)
    ensures SortedDescBy(r, RowCreatedAt)
  {
    var cs := ReadAll(children, motherId);
    assert forall c :: multiset(cs)[c] == if OfMother(motherId, c) then multiset(children)[c] else 0;
    JoinLatest(cs, records)
  }

  /** `COUNT`, the two gender `SUM`s (NULL over no rows) and the age `AVG` of `getStatistics`. */
  datatype ChildStats = ChildStats(totalChildren: nat, maleCount: Option<nat>, femaleCount: Option<nat>,
                                   avgAgeMonths: Option<real>)

  function AgeSum(cs: seq<Child>): int {
    SumOf(cs, (c: Child) => c.ageMonths)
  }

  /** `getStatistics`: the counts over the mother's children (or all). Over no rows the sums are
      NULL; otherwise the boys and girls together are at most all the children. */
  function GetStatistics(children: seq<Child>, motherId: Option<int>): (st: ChildStats)
    ensures st.totalChildren == Count(children, c => OfMother(motherId, c))
    ensures st.maleCount.None? <==> st.totalChildren == 0
    ensures st.femaleCount.None? <==> st.totalChildren == 0
    ensures st.avgAgeMonths.None? <==> st.totalChildren == 0
    ensures st.maleCount.GetOr(0) + st.femaleCount.GetOr(0) <= st.totalChildren
  {
    var rows := Filter(children, c => OfMother(motherId, c));
    if |rows| == 0 then ChildStats(0, None, None, None)
    else
      DisjointFiltersLength(rows, (c: Child) => c.gender == "male", (c: Child) => c.gender == "female");
      ChildStats(|rows|, Some(Count(rows, (c: Child) => c.gender == "male")),
                 Some(Count(rows, (c: Child) => c.gender == "female")),
                 Some(AgeSum(rows) as real / |rows| as real))
  }

  predicate SearchCond(term: string, motherId: Option<int>, c: Child) {
    SqlLike.Like(c.name, "%" + term + "%") && OfMother(motherId, c)
  }

  /** `search`: the (mother's) children whose name matches `%term%` as a LIKE pattern; the term is
      not escaped, so `%` and `_` in it act as wildcards. */
  function Search(children: seq<Child>, term: string, motherId: Option<int>): (r: seq<Child>)
    ensures IsSubsequence(r, children)
    ensures forall c :: c in r <==> c in children && SqlLike.Like(c.name, "%" + term + "%") && OfMother(motherId, c)
  {
    FilterIsSubsequence(children, c => SearchCond(term, motherId, c));
    Filter(children, c => SearchCond(term, motherId, c))
  }

  /** For a term free of wildcards the search is case-insensitive containment in the name. */
  lemma PlainSearch(children: seq<Child>, term: string, motherId: Option<int>)
    requires SqlLike.Plain(term)
    ensures forall c :: c in Search(children, term, motherId)
                        <==> c in children && ContainsIgnoringCase(c.name, term) && OfMother(motherId, c)
  {
    forall c: Child ensures SqlLike.Like(c.name, "%" + term + "%") <==> ContainsIgnoringCase(c.name, term) {
      SqlLike.PlainSearchIsContainment(c.name, term);
    }
  }
}
