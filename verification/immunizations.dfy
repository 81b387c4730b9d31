/** The immunization queries: the upcoming and overdue due-date windows, the dashboard counts,
    the exact-name duplicate check and a child's vaccination history. `CURDATE()` is the
    parameter `today`. */
module Immunizations {
  import opened Wrappers
  import opened Seqs
  import opened Calendar
  import opened Records
  import Helpers

  /** A row of the due-date queries: the immunization and its distance in days from today
      (`days_until_due` for upcoming rows, `days_overdue` for overdue ones). */
  datatype DueRow = DueRow(imm: Immunization, days: int)

  /** The immunizations a list of due rows carries, in order. */
  function Rows(r: seq<DueRow>): (s: seq<Immunization>)
    ensures |s| == |r|
    ensures forall k :: 0 <= k < |r| ==> s[k] == r[k].imm
  {
    Map(r, (row: DueRow) => row.imm)
  }

  /** Sort key of the due-date queries (rows without a due date never reach the sort). */
  function DueDay(i: Immunization): int {
    i.nextDue.GetOr(0)
  }

  predicate HasDue(i: Immunization) {
    i.nextDue.Some?
  }

  /** `next_due_date IS NOT NULL AND next_due_date BETWEEN today AND today + daysAhead`. */
  predicate InUpcomingWindow(i: Immunization, today: Date, daysAhead: int) {
    i.nextDue.Some? && today <= i.nextDue.value <= today + daysAhead
  }

  /** `next_due_date IS NOT NULL AND next_due_date < today`. */
  predicate OverdueOn(i: Immunization, today: Date) {
    i.nextDue.Some? && i.nextDue.value < today
  }

  predicate UpcomingCond(children: seq<Child>, motherId: Option<int>, today: Date, daysAhead: int, i: Immunization) {
    InUpcomingWindow(i, today, daysAhead) && MotherFilter(children, i.childId, motherId)
  }

  predicate OverdueCond(children: seq<Child>, motherId: Option<int>, today: Date, i: Immunization) {
    OverdueOn(i, today) && MotherFilter(children, i.childId, motherId)
  }

  /** `getUpcoming`: the immunizations due within the next `daysAhead` days (both ends included),
      restricted to the mother's children when a mother is given, soonest first. */
  function GetUpcoming(imms: seq<Immunization>, children: seq<Child>, motherId: Option<int>,
                       today: Date, daysAhead: int): (r: seq<DueRow>)
    ensures IsSelection(Rows(r), imms, i => UpcomingCond(children, motherId, today, daysAhead, i))
    ensures SortedBy(Rows(r), DueDay)
    ensures forall k :: 0 <= k < |r| ==>
      r[k].imm.nextDue.Some? && r[k].days == r[k].imm.nextDue.value - today && 0 <= r[k].days <= daysAhead
  {
    var p := i => UpcomingCond(children, motherId, today, daysAhead, i);
    var sel := SelectAsc(imms, p, DueDay);
    SelectionHolds(sel, imms, p);
    var r := Map(sel, (i: Immunization) => DueRow(i, DueDay(i) - today));
    assert Rows(r) == sel;
    r
  }

  /** `getOverdue`: the immunizations whose due date has passed, restricted to the mother's
      children when a mother is given, most overdue first; every row is at least a day late. */
  function GetOverdue(imms: seq<Immunization>, children: seq<Child>, motherId: Option<int>,
                      today: Date): (r: seq<DueRow>)
    ensures IsSelection(Rows(r), imms, i => OverdueCond(children, motherId, today, i))
    ensures SortedBy(Rows(r), DueDay)
    ensures forall k :: 0 <= k < |r| ==>
      r[k].imm.nextDue.Some? && r[k].days == today - r[k].imm.nextDue.value && r[k].days >= 1
  {
    var p := i => OverdueCond(children, motherId, today, i);
    var sel := SelectAsc(imms, p, DueDay);
    SelectionHolds(sel, imms, p);
    var r := Map(sel, (i: Immunization) => DueRow(i, today - DueDay(i)));
    assert Rows(r) == sel;
    r
  }

  /** No immunization is both upcoming and overdue, and one without a due date is in neither list. */
  lemma UpcomingOverdueDisjoint(imms: seq<Immunization>, children: seq<Child>, m1: Option<int>,
                                m2: Option<int>, today: Date, daysAhead: int)
    ensures forall i :: i in Rows(GetUpcoming(imms, children, m1, today, daysAhead))
                        ==> i !in Rows(GetOverdue(imms, children, m2, today))
    ensures forall i: Immunization :: i.nextDue.None? ==>
      i !in Rows(GetUpcoming(imms, children, m1, today, daysAhead)) && i !in Rows(GetOverdue(imms, children, m2, today))
  {
    var up := GetUpcoming(imms, children, m1, today, daysAhead);
    var od := GetOverdue(imms, children, m2, today);
    SelectionMembers(Rows(up), imms, i => UpcomingCond(children, m1, today, daysAhead, i));
    SelectionMembers(Rows(od), imms, i => OverdueCond(children, m2, today, i));
  }

  /** Passing a mother only removes rows: every row of the restricted list is in the full list,
      at most as often. */
  lemma MotherFilterNarrows(imms: seq<Immunization>, children: seq<Child>, motherId: Option<int>,
                            today: Date, daysAhead: int)
    ensures multiset(Rows(GetUpcoming(imms, children, motherId, today, daysAhead)))
         <= multiset(Rows(GetUpcoming(imms, children, None, today, daysAhead)))
    ensures multiset(Rows(GetOverdue(imms, children, motherId, today)))
         <= multiset(Rows(GetOverdue(imms, children, None, today)))
  {
    SelectionNarrows(Rows(GetUpcoming(imms, children, motherId, today, daysAhead)),
                     Rows(GetUpcoming(imms, children, None, today, daysAhead)), imms,
                     i => UpcomingCond(children, motherId, today, daysAhead, i),
                     i => UpcomingCond(children, None, today, daysAhead, i));
    SelectionNarrows(Rows(GetOverdue(imms, children, motherId, today)),
                     Rows(GetOverdue(imms, children, None, today)), imms,
                     i => OverdueCond(children, motherId, today, i),
                     i => OverdueCond(children, None, today, i));
  }

  /** The helper `isVaccinationOverdue` and the overdue query disagree on the due day itself:
      after midnight the helper calls a dose due today overdue, while the query lists it as
      upcoming and not as overdue. */
  lemma DueTodayDisagreement(imms: seq<Immunization>, children: seq<Child>, i: Immunization,
                             now: Instant, daysAhead: int)
    requires i in imms && i.nextDue.Some? && daysAhead >= 0
    requires Midnight(i.nextDue.value) < now < Midnight(i.nextDue.value + 1)
    ensures Helpers.IsVaccinationOverdue(i.nextDue, now)
    ensures i !in Rows(GetOverdue(imms, children, None, DayOf(now)))
    ensures i in Rows(GetUpcoming(imms, children, None, DayOf(now), daysAhead))
  {
    var today := DayOf(now);
    assert today == i.nextDue.value;
    var up := GetUpcoming(imms, children, None, today, daysAhead);
    var od := GetOverdue(imms, children, None, today);
    SelectionMembers(Rows(up), imms, j => UpcomingCond(children, None, today, daysAhead, j));
    SelectionMembers(Rows(od), imms, j => OverdueCond(children, None, today, j));
  }

  /** The dashboard counts over immunizations with a due date. */
  datatype ImmunizationStats = ImmunizationStats(
    totalImmunizations: nat, childrenImmunized: nat, overdueCount: nat, upcomingCount: nat)

  /** Due strictly before `today`; rows without a due date are filtered out before this is asked. */
  predicate DueBefore(i: Immunization, today: Date) {
    DueDay(i) < today
  }

  /** `getStatistics`: overdue and upcoming (due today or later) split the dated immunizations,
      and no more distinct children than immunizations are counted. */
  function GetStatistics(imms: seq<Immunization>, today: Date): (st: ImmunizationStats)
    ensures st.overdueCount + st.upcomingCount == st.totalImmunizations
    ensures st.totalImmunizations == Count(imms, HasDue)
    ensures st.childrenImmunized <= st.totalImmunizations
    ensures st.overdueCount == Count(imms, i => OverdueOn(i, today))
  {
    var dated := Filter(imms, HasDue);
    ComplementaryFiltersLength(dated, i => DueBefore(i, today), i => !DueBefore(i, today));
    OverdueAmongDated(imms, today);
    ImmunizationStats(|dated|, |Image(dated, (i: Immunization) => i.childId)|,
                      Count(dated, i => DueBefore(i, today)), Count(dated, i => !DueBefore(i, today)))
  }

  /** Counting the dated immunizations due before today counts the overdue ones. */
  lemma OverdueAmongDated(imms: seq<Immunization>, today: Date)
    ensures Count(Filter(imms, HasDue), i => DueBefore(i, today)) == Count(imms, i => OverdueOn(i, today))
  {
    FilterFilterAs(imms, HasDue, i => DueBefore(i, today), i => OverdueOn(i, today));
  }

  /** Among the dated immunizations, the upcoming-window ones are a subset of those not yet due. */
  lemma UpcomingAmongDated(imms: seq<Immunization>, children: seq<Child>, today: Date, daysAhead: int)
    ensures Count(imms, i => UpcomingCond(children, None, today, daysAhead, i))
         <= Count(Filter(imms, HasDue), i => !DueBefore(i, today))
  {
    var notYet := (x: Immunization) => HasDue(x) && !DueBefore(x, today);
    FilterFilterAs(imms, HasDue, i => !DueBefore(i, today), notYet);
    SubsetFilterLength(imms, i => UpcomingCond(children, None, today, daysAhead, i), notYet);
  }

  /** The overdue count equals the length of the unrestricted overdue list, and the upcoming count
      bounds the length of every unrestricted upcoming window. */
  lemma StatisticsMatchLists(imms: seq<Immunization>, children: seq<Child>, today: Date, daysAhead: int)
    ensures GetStatistics(imms, today).overdueCount == |GetOverdue(imms, children, None, today)|
    ensures |GetUpcoming(imms, children, None, today, daysAhead)| <= GetStatistics(imms, today).upcomingCount
  {
    var od := GetOverdue(imms, children, None, today);
    SelectionLength(Rows(od), imms, i => OverdueCond(children, None, today, i));
    FilterCongruent(imms, i => OverdueCond(children, None, today, i), i => OverdueOn(i, today));
    var up := GetUpcoming(imms, children, None, today, daysAhead);
    SelectionLength(Rows(up), imms, i => UpcomingCond(children, None, today, daysAhead, i));
    UpcomingAmongDated(imms, children, today, daysAhead);
  }

  /** `vaccineExists`: whether the child already has a dose recorded under exactly that name. */
  function VaccineExists(imms: seq<Immunization>, childId: int, vaccineName: string): (b: bool)
    ensures b <==> exists i :: i in imms && i.childId == childId && i.vaccineName == vaccineName
  {
    var hits := Filter(imms, (i: Immunization) => i.childId == childId && i.vaccineName == vaccineName);
    if |hits| > 0 then
      assert hits[0] in hits;
      true
    else false
  }

  /** `readByChild`: the child's immunizations, latest dose first. */
  function ReadByChild(imms: seq<Immunization>, childId: int): (r: seq<Immunization>)
    ensures IsSelection(r, imms, (i: Immunization) => i.childId == childId)
    ensures SortedDescBy(r, (i: Immunization) => i.dateGiven)
  {
    SelectDesc(imms, (i: Immunization) => i.childId == childId, (i: Immunization) => i.dateGiven)
  }
}
