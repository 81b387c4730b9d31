/** The alert store: creation with a default status, status updates and resolution, the filtered
    listings and counts, the per-status statistics and the retention purge of resolved alerts. */
module Alerts {
  import opened Wrappers
  import opened Seqs
  import opened Calendar
  import opened Records
  import opened Php

  /** `create`: appends the alert under the id the insert assigns, stamped with the current time.
      The status falls back to 'pending' only when none was set; a set status, even "", is kept. */
  function Create(alerts: seq<Alert>, childId: int, alertType: string, message: string,
                  status: Option<string>, newId: int, now: Instant): (r: seq<Alert>)
    ensures |r| == |alerts| + 1 && r[..|alerts|] == alerts
    ensures status.None? ==> r[|alerts|].status == "pending"
    ensures status.Some? ==> r[|alerts|].status == status.value
    ensures r[|alerts|].alertId == newId && r[|alerts|].childId == childId && r[|alerts|].createdAt == now
    ensures r[|alerts|].alertType == alertType && r[|alerts|].message == message
  {
    alerts + [Alert(newId, childId, alertType, message, status.GetOr("pending"), now)]
  }

  /** `updateStatus`: every row with that id takes the new status, whatever it is; nothing else changes. */
  function UpdateStatus(alerts: seq<Alert>, alertId: int, status: string): (r: seq<Alert>)
    ensures |r| == |alerts|
    ensures forall k :: 0 <= k < |r| ==>
      r[k] == if alerts[k].alertId == alertId then alerts[k].(status := status) else alerts[k]
  {
    seq(|alerts|, k requires 0 <= k < |alerts| =>
      if alerts[k].alertId == alertId then alerts[k].(status := status) else alerts[k])
  }

  /** `resolve`: marks that alert resolved and leaves every other alert as it was. */
  function Resolve(alerts: seq<Alert>, alertId: int): (r: seq<Alert>)
    ensures |r| == |alerts|
    ensures forall k :: 0 <= k < |r| && alerts[k].alertId == alertId ==> r[k].status == "resolved"
    ensures forall k :: 0 <= k < |r| && alerts[k].alertId != alertId ==> r[k] == alerts[k]
    ensures forall k :: 0 <= k < |r| ==> r[k].(status := alerts[k].status) == alerts[k]
  {
    UpdateStatus(alerts, alertId, "resolved")
  }

  /** Resolving twice is resolving once. */
  lemma ResolveIdempotent(alerts: seq<Alert>, alertId: int)
    ensures Resolve(Resolve(alerts, alertId), alertId) == Resolve(alerts, alertId)
  {
    var once := Resolve(alerts, alertId);
    var twice := Resolve(once, alertId);
    assert forall k :: 0 <= k < |once| ==> twice[k] == once[k];
  }

  /** The last status written to an alert wins; in particular a resolved alert can be set back to
      pending, so the pending-to-resolved direction is not enforced outside `resolve`. */
  lemma LastStatusWins(alerts: seq<Alert>, alertId: int, s1: string, s2: string)
    ensures UpdateStatus(UpdateStatus(alerts, alertId, s1), alertId, s2) == UpdateStatus(alerts, alertId, s2)
  {
    var a := UpdateStatus(UpdateStatus(alerts, alertId, s1), alertId, s2);
    var b := UpdateStatus(alerts, alertId, s2);
    assert forall k :: 0 <= k < |a| ==> a[k] == b[k];
  }

  lemma ResolvedCanReopen(alerts: seq<Alert>, alertId: int)
    ensures forall a :: a in UpdateStatus(Resolve(alerts, alertId), alertId, "pending") && a.alertId == alertId
                        ==> a.status == "pending"
  {
    LastStatusWins(alerts, alertId, "resolved", "pending");
  }

  /** The conditions `readAll` adds for its truthy arguments, joined by AND. */
  predicate ReadAllCond(children: seq<Child>, status: Option<string>, childId: Option<int>,
                        motherId: Option<int>, a: Alert) {
    (EmptyOpt(status) || a.status == status.value)
    && (!Given(childId) || a.childId == childId.value)
    && MotherFilter(children, a.childId, motherId)
  }

  /** `readAll`: the alerts meeting every filter given, newest first. */
  function ReadAll(alerts: seq<Alert>, children: seq<Child>, status: Option<string>,
                   childId: Option<int>, motherId: Option<int>): (r: seq<Alert>)
    ensures IsSelection(r, alerts, a => ReadAllCond(children, status, childId, motherId, a))
    ensures SortedDescBy(r, (a: Alert) => a.createdAt)
  {
    SelectDesc(alerts, a => ReadAllCond(children, status, childId, motherId, a), (a: Alert) => a.createdAt)
  }

  /** Without filters `readAll` lists the whole table, reordered. */
  lemma ReadAllUnfiltered(alerts: seq<Alert>, children: seq<Child>)
    ensures multiset(ReadAll(alerts, children, None, None, None)) == multiset(alerts)
  {
    var r := ReadAll(alerts, children, None, None, None);
    assert forall x :: multiset(r)[x] == multiset(alerts)[x];
  }

  predicate PendingOf(children: seq<Child>, motherId: Option<int>, a: Alert) {
    a.status == "pending" && MotherFilter(children, a.childId, motherId)
  }

  /** `getPendingCount`: how many alerts are pending, among the mother's children when one is given. */
  function GetPendingCount(alerts: seq<Alert>, children: seq<Child>, motherId: Option<int>): (n: nat)
    ensures n <= |alerts|
    ensures n == |ReadAll(alerts, children, Some("pending"), None, motherId)|
  {
    var r := ReadAll(alerts, children, Some("pending"), None, motherId);
    SelectionLength(r, alerts, a => ReadAllCond(children, Some("pending"), None, motherId, a));
    FilterCongruent(alerts, a => ReadAllCond(children, Some("pending"), None, motherId, a),
                    a => PendingOf(children, motherId, a));
    Count(alerts, a => PendingOf(children, motherId, a))
  }

  /** `getByType`: the alerts of one type in one status, newest first. */
  function GetByType(alerts: seq<Alert>, alertType: string, status: string): (r: seq<Alert>)
    ensures IsSelection(r, alerts, (a: Alert) => a.alertType == alertType && a.status == status)
    ensures SortedDescBy(r, (a: Alert) => a.createdAt)
  {
    SelectDesc(alerts, (a: Alert) => a.alertType == alertType && a.status == status, (a: Alert) => a.createdAt)
  }

  /** `getByType` with the status argument left at its default, 'pending'. */
  function GetPendingByType(alerts: seq<Alert>, alertType: string): (r: seq<Alert>)
    ensures forall a :: a in r <==> a in alerts && a.alertType == alertType && a.status == "pending"
  {
    var r := GetByType(alerts, alertType, "pending");
    SelectionMembers(r, alerts, (a: Alert) => a.alertType == alertType && a.status == "pending");
    r
  }

  /** How many alerts are in status `k` (one row of `GROUP BY status`). */
  function StatusCount(alerts: seq<Alert>, k: string): nat {
    Count(alerts, (a: Alert) => a.status == k)
  }

  /** The statuses present in the table are the groups `GROUP BY status` yields. */
  lemma StatusGroups(alerts: seq<Alert>, k: string)
    ensures k in Image(alerts, (a: Alert) => a.status) <==> exists a :: a in alerts && a.status == k
    ensures k !in Image(alerts, (a: Alert) => a.status) ==> StatusCount(alerts, k) == 0
  {
    if a :| a in alerts && a.status == k {
      var i :| 0 <= i < |alerts| && alerts[i] == a;
    }
    var f := Filter(alerts, (a: Alert) => a.status == k);
    if |f| > 0 {
      assert f[0] in f;
      var i :| 0 <= i < |alerts| && alerts[i] == f[0];
    }
  }

  /** The statuses present in the table; every other status counts zero. */
  function Statuses(alerts: seq<Alert>): (r: set<string>)
    ensures forall k :: k in r <==> exists a :: a in alerts && a.status == k
    ensures forall k :: k !in r ==> StatusCount(alerts, k) == 0
  {
    var r := Image(alerts, (a: Alert) => a.status);
    assert forall k :: (k in r <==> exists a :: a in alerts && a.status == k)
                       && (k !in r ==> StatusCount(alerts, k) == 0) by {
      forall k ensures (k in r <==> exists a :: a in alerts && a.status == k)
                       && (k !in r ==> StatusCount(alerts, k) == 0) {
        StatusGroups(alerts, k);
      }
    }
    r
  }

  /** The statuses `getStatistics` reports even when no alert has them. */
  const DefaultStatuses: set<string> := {"pending", "resolved"}

  /** `getStatistics`: the count of every status present, and of 'pending' and 'resolved' always. */
  method GetStatistics(alerts: seq<Alert>) returns (stats: map<string, nat>)
    ensures "pending" in stats && "resolved" in stats
    ensures forall k :: k in stats <==> k == "pending" || k == "resolved" || exists a :: a in alerts && a.status == k
    ensures forall k :: k in stats ==> stats[k] == StatusCount(alerts, k)
  {
    stats := StoreCounts(alerts, Statuses(alerts), map k | k in DefaultStatuses :: 0);
    TalliedAll(alerts, stats);
  }

  /** The loop over the groups: each status of `statuses` gets its count. */
  method StoreCounts(alerts: seq<Alert>, statuses: set<string>, init: map<string, nat>) returns (stats: map<string, nat>)
    requires Tallied(alerts, init, {})
    ensures Tallied(alerts, stats, statuses)
  {
    stats := init;
    var todo, done := statuses, {};
    while todo != {}
      invariant todo + done == statuses
      invariant Tallied(alerts, stats, done)
      decreases |todo|
    {
      var g :| g in todo;
      TallyOne(alerts, stats, done, g);
      stats := stats[g := StatusCount(alerts, g)];
      todo, done := todo - {g}, done + {g};
    }
  }

  /** `stats` holds the default statuses and those in `done`, each of the latter with its count and
      the former with zero until counted. */
  predicate Tallied(alerts: seq<Alert>, stats: map<string, nat>, done: set<string>) {
    && stats.Keys == DefaultStatuses + done
    && forall k :: k in stats ==> stats[k] == if k in done then StatusCount(alerts, k) else 0
  }

  /** Storing the count of one more status keeps the tally. */
  lemma TallyOne(alerts: seq<Alert>, stats: map<string, nat>, done: set<string>, g: string)
    requires Tallied(alerts, stats, done)
    ensures Tallied(alerts, stats[g := StatusCount(alerts, g)], done + {g})
  {
  }

  /** Once every present status is counted, the map holds exactly the present and default statuses,
      each with its count. */
  lemma TalliedAll(alerts: seq<Alert>, stats: map<string, nat>)
    requires Tallied(alerts, stats, Statuses(alerts))
    ensures "pending" in stats && "resolved" in stats
    ensures forall k :: k in stats <==> k == "pending" || k == "resolved" || exists a :: a in alerts && a.status == k
    ensures forall k :: k in stats ==> stats[k] == StatusCount(alerts, k)
  {
  }

  /** What the retention purge leaves and how many rows it deleted. */
  datatype Purge = Purge(kept: seq<Alert>, removed: nat)

  /** Resolved and created before the cut-off `now - daysOld` days. */
  predicate Stale(now: Instant, daysOld: int, a: Alert) {
    a.status == "resolved" && a.createdAt < now - daysOld * SecondsPerDay
  }

  /** `deleteOldResolved`: deletes the resolved alerts created before the cut-off, never one in any
      other status, keeps the rest in order, and reports how many rows went. */
  function DeleteOldResolved(alerts: seq<Alert>, now: Instant, daysOld: int): (r: Purge)
    ensures IsSubsequence(r.kept, alerts)
    ensures forall a :: a in r.kept <==> a in alerts && !(a.status == "resolved" && a.createdAt < now - daysOld * SecondsPerDay)
    ensures forall a :: a in alerts && a.status != "resolved" ==> a in r.kept
    ensures r.removed + |r.kept| == |alerts|
    ensures r.removed == Count(alerts, a => Stale(now, daysOld, a))
  {
    var kept := Filter(alerts, a => !Stale(now, daysOld, a));
    FilterIsSubsequence(alerts, a => !Stale(now, daysOld, a));
    ComplementaryFiltersLength(alerts, a => Stale(now, daysOld, a), a => !Stale(now, daysOld, a));
    Purge(kept, |alerts| - |kept|)
  }

  /** The purge never changes the pending count, for any mother. */
  lemma PurgeKeepsPendingCount(alerts: seq<Alert>, children: seq<Child>, motherId: Option<int>,
                               now: Instant, daysOld: int)
    ensures GetPendingCount(DeleteOldResolved(alerts, now, daysOld).kept, children, motherId)
         == GetPendingCount(alerts, children, motherId)
  {
    FilterFilterAs(alerts, a => !Stale(now, daysOld, a), a => PendingOf(children, motherId, a),
                   a => PendingOf(children, motherId, a));
  }

  /** A newly created alert with no status set adds one to the unrestricted pending count. */
  lemma CreateUnsetCountsPending(alerts: seq<Alert>, children: seq<Child>, childId: int,
                                 alertType: string, message: string, newId: int, now: Instant)
    ensures GetPendingCount(Create(alerts, childId, alertType, message, None, newId, now), children, None)
         == GetPendingCount(alerts, children, None) + 1
  {
    var x := Alert(newId, childId, alertType, message, "pending", now);
    FilterSnoc(alerts, x, a => PendingOf(children, None, a));
  }
}
