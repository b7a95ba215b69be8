/**
 * How long faults run and how their end is told: no lease is given more than its fault's duration, none is reaped
 * before its deadline, and the trail says of each end whose it was.
 */
module LifecycleTimes {
  import opened Vocabulary
  import opened AuditTrail
  import opened RowReading
  import opened Leases
  import opened Slots
  import opened Lifecycle
  import opened LifecycleIdentity

  /** Stored by now, and good for at most as long as the fault was asked for. */
  ghost predicate RunsItsTime(af: ActiveFault, now: Time) {
    af.appliedAt <= now && af.deadline <= af.appliedAt + af.manifest.duration
  }

  /** Whoever still holds the fault holds it past its deadline. */
  ghost predicate Overdue(s: State, uid: string) {
    uid in s.known && (uid in s.leases ==> s.leases[uid].deadline != NEVER && s.leases[uid].deadline < s.now)
  }

  ghost predicate LeasesRunTheirTime(s: State, began: set<string>) {
    forall uid :: uid in s.leases && uid !in began ==> RunsItsTime(s.leases[uid], s.now)
  }

  /** What a sweep has before it, and what the reaper asks a driver to clear, is overdue. */
  ghost predicate ReapsOverdue(s: State) {
    && (forall t, i :: t in s.sweeps && 0 <= i < |s.sweeps[t]| ==> Overdue(s, s.sweeps[t][i].faultUID))
    && (forall t :: t in s.clearers && s.clearers[t].kind.Reaping? ==> Overdue(s, s.clearers[t].uid))
  }

  lemma StaysOverdue(s: State, s': State, uid: string)
    requires Persists(s, s') && s.now <= s'.now && Overdue(s, uid)
    ensures Overdue(s', uid)
  {
  }

  /** The one step that adds a lease. */
  lemma ApplyAddsLease(cfg: Config, s: State, t: Tid, a: ApplyStep, uid: string)
    requires ApplyEnabled(cfg, s, t, a) && uid in NextApply(cfg, s, t, a).leases
    ensures uid in s.leases || (a.RegisterLease? && RunsItsTime(NextApply(cfg, s, t, a).leases[uid], s.now))
    ensures NextApply(cfg, s, t, a).now == s.now
  {
    if !a.RegisterLease? { ApplyKeepsLeases(cfg, s, t, a); }
  }

  lemma ApplyKeepsLeases(cfg: Config, s: State, t: Tid, a: ApplyStep)
    requires ApplyEnabled(cfg, s, t, a) && !a.RegisterLease?
    ensures NextApply(cfg, s, t, a).leases == s.leases && NextApply(cfg, s, t, a).now == s.now
  {
    if IsOpening(a) { OpeningIsQuiet(cfg, s, t, a); }
  }

  lemma ClearAddsNone(s: State, t: Tid, c: ClearStep)
    requires ClearEnabled(s, t, c)
    ensures NextClear(s, t, c).leases.Keys <= s.leases.Keys && NextClear(s, t, c).now == s.now
  {
  }

  lemma StepAddsLease(cfg: Config, s: State, a: Step, uid: string)
    requires Enabled(cfg, s, a) && uid in Next(cfg, s, a).leases
    ensures uid in s.leases || RunsItsTime(Next(cfg, s, a).leases[uid], Next(cfg, s, a).now)
    ensures s.now <= Next(cfg, s, a).now
  {
    match a
    case ApplyMove(t, b) => ApplyAddsLease(cfg, s, t, b, uid);
    case ClearMove(t, c) => ClearAddsNone(s, t, c);
    case _ =>
  }

  lemma LeasesKeepTime(cfg: Config, s: State, a: Step, began: set<string>)
    requires IdentityInv(s) && Enabled(cfg, s, a) && LeasesRunTheirTime(s, began)
    ensures LeasesRunTheirTime(Next(cfg, s, a), began)
  {
    var s' := Next(cfg, s, a);
    IdentityStep(cfg, s, a);
    forall uid | uid in s'.leases && uid !in began ensures RunsItsTime(s'.leases[uid], s'.now) {
      StepAddsLease(cfg, s, a, uid);
    }
  }

  /** A step of an apply reaps nothing. */
  lemma ApplyReapsNothing(cfg: Config, s: State, t: Tid, a: ApplyStep)
    requires ApplyEnabled(cfg, s, t, a)
    ensures
      var s' := NextApply(cfg, s, t, a);
      && s'.sweeps == s.sweeps && s'.now == s.now
      && forall u :: u in s'.clearers && s'.clearers[u].kind.Reaping? ==>
           u in s.clearers && s'.clearers[u] == s.clearers[u]
  {
    if !a.Abandon? { ApplyKeepsClearers(cfg, s, t, a); }
  }

  lemma ApplyKeepsClearers(cfg: Config, s: State, t: Tid, a: ApplyStep)
    requires ApplyEnabled(cfg, s, t, a) && !a.Abandon?
    ensures NextApply(cfg, s, t, a).sweeps == s.sweeps && NextApply(cfg, s, t, a).clearers == s.clearers
    ensures NextApply(cfg, s, t, a).now == s.now
  {
    if IsOpening(a) { OpeningIsQuiet(cfg, s, t, a); }
  }

  predicate IsOpening(a: ApplyStep) {
    a.Receive? || a.RefuseEarly? || a.EnterReserve? || a.LeaveReserve? || a.FailReserved? || a.DropSlot?
  }

  lemma OpeningIsQuiet(cfg: Config, s: State, t: Tid, a: ApplyStep)
    requires ApplyEnabled(cfg, s, t, a) && IsOpening(a)
    ensures NextApply(cfg, s, t, a).sweeps == s.sweeps && NextApply(cfg, s, t, a).clearers == s.clearers
    ensures NextApply(cfg, s, t, a).leases == s.leases && NextApply(cfg, s, t, a).now == s.now
  {
  }

  lemma SweepsOverdue(s: State, t: Tid, c: ClearStep, u: Tid, i: nat)
    requires IdentityInv(s) && ReapsOverdue(s) && ClearEnabled(s, t, c)
    requires u in NextClear(s, t, c).sweeps && i < |NextClear(s, t, c).sweeps[u]|
    ensures Overdue(s, NextClear(s, t, c).sweeps[u][i].faultUID)
  {
    match c
    case StartSweep(since, batch) => if u == t { assert batch[i] in batch; }
    case _ =>
  }

  lemma ReapersOverdue(s: State, t: Tid, c: ClearStep, u: Tid)
    requires IdentityInv(s) && ReapsOverdue(s) && ClearEnabled(s, t, c)
    requires u in NextClear(s, t, c).clearers && NextClear(s, t, c).clearers[u].kind.Reaping?
    ensures Overdue(s, NextClear(s, t, c).clearers[u].uid)
  {
    if c.NextInSweep? { assert Overdue(s, s.sweeps[t][0].faultUID); }
  }

  lemma ReapingStaysOverdue(cfg: Config, s: State, a: Step)
    requires IdentityInv(s) && Enabled(cfg, s, a) && ReapsOverdue(s)
    ensures ReapsOverdue(Next(cfg, s, a))
  {
    var s' := Next(cfg, s, a);
    IdentityStep(cfg, s, a);
    match a {
      case ApplyMove(t, b) => ApplyReapsNothing(cfg, s, t, b);
      case ClearMove(t, c) => ClearAddsNone(s, t, c);
      case _ =>
    }
    forall u, i | u in s'.sweeps && 0 <= i < |s'.sweeps[u]| ensures Overdue(s', s'.sweeps[u][i].faultUID) {
      if a.ClearMove? { SweepsOverdue(s, a.t, a.clear, u, i); }
      StaysOverdue(s, s', s'.sweeps[u][i].faultUID);
    }
    forall u | u in s'.clearers && s'.clearers[u].kind.Reaping? ensures Overdue(s', s'.clearers[u].uid) {
      if a.ClearMove? { ReapersOverdue(s, a.t, a.clear, u); }
      StaysOverdue(s, s', s'.clearers[u].uid);
    }
  }

  /**
   * In every run each lease the process gave ends no later than its fault's duration after it was stored, and what the
   * reaper takes out, or is about to, is past its deadline.
   */
  lemma {:induction false} TimesHold(cfg: Config, s0: State, live: set<string>, steps: seq<Step>, s: State)
    requires Init(s0, live) && Reaches(cfg, s0, steps, s)
    ensures LeasesRunTheirTime(s, s0.leases.Keys) && ReapsOverdue(s)
  {
    if steps != [] {
      var front, last := steps[..|steps| - 1], steps[|steps| - 1];
      var before := Run(cfg, s0, front).value;
      TimesHold(cfg, s0, live, front, before);
      IdentityHolds(cfg, s0, live, front, before);
      LeasesKeepTime(cfg, before, last, s0.leases.Keys);
      ReapingStaysOverdue(cfg, before, last);
    }
  }

  // ----- How an end is told -----

  /** The row says who ended the fault and when: taken back for what reason, cleared by whom, or run to its deadline. */
  predicate EndTold(row: FaultRow, kind: ClearKind, now: Time) {
    && row.endedAt == now
    && match kind
       case Abandoning(why) => row.outcome == Cleared && row.reason == why
       case Explicit(actor) => row.outcome == Cleared && row.reason == "explicit-clear" && row.clearedBy == actor
       case Reaping => row.outcome == Expired && row.reason == "deadline-reached"
  }

  lemma ToldByRecord(before: FaultRow, r: Record, after: FaultRow, s: State, c: ClearOp)
    requires Changes(before, r, after) && r == ClosingRecord(s, c)
    requires c.kind.Abandoning? ==> c.kind.why != "driver-clear-failed"
    ensures EndTold(after, c.kind, s.now)
  {
  }

  lemma EndIsTold(s: State, t: Tid)
    requires IdentityInv(s) && ClearEnabled(s, t, ReportEnd)
    requires s.clearers[t].kind.Abandoning? ==> s.clearers[t].kind.why != "driver-clear-failed"
    ensures EndTold(Row(NextClear(s, t, ReportEnd).log, s.clearers[t].uid), s.clearers[t].kind, s.now)
  {
    var c := s.clearers[t];
    assert EngineStands(s, c);
    RowOneMore(s.log, ClosingRecord(s, c), NextClear(s, t, ReportEnd).log, c.uid);
    ToldByRecord(Row(s.log, c.uid), ClosingRecord(s, c), Row(NextClear(s, t, ReportEnd).log, c.uid), s, c);
  }

  lemma RowOneMore(log: seq<Record>, r: Record, longer: seq<Record>, uid: string)
    requires uid != "" && r.faultUID == uid && longer == log + [r]
    ensures Changes(Row(log, uid), r, Row(longer, uid))
  {
    RowChanges(log, r, uid);
  }

  lemma NoEndInRecord(before: FaultRow, r: Record, after: FaultRow)
    requires Changes(before, r, after) && !IsEnd(r)
    ensures after.outcome == before.outcome && after.reason == before.reason && after.endedAt == before.endedAt
  {
  }

  lemma RefusalRecordIs(s: State, c: ClearOp) returns (r: Record)
    requires !c.kind.Explicit?
    ensures RefusalRecords(s, c) == [r] && r.faultUID == c.uid && !IsEnd(r)
  {
    r := RefusalRecords(s, c)[0];
  }

  /** The row says what the lease does, and its tier if it has one. */
  ghost predicate ToldInFull(row: FaultRow, af: ActiveFault, now: Time) {
    && Tells(row, af) && row.appliedAt == now
    && (af.manifest.tier != "" ==> row.described.tier == af.manifest.tier)
  }

  lemma ToldByAnnouncement(before: FaultRow, s: State, af: ActiveFault, after: FaultRow)
    requires Changes(before, AppliedRecord(s, af), after) && s.now != NEVER
    ensures ToldInFull(after, af, s.now)
  {
  }

  lemma NamedByItsManifest(s: State, t: Tid)
    requires IdentityInv(s) && t in s.applies && s.applies[t].phase.HandedOver?
    ensures s.applies[t].phase.lease.faultUID == s.applies[t].phase.lease.manifest.uid != ""
  {
    assert LeaseStands(s, s.applies[t].manifest.uid, s.applies[t].phase.lease);
  }

  lemma ApplyIsTold(s: State, t: Tid)
    requires IdentityInv(s) && t in s.applies && s.applies[t].phase.HandedOver? && s.now != NEVER
    ensures
      var af := s.applies[t].phase.lease;
      ToldInFull(Row(DoAnnounceApplied(s, t).log, af.faultUID), af, s.now)
  {
    var af, longer := s.applies[t].phase.lease, DoAnnounceApplied(s, t).log;
    NamedByItsManifest(s, t);
    RowOneMore(s.log, AppliedRecord(s, af), longer, af.faultUID);
    ToldByAnnouncement(Row(s.log, af.faultUID), s, af, Row(longer, af.faultUID));
  }

  /** A clear that the driver refused leaves how the fault stands as it was. */
  lemma RefusedClearChangesNothing(s: State, t: Tid)
    requires IdentityInv(s) && ClearEnabled(s, t, ReportRefusal)
    ensures
      var was, row := Row(s.log, s.clearers[t].uid), Row(NextClear(s, t, ReportRefusal).log, s.clearers[t].uid);
      row.outcome == was.outcome && row.reason == was.reason && row.endedAt == was.endedAt
  {
    var c := s.clearers[t];
    assert EngineStands(s, c) && s.log + [] == s.log;
    if !c.kind.Explicit? {
      var r := RefusalRecordIs(s, c);
      var longer := NextClear(s, t, ReportRefusal).log;
      RowOneMore(s.log, r, longer, c.uid);
      NoEndInRecord(Row(s.log, c.uid), r, Row(longer, c.uid));
    }
  }
}
