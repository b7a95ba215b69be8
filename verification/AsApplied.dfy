/**
 * Which faults a trail gives back as having run or as running still, and as what, told by its records
 * (pkg/executor/history.go, pkg/audit/faults.go): as they reached the cluster, with the end the trail has or the
 * deadline that has passed, or with the lease they had.
 */
module AsApplied {
  import opened Vocabulary
  import opened AuditTrail
  import opened RowReading
  import opened Leases
  import opened RestartRecovery
  import opened HistoryRecovery
  import S = AsSubmitted
  import H = History

  /** Taken back because it did not take or could not be verified: a refusal, not a fault that ran. */
  ghost predicate TakenBack(records: seq<Record>, uid: string) {
    match LastOf(records, Ending(uid))
    case None => false
    case Some(end) =>
      end.event == LeaseCleared
      && end.reason in {"injection-failed", "probe-failed", "cannot-gate", "probe-not-configured"}
  }

  /** What the trail last told of the fault and where it was first named, as a manifest. */
  ghost predicate ManifestTold(records: seq<Record>, uid: string, m: Manifest) {
    && m.uid == uid
    && DescriptionRead(Description(m.engine, m.resourceKind, m.targets, m.spec, m.duration, m.tier), records, uid)
    && FirstNamed(records, uid, MODE, m.source) && FirstNamed(records, uid, PLAN, m.planID)
  }

  /** How the entry says the fault ended: as recorded, or untracked at a deadline that has passed, or not at all. */
  ghost predicate EndTold(records: seq<Record>, uid: string, applied: Record, now: Time, rf: H.RecentFault) {
    match LastOf(records, Ending(uid))
    case Some(end) =>
      rf.clearReason == end.reason
      && EndsAt(end, DeadlineOf(LastOf(Before(records, Ending(uid)), Of(uid, DriverApplied))), rf.clearedAt)
    case None =>
      if applied.payload.deadline.Some? && applied.payload.deadline.value <= now then
        rf.clearedAt == applied.payload.deadline.value && rf.clearReason == "untracked-after-restart"
      else rf.clearedAt == NEVER && rf.clearReason == ""
  }

  /** The entry tells of a fault that was applied, late enough, and not taken back. */
  ghost predicate ToldAsApplied(records: seq<Record>, since: Time, now: Time, rf: H.RecentFault) {
    var uid := rf.faultUID;
    && uid != "" && ManifestTold(records, uid, rf.manifest)
    && rf.manifest.targets != [] && rf.manifest.resourceKind != "" && !TakenBack(records, uid)
    && match LastOf(records, Of(uid, DriverApplied))
       case None => false
       case Some(applied) =>
         rf.appliedAt == applied.ts != NEVER && applied.ts >= since && EndTold(records, uid, applied, now, rf)
  }

  lemma NamedOnce(records: seq<Record>, uid: string, field: Record -> string, a: string, b: string)
    requires FirstNamed(records, uid, field, a) && FirstNamed(records, uid, field, b)
    ensures a == b
  {
    if a != "" && b != "" {
      var i :| 0 <= i < |records| && records[i].faultUID == uid && field(records[i]) == a
            && forall r :: r in records[..i] && r.faultUID == uid ==> field(r) == "";
      var j :| 0 <= j < |records| && records[j].faultUID == uid && field(records[j]) == b
            && forall r :: r in records[..j] && r.faultUID == uid ==> field(r) == "";
      assert i < j ==> records[i] in records[..j];
      assert j < i ==> records[j] in records[..i];
    }
  }

  lemma OneManifestTold(records: seq<Record>, uid: string, m: Manifest, n: Manifest)
    requires ManifestTold(records, uid, m) && ManifestTold(records, uid, n)
    ensures m == n
  {
    NamedOnce(records, uid, MODE, m.source, n.source);
    NamedOnce(records, uid, PLAN, m.planID, n.planID);
  }

  /** The manifest a row is rebuilt as, whether or not it says enough. */
  ghost function AsDescribed(row: FaultRow): Manifest {
    Manifest(row.faultUID, row.source, row.described.engine, row.described.kind, row.described.spec,
             row.described.targets, row.described.duration, row.described.tier, row.planID)
  }

  lemma RowTellsManifest(records: seq<Record>, uid: string)
    requires uid != ""
    ensures ManifestTold(records, uid, AsDescribed(Row(records, uid)))
  {
    RowIsRead(records, uid);
    var d := Row(records, uid).described;
    assert Description(d.engine, d.kind, d.targets, d.spec, d.duration, d.tier) == d;
  }

  lemma BackedOutIsTakenBack(row: FaultRow, records: seq<Record>, uid: string)
    requires EndingRead(row, records, uid)
    ensures RefusalRecovery.BackedOut(row) <==> TakenBack(records, uid)
  {
    assert RefusalRecovery.BACKED_OUT_REASONS
        == {"injection-failed", "probe-failed", "cannot-gate", "probe-not-configured"};
  }

  /** The entry a row is rebuilt as is the one its records tell of. */
  lemma RowTellsOfRun(records: seq<Record>, uid: string, since: Time, now: Time, rf: H.RecentFault)
    requires uid != "" && rf.faultUID == uid
    ensures RecentOf(Row(records, uid), since, now) == Some(rf) <==> ToldAsApplied(records, since, now, rf)
  {
    var row := Row(records, uid);
    RowIsRead(records, uid);
    RowTellsManifest(records, uid);
    BackedOutIsTakenBack(row, records, uid);
    if ManifestTold(records, uid, rf.manifest) { OneManifestTold(records, uid, rf.manifest, AsDescribed(row)); }
    EntryOfRow(row, records, uid, since, now, rf);
  }

  predicate EndOfEntry(row: FaultRow, now: Time, rf: H.RecentFault) {
    if row.outcome != Open then rf.clearedAt == row.endedAt && rf.clearReason == row.reason
    else if row.deadline.Some? && row.deadline.value <= now then
      rf.clearedAt == row.deadline.value && rf.clearReason == "untracked-after-restart"
    else rf.clearedAt == NEVER && rf.clearReason == ""
  }

  ghost predicate IsEntry(row: FaultRow, since: Time, now: Time, rf: H.RecentFault) {
    && row.appliedAt != NEVER && row.appliedAt >= since && !RefusalRecovery.BackedOut(row)
    && rf.faultUID == row.faultUID && rf.manifest == AsDescribed(row) && rf.appliedAt == row.appliedAt
    && row.described.targets != [] && row.described.kind != "" && EndOfEntry(row, now, rf)
  }

  lemma RebuiltEntry(row: FaultRow, since: Time, now: Time, rf: H.RecentFault)
    ensures RecentOf(row, since, now) == Some(rf) <==> IsEntry(row, since, now, rf)
  {
  }

  lemma EndReadOff(row: FaultRow, records: seq<Record>, uid: string, applied: Record, now: Time, rf: H.RecentFault)
    requires EndingRead(row, records, uid) && row.deadline == applied.payload.deadline
    ensures EndTold(records, uid, applied, now, rf) <==> EndOfEntry(row, now, rf)
  {
  }

  lemma EntryOfRow(row: FaultRow, records: seq<Record>, uid: string, since: Time, now: Time, rf: H.RecentFault)
    requires uid != "" && rf.faultUID == uid == row.faultUID && TimesRead(row, records, uid)
    requires EndingRead(row, records, uid) && (RefusalRecovery.BackedOut(row) <==> TakenBack(records, uid))
    requires ManifestTold(records, uid, rf.manifest) <==> rf.manifest == AsDescribed(row)
    ensures RecentOf(row, since, now) == Some(rf) <==> ToldAsApplied(records, since, now, rf)
  {
    RebuiltEntry(row, since, now, rf);
    match LastOf(records, Of(uid, DriverApplied))
    case None =>
    case Some(applied) => EndReadOff(row, records, uid, applied, now, rf);
  }

  lemma {:induction false} RecentsAreOfRows(rows: seq<FaultRow>, since: Time, now: Time, rf: H.RecentFault)
    ensures rf in RecentsOf(rows, since, now) <==> exists row :: row in rows && RecentOf(row, since, now) == Some(rf)
  {
    if rows != [] {
      var front, last := rows[..|rows| - 1], rows[|rows| - 1];
      RecentsAreOfRows(front, since, now, rf);
      assert forall row :: row in rows <==> row in front || row == last;
    }
  }

  lemma AppliedFaultHasRow(records: seq<Record>, uid: string)
    requires uid != "" && Row(records, uid).appliedAt != NEVER
    ensures Row(records, uid) in FaultsOf(records)
  {
    var order := FirstSeen(records);
    if uid !in order { UnseenHasNoRecords(records, uid); }
    var i :| 0 <= i < |order| && order[i] == uid;
    assert FaultsOf(records)[i] == Row(records, uid);
  }

  /**
   * The faults a trail gives back as having run are exactly those its records tell of so: applied late enough, not
   * taken back, described by what was last told of them, and ended as recorded or at a deadline that has passed.
   */
  lemma RecoveredAsApplied(records: seq<Record>, since: Time, now: Time, rf: H.RecentFault)
    ensures rf in RecentsOf(FaultsOf(records), since, now) <==> ToldAsApplied(records, since, now, rf)
  {
    RecentsAreOfRows(FaultsOf(records), since, now, rf);
    if rf in RecentsOf(FaultsOf(records), since, now) {
      var row :| row in FaultsOf(records) && RecentOf(row, since, now) == Some(rf);
      S.RowsAreTheFaults(records, row);
      RowTellsOfRun(records, rf.faultUID, since, now, rf);
    }
    if ToldAsApplied(records, since, now, rf) {
      RowTellsOfRun(records, rf.faultUID, since, now, rf);
      AppliedFaultHasRow(records, rf.faultUID);
    }
  }

  // ----- Leases -----

  /** The lease is the fault as its last apply announced it, and nothing ended the fault. */
  ghost predicate ToldAsRunning(records: seq<Record>, af: ActiveFault) {
    && ManifestTold(records, af.faultUID, af.manifest) && LastOf(records, Ending(af.faultUID)).None?
    && match LastOf(records, Of(af.faultUID, DriverApplied))
       case None => false
       case Some(applied) =>
         && af.appliedAt == applied.ts && af.engineUID == applied.payload.engineUID
         && applied.payload.deadline == Some(af.deadline)
  }

  /** Whatever a take-over adopts it holds as the trail's records tell of it, under this process's name. */
  lemma AdoptedAsTold(records: seq<Record>, items: Items, adoptions: seq<Record>, closings: seq<Record>,
                      drivers: set<string>, adopting: bool, holder: string, since: Time, until: Time, uid: string)
    requires TakenOver(records, items, adoptions, closings, drivers, adopting, holder, since, until) && uid in items
    ensures items[uid].faultUID == uid && items[uid].holder == holder && ToldAsRunning(records, items[uid])
  {
    AdoptedAsRecorded(records, items, adoptions, closings, drivers, adopting, holder, since, until, uid);
    RowIsRead(records, uid);
    RowTellsManifest(records, uid);
    RecordedRuns(Row(records, uid), records, items[uid]);
  }

  lemma RecordedRuns(row: FaultRow, records: seq<Record>, af: ActiveFault)
    requires IsLive(row) && AsRecorded(row, af) && ManifestTold(records, af.faultUID, AsDescribed(row))
    requires TimesRead(row, records, af.faultUID) && EndingRead(row, records, af.faultUID)
    ensures ToldAsRunning(records, af)
  {
    assert AsDescribed(row) == af.manifest;
    OpenHasNoEnd(row, records, af.faultUID);
    var applied := LastApply(row, records, af.faultUID);
  }

  lemma OpenHasNoEnd(row: FaultRow, records: seq<Record>, uid: string)
    requires EndingRead(row, records, uid) && row.outcome == Open
    ensures LastOf(records, Ending(uid)).None?
  {
  }

  lemma LastApply(row: FaultRow, records: seq<Record>, uid: string) returns (applied: Record)
    requires TimesRead(row, records, uid) && row.appliedAt != NEVER
    ensures LastOf(records, Of(uid, DriverApplied)) == Some(applied) && row.appliedAt == applied.ts
    ensures row.engineUID == applied.payload.engineUID && row.deadline == applied.payload.deadline
  {
    applied := LastOf(records, Of(uid, DriverApplied)).value;
  }
}
