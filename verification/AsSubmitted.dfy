/**
 * Which refusals a trail gives back, and as what, told by its records (pkg/executor/history.go, pkg/audit/faults.go):
 * as submitted, whatever narrowing made of the fault since, so that the same step counts against itself again.
 */
module AsSubmitted {
  import opened Vocabulary
  import opened AuditTrail
  import opened RowReading
  import opened RefusalRecovery
  import H = History
  import R = Refusals

  /** The parts of a fault a manifest rebuilt from the trail has. */
  ghost predicate Describes(m: Manifest, d: Description) {
    && m.engine == d.engine && m.resourceKind == d.kind && m.targets == d.targets && m.spec == d.spec
    && m.duration == d.duration && m.tier == d.tier
  }

  /** What the fault's last submission says of it, or what was last told of it where none is kept. */
  ghost predicate Submitted(records: seq<Record>, uid: string, d: Description) {
    if LastOf(records, Of(uid, ExecutorReceived)).Some? then SubmissionRead(Some(d), records, uid)
    else DescriptionRead(d, records, uid)
  }

  /** The fault's last end is a refusal, or took it back because it did not take or could not be verified. */
  ghost predicate EndsRefused(records: seq<Record>, uid: string, since: Time, end: Record) {
    && LastOf(records, Ending(uid)) == Some(end)
    && (|| end.event == ExecutorRejected || end.event == DriverFailed
        || (end.event == LeaseCleared
            && end.reason in {"injection-failed", "probe-failed", "cannot-gate", "probe-not-configured"}))
    && end.reason != "budget-exceeded" && end.ts >= since
  }

  /** The description a recovered refusal is built from. */
  ghost function Asked(row: FaultRow): Description {
    if row.requested.Some? then row.requested.value else row.described
  }

  lemma AskedAsSubmitted(records: seq<Record>, uid: string)
    requires uid != ""
    ensures Submitted(records, uid, Asked(Row(records, uid)))
  {
    RowIsRead(records, uid);
  }

  lemma OnlyOneSubmission(records: seq<Record>, uid: string, a: Description, b: Description)
    requires Submitted(records, uid, a) && Submitted(records, uid, b)
    ensures a == b
  {
  }

  lemma RebuiltAsAsked(row: FaultRow)
    ensures RequestedManifest(row).Some? <==> Asked(row).targets != [] && Asked(row).kind != ""
    ensures RequestedManifest(row).Some? ==> Describes(RequestedManifest(row).value, Asked(row))
  {
  }

  lemma RefusedAsRecorded(row: FaultRow, records: seq<Record>, uid: string, since: Time)
    requires EndingRead(row, records, uid)
    ensures TellsOfRefusal(row, since) <==>
      Asked(row).targets != [] && Asked(row).kind != "" && exists end :: EndsRefused(records, uid, since, end)
    ensures TellsOfRefusal(row, since) ==>
      exists end :: EndsRefused(records, uid, since, end) && row.endedAt == end.ts && row.reason == end.reason
  {
    RebuiltAsAsked(row);
    match LastOf(records, Ending(uid))
    case None =>
    case Some(end) =>
      assert BACKED_OUT_REASONS == {"injection-failed", "probe-failed", "cannot-gate", "probe-not-configured"};
      if TellsOfRefusal(row, since) { assert EndsRefused(records, uid, since, end); }
  }

  // ----- From rows to faults -----

  lemma RowsAreTheFaults(records: seq<Record>, row: FaultRow)
    requires row in FaultsOf(records)
    ensures row.faultUID != "" && row == Row(records, row.faultUID)
  {
    FirstSeenIsExact(records);
    var order := FirstSeen(records);
    var i :| 0 <= i < |order| && FaultsOf(records)[i] == row;
    RowKeepsUID(order[i], Only(records, order[i]));
    assert order[i] in order;
  }

  lemma EndedFaultHasRow(records: seq<Record>, uid: string)
    requires uid != "" && Row(records, uid).outcome != Open
    ensures Row(records, uid) in FaultsOf(records) && Row(records, uid).faultUID == uid
  {
    var order := FirstSeen(records);
    RowKeepsUID(uid, Only(records, uid));
    if uid !in order { UnseenHasNoRecords(records, uid); }
    var i :| 0 <= i < |order| && order[i] == uid;
    assert FaultsOf(records)[i] == Row(records, uid);
  }

  lemma {:induction false} RefusalsAreOfRows(rows: seq<FaultRow>, since: Time, rf: H.RefusedFault)
    ensures rf in RefusalsOf(rows, since) <==>
      exists row :: row in rows && TellsOfRefusal(row, since) && RefusalOf(row) == rf
  {
    if rows != [] {
      var front, last := rows[..|rows| - 1], rows[|rows| - 1];
      RefusalsAreOfRows(front, since, rf);
      assert forall row :: row in rows <==> row in front || row == last;
    }
  }

  /**
   * A trail gives back a refusal of a fault exactly when the fault's last end refuses it or takes it back unverified,
   * not for want of budget and not too long ago, and its submission says what kind of fault on which targets. What it
   * gives back is what was submitted, not what the driver was handed, with the time and the reason of that end.
   */
  lemma RecoveredAsSubmitted(records: seq<Record>, since: Time, rf: H.RefusedFault)
    requires rf in RefusalsOf(FaultsOf(records), since)
    ensures rf.faultUID != "" && rf.manifest.uid == rf.faultUID
    ensures exists d :: Submitted(records, rf.faultUID, d) && Describes(rf.manifest, d)
    ensures FirstNamed(records, rf.faultUID, MODE, rf.manifest.source)
    ensures FirstNamed(records, rf.faultUID, PLAN, rf.manifest.planID)
    ensures exists end ::
      EndsRefused(records, rf.faultUID, since, end) && rf.refusedAt == end.ts && rf.reason == end.reason
  {
    RefusalsAreOfRows(FaultsOf(records), since, rf);
    var row :| row in FaultsOf(records) && TellsOfRefusal(row, since) && RefusalOf(row) == rf;
    RowsAreTheFaults(records, row);
    RowIsRead(records, rf.faultUID);
    AskedAsSubmitted(records, rf.faultUID);
    RebuiltAsAsked(row);
    RefusedAsRecorded(row, records, rf.faultUID, since);
  }

  lemma RefusedIsRecovered(records: seq<Record>, uid: string, since: Time, end: Record, d: Description)
    requires uid != "" && EndsRefused(records, uid, since, end)
    requires Submitted(records, uid, d) && d.targets != [] && d.kind != ""
    ensures
      var row := Row(records, uid);
      row in FaultsOf(records) && TellsOfRefusal(row, since) && row.endedAt == end.ts
      && RefusalOf(row) in RefusalsOf(FaultsOf(records), since) && RefusalOf(row).faultUID == uid
      && Describes(RequestedManifest(row).value, d)
  {
    var row := Row(records, uid);
    RowIsRead(records, uid);
    AskedAsSubmitted(records, uid);
    OnlyOneSubmission(records, uid, Asked(row), d);
    RefusedAsRecorded(row, records, uid, since);
    RebuiltAsAsked(row);
    EndedFaultHasRow(records, uid);
    RefusalsAreOfRows(FaultsOf(records), since, RefusalOf(row));
  }

  // ----- The step's own key -----

  /** A key that tells steps apart by kind, targets and spec alone. */
  ghost predicate KeysSteps(key: Manifest -> string) {
    forall a: Manifest, b: Manifest ::
      a.resourceKind == b.resourceKind && a.targets == b.targets && a.spec == b.spec ==> key(a) == key(b)
  }

  lemma {:induction false} OneRowCounts(rows: seq<FaultRow>, since: Time, key: Manifest -> string, k: string,
      cutoff: Time, row: FaultRow)
    requires row in rows && RowAgainst(row, since, key, k, cutoff)
    ensures RowsAgainst(rows, since, key, k, cutoff) >= 1
  {
    var front, last := rows[..|rows| - 1], rows[|rows| - 1];
    if row != last {
      assert row in front;
      OneRowCounts(front, since, key, k, cutoff, row);
    }
  }

  /**
   * A step whose submission is on the trail and whose fault was refused within the window counts against itself after
   * the restart, however narrowing rewrote the fault on its way to the driver.
   */
  lemma RefusedStepKeepsItsKey(records: seq<Record>, uid: string, since: Time, end: Record, submission: Record,
                               m: Manifest, key: Manifest -> string, capacity: nat, now: Time)
    requires uid != "" && EndsRefused(records, uid, since, end) && end.ts >= now - R.REPEATED_REFUSAL_WINDOW
    requires LastOf(records, Of(uid, ExecutorReceived)) == Some(submission)
    requires submission.payload.kind == Some(m.resourceKind) && submission.payload.targets == Some(m.targets)
    requires submission.payload.spec == Some(m.spec) && m.targets != [] && m.resourceKind != ""
    requires KeysSteps(key) && key(m) != ""
    requires CountIf(RefusalsOf(FaultsOf(records), since), RefusedSince(now - R.REPEATED_REFUSAL_WINDOW)) <= capacity
    ensures R.InWindow(SeededLog(FaultsOf(records), since, capacity, key), key(m), now) >= 1
  {
    var row, d := Row(records, uid), Asked(Row(records, uid));
    AskedAsSubmitted(records, uid);
    assert d.kind == m.resourceKind && d.targets == m.targets && d.spec == m.spec;
    RefusedIsRecovered(records, uid, since, end, d);
    var cutoff := now - R.REPEATED_REFUSAL_WINDOW;
    assert RowAgainst(row, since, key, key(m), cutoff);
    OneRowCounts(FaultsOf(records), since, key, key(m), cutoff, row);
    RestartKeepsRefusalCounts(FaultsOf(records), since, capacity, key, key(m), now);
  }
}
