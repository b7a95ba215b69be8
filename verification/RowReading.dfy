/**
 * What each field of a fault's row says, told by the fault's own records (pkg/audit/faults.go): the last record of a
 * kind decides, but for the efficacy verdict, where one failure does, and for the names, where the first one does.
 */
module RowReading {
  import opened Vocabulary
  import opened AuditTrail

  /** The last record of a kind, if there is one. */
  ghost function LastOf(records: seq<Record>, kind: Record -> bool): (last: Option<Record>)
    ensures last.None? <==> forall r :: r in records ==> !kind(r)
    ensures last.Some? ==> last.value in records && kind(last.value)
  {
    if records == [] then None
    else
      var r := records[|records| - 1];
      assert forall x :: x in records <==> x in records[..|records| - 1] || x == r;
      if kind(r) then Some(r) else LastOf(records[..|records| - 1], kind)
  }

  /** What stands before it. */
  ghost function Before(records: seq<Record>, kind: Record -> bool): seq<Record> {
    if records == [] then []
    else if kind(records[|records| - 1]) then records[..|records| - 1]
    else Before(records[..|records| - 1], kind)
  }

  lemma LastSnoc(front: seq<Record>, r: Record, kind: Record -> bool)
    ensures LastOf(front + [r], kind) == if kind(r) then Some(r) else LastOf(front, kind)
    ensures Before(front + [r], kind) == if kind(r) then front else Before(front, kind)
  {
    assert (front + [r])[..|front|] == front;
  }

  // ----- Kinds of record -----

  ghost function Of(uid: string, e: Event): Record -> bool {
    (r: Record) => r.faultUID == uid && r.event == e
  }

  ghost function Verdict(uid: string, e: Event): Record -> bool {
    (r: Record) => r.faultUID == uid && r.event == e && r.payload.passed.Some?
  }

  /** Taken out of the cluster; a record that leaves it there for the reaper is no end. */
  ghost predicate TakesOut(r: Record) {
    r.event == LeaseCleared && !r.payload.leftToReaper && r.reason != "driver-clear-failed"
  }

  ghost function Removal(uid: string): Record -> bool {
    (r: Record) => r.faultUID == uid && TakesOut(r)
  }

  ghost predicate IsEnd(r: Record) {
    r.event == ExecutorRejected || r.event == DriverFailed || r.event == LeaseExpired || TakesOut(r)
  }

  ghost function Ending(uid: string): Record -> bool {
    (r: Record) => r.faultUID == uid && IsEnd(r)
  }

  ghost function EndingWithError(uid: string): Record -> bool {
    (r: Record) => r.faultUID == uid && IsEnd(r) && r.payload.error.Some?
  }

  // ----- What one record changes -----

  predicate VerdictsChange(row: FaultRow, r: Record, after: FaultRow) {
    && after.injected == (if r.event == FaultInjected && r.payload.passed.Some? then r.payload.passed else row.injected)
    && after.recovered
      == (if r.event == FaultRecovered && r.payload.passed.Some? then r.payload.passed else row.recovered)
    && after.efficacy
      == (if r.event == FaultEfficacy && r.payload.passed.Some? && row.efficacy != Some(false) then r.payload.passed
          else row.efficacy)
    && after.unready == row.unready + if r.event == FaultRecovered then r.payload.unready else []
  }

  /** The end of a fault nobody tracked is its deadline, if that has passed; of any other, when it was recorded. */
  predicate EndsAt(end: Record, deadline: Option<WholeTime>, endedAt: Time) {
    if end.event == LeaseExpired && end.reason == "untracked-after-restart" && deadline.Some? && deadline.value < end.ts
    then endedAt == deadline.value
    else endedAt == end.ts
  }

  predicate EndsAs(end: Record, outcome: Outcome) {
    match outcome
    case Refused => end.event == ExecutorRejected
    case DriverWouldNot => end.event == DriverFailed
    case Cleared => end.event == LeaseCleared
    case Expired => end.event == LeaseExpired
    case Open => false
  }

  ghost predicate EndChanges(row: FaultRow, r: Record, after: FaultRow) {
    if IsEnd(r) then EndsAs(r, after.outcome) && after.reason == r.reason && EndsAt(r, row.deadline, after.endedAt)
    else after.outcome == row.outcome && after.reason == row.reason && after.endedAt == row.endedAt
  }

  ghost predicate ActorsChange(row: FaultRow, r: Record, after: FaultRow) {
    && after.error == (if IsEnd(r) then Or(r.payload.error, row.error) else row.error)
    && after.clearedBy == (if TakesOut(r) then r.payload.actor else row.clearedBy)
    && after.requestedBy == (if r.event == ExecutorReceived then r.payload.actor else row.requestedBy)
  }

  predicate TimesChange(row: FaultRow, r: Record, after: FaultRow) {
    && after.receivedAt == (if r.event == ExecutorReceived then r.ts else row.receivedAt)
    && (if r.event == DriverApplied then
          after.appliedAt == r.ts && after.engineUID == r.payload.engineUID && after.deadline == r.payload.deadline
        else after.appliedAt == row.appliedAt && after.engineUID == row.engineUID && after.deadline == row.deadline)
  }

  predicate TextsChange(row: FaultRow, r: Record, after: FaultRow) {
    && after.described
      == (if r.event == ExecutorReceived || r.event == DriverApplied then Describe(row.described, r.payload)
          else row.described)
    && after.requested
      == (if r.event == ExecutorReceived then Some(Describe(NO_DESCRIPTION, r.payload)) else row.requested)
  }

  predicate NamesChange(row: FaultRow, r: Record, after: FaultRow) {
    && after.faultUID == row.faultUID
    && after.planID == (if row.planID == "" then r.planID else row.planID)
    && after.scenarioID == (if row.scenarioID == "" then r.scenarioID else row.scenarioID)
    && after.source == (if row.source == "" then r.mode else row.source)
  }

  ghost predicate Changes(row: FaultRow, r: Record, after: FaultRow) {
    && VerdictsChange(row, r, after) && EndChanges(row, r, after) && ActorsChange(row, r, after)
    && TimesChange(row, r, after) && TextsChange(row, r, after)
  }

  lemma TwoVerdicts(v: Option<bool>)
    ensures v == None || v == Some(true) || v == Some(false)
  {
    match v
    case None =>
    case Some(b) => assert b == true || b == false;
  }

  lemma EndingChanges(row: FaultRow, r: Record)
    requires r.event in {ExecutorRejected, DriverFailed, LeaseExpired, LeaseCleared}
    ensures Changes(row, r, ApplyRecord(row, r))
  {
    assert row.unready + [] == row.unready;
    assert LeftInPlace(r) <==> r.payload.leftToReaper || r.reason == "driver-clear-failed";
  }

  lemma ApplyChanges(row: FaultRow, r: Record)
    ensures Changes(row, r, ApplyRecord(row, r))
  {
    assert row.unready + [] == row.unready;
    if r.event in {ExecutorRejected, DriverFailed, LeaseExpired, LeaseCleared} {
      EndingChanges(row, r);
    } else {
      TwoVerdicts(row.efficacy);
      TwoVerdicts(r.payload.passed);
    }
  }

  function Named(row: FaultRow, r: Record): FaultRow {
    row.(planID := if row.planID == "" then r.planID else row.planID,
         scenarioID := if row.scenarioID == "" then r.scenarioID else row.scenarioID,
         source := if row.source == "" then r.mode else row.source)
  }

  lemma ApplyKeepsNames(row: FaultRow, r: Record)
    ensures
      var after := ApplyRecord(row, r);
      after.faultUID == row.faultUID && after.planID == row.planID && after.scenarioID == row.scenarioID
      && after.source == row.source
  {
  }

  lemma ChangesOfNamed(row: FaultRow, r: Record, after: FaultRow)
    requires Changes(Named(row, r), r, after)
    ensures Changes(row, r, after)
  {
  }

  /** What the fault's own records change of its row, and nobody else's do. */
  lemma RowChanges(front: seq<Record>, r: Record, uid: string)
    requires uid != ""
    ensures
      var row, after := Row(front, uid), Row(front + [r], uid);
      if r.faultUID == uid then Changes(row, r, after) && NamesChange(row, r, after) else after == row
  {
    RowOfExtension(front, r, uid);
    if r.faultUID == uid {
      var row := Row(front, uid);
      ApplyChanges(Named(row, r), r);
      ApplyKeepsNames(Named(row, r), r);
      ChangesOfNamed(row, r, ApplyRecord(Named(row, r), r));
      assert Absorb(row, r) == ApplyRecord(Named(row, r), r);
    }
  }

  // ----- Verdicts -----

  ghost predicate SomeVerdict(records: seq<Record>, uid: string, passed: bool) {
    exists r :: r in records && r.faultUID == uid && r.event == FaultEfficacy && r.payload.passed == Some(passed)
  }

  /** All that was reported not ready again, in the order of the reports. */
  ghost function Unready(records: seq<Record>, uid: string): seq<string> {
    if records == [] then []
    else
      var r := records[|records| - 1];
      Unready(records[..|records| - 1], uid)
      + if r.faultUID == uid && r.event == FaultRecovered then r.payload.unready else []
  }

  function PassedOf(r: Option<Record>): Option<bool> {
    match r case Some(v) => v.payload.passed case None => None
  }

  ghost predicate VerdictsRead(row: FaultRow, records: seq<Record>, uid: string) {
    && row.injected == PassedOf(LastOf(records, Verdict(uid, FaultInjected)))
    && row.recovered == PassedOf(LastOf(records, Verdict(uid, FaultRecovered)))
    && EfficacyIs(row.efficacy, SomeVerdict(records, uid, false), SomeVerdict(records, uid, true))
    && row.unready == Unready(records, uid)
  }

  lemma VerdictSnoc(front: seq<Record>, r: Record, uid: string, passed: bool)
    ensures SomeVerdict(front + [r], uid, passed) <==>
      SomeVerdict(front, uid, passed)
      || (r.faultUID == uid && r.event == FaultEfficacy && r.payload.passed == Some(passed))
  {
    assert forall x :: x in front + [r] <==> x in front || x == r;
  }

  /** One failure outweighs any passes. */
  predicate EfficacyIs(efficacy: Option<bool>, failed: bool, passed: bool) {
    (efficacy == Some(false) <==> failed) && (efficacy == Some(true) <==> passed && !failed)
  }

  lemma EfficacyStep(row: FaultRow, front: seq<Record>, r: Record, uid: string, after: FaultRow)
    requires EfficacyIs(row.efficacy, SomeVerdict(front, uid, false), SomeVerdict(front, uid, true))
    requires if r.faultUID == uid then VerdictsChange(row, r, after) else after == row
    ensures EfficacyIs(after.efficacy, SomeVerdict(front + [r], uid, false), SomeVerdict(front + [r], uid, true))
  {
    VerdictSnoc(front, r, uid, false);
    VerdictSnoc(front, r, uid, true);
    TwoVerdicts(row.efficacy);
    TwoVerdicts(r.payload.passed);
  }

  lemma VerdictStep(row: FaultRow, front: seq<Record>, r: Record, uid: string, after: FaultRow)
    requires VerdictsRead(row, front, uid) && if r.faultUID == uid then VerdictsChange(row, r, after) else after == row
    ensures VerdictsRead(after, front + [r], uid)
  {
    EfficacyStep(row, front, r, uid, after);
    LastSnoc(front, r, Verdict(uid, FaultInjected));
    LastSnoc(front, r, Verdict(uid, FaultRecovered));
    assert (front + [r])[..|front|] == front && row.unready + [] == row.unready;
  }

  // ----- How it ended -----

  ghost predicate EndingRead(row: FaultRow, records: seq<Record>, uid: string) {
    match LastOf(records, Ending(uid))
    case None => row.outcome == Open && row.reason == "" && row.endedAt == NEVER
    case Some(end) =>
      && row.reason == end.reason
      && EndsAs(end, row.outcome)
      && EndsAt(end, DeadlineOf(LastOf(Before(records, Ending(uid)), Of(uid, DriverApplied))), row.endedAt)
  }

  function DeadlineOf(applied: Option<Record>): Option<WholeTime> {
    match applied case Some(r) => r.payload.deadline case None => None
  }

  ghost predicate ActorsRead(row: FaultRow, records: seq<Record>, uid: string) {
    && row.error
      == (match LastOf(records, EndingWithError(uid)) case Some(r) => Or(r.payload.error, "") case None => "")
    && row.clearedBy == (match LastOf(records, Removal(uid)) case Some(r) => r.payload.actor case None => "")
    && row.requestedBy
      == (match LastOf(records, Of(uid, ExecutorReceived)) case Some(r) => r.payload.actor case None => "")
  }

  /** When and as what it last reached the cluster, and when it was submitted. */
  ghost predicate TimesRead(row: FaultRow, records: seq<Record>, uid: string) {
    && (match LastOf(records, Of(uid, DriverApplied))
        case Some(r) =>
          row.appliedAt == r.ts && row.engineUID == r.payload.engineUID && row.deadline == r.payload.deadline
        case None => row.appliedAt == NEVER && row.engineUID == "" && row.deadline.None?)
    && row.receivedAt == (match LastOf(records, Of(uid, ExecutorReceived)) case Some(r) => r.ts case None => NEVER)
  }

  lemma TimesStep(row: FaultRow, front: seq<Record>, r: Record, uid: string, after: FaultRow)
    requires TimesRead(row, front, uid) && if r.faultUID == uid then TimesChange(row, r, after) else after == row
    ensures TimesRead(after, front + [r], uid)
  {
    LastSnoc(front, r, Of(uid, DriverApplied));
    LastSnoc(front, r, Of(uid, ExecutorReceived));
  }

  lemma ActorsStep(row: FaultRow, front: seq<Record>, r: Record, uid: string, after: FaultRow)
    requires ActorsRead(row, front, uid) && if r.faultUID == uid then ActorsChange(row, r, after) else after == row
    ensures ActorsRead(after, front + [r], uid)
  {
    LastSnoc(front, r, EndingWithError(uid));
    LastSnoc(front, r, Removal(uid));
    LastSnoc(front, r, Of(uid, ExecutorReceived));
  }

  lemma EndingStep(row: FaultRow, front: seq<Record>, r: Record, uid: string, after: FaultRow)
    requires EndingRead(row, front, uid) && TimesRead(row, front, uid)
    requires if r.faultUID == uid then EndChanges(row, r, after) else after == row
    ensures EndingRead(after, front + [r], uid)
  {
    LastSnoc(front, r, Ending(uid));
  }

  // ----- What was asked for and what ran -----

  /** Tells a field of the fault: as submitted, or as it reached the cluster. */
  ghost function TellsField<T>(uid: string, field: Payload -> Option<T>): Record -> bool {
    (r: Record) => r.faultUID == uid && (r.event == ExecutorReceived || r.event == DriverApplied)
                   && field(r.payload).Some?
  }

  /** The field as it was last told. */
  ghost function LastTold<T>(records: seq<Record>, uid: string, field: Payload -> Option<T>, otherwise: T): T {
    match LastOf(records, TellsField(uid, field))
    case Some(r) => Or(field(r.payload), otherwise)
    case None => otherwise
  }

  lemma ToldSnoc<T>(front: seq<Record>, r: Record, uid: string, field: Payload -> Option<T>, otherwise: T)
    ensures LastTold(front + [r], uid, field, otherwise)
      == if r.faultUID == uid && (r.event == ExecutorReceived || r.event == DriverApplied)
         then Or(field(r.payload), LastTold(front, uid, field, otherwise)) else LastTold(front, uid, field, otherwise)
  {
    LastSnoc(front, r, TellsField(uid, field));
  }

  const ENGINE := (p: Payload) => p.engine
  const KIND := (p: Payload) => p.kind
  const TARGETS := (p: Payload) => p.targets
  const SPEC := (p: Payload) => p.spec
  const DURATION := (p: Payload) => p.duration
  const TIER := (p: Payload) => p.tier

  ghost predicate DescriptionRead(d: Description, records: seq<Record>, uid: string) {
    && d.engine == LastTold(records, uid, ENGINE, "")
    && d.kind == LastTold(records, uid, KIND, "")
    && d.targets == LastTold(records, uid, TARGETS, [])
    && d.spec == LastTold(records, uid, SPEC, map[])
    && d.duration == LastTold(records, uid, DURATION, 0)
    && d.tier == LastTold(records, uid, TIER, "")
  }

  /** What the last submission says, and nothing of what narrowing made of it. */
  ghost predicate SubmissionRead(requested: Option<Description>, records: seq<Record>, uid: string) {
    match LastOf(records, Of(uid, ExecutorReceived))
    case None => requested.None?
    case Some(r) =>
      && requested.Some?
      && requested.value.engine == Or(r.payload.engine, "") && requested.value.kind == Or(r.payload.kind, "")
      && requested.value.targets == Or(r.payload.targets, []) && requested.value.spec == Or(r.payload.spec, map[])
      && requested.value.duration == Or(r.payload.duration, 0) && requested.value.tier == Or(r.payload.tier, "")
  }

  lemma DescriptionSnoc(d: Description, front: seq<Record>, r: Record, uid: string)
    requires DescriptionRead(d, front, uid)
    ensures
      var told := r.faultUID == uid && (r.event == ExecutorReceived || r.event == DriverApplied);
      DescriptionRead(if told then Describe(d, r.payload) else d, front + [r], uid)
  {
    ToldSnoc(front, r, uid, ENGINE, "");
    ToldSnoc(front, r, uid, KIND, "");
    ToldSnoc(front, r, uid, TARGETS, []);
    ToldSnoc(front, r, uid, SPEC, map[]);
    ToldSnoc(front, r, uid, DURATION, 0);
    ToldSnoc(front, r, uid, TIER, "");
  }

  lemma SubmissionStep(row: FaultRow, front: seq<Record>, r: Record, uid: string, after: FaultRow)
    requires SubmissionRead(row.requested, front, uid)
    requires if r.faultUID == uid then TextsChange(row, r, after) else after == row
    ensures SubmissionRead(after.requested, front + [r], uid)
  {
    LastSnoc(front, r, Of(uid, ExecutorReceived));
  }

  // ----- Whose it is -----

  /** The first of the fault's records that gives a name decides it. */
  ghost predicate FirstNamed(records: seq<Record>, uid: string, field: Record -> string, name: string) {
    if name == "" then forall r :: r in records && r.faultUID == uid ==> field(r) == ""
    else exists i :: 0 <= i < |records| && records[i].faultUID == uid && field(records[i]) == name
           && forall r :: r in records[..i] && r.faultUID == uid ==> field(r) == ""
  }

  lemma NamedSnoc(front: seq<Record>, r: Record, uid: string, field: Record -> string, name: string)
    requires FirstNamed(front, uid, field, name)
    ensures FirstNamed(front + [r], uid, field, if r.faultUID == uid && name == "" then field(r) else name)
  {
    var all := front + [r];
    assert all[..|front|] == front && all[|front|] == r;
    if name == "" {
      assert forall x :: x in all <==> x in front || x == r;
    } else {
      var i :| 0 <= i < |front| && front[i].faultUID == uid && field(front[i]) == name
            && forall x :: x in front[..i] && x.faultUID == uid ==> field(x) == "";
      assert all[i] == front[i] && all[..i] == front[..i];
    }
  }

  const PLAN := (r: Record) => r.planID
  const SCENARIO := (r: Record) => r.scenarioID
  const MODE := (r: Record) => r.mode

  // ----- The row of a trail -----

  /** What the row looks like on every trail. */
  ghost predicate Follows(row: seq<Record> -> FaultRow, uid: string) {
    row([]) == NewRow(uid) && forall front, r :: FollowsOne(row, front, r, uid)
  }

  ghost predicate FollowsOne(row: seq<Record> -> FaultRow, front: seq<Record>, r: Record, uid: string) {
    var before, after := row(front), row(front + [r]);
    if r.faultUID == uid then Changes(before, r, after) && NamesChange(before, r, after) else after == before
  }

  /** The row tells of the fault what its records do. */
  ghost predicate RowRead(row: FaultRow, records: seq<Record>, uid: string) {
    && VerdictsRead(row, records, uid) && TimesRead(row, records, uid) && EndingRead(row, records, uid)
    && ActorsRead(row, records, uid) && DescriptionRead(row.described, records, uid)
    && SubmissionRead(row.requested, records, uid) && NamesRead(row, records, uid)
  }

  ghost predicate NamesRead(row: FaultRow, records: seq<Record>, uid: string) {
    && row.faultUID == uid && FirstNamed(records, uid, PLAN, row.planID)
    && FirstNamed(records, uid, SCENARIO, row.scenarioID) && FirstNamed(records, uid, MODE, row.source)
  }

  lemma NamesStep(row: FaultRow, front: seq<Record>, r: Record, uid: string, after: FaultRow)
    requires NamesRead(row, front, uid) && if r.faultUID == uid then NamesChange(row, r, after) else after == row
    ensures NamesRead(after, front + [r], uid)
  {
    NamedSnoc(front, r, uid, PLAN, row.planID);
    NamedSnoc(front, r, uid, SCENARIO, row.scenarioID);
    NamedSnoc(front, r, uid, MODE, row.source);
  }

  lemma RowStep(row: FaultRow, front: seq<Record>, r: Record, uid: string, after: FaultRow)
    requires RowRead(row, front, uid)
    requires if r.faultUID == uid then Changes(row, r, after) && NamesChange(row, r, after) else after == row
    ensures RowRead(after, front + [r], uid)
  {
    VerdictStep(row, front, r, uid, after);
    TimesStep(row, front, r, uid, after);
    EndingStep(row, front, r, uid, after);
    ActorsStep(row, front, r, uid, after);
    DescriptionSnoc(row.described, front, r, uid);
    SubmissionStep(row, front, r, uid, after);
    NamesStep(row, front, r, uid, after);
  }

  lemma NothingIsRead(uid: string)
    ensures RowRead(NewRow(uid), [], uid)
  {
  }

  ghost predicate ReadOf(row: seq<Record> -> FaultRow, records: seq<Record>, uid: string) {
    RowRead(row(records), records, uid)
  }

  lemma OneMoreIsRead(row: seq<Record> -> FaultRow, front: seq<Record>, last: Record, uid: string)
    requires FollowsOne(row, front, last, uid) && ReadOf(row, front, uid)
    ensures ReadOf(row, front + [last], uid)
  {
    RowStep(row(front), front, last, uid, row(front + [last]));
  }

  lemma EachOneIsRead(row: seq<Record> -> FaultRow, uid: string)
    requires Follows(row, uid)
    ensures ReadOf(row, [], uid)
    ensures forall front, last :: ReadOf(row, front, uid) ==> ReadOf(row, front + [last], uid)
  {
    NothingIsRead(uid);
    forall front, last | ReadOf(row, front, uid) ensures ReadOf(row, front + [last], uid) {
      assert FollowsOne(row, front, last, uid);
      OneMoreIsRead(row, front, last, uid);
    }
  }

  lemma WhatFollowsIsRead(row: seq<Record> -> FaultRow, records: seq<Record>, uid: string)
    requires Follows(row, uid)
    ensures RowRead(row(records), records, uid)
  {
    var holds := (some: seq<Record>) => ReadOf(row, some, uid);
    EachOneIsRead(row, uid);
    RecordByRecord(holds, records);
    assert holds(records);
  }

  ghost function RowsOf(uid: string): seq<Record> -> FaultRow {
    (records: seq<Record>) => Row(records, uid)
  }

  lemma RowsFollow(uid: string)
    requires uid != ""
    ensures Follows(RowsOf(uid), uid)
  {
    forall front, r ensures FollowsOne(RowsOf(uid), front, r, uid) { RowChanges(front, r, uid); }
  }

  /**
   * Whatever the trail: one failed check is the efficacy verdict and otherwise a passed one, the last words of the
   * engine and of the recovery check count, and all that was reported not ready is there; the last end says how, why
   * and when, the last apply what runs until when; each part of the fault is as last told, and what was submitted stays
   * as submitted; and plan, scenario and source are those named first.
   */
  lemma RowIsRead(records: seq<Record>, uid: string)
    requires uid != ""
    ensures RowRead(Row(records, uid), records, uid)
  {
    RowsFollow(uid);
    WhatFollowsIsRead(RowsOf(uid), records, uid);
    assert RowsOf(uid)(records) == Row(records, uid);
  }
}
