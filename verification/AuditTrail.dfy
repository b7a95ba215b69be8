/** The audit trail and its fold into one row per fault (pkg/audit/faults.go). */
module AuditTrail {
  import opened Vocabulary

  datatype Event =
    | ExecutorReceived
    | ExecutorValidated
    | ExecutorRejected
    | FaultPrecheck
    | DriverApplied
    | DriverFailed
    | LeaseRegistered
    | FaultEfficacy
    | FaultInjected
    | FaultRecovered
    | LeaseExpired
    | LeaseCleared
    | LeaseAdopted
    | OtherEvent(name: string)

  const UNTRACKED_AFTER_RESTART := "untracked-after-restart"
  const DRIVER_CLEAR_FAILED := "driver-clear-failed"

  /** The payload fields the fold reads, decoded; None is "absent, or of another type". */
  datatype Payload = Payload(
    actor: string,
    engine: Option<string>,
    kind: Option<string>,
    targets: Option<seq<TargetRef>>,
    spec: Option<map<string, Json>>,
    duration: Option<int>,
    tier: Option<string>,
    engineUID: string,
    deadline: Option<WholeTime>,
    passed: Option<bool>,
    unready: seq<string>,
    leftToReaper: bool,
    error: Option<string>)

  const EMPTY_PAYLOAD := Payload("", None, None, None, None, None, None, "", None, None, [], false, None)

  datatype Record = Record(
    ts: Time,
    event: Event,
    faultUID: string,
    planID: string,
    scenarioID: string,
    mode: string,
    reason: string,
    payload: Payload)

  datatype Outcome = Refused | DriverWouldNot | Cleared | Expired | Open

  /** What a record says about the fault itself: the part `describe` overwrites. */
  datatype Description = Description(
    engine: string, kind: string, targets: seq<TargetRef>, spec: map<string, Json>, duration: int, tier: string)

  const NO_DESCRIPTION := Description("", "", [], map[], 0, "")

  datatype FaultRow = FaultRow(
    faultUID: string,
    planID: string,
    scenarioID: string,
    source: string,
    receivedAt: Time,
    requestedBy: string,
    clearedBy: string,
    described: Description,
    requested: Option<Description>,
    appliedAt: Time,
    engineUID: string,
    deadline: Option<WholeTime>,
    injected: Option<bool>,
    efficacy: Option<bool>,
    recovered: Option<bool>,
    unready: seq<string>,
    outcome: Outcome,
    reason: string,
    endedAt: Time,
    error: string)

  function NewRow(uid: string): FaultRow {
    FaultRow(uid, "", "", "", NEVER, "", "", NO_DESCRIPTION, None, NEVER, "", None,
             None, None, None, [], Open, "", NEVER, "")
  }

  function Or<T>(o: Option<T>, otherwise: T): T {
    match o case Some(v) => v case None => otherwise
  }

  function Describe(d: Description, p: Payload): Description {
    Description(Or(p.engine, d.engine), Or(p.kind, d.kind), Or(p.targets, d.targets),
                Or(p.spec, d.spec), Or(p.duration, d.duration), Or(p.tier, d.tier))
  }

  function End(row: FaultRow, r: Record, outcome: Outcome): FaultRow {
    row.(outcome := outcome, reason := r.reason, endedAt := r.ts, error := Or(r.payload.error, row.error))
  }

  /** A cleared record that leaves the fault in the cluster for the reaper. */
  predicate LeftInPlace(r: Record) {
    r.payload.leftToReaper || r.reason == DRIVER_CLEAR_FAILED
  }

  /** When a fault nobody tracked ended: at its deadline when that is known and has passed. */
  function UntrackedEnd(row: FaultRow, ts: Time): Time {
    if row.deadline.Some? && row.deadline.value < ts then row.deadline.value else ts
  }

  function ApplyRecord(row: FaultRow, r: Record): FaultRow {
    match r.event
    case ExecutorReceived =>
      row.(receivedAt := r.ts, requestedBy := r.payload.actor,
           described := Describe(row.described, r.payload),
           requested := Some(Describe(NO_DESCRIPTION, r.payload)))
    case DriverApplied =>
      row.(appliedAt := r.ts, described := Describe(row.described, r.payload),
           engineUID := r.payload.engineUID, deadline := r.payload.deadline)
    case FaultInjected =>
      if r.payload.passed.Some? then row.(injected := r.payload.passed) else row
    case FaultRecovered =>
      row.(recovered := if r.payload.passed.Some? then r.payload.passed else row.recovered,
           unready := row.unready + r.payload.unready)
    case FaultEfficacy =>
      if r.payload.passed.Some? && (row.efficacy.None? || !r.payload.passed.value)
      then row.(efficacy := r.payload.passed) else row
    case ExecutorRejected => End(row, r, Refused)
    case DriverFailed => End(row, r, DriverWouldNot)
    case LeaseCleared =>
      if LeftInPlace(r) then row else End(row, r, Cleared).(clearedBy := r.payload.actor)
    case LeaseExpired =>
      var ended := End(row, r, Expired);
      if r.reason == UNTRACKED_AFTER_RESTART then ended.(endedAt := UntrackedEnd(row, r.ts)) else ended
    case _ => row
  }

  /** One iteration of the fold's loop on the row the record belongs to. */
  function Absorb(row: FaultRow, r: Record): FaultRow {
    ApplyRecord(row.(planID := if row.planID == "" then r.planID else row.planID,
                     scenarioID := if row.scenarioID == "" then r.scenarioID else row.scenarioID,
                     source := if row.source == "" then r.mode else row.source), r)
  }

  /** The records of one fault, in trail order. Records without a fault UID belong to none. */
  function Only(records: seq<Record>, uid: string): seq<Record> {
    if records == [] then []
    else
      var rest := Only(records[..|records| - 1], uid);
      if uid != "" && records[|records| - 1].faultUID == uid then rest + [records[|records| - 1]] else rest
  }

  function FoldRow(uid: string, own: seq<Record>): FaultRow {
    if own == [] then NewRow(uid) else Absorb(FoldRow(uid, own[..|own| - 1]), own[|own| - 1])
  }

  /** The row of one fault, computed from that fault's records alone. */
  function Row(records: seq<Record>, uid: string): FaultRow {
    FoldRow(uid, Only(records, uid))
  }

  /** The fault UIDs a trail names, in the order it first names them. */
  function FirstSeen(records: seq<Record>): seq<string> {
    if records == [] then []
    else
      var rest := FirstSeen(records[..|records| - 1]);
      var uid := records[|records| - 1].faultUID;
      if uid != "" && uid !in rest then rest + [uid] else rest
  }

  function FaultsOf(records: seq<Record>): seq<FaultRow> {
    var order := FirstSeen(records);
    seq(|order|, i requires 0 <= i < |order| => Row(records, order[i]))
  }

  /** What holds of no records, and of one more whenever of those before, holds of all. */
  lemma {:induction false} RecordByRecord(holds: seq<Record> -> bool, records: seq<Record>)
    requires holds([]) && forall front, last :: holds(front) ==> holds(front + [last])
    ensures holds(records)
  {
    if records != [] {
      var front, last := records[..|records| - 1], records[|records| - 1];
      RecordByRecord(holds, front);
      assert holds(front + [last]) && records == front + [last];
    }
  }

  lemma RowOfExtension(records: seq<Record>, r: Record, uid: string)
    ensures Row(records + [r], uid)
      == if uid != "" && r.faultUID == uid then Absorb(Row(records, uid), r) else Row(records, uid)
  {
    assert (records + [r])[..|records|] == records;
    var own := Only(records, uid);
    assert (own + [r])[..|own|] == own;
  }

  lemma RowOfOne(r: Record)
    requires r.faultUID != ""
    ensures Row([r], r.faultUID) == Absorb(NewRow(r.faultUID), r)
  {
    RowOfExtension([], r, r.faultUID);
    assert [] + [r] == [r];
  }

  /** A record changes no row but its own fault's. */
  lemma OtherRowsStay(records: seq<Record>, r: Record)
    ensures forall uid :: uid != r.faultUID || uid == "" ==> Row(records + [r], uid) == Row(records, uid)
  {
    forall uid | uid != r.faultUID || uid == "" ensures Row(records + [r], uid) == Row(records, uid) {
      RowOfExtension(records, r, uid);
    }
  }

  lemma {:induction false} RowKeepsUID(uid: string, own: seq<Record>)
    ensures FoldRow(uid, own).faultUID == uid
  {
    if own != [] {
      RowKeepsUID(uid, own[..|own| - 1]);
    }
  }

  /** First-seen order lists every fault the trail names, each once. */
  lemma {:induction false} FirstSeenIsExact(records: seq<Record>)
    ensures forall i, j :: 0 <= i < j < |FirstSeen(records)| ==> FirstSeen(records)[i] != FirstSeen(records)[j]
    ensures forall uid :: uid in FirstSeen(records) <==> uid != "" && exists r :: r in records && r.faultUID == uid
  {
    if records != [] {
      var front, last := records[..|records| - 1], records[|records| - 1];
      FirstSeenIsExact(front);
      assert records == front + [last];
      forall uid
        ensures uid in FirstSeen(records) <==> uid != "" && exists r :: r in records && r.faultUID == uid
      {
        if uid == last.faultUID {
          assert last in records;
        } else {
          assert (exists r :: r in records && r.faultUID == uid) <==> (exists r :: r in front && r.faultUID == uid);
        }
      }
    }
  }

  /** The order a fault is listed in is the order of the first records: earlier first record, earlier row. */
  lemma {:induction false} FirstSeenOrder(records: seq<Record>, i: nat, j: nat)
    requires i < j < |records|
    requires records[i].faultUID != "" && records[j].faultUID != "" && records[i].faultUID != records[j].faultUID
    requires forall k :: 0 <= k < i ==> records[k].faultUID != records[i].faultUID
    requires forall k :: 0 <= k < j ==> records[k].faultUID != records[j].faultUID
    ensures exists a, b :: 0 <= a < b < |FirstSeen(records)|
                           && FirstSeen(records)[a] == records[i].faultUID
                           && FirstSeen(records)[b] == records[j].faultUID
  {
    var front := records[..|records| - 1];
    if j < |front| {
      FirstSeenOrder(front, i, j);
      var a, b :| 0 <= a < b < |FirstSeen(front)|
                  && FirstSeen(front)[a] == records[i].faultUID && FirstSeen(front)[b] == records[j].faultUID;
      assert FirstSeen(records)[a] == records[i].faultUID && FirstSeen(records)[b] == records[j].faultUID;
    } else {
      FirstSeenIsExact(front);
      assert front[i] in front;
      assert records[i].faultUID in FirstSeen(front);
      var a :| 0 <= a < |FirstSeen(front)| && FirstSeen(front)[a] == records[i].faultUID;
      var b := |FirstSeen(front)|;
      assert FirstSeen(records)[a] == records[i].faultUID && FirstSeen(records)[b] == records[j].faultUID;
    }
  }

  /** What the fold's two variables hold after a prefix of the trail. */
  ghost predicate FoldState(prefix: seq<Record>, byUID: map<string, FaultRow>, order: seq<string>) {
    && order == FirstSeen(prefix)
    && byUID.Keys == (set uid | uid in order)
    && forall uid :: uid in byUID ==> byUID[uid] == Row(prefix, uid)
  }

  /** The row the loop computes for the record at hand is the row of the longer prefix. */
  lemma FoldStepRow(prefix: seq<Record>, r: Record, byUID: map<string, FaultRow>, order: seq<string>)
    requires FoldState(prefix, byUID, order) && r.faultUID != ""
    ensures Row(prefix + [r], r.faultUID)
      == Absorb(if r.faultUID in byUID then byUID[r.faultUID] else NewRow(r.faultUID), r)
  {
    RowOfExtension(prefix, r, r.faultUID);
    if r.faultUID !in byUID {
      UnseenHasNoRecords(prefix, r.faultUID);
    }
  }

  lemma SeenStep(prefix: seq<Record>, r: Record, order: seq<string>)
    requires order == FirstSeen(prefix)
    ensures FirstSeen(prefix + [r]) == if r.faultUID == "" || r.faultUID in order then order else order + [r.faultUID]
  {
    assert (prefix + [r])[..|prefix|] == prefix;
  }

  lemma KeysAreSeen(byUID: map<string, FaultRow>, order: seq<string>, uid: string, row: FaultRow)
    requires byUID.Keys == (set u | u in order)
    ensures byUID[uid := row].Keys == (set u | u in order + [uid])
    ensures uid in byUID ==> byUID[uid := row].Keys == byUID.Keys
  {
    assert forall u :: u in order + [uid] <==> u in order || u == uid;
  }

  /** One iteration of the fold's loop keeps the two variables in step with the trail. */
  lemma FoldStep(prefix: seq<Record>, r: Record, byUID: map<string, FaultRow>, order: seq<string>)
    requires FoldState(prefix, byUID, order)
    ensures r.faultUID == "" ==> FoldState(prefix + [r], byUID, order)
    ensures r.faultUID != "" ==>
              FoldState(prefix + [r], byUID[r.faultUID := Row(prefix + [r], r.faultUID)],
                        if r.faultUID in byUID then order else order + [r.faultUID])
  {
    SeenStep(prefix, r, order);
    OtherRowsStay(prefix, r);
    if r.faultUID != "" {
      KeysAreSeen(byUID, order, r.faultUID, Row(prefix + [r], r.faultUID));
    } else {
      FirstSeenIsExact(prefix);
    }
  }

  /** One turn of the loop: finds or starts the row the record is about, and updates it in place. */
  method FoldRecord(ghost prefix: seq<Record>, byUID: map<string, FaultRow>, order: seq<string>, r: Record)
    returns (rows: map<string, FaultRow>, seen: seq<string>)
    requires FoldState(prefix, byUID, order)
    ensures FoldState(prefix + [r], rows, seen)
  {
    rows, seen := byUID, order;
    FoldStep(prefix, r, byUID, order);
    if r.faultUID == "" { return; }
    FoldStepRow(prefix, r, byUID, order);
    if r.faultUID !in rows {
      rows := rows[r.faultUID := NewRow(r.faultUID)];
      seen := seen + [r.faultUID];
    }
    var row := Absorb(rows[r.faultUID], r);
    LastWriteStands(byUID, r.faultUID, rows[r.faultUID], row);
    rows := rows[r.faultUID := row];
  }

  lemma LastWriteStands(rows: map<string, FaultRow>, uid: string, first: FaultRow, second: FaultRow)
    ensures rows[uid := first][uid := second] == rows[uid := second]
    ensures uid in rows && rows[uid] == first ==> rows[uid := first] == rows
  {
  }

  method RowsInOrder(ghost records: seq<Record>, byUID: map<string, FaultRow>, order: seq<string>)
      returns (out: seq<FaultRow>)
    requires FoldState(records, byUID, order)
    ensures out == FaultsOf(records)
  {
    out := [];
    for i := 0 to |order|
      invariant |out| == i
      invariant forall k :: 0 <= k < i ==> out[k] == Row(records, order[k])
    {
      assert order[i] in byUID;
      out := out + [byUID[order[i]]];
    }
  }

  /** The fold as the source runs it: rows updated in place through a map, listed in first-seen order. */
  method Faults(records: seq<Record>) returns (out: seq<FaultRow>)
    ensures out == FaultsOf(records)
  {
    var byUID: map<string, FaultRow> := map[];
    var order: seq<string> := [];
    for i := 0 to |records|
      invariant FoldState(records[..i], byUID, order)
    {
      assert records[..i + 1] == records[..i] + [records[i]];
      byUID, order := FoldRecord(records[..i], byUID, order, records[i]);
    }
    assert records[..|records|] == records;
    out := RowsInOrder(records, byUID, order);
  }

  lemma {:induction false} UnseenHasNoRecords(records: seq<Record>, uid: string)
    requires uid !in FirstSeen(records)
    ensures Only(records, uid) == []
  {
    if records != [] {
      UnseenHasNoRecords(records[..|records| - 1], uid);
    }
  }

  /** Reached the cluster, and nothing in the trail ended it. */
  predicate IsLive(row: FaultRow) {
    row.outcome == Open && row.appliedAt != NEVER
  }

  /** The faults the folded rows show as applied and never closed. */
  ghost function LiveIn(rows: seq<FaultRow>): set<string> {
    set row | row in rows && IsLive(row) :: row.faultUID
  }

  /** Reading the live faults off the rows is the same as asking each fault's own row. */
  lemma LiveIsPerFault(records: seq<Record>, uid: string)
    ensures uid in LiveIn(FaultsOf(records)) <==> uid != "" && IsLive(Row(records, uid))
  {
    FirstSeenIsExact(records);
    var order := FirstSeen(records);
    RowKeepsUID(uid, Only(records, uid));
    forall i | 0 <= i < |order| ensures FaultsOf(records)[i].faultUID == order[i] {
      RowKeepsUID(order[i], Only(records, order[i]));
    }
    if uid != "" && IsLive(Row(records, uid)) {
      if uid !in order {
        UnseenHasNoRecords(records, uid);
        assert false;
      }
      var i :| 0 <= i < |order| && order[i] == uid;
      assert FaultsOf(records)[i] in FaultsOf(records);
    }
    if uid in LiveIn(FaultsOf(records)) {
      var row :| row in FaultsOf(records) && IsLive(row) && row.faultUID == uid;
      var i :| 0 <= i < |order| && FaultsOf(records)[i] == row;
      assert order[i] in order;
    }
  }

  /** The projection law: rows are distinct, one per named fault, and each row equals the fold of a trail
      from which every other fault's records have been removed. */
  lemma FaultsProjects(records: seq<Record>, i: nat)
    requires i < |FaultsOf(records)|
    ensures FaultsOf(records)[i].faultUID == FirstSeen(records)[i]
    ensures FaultsOf(Only(records, FirstSeen(records)[i])) == [FaultsOf(records)[i]]
    ensures forall j :: 0 <= j < |FaultsOf(records)| && j != i ==>
      FaultsOf(records)[j].faultUID != FaultsOf(records)[i].faultUID
  {
    var order := FirstSeen(records);
    var uid := order[i];
    FirstSeenIsExact(records);
    forall j | 0 <= j < |order| ensures FaultsOf(records)[j].faultUID == order[j] {
      RowKeepsUID(order[j], Only(records, order[j]));
    }
    OnlyIsIdempotent(records, uid);
    var own := Only(records, uid);
    assert uid in order;
    NamedHasRecords(records, uid);
    OneFaultSeenOnce(own, uid);
  }

  lemma {:induction false} OnlyIsIdempotent(records: seq<Record>, uid: string)
    ensures Only(Only(records, uid), uid) == Only(records, uid)
    ensures forall r :: r in Only(records, uid) ==> r.faultUID == uid
  {
    if records != [] {
      OnlyIsIdempotent(records[..|records| - 1], uid);
      var rest := Only(records[..|records| - 1], uid);
      if records[|records| - 1].faultUID == uid {
        assert (rest + [records[|records| - 1]])[..|rest|] == rest;
      }
    }
  }

  lemma {:induction false} NamedHasRecords(records: seq<Record>, uid: string)
    requires uid != "" && exists r :: r in records && r.faultUID == uid
    ensures Only(records, uid) != []
  {
    var front, last := records[..|records| - 1], records[|records| - 1];
    if last.faultUID != uid {
      var r :| r in records && r.faultUID == uid;
      assert r in front;
      NamedHasRecords(front, uid);
    }
  }

  lemma {:induction false} OneFaultSeenOnce(own: seq<Record>, uid: string)
    requires uid != "" && own != [] && forall r :: r in own ==> r.faultUID == uid
    ensures FirstSeen(own) == [uid]
  {
    var front := own[..|own| - 1];
    assert own[|own| - 1] in own;
    if front != [] {
      assert forall r :: r in front ==> r in own;
      OneFaultSeenOnce(front, uid);
    }
  }

  /** How a record ends a fault, if it does. */
  function EndingOf(r: Record): Option<Outcome> {
    match r.event
    case ExecutorRejected => Some(Refused)
    case DriverFailed => Some(DriverWouldNot)
    case LeaseCleared => if LeftInPlace(r) then None else Some(Cleared)
    case LeaseExpired => Some(Expired)
    case _ => None
  }

  /** What a record makes of how a fault stands: only an ending changes the outcome, only an apply what runs. */
  ghost predicate Moves(row: FaultRow, r: Record, after: FaultRow) {
    && after.outcome == Or(EndingOf(r), row.outcome)
    && (if r.event.DriverApplied? then
          after.appliedAt == r.ts && after.engineUID == r.payload.engineUID && after.deadline == r.payload.deadline
        else after.appliedAt == row.appliedAt && after.engineUID == row.engineUID && after.deadline == row.deadline)
    && after.described == if r.event.DriverApplied? || r.event.ExecutorReceived? then Describe(row.described, r.payload)
                          else row.described
  }

  lemma EndingMoves(row: FaultRow, r: Record)
    requires EndingOf(r).Some?
    ensures Moves(row, r, ApplyRecord(row, r))
  {
  }

  lemma DescribingMoves(row: FaultRow, r: Record)
    requires r.event.DriverApplied? || r.event.ExecutorReceived?
    ensures Moves(row, r, ApplyRecord(row, r))
  {
  }

  lemma AbsorbMoves(row: FaultRow, r: Record)
    ensures Moves(row, r, Absorb(row, r))
  {
    var named := row.(planID := if row.planID == "" then r.planID else row.planID,
                      scenarioID := if row.scenarioID == "" then r.scenarioID else row.scenarioID,
                      source := if row.source == "" then r.mode else row.source);
    if EndingOf(r).Some? {
      EndingMoves(named, r);
    } else if r.event.DriverApplied? || r.event.ExecutorReceived? {
      DescribingMoves(named, r);
    }
  }

  /** The two rows agree on how the fault stands: whether it ended, and what runs where until when. */
  predicate SameStanding(a: FaultRow, b: FaultRow) {
    a.outcome == b.outcome && a.appliedAt == b.appliedAt && a.engineUID == b.engineUID && a.deadline == b.deadline
      && a.described == b.described
  }

  lemma AdoptionKeepsStanding(row: FaultRow, r: Record)
    requires r.event == LeaseAdopted
    ensures SameStanding(row, Absorb(row, r))
  {
  }

  /** More records, none of which names the fault or does more than adopt it, leave its row standing as it stood. */
  lemma {:induction false} AdoptionsKeepStanding(records: seq<Record>, more: seq<Record>, uid: string)
    requires forall r :: r in more && r.faultUID == uid && uid != "" ==> r.event == LeaseAdopted
    ensures SameStanding(Row(records, uid), Row(records + more, uid))
    ensures (forall r :: r in more ==> r.faultUID != uid) ==> Row(records + more, uid) == Row(records, uid)
  {
    if more == [] {
      assert records + more == records;
    } else {
      var front, last := more[..|more| - 1], more[|more| - 1];
      assert more == front + [last];
      AdoptionsKeepStanding(records, front, uid);
      assert records + more == (records + front) + [last];
      RowOfExtension(records + front, last, uid);
      if uid != "" && last.faultUID == uid {
        assert last in more;
        AdoptionKeepsStanding(Row(records + front, uid), last);
      }
    }
  }
}
