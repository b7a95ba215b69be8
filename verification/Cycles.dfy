/** Autonomous-mode cycles read back from their records (pkg/audit/cycles.go). */
module Cycles {
  import opened Vocabulary
  import opened Ordering
  import opened Rings

  datatype CycleEvent =
    | CycleStarted
    | CycleSkipped
    | CycleCompleted
    | HealthGateFailed
    | LLMUnavailable
    | StepSkipped
    | PlanGenerated
    | OtherEvent(name: string)

  datatype CycleStep = CycleStep(
    order: int, kind: string, target: string, duration: string, rationale: string, durationRationale: string)

  /** A record with the payload fields the fold reads, decoded; the empty namespace is "absent". */
  datatype Record = Record(
    ts: Time,
    event: CycleEvent,
    namespace: string,
    planID: string,
    reason: string,
    hypothesis: string,
    steps: seq<CycleStep>,
    order: int,
    error: Option<string>,
    appliedUIDs: seq<string>)

  datatype Outcome = Completed | Skipped | Unfinished | Open

  datatype StepRefusal = StepRefusal(order: int, reason: string, error: string)

  datatype CycleRow = CycleRow(
    namespace: string,
    startedAt: Time,
    endedAt: Time,
    outcome: Outcome,
    reason: string,
    detail: string,
    planID: string,
    hypothesis: string,
    steps: seq<CycleStep>,
    applied: seq<string>,
    refused: seq<StepRefusal>)

  function NewCycle(ns: string, ts: Time): CycleRow {
    CycleRow(ns, ts, NEVER, Open, "", "", "", "", [], [], [])
  }

  function CloseAs(row: CycleRow, outcome: Outcome, ts: Time): CycleRow {
    row.(outcome := outcome, endedAt := ts)
  }

  predicate IsCycleEvent(e: CycleEvent) { !e.OtherEvent? }

  /** Records the fold reads. */
  predicate Counts(r: Record) {
    IsCycleEvent(r.event) && r.namespace != ""
  }

  /** What a record other than a start says about the cycle in progress. */
  function Touch(row: CycleRow, r: Record): CycleRow {
    match r.event
    case HealthGateFailed => row.(detail := r.reason)
    case LLMUnavailable => row.(detail := r.reason)
    case PlanGenerated => row.(planID := r.planID, hypothesis := r.hypothesis, steps := r.steps)
    case StepSkipped =>
      row.(refused := row.refused + [StepRefusal(r.order, r.reason, if r.error.Some? then r.error.value else "")])
    case CycleSkipped =>
      CloseAs(row.(reason := r.reason,
                   detail := if r.error.Some? && row.detail == "" then r.error.value else row.detail), Skipped, r.ts)
    case CycleCompleted =>
      CloseAs(row.(planID := if row.planID == "" then r.planID else row.planID,
                   applied := row.applied + r.appliedUIDs), Completed, r.ts)
    case _ => row
  }

  // ----- The fold -----

  /** The namespace's cycle in progress: its last row, when that is open. */
  function OpenAt(rows: seq<CycleRow>, ns: string): (at: Option<nat>)
    ensures at.Some? ==> at.value < |rows| && rows[at.value].namespace == ns && rows[at.value].outcome == Open
  {
    if rows == [] then None
    else if rows[|rows| - 1].namespace == ns then
      if rows[|rows| - 1].outcome == Open then Some(|rows| - 1) else None
    else OpenAt(rows[..|rows| - 1], ns)
  }

  function Fold(rows: seq<CycleRow>, r: Record): seq<CycleRow> {
    if !Counts(r) then rows
    else
      var at := OpenAt(rows, r.namespace);
      if r.event.CycleStarted? then
        (if at.Some? then rows[at.value := CloseAs(rows[at.value], Unfinished, r.ts)] else rows)
        + [NewCycle(r.namespace, r.ts)]
      else if at.Some? then rows[at.value := Touch(rows[at.value], r)]
      else rows + [Touch(NewCycle(r.namespace, r.ts), r)]
  }

  function CyclesOf(records: seq<Record>): seq<CycleRow> {
    if records == [] then [] else Fold(CyclesOf(records[..|records| - 1]), records[|records| - 1])
  }

  /** Where the loop's map points: at every namespace's cycle in progress, and nowhere else. */
  ghost predicate PointsAt(open: map<string, nat>, rows: seq<CycleRow>) {
    forall ns :: (ns in open <==> OpenAt(rows, ns).Some?) && (ns in open ==> OpenAt(rows, ns) == Some(open[ns]))
  }

  lemma AppendPoints(rows: seq<CycleRow>, row: CycleRow, ns: string)
    ensures OpenAt(rows + [row], ns) ==
      if row.namespace == ns then (if row.outcome == Open then Some(|rows|) else None) else OpenAt(rows, ns)
  {
    assert (rows + [row])[..|rows|] == rows;
  }

  /** Rewriting a cycle in progress keeps it in progress or ends it, and leaves other namespaces alone. */
  lemma {:induction false} UpdatePoints(rows: seq<CycleRow>, i: nat, row: CycleRow, ns: string)
    requires OpenAt(rows, row.namespace) == Some(i)
    ensures OpenAt(rows[i := row], ns) ==
      if row.namespace == ns then (if row.outcome == Open then Some(i) else None) else OpenAt(rows, ns)
  {
    if rows[|rows| - 1].namespace != row.namespace {
      UpdatePoints(rows[..|rows| - 1], i, row, ns);
      assert rows[i := row][..|rows| - 1] == rows[..|rows| - 1][i := row];
    } else {
      assert rows[i := row][..|rows| - 1] == rows[..|rows| - 1];
    }
  }

  method Cycles(records: seq<Record>) returns (rows: seq<CycleRow>)
    ensures rows == CyclesOf(records)
  {
    rows := [];
    var open: map<string, nat> := map[];
    for n := 0 to |records|
      invariant rows == CyclesOf(records[..n])
      invariant PointsAt(open, rows)
    {
      assert records[..n + 1][..n] == records[..n];
      if Counts(records[n]) {
        rows, open := OneRecord(rows, open, records[n]);
      }
    }
    assert records[..|records|] == records;
  }

  /** One turn of the loop: finds or starts the cycle a record is about, and rewrites it. */
  method OneRecord(before: seq<CycleRow>, pointers: map<string, nat>, r: Record)
    returns (rows: seq<CycleRow>, open: map<string, nat>)
    requires PointsAt(pointers, before) && Counts(r)
    ensures rows == Fold(before, r) && PointsAt(open, rows)
  {
    rows, open := before, pointers;
    var ns := r.namespace;
    assert ns in open <==> OpenAt(rows, ns).Some?;
    if r.event.CycleStarted? {
      if ns in open {
        rows, open := Rewrite(rows, open, CloseAs(rows[open[ns]], Unfinished, r.ts));
      }
      rows, open := Begin(rows, open, NewCycle(ns, r.ts));
      return;
    }
    if ns in open {
      rows, open := Rewrite(rows, open, Touch(rows[open[ns]], r));
    } else {
      rows, open := Begin(rows, open, Touch(NewCycle(ns, r.ts), r));
    }
  }

  method Rewrite(before: seq<CycleRow>, pointers: map<string, nat>, row: CycleRow)
    returns (rows: seq<CycleRow>, open: map<string, nat>)
    requires PointsAt(pointers, before) && row.namespace in pointers && pointers[row.namespace] < |before|
    ensures rows == before[pointers[row.namespace] := row] && PointsAt(open, rows)
    ensures open == if row.outcome == Open then pointers else pointers - {row.namespace}
  {
    var i := pointers[row.namespace];
    rows := before[i := row];
    open := if row.outcome == Open then pointers else pointers - {row.namespace};
    forall ns ensures (ns in open <==> OpenAt(rows, ns).Some?) && (ns in open ==> OpenAt(rows, ns) == Some(open[ns])) {
      UpdatePoints(before, i, row, ns);
    }
  }

  method Begin(before: seq<CycleRow>, pointers: map<string, nat>, row: CycleRow)
    returns (rows: seq<CycleRow>, open: map<string, nat>)
    requires PointsAt(pointers, before) && OpenAt(before, row.namespace).None?
    ensures rows == before + [row] && PointsAt(open, rows)
  {
    rows := before + [row];
    open := if row.outcome == Open then pointers[row.namespace := |before|] else pointers;
    forall ns ensures (ns in open <==> OpenAt(rows, ns).Some?) && (ns in open ==> OpenAt(rows, ns) == Some(open[ns])) {
      AppendPoints(before, row, ns);
    }
  }

  // ----- One namespace at a time -----

  ghost function RowsIn(rows: seq<CycleRow>, ns: string): seq<CycleRow> {
    if rows == [] then []
    else RowsIn(rows[..|rows| - 1], ns) + if rows[|rows| - 1].namespace == ns then [rows[|rows| - 1]] else []
  }

  ghost function RecordsIn(records: seq<Record>, ns: string): seq<Record> {
    if records == [] then []
    else
      RecordsIn(records[..|records| - 1], ns)
      + if records[|records| - 1].namespace == ns then [records[|records| - 1]] else []
  }

  lemma RowsInSnoc(rows: seq<CycleRow>, row: CycleRow, ns: string)
    ensures RowsIn(rows + [row], ns) == RowsIn(rows, ns) + if row.namespace == ns then [row] else []
  {
    assert (rows + [row])[..|rows|] == rows;
  }

  /** A namespace's cycle in progress is the last of its rows. */
  lemma {:induction false} OpenIsLast(rows: seq<CycleRow>, ns: string)
    ensures OpenAt(rows, ns).Some? ==>
      RowsIn(rows, ns) != [] && RowsIn(rows, ns)[|RowsIn(rows, ns)| - 1] == rows[OpenAt(rows, ns).value]
    ensures OpenAt(RowsIn(rows, ns), ns) == if OpenAt(rows, ns).Some? then Some(|RowsIn(rows, ns)| - 1) else None
  {
    if rows != [] {
      var front, last := rows[..|rows| - 1], rows[|rows| - 1];
      if last.namespace == ns {
        AppendPoints(RowsIn(front, ns), last, ns);
      } else {
        OpenIsLast(front, ns);
        assert RowsIn(rows, ns) == RowsIn(front, ns);
      }
    }
  }

  lemma {:induction false} RowsInUpdate(rows: seq<CycleRow>, i: nat, row: CycleRow, ns: string)
    requires OpenAt(rows, row.namespace) == Some(i)
    ensures row.namespace == ns ==> RowsIn(rows, ns) != []
    ensures var own := RowsIn(rows, ns);
      RowsIn(rows[i := row], ns) == if row.namespace != ns then own else own[..|own| - 1] + [row]
  {
    var front, last := rows[..|rows| - 1], rows[|rows| - 1];
    if last.namespace != row.namespace {
      RowsInUpdate(front, i, row, ns);
      assert rows[i := row][..|rows| - 1] == front[i := row];
    } else {
      assert rows[i := row][..|rows| - 1] == front;
    }
  }

  /** What a record about an open cycle makes of it. */
  function Touched(row: CycleRow, r: Record): CycleRow {
    if r.event.CycleStarted? then CloseAs(row, Unfinished, r.ts) else Touch(row, r)
  }

  /** The rows a record leaves where its namespace has a cycle in progress. */
  lemma {:induction false} FoldOfOpen(rows: seq<CycleRow>, r: Record, at: nat)
    requires Counts(r) && OpenAt(rows, r.namespace) == Some(at)
    ensures at < |rows| && Touched(rows[at], r).namespace == r.namespace
    ensures Fold(rows, r) == rows[at := Touched(rows[at], r)]
      + if r.event.CycleStarted? then [NewCycle(r.namespace, r.ts)] else []
  {
  }

  lemma FoldIntoOpen(rows: seq<CycleRow>, r: Record, ns: string)
    requires Counts(r) && OpenAt(rows, r.namespace).Some?
    ensures RowsIn(Fold(rows, r), ns) == if r.namespace == ns then Fold(RowsIn(rows, ns), r) else RowsIn(rows, ns)
  {
    var at := OpenAt(rows, r.namespace).value;
    OpenIsLast(rows, r.namespace);
    FoldOfOpen(rows, r, at);
    var after := rows[at := Touched(rows[at], r)];
    RowsInUpdate(rows, at, Touched(rows[at], r), ns);
    if r.event.CycleStarted? { RowsInSnoc(after, NewCycle(r.namespace, r.ts), ns); }
    if r.namespace == ns { FoldOfOpen(RowsIn(rows, ns), r, |RowsIn(rows, ns)| - 1); }
  }

  /** The cycle a record begins where none is in progress. */
  function Begun(r: Record): CycleRow {
    var row := NewCycle(r.namespace, r.ts);
    if r.event.CycleStarted? then row else Touch(row, r)
  }

  lemma {:induction false} FoldOfNone(rows: seq<CycleRow>, r: Record)
    requires Counts(r) && OpenAt(rows, r.namespace).None?
    ensures Begun(r).namespace == r.namespace && Fold(rows, r) == rows + [Begun(r)]
  {
  }

  lemma FoldWithoutOpen(rows: seq<CycleRow>, r: Record, ns: string)
    requires Counts(r) && OpenAt(rows, r.namespace).None?
    ensures RowsIn(Fold(rows, r), ns) == if r.namespace == ns then Fold(RowsIn(rows, ns), r) else RowsIn(rows, ns)
  {
    OpenIsLast(rows, r.namespace);
    FoldOfNone(rows, r);
    RowsInSnoc(rows, Begun(r), ns);
    if r.namespace == ns { FoldOfNone(RowsIn(rows, ns), r); }
  }

  lemma FoldIn(rows: seq<CycleRow>, r: Record, ns: string)
    ensures RowsIn(Fold(rows, r), ns) == if r.namespace == ns then Fold(RowsIn(rows, ns), r) else RowsIn(rows, ns)
  {
    if Counts(r) {
      if OpenAt(rows, r.namespace).Some? {
        FoldIntoOpen(rows, r, ns);
      } else {
        FoldWithoutOpen(rows, r, ns);
      }
    }
  }

  /** A namespace's rows are the fold of its own records. */
  lemma {:induction false} CyclesProject(records: seq<Record>, ns: string)
    ensures RowsIn(CyclesOf(records), ns) == CyclesOf(RecordsIn(records, ns))
  {
    if records != [] {
      var front, last := records[..|records| - 1], records[|records| - 1];
      CyclesProject(front, ns);
      FoldIn(CyclesOf(front), last, ns);
      var own := RecordsIn(front, ns);
      if last.namespace == ns {
        assert RecordsIn(records, ns) == own + [last];
        assert (own + [last])[..|own|] == own;
      } else {
        assert RecordsIn(records, ns) == own;
      }
    }
  }

  /** Only a namespace's last row is ever open. */
  ghost predicate OneOpen(rows: seq<CycleRow>) {
    forall i, j :: 0 <= i < j < |rows| && rows[i].namespace == rows[j].namespace ==> rows[i].outcome != Open
  }

  lemma {:induction false} NothingElseOpen(rows: seq<CycleRow>, ns: string, j: nat)
    requires OneOpen(rows) && j < |rows| && rows[j].namespace == ns && rows[j].outcome == Open
    ensures OpenAt(rows, ns) == Some(j)
  {
    if j < |rows| - 1 {
      assert rows[|rows| - 1].namespace != ns;
      NothingElseOpen(rows[..|rows| - 1], ns, j);
    }
  }

  lemma {:induction false} AtMostOneOpen(records: seq<Record>)
    ensures OneOpen(CyclesOf(records))
  {
    if records != [] {
      var rows, r := CyclesOf(records[..|records| - 1]), records[|records| - 1];
      AtMostOneOpen(records[..|records| - 1]);
      FoldKeepsOneOpen(rows, r);
    }
  }

  lemma FoldKeepsOneOpen(rows: seq<CycleRow>, r: Record)
    requires OneOpen(rows)
    ensures OneOpen(Fold(rows, r))
  {
    var after := Fold(rows, r);
    forall i, j | 0 <= i < j < |after| && after[i].namespace == after[j].namespace ensures after[i].outcome != Open {
      if i < |rows| && rows[i].outcome == Open {
        NothingElseOpen(rows, rows[i].namespace, i);
      }
    }
  }

  // ----- Cycles do not overlap -----

  ghost predicate InTimeOrder(records: seq<Record>) {
    forall i, j :: 0 <= i < j < |records| ==> records[i].ts <= records[j].ts
  }

  ghost predicate Timely(row: CycleRow, now: Time) {
    row.startedAt <= now && (row.outcome != Open ==> row.startedAt <= row.endedAt <= now)
  }

  /** Of two rows the later started no earlier and, in the same namespace, after the earlier had ended. */
  ghost predicate Follows(a: CycleRow, b: CycleRow) {
    a.startedAt <= b.startedAt && (a.namespace == b.namespace ==> a.outcome != Open && a.endedAt <= b.startedAt)
  }

  ghost predicate Sequential(rows: seq<CycleRow>, now: Time) {
    && (forall i :: 0 <= i < |rows| ==> Timely(rows[i], now))
    && (forall i, j :: 0 <= i < j < |rows| ==> Follows(rows[i], rows[j]))
  }

  lemma SequentialIsOneOpen(rows: seq<CycleRow>, now: Time)
    requires Sequential(rows, now)
    ensures OneOpen(rows)
  {
    forall i, j | 0 <= i < j < |rows| && rows[i].namespace == rows[j].namespace ensures rows[i].outcome != Open {
      assert Follows(rows[i], rows[j]);
    }
  }

  /** Rewriting a namespace's last row without moving its start keeps the sequence. */
  lemma SequenceUpdate(rows: seq<CycleRow>, i: nat, row: CycleRow, now: Time)
    requires Sequential(rows, now) && OpenAt(rows, row.namespace) == Some(i)
    requires row.startedAt == rows[i].startedAt && Timely(row, now)
    ensures Sequential(rows[i := row], now)
  {
    var after := rows[i := row];
    forall j, k | 0 <= j < k < |after| ensures Follows(after[j], after[k]) {
      assert Follows(rows[j], rows[k]);
    }
  }

  lemma SequenceAppend(rows: seq<CycleRow>, row: CycleRow, now: Time)
    requires Sequential(rows, now) && OpenAt(rows, row.namespace).None?
    requires row.startedAt == now && Timely(row, now)
    ensures Sequential(rows + [row], now)
  {
    var after := rows + [row];
    forall j | 0 <= j < |rows| ensures Follows(rows[j], row) {
      assert Timely(rows[j], now);
      SequentialIsOneOpen(rows, now);
      if rows[j].outcome == Open { NothingElseOpen(rows, rows[j].namespace, j); }
    }
    forall j, k | 0 <= j < k < |after| ensures Follows(after[j], after[k]) {
      if k < |rows| { assert Follows(rows[j], rows[k]); }
    }
  }

  lemma FoldKeepsSequence(rows: seq<CycleRow>, r: Record)
    requires Sequential(rows, r.ts)
    ensures Sequential(Fold(rows, r), r.ts)
  {
    var ns := r.namespace;
    var at := OpenAt(rows, ns);
    if Counts(r) && at.Some? {
      var row := if r.event.CycleStarted? then CloseAs(rows[at.value], Unfinished, r.ts) else Touch(rows[at.value], r);
      SequenceUpdate(rows, at.value, row, r.ts);
      UpdatePoints(rows, at.value, row, ns);
      if r.event.CycleStarted? {
        SequenceAppend(rows[at.value := row], NewCycle(ns, r.ts), r.ts);
      }
    } else if Counts(r) {
      var row := if r.event.CycleStarted? then NewCycle(ns, r.ts) else Touch(NewCycle(ns, r.ts), r);
      SequenceAppend(rows, row, r.ts);
    }
  }

  lemma LaterNow(rows: seq<CycleRow>, now: Time, later: Time)
    requires Sequential(rows, now) && now <= later
    ensures Sequential(rows, later)
  {
    forall i | 0 <= i < |rows| ensures Timely(rows[i], later) {
      assert Timely(rows[i], now);
    }
  }

  /** Read in time order, a namespace's cycles never overlap and rows come oldest first. */
  lemma {:induction false} CyclesDoNotOverlap(records: seq<Record>, now: Time)
    requires InTimeOrder(records) && forall i :: 0 <= i < |records| ==> records[i].ts <= now
    ensures Sequential(CyclesOf(records), now)
  {
    if records != [] {
      var front, last := records[..|records| - 1], records[|records| - 1];
      CyclesDoNotOverlap(front, last.ts);
      FoldKeepsSequence(CyclesOf(front), last);
      LaterNow(CyclesOf(records), last.ts, now);
    }
  }

  // ----- The bounded log -----

  const DEFAULT_MAX := 5000

  ghost function CycleEvents(records: seq<Record>): seq<Record> {
    if records == [] then []
    else CycleEvents(records[..|records| - 1])
         + if IsCycleEvent(records[|records| - 1].event) then [records[|records| - 1]] else []
  }

  function At(r: Record): Time { r.ts }

  predicate Matches(row: CycleRow, ns: string) {
    ns == "" || row.namespace == ns
  }

  /** A namespace's rows are the ones a filter on it keeps. */
  lemma {:induction false} RowsInAreKept(rows: seq<CycleRow>, ns: string)
    requires ns != ""
    ensures Kept(rows, (row: CycleRow) => Matches(row, ns)) == RowsIn(rows, ns)
  {
    if rows != [] { RowsInAreKept(rows[..|rows| - 1], ns); }
  }

  class CycleLog {
    var records: seq<Record>
    var max: nat

    /** Everything ever added: the log is the newest part of its cycle events. */
    ghost var added: seq<Record>

    ghost predicate Valid()
      reads this
    {
      max > 0 && records == Last(CycleEvents(added), max)
    }

    constructor (limit: int)
      ensures Valid() && added == [] && max == if limit <= 0 then 5000 else limit
    {
      max := if limit <= 0 then DEFAULT_MAX else limit;
      records := [];
      added := [];
    }

    method Add(r: Record)
      requires Valid()
      modifies this
      ensures Valid() && added == old(added) + [r] && max == old(max)
    {
      added := added + [r];
      assert added[..|added| - 1] == old(added);
      if !IsCycleEvent(r.event) { return; }
      records := records + [r];
      if |records| > max {
        records := records[|records| - max..];
      }
    }

    method Recent(ns: string, limit: int) returns (out: seq<CycleRow>)
      requires Valid()
      ensures out == Newest(CyclesOf(Sort(Last(CycleEvents(added), max), At, IntBefore)),
        (row: CycleRow) => Matches(row, ns), limit)
    {
      var recs := Sort(records, At, IntBefore);
      var rows := Cycles(recs);
      out := NewestFirst(rows, (row: CycleRow) => Matches(row, ns), limit);
    }
  }

  /** Asked for one namespace, the log answers from that namespace's records alone. */
  lemma RecentProjects(records: seq<Record>, ns: string)
    requires ns != ""
    ensures NewestOf(CyclesOf(records), (row: CycleRow) => Matches(row, ns), |CyclesOf(records)|)
         == NewestOf(CyclesOf(RecordsIn(records, ns)), Any, |CyclesOf(RecordsIn(records, ns))|)
  {
    var rows := CyclesOf(records);
    CyclesProject(records, ns);
    RowsInAreKept(rows, ns);
    NewestOfKept(rows, (row: CycleRow) => Matches(row, ns), |rows|);
    assert rows[..|rows|] == rows;
  }
}
