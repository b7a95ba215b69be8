/**
 * What the cycles read back from an audit trail say, told by the records themselves (pkg/audit/cycles.go): a
 * namespace's records are cut at each start and after each end, and every piece is one row.
 */
module CycleReading {
  import opened Vocabulary
  import opened Cycles

  /** What the autonomous loop writes about a cycle. */
  ghost predicate OfCycle(e: CycleEvent) {
    e in {CycleStarted, CycleSkipped, CycleCompleted, HealthGateFailed, LLMUnavailable, StepSkipped, PlanGenerated}
  }

  /** A namespace's records of its cycles. */
  ghost function Spoken(records: seq<Record>, ns: string): seq<Record> {
    if records == [] then []
    else
      var r := records[|records| - 1];
      Spoken(records[..|records| - 1], ns) + if OfCycle(r.event) && r.namespace == ns then [r] else []
  }

  ghost predicate Closes(r: Record) {
    r.event == CycleSkipped || r.event == CycleCompleted
  }

  /** A record begins a new piece if it is a start, if it is the first, or if the piece before it was closed. */
  ghost function CutOne(pieces: seq<seq<Record>>, r: Record): seq<seq<Record>>
    requires forall i :: 0 <= i < |pieces| ==> pieces[i] != []
  {
    if r.event == CycleStarted || pieces == [] || Closes(Final(pieces[|pieces| - 1])) then pieces + [[r]]
    else pieces[..|pieces| - 1] + [pieces[|pieces| - 1] + [r]]
  }

  ghost function Final(piece: seq<Record>): Record
    requires piece != []
  {
    piece[|piece| - 1]
  }

  ghost function Cut(own: seq<Record>): (pieces: seq<seq<Record>>)
    ensures forall i :: 0 <= i < |pieces| ==> pieces[i] != []
  {
    if own == [] then [] else CutOne(Cut(own[..|own| - 1]), own[|own| - 1])
  }

  // ----- What a row says of its piece -----

  ghost function LastOf(piece: seq<Record>, kind: CycleEvent -> bool): Option<Record> {
    if piece == [] then None
    else if kind(piece[|piece| - 1].event) then Some(piece[|piece| - 1]) else LastOf(piece[..|piece| - 1], kind)
  }

  const Objects := (e: CycleEvent) => e == HealthGateFailed || e == LLMUnavailable
  const Plans := (e: CycleEvent) => e == PlanGenerated

  ghost function Refusals(piece: seq<Record>): seq<StepRefusal> {
    if piece == [] then []
    else
      var r := piece[|piece| - 1];
      Refusals(piece[..|piece| - 1])
      + if r.event == StepSkipped then [StepRefusal(r.order, r.reason, Text(r.error))] else []
  }

  function Text(o: Option<string>): string {
    match o case Some(t) => t case None => ""
  }

  /** The first text that says something. */
  function FirstText(a: string, b: string): string {
    if a != "" then a else b
  }

  function ReasonOf(o: Option<Record>): string {
    match o case Some(r) => r.reason case None => ""
  }

  function PlanOf(o: Option<Record>): (string, string, seq<CycleStep>) {
    match o case Some(r) => (r.planID, r.hypothesis, r.steps) case None => ("", "", [])
  }

  /** What was planned, what was refused and what was applied, and what the gate or the model objected. */
  ghost predicate Contents(row: CycleRow, piece: seq<Record>) {
    && row.refused == Refusals(piece)
    && row.hypothesis == PlanOf(LastOf(piece, Plans)).1 && row.steps == PlanOf(LastOf(piece, Plans)).2
    && EndContents(row, if piece == [] then None else Some(Final(piece)), ReasonOf(LastOf(piece, Objects)),
                   PlanOf(LastOf(piece, Plans)).0)
  }

  /** A skip gives the reason, and an objection where there was none; a completion what was applied, and the plan. */
  ghost predicate EndContents(row: CycleRow, end: Option<Record>, objection: string, plan: string) {
    var skipped := end.Some? && end.value.event == CycleSkipped;
    var completed := end.Some? && end.value.event == CycleCompleted;
    && row.reason == (if skipped then end.value.reason else "")
    && row.detail == (if skipped then FirstText(objection, Text(end.value.error)) else objection)
    && row.planID == (if completed then FirstText(plan, end.value.planID) else plan)
    && row.applied == (if completed then end.value.appliedUIDs else [])
  }

  /** When the cycle began, and how and when it ended: on its own, or cut off by the next one's start. */
  ghost predicate Standing(row: CycleRow, piece: seq<Record>, next: Option<Time>, ns: string)
    requires piece != []
  {
    && row.namespace == ns && row.startedAt == piece[0].ts
    && (match Final(piece).event
        case CycleSkipped => row.outcome == Skipped && row.endedAt == Final(piece).ts
        case CycleCompleted => row.outcome == Completed && row.endedAt == Final(piece).ts
        case _ =>
          match next
          case Some(t) => row.outcome == Unfinished && row.endedAt == t
          case None => row.outcome == Open && row.endedAt == NEVER)
  }

  ghost function NextStart(pieces: seq<seq<Record>>, i: nat, next: Option<Time>): Option<Time>
    requires forall j :: 0 <= j < |pieces| ==> pieces[j] != []
  {
    if i + 1 < |pieces| then Some(pieces[i + 1][0].ts) else next
  }

  ghost predicate RowTells(row: CycleRow, piece: seq<Record>, next: Option<Time>, ns: string) {
    piece != [] && Contents(row, piece) && Standing(row, piece, next, ns)
  }

  /** Rows and pieces go together one for one; the piece after the last begins next, if there is one. */
  ghost predicate AllTell(tells: (CycleRow, seq<Record>, Option<Time>) -> bool, rows: seq<CycleRow>,
      pieces: seq<seq<Record>>, next: Option<Time>)
  {
    && |rows| == |pieces| && (forall i :: 0 <= i < |pieces| ==> pieces[i] != [])
    && (forall i :: 0 <= i < |rows| ==> tells(rows[i], pieces[i], NextStart(pieces, i, next)))
  }

  ghost function Telling(ns: string): (CycleRow, seq<Record>, Option<Time>) -> bool {
    (row: CycleRow, piece: seq<Record>, next: Option<Time>) => RowTells(row, piece, next, ns)
  }

  /** The rows are the pieces. */
  ghost predicate RowsTell(rows: seq<CycleRow>, pieces: seq<seq<Record>>, next: Option<Time>, ns: string) {
    AllTell(Telling(ns), rows, pieces, next)
  }

  /** All rows but the last, and the last. */
  lemma FrontAndLast(tells: (CycleRow, seq<Record>, Option<Time>) -> bool, rows: seq<CycleRow>,
      pieces: seq<seq<Record>>, next: Option<Time>)
    requires AllTell(tells, rows, pieces, next) && rows != []
    ensures pieces != [] && pieces[|pieces| - 1] != []
    ensures AllTell(tells, rows[..|rows| - 1], pieces[..|pieces| - 1], Some(pieces[|pieces| - 1][0].ts))
    ensures tells(rows[|rows| - 1], pieces[|pieces| - 1], next)
  {
    var front, cut, begun := rows[..|rows| - 1], pieces[..|pieces| - 1], Some(pieces[|pieces| - 1][0].ts);
    forall i | 0 <= i < |front| ensures tells(front[i], cut[i], NextStart(cut, i, begun)) {
      assert tells(rows[i], pieces[i], NextStart(pieces, i, next));
    }
    assert tells(rows[|rows| - 1], pieces[|rows| - 1], NextStart(pieces, |rows| - 1, next));
  }

  lemma RowAdded(tells: (CycleRow, seq<Record>, Option<Time>) -> bool, rows: seq<CycleRow>, pieces: seq<seq<Record>>,
      row: CycleRow, piece: seq<Record>, next: Option<Time>)
    requires piece != [] && AllTell(tells, rows, pieces, Some(piece[0].ts)) && tells(row, piece, next)
    ensures AllTell(tells, rows + [row], pieces + [piece], next)
  {
    var after, cut := rows + [row], pieces + [piece];
    forall i | 0 <= i < |after| ensures tells(after[i], cut[i], NextStart(cut, i, next)) {
      if i < |rows| { assert tells(rows[i], pieces[i], NextStart(pieces, i, Some(piece[0].ts))); }
    }
  }

  // ----- One record more -----

  lemma PieceSnoc(piece: seq<Record>, r: Record)
    ensures Final(piece + [r]) == r
    ensures LastOf(piece + [r], Objects) == if Objects(r.event) then Some(r) else LastOf(piece, Objects)
    ensures LastOf(piece + [r], Plans) == if Plans(r.event) then Some(r) else LastOf(piece, Plans)
    ensures Refusals(piece + [r])
      == Refusals(piece) + if r.event == StepSkipped then [StepRefusal(r.order, r.reason, Text(r.error))] else []
  {
    assert (piece + [r])[..|piece|] == piece;
  }

  lemma TouchEnds(row: CycleRow, end: Option<Record>, objection: string, plan: string, r: Record)
    requires EndContents(row, end, objection, plan) && OfCycle(r.event) && (end.Some? ==> !Closes(end.value))
    ensures EndContents(Touch(row, r), Some(r), if Objects(r.event) then r.reason else objection,
      if Plans(r.event) then r.planID else plan)
  {
    assert row.applied + r.appliedUIDs == r.appliedUIDs;
  }

  lemma TouchTells(row: CycleRow, piece: seq<Record>, r: Record)
    requires Contents(row, piece) && OfCycle(r.event) && (piece != [] ==> !Closes(Final(piece)))
    ensures Contents(Touch(row, r), piece + [r])
  {
    PieceSnoc(piece, r);
    TouchEnds(row, if piece == [] then None else Some(Final(piece)), ReasonOf(LastOf(piece, Objects)),
      PlanOf(LastOf(piece, Plans)).0, r);
    assert row.refused + [] == row.refused;
  }

  lemma TouchStands(row: CycleRow, r: Record)
    ensures
      var after := Touch(row, r);
      && after.namespace == row.namespace && after.startedAt == row.startedAt
      && after.outcome == (if r.event == CycleSkipped then Skipped
                           else if r.event == CycleCompleted then Completed else row.outcome)
      && after.endedAt == if Closes(r) then r.ts else row.endedAt
  {
  }

  lemma BegunTells(r: Record)
    requires OfCycle(r.event)
    ensures Fold([], r) == [Touch(NewCycle(r.namespace, r.ts), r)] || r.namespace == ""
    ensures RowTells(Touch(NewCycle(r.namespace, r.ts), r), [r], None, r.namespace)
  {
    var row := NewCycle(r.namespace, r.ts);
    assert Contents(row, []);
    TouchTells(row, [], r);
    TouchStands(row, r);
    assert [] + [r] == [r];
  }

  lemma OneNamespace(rows: seq<CycleRow>, ns: string)
    requires rows != [] && rows[|rows| - 1].namespace == ns
    ensures OpenAt(rows, ns) == if rows[|rows| - 1].outcome == Open then Some(|rows| - 1) else None
  {
  }

  lemma LastIsOpen(rows: seq<CycleRow>, row: CycleRow, piece: seq<Record>, ns: string)
    requires rows != [] && row == rows[|rows| - 1] && RowTells(row, piece, None, ns)
    ensures OpenAt(rows, ns) == if Closes(Final(piece)) then None else Some(|rows| - 1)
  {
    OneNamespace(rows, ns);
  }

  lemma CutOff(row: CycleRow, piece: seq<Record>, t: Time, ns: string)
    requires RowTells(row, piece, None, ns)
    ensures RowTells(if Closes(Final(piece)) then row else CloseAs(row, Unfinished, t), piece, Some(t), ns)
  {
  }

  lemma GoesOn(rows: seq<CycleRow>, pieces: seq<seq<Record>>, r: Record, ns: string)
    requires RowsTell(rows, pieces, None, ns) && OfCycle(r.event) && r.namespace == ns && ns != ""
    requires rows != [] && r.event != CycleStarted && !Closes(Final(pieces[|pieces| - 1]))
    ensures RowsTell(Fold(rows, r), CutOne(pieces, r), None, ns)
  {
    FrontAndLast(Telling(ns), rows, pieces, None);
    var front, row, piece := rows[..|rows| - 1], rows[|rows| - 1], pieces[|pieces| - 1];
    LastIsOpen(rows, row, piece, ns);
    PieceGoesOn(row, piece, r, ns);
    RowAdded(Telling(ns), front, pieces[..|pieces| - 1], Touch(row, r), piece + [r], None);
    FoldOfOpen(rows, r, |rows| - 1);
    assert Fold(rows, r) == front + [Touch(row, r)];
  }

  lemma PieceGoesOn(row: CycleRow, piece: seq<Record>, r: Record, ns: string)
    requires RowTells(row, piece, None, ns) && OfCycle(r.event) && !Closes(Final(piece))
    ensures RowTells(Touch(row, r), piece + [r], None, ns)
  {
    TouchTells(row, piece, r);
    TouchStands(row, r);
    PieceSnoc(piece, r);
  }

  lemma BeginsAnew(rows: seq<CycleRow>, pieces: seq<seq<Record>>, r: Record, ns: string)
    requires RowsTell(rows, pieces, None, ns) && OfCycle(r.event) && r.namespace == ns && ns != ""
    requires r.event == CycleStarted || rows == [] || Closes(Final(pieces[|pieces| - 1]))
    ensures RowsTell(Fold(rows, r), CutOne(pieces, r), None, ns)
  {
    BegunTells(r);
    var begun := Touch(NewCycle(ns, r.ts), r);
    if rows == [] {
      RowAdded(Telling(ns), [], [], begun, [r], None);
      assert Fold(rows, r) == [] + [begun] && pieces == [];
    } else {
      BeginsAfter(rows, pieces, r, ns, begun);
    }
  }

  /** The last row is cut off, and a new one begins. */
  lemma CutOffAndAdded(tells: (CycleRow, seq<Record>, Option<Time>) -> bool, rows: seq<CycleRow>,
      pieces: seq<seq<Record>>, off: CycleRow, begun: CycleRow, r: Record)
    requires AllTell(tells, rows, pieces, None) && rows != []
    requires tells(off, pieces[|rows| - 1], Some(r.ts)) && tells(begun, [r], None)
    ensures AllTell(tells, rows[|rows| - 1 := off] + [begun], pieces + [[r]], None)
  {
    var last := |rows| - 1;
    FrontAndLast(tells, rows, pieces, None);
    RowAdded(tells, rows[..last], pieces[..last], off, pieces[last], Some(r.ts));
    assert pieces == pieces[..last] + [pieces[last]] && rows[last := off] == rows[..last] + [off];
    RowAdded(tells, rows[last := off], pieces, begun, [r], None);
  }

  lemma BeginsAfter(rows: seq<CycleRow>, pieces: seq<seq<Record>>, r: Record, ns: string, begun: CycleRow)
    requires RowsTell(rows, pieces, None, ns) && rows != [] && OfCycle(r.event) && r.namespace == ns && ns != ""
    requires r.event == CycleStarted || Closes(Final(pieces[|pieces| - 1]))
    requires begun == Touch(NewCycle(ns, r.ts), r) && Telling(ns)(begun, [r], None)
    ensures RowsTell(Fold(rows, r), pieces + [[r]], None, ns)
  {
    var off := LastCutOff(rows, pieces, r, ns);
    CutOffAndAdded(Telling(ns), rows, pieces, off, begun, r);
    FoldBegins(rows, r, ns, begun, rows[|rows| - 1 := off]);
  }

  lemma LastCutOff(rows: seq<CycleRow>, pieces: seq<seq<Record>>, r: Record, ns: string) returns (off: CycleRow)
    requires RowsTell(rows, pieces, None, ns) && rows != []
    requires r.event == CycleStarted || Closes(Final(pieces[|pieces| - 1]))
    ensures Telling(ns)(off, pieces[|rows| - 1], Some(r.ts))
    ensures
      var last := |rows| - 1;
      if OpenAt(rows, ns).None? then rows[last := off] == rows
      else OpenAt(rows, ns) == Some(last) && r.event == CycleStarted && off == CloseAs(rows[last], Unfinished, r.ts)
  {
    var last := |rows| - 1;
    FrontAndLast(Telling(ns), rows, pieces, None);
    LastIsOpen(rows, rows[last], pieces[last], ns);
    CutOff(rows[last], pieces[last], r.ts, ns);
    off := if Closes(Final(pieces[last])) then rows[last] else CloseAs(rows[last], Unfinished, r.ts);
  }

  lemma FoldBegins(rows: seq<CycleRow>, r: Record, ns: string, begun: CycleRow, front: seq<CycleRow>)
    requires rows != [] && OfCycle(r.event) && r.namespace == ns && ns != "" && begun == Touch(NewCycle(ns, r.ts), r)
    requires
      var last := |rows| - 1;
      if OpenAt(rows, ns).None? then front == rows
      else OpenAt(rows, ns) == Some(last) && r.event == CycleStarted
           && front == rows[last := CloseAs(rows[last], Unfinished, r.ts)]
    ensures Fold(rows, r) == front + [begun]
  {
    if OpenAt(rows, ns).None? { FoldOfNone(rows, r); } else { FoldOfOpen(rows, r, |rows| - 1); }
  }

  lemma OneMoreRead(rows: seq<CycleRow>, own: seq<Record>, r: Record, ns: string)
    requires ns != "" && RowsTell(rows, Cut(own), None, ns) && r.namespace == ns && OfCycle(r.event)
    ensures RowsTell(Fold(rows, r), Cut(own + [r]), None, ns)
  {
    assert (own + [r])[..|own|] == own;
    if r.event == CycleStarted || rows == [] || Closes(Final(Cut(own)[|rows| - 1])) {
      BeginsAnew(rows, Cut(own), r, ns);
    } else {
      GoesOn(rows, Cut(own), r, ns);
    }
  }

  /**
   * The rows of a namespace, on any trail: one for each piece of its records, with what the piece says. A skip or a
   * completion ends a cycle as what it is; a cycle that has neither is cut off by the next start, or still open.
   */
  lemma {:induction false} CyclesAreRead(records: seq<Record>, ns: string)
    requires ns != ""
    ensures RowsTell(RowsIn(CyclesOf(records), ns), Cut(Spoken(records, ns)), None, ns)
  {
    if records != [] {
      var front, r := records[..|records| - 1], records[|records| - 1];
      CyclesAreRead(front, ns);
      FoldIn(CyclesOf(front), r, ns);
      if r.namespace == ns && OfCycle(r.event) {
        OneMoreRead(RowsIn(CyclesOf(front), ns), Spoken(front, ns), r, ns);
      } else {
        assert Spoken(front, ns) + [] == Spoken(front, ns);
      }
    }
  }
}
