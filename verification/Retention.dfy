/**
 * What rotation leaves of a trail: the file keeps two generations, so a new controller reads the end of the log, not
 * all of it (pkg/audit/file.go; cmd/simian/serve.go: openAuditFile), and folds that (pkg/audit/faults.go).
 */
module Retention {
  import opened Vocabulary
  import opened AuditTrail
  import F = FileAudit

  /** What has been let go of a log of which the rest is kept. */
  function LetGo(log: seq<Record>, kept: seq<Record>): (gone: seq<Record>)
    requires F.IsSuffix(kept, log)
    ensures log == gone + kept
  {
    log[..|log| - |kept|]
  }

  // ----- From files to records -----

  function Encoded(log: seq<Record>, encode: Record -> F.Chunk): seq<F.Chunk> {
    if log == [] then [] else Encoded(log[..|log| - 1], encode) + [encode(log[|log| - 1])]
  }

  /** The records of the lines that hold one; other lines, a truncated one among them, are passed over. */
  function ReadBack(chunks: seq<F.Chunk>, decode: F.Chunk -> Option<Record>): seq<Record> {
    if chunks == [] then []
    else
      ReadBack(chunks[..|chunks| - 1], decode)
      + match decode(chunks[|chunks| - 1]) case Some(r) => [r] case None => []
  }

  lemma {:induction false} EncodedLength(log: seq<Record>, encode: Record -> F.Chunk)
    ensures |Encoded(log, encode)| == |log|
  {
    if log != [] { EncodedLength(log[..|log| - 1], encode); }
  }

  lemma EncodedSnoc(log: seq<Record>, r: Record, encode: Record -> F.Chunk)
    ensures Encoded(log + [r], encode) == Encoded(log, encode) + [encode(r)]
  {
    assert (log + [r])[..|log|] == log;
  }

  lemma {:induction false} EncodedSplits(front: seq<Record>, back: seq<Record>, encode: Record -> F.Chunk)
    ensures Encoded(front + back, encode) == Encoded(front, encode) + Encoded(back, encode)
    decreases |back|
  {
    if back == [] {
      assert front + back == front;
    } else {
      var rest, last := back[..|back| - 1], back[|back| - 1];
      EncodedSplits(front, rest, encode);
      assert back == rest + [last] && front + back == (front + rest) + [last];
      EncodedSnoc(front + rest, last, encode);
      EncodedSnoc(rest, last, encode);
      var early, late := Encoded(front, encode), Encoded(rest, encode);
      assert (early + late) + [encode(last)] == early + (late + [encode(last)]);
    }
  }

  lemma EncodedEnd(log: seq<Record>, from: nat, encode: Record -> F.Chunk)
    requires from <= |log|
    ensures |Encoded(log, encode)| == |log| && Encoded(log, encode)[from..] == Encoded(log[from..], encode)
  {
    assert log == log[..from] + log[from..];
    EncodedSplits(log[..from], log[from..], encode);
    EncodedLength(log[..from], encode);
    EncodedLength(log, encode);
  }

  lemma {:induction false} ReadsBack(log: seq<Record>, encode: Record -> F.Chunk, decode: F.Chunk -> Option<Record>)
    requires forall r :: r in log ==> decode(encode(r)) == Some(r)
    ensures ReadBack(Encoded(log, encode), decode) == log
  {
    if log != [] {
      var front, last := log[..|log| - 1], log[|log| - 1];
      assert log == front + [last] && last in log;
      ReadsBack(front, encode, decode);
      var chunks := Encoded(front, encode);
      assert (chunks + [encode(last)])[..|chunks|] == chunks;
    }
  }

  lemma EndOfEncoded(log: seq<Record>, part: seq<F.Chunk>, encode: Record -> F.Chunk,
      decode: F.Chunk -> Option<Record>)
    requires F.IsSuffix(part, Encoded(log, encode)) && forall r :: r in log ==> decode(encode(r)) == Some(r)
    ensures F.IsSuffix(ReadBack(part, decode), log)
  {
    EncodedEnd(log, 0, encode);
    var from := |log| - |part|;
    EncodedEnd(log, from, encode);
    forall r | r in log[from..] ensures decode(encode(r)) == Some(r) { assert r in log; }
    ReadsBack(log[from..], encode, decode);
  }

  /**
   * However often the file was rotated, and whatever renames failed: as long as lines are written whole, what a new
   * controller reads from the two files is the end of what was logged, without a gap.
   */
  lemma RotationKeepsTheEnd(log: seq<Record>, encode: Record -> F.Chunk, decode: F.Chunk -> Option<Record>,
      t: F.Trail, max: nat, emissions: seq<F.Emission>)
    requires F.Sound(t) && F.After(t, max, emissions).written == Encoded(log, encode)
    requires forall r :: r in log ==> decode(encode(r)) == Some(r)
    ensures
      var files := F.After(t, max, emissions);
      F.IsSuffix(ReadBack(files.previous + files.current, decode), log)
  {
    F.TrailIsContiguous(t, max, emissions);
    var files := F.After(t, max, emissions);
    EndOfEncoded(log, files.previous + files.current, encode, decode);
  }

  // ----- From the kept records to rows -----

  predicate IsAnnouncement(r: Record, uid: string) {
    r.event == DriverApplied && r.faultUID == uid
  }

  ghost predicate HasAnnouncement(records: seq<Record>, uid: string) {
    exists r :: r in records && IsAnnouncement(r, uid)
  }

  /** An announcement that says when and what: the form the executor emits. */
  predicate Complete(r: Record) {
    && r.ts != NEVER && r.payload.engine.Some? && r.payload.kind.Some? && r.payload.targets.Some?
    && r.payload.spec.Some? && r.payload.duration.Some?
  }

  ghost predicate CompletelyAnnounced(records: seq<Record>, uid: string) {
    forall r :: r in records && IsAnnouncement(r, uid) ==> Complete(r)
  }

  /** Every announcement of a named fault is. */
  ghost predicate AllComplete(records: seq<Record>) {
    forall r :: r in records && r.event == DriverApplied && r.faultUID != "" ==> Complete(r)
  }

  predicate SameFaultDescribed(a: Description, b: Description) {
    a.engine == b.engine && a.kind == b.kind && a.targets == b.targets && a.spec == b.spec && a.duration == b.duration
  }

  /** How the row of all records compares to the row of the kept ones, when the lost ones left the fault like `gone`. */
  ghost predicate Retold(gone: FaultRow, all: FaultRow, kept: FaultRow, announced: bool, complete: bool) {
    && (if announced then
          all.appliedAt == kept.appliedAt && all.engineUID == kept.engineUID && all.deadline == kept.deadline
        else kept.appliedAt == NEVER && all.appliedAt == gone.appliedAt)
    && (announced && complete ==> kept.appliedAt != NEVER && SameFaultDescribed(all.described, kept.described))
    && all.outcome == (if kept.outcome == Open then gone.outcome else kept.outcome)
  }

  lemma RetoldStep(gone: FaultRow, all: FaultRow, kept: FaultRow, announced: bool, complete: bool, r: Record)
    requires Retold(gone, all, kept, announced, complete)
    ensures
      var applied := r.event == DriverApplied;
      Retold(gone, Absorb(all, r), Absorb(kept, r), announced || applied, complete && (applied ==> Complete(r)))
  {
    AbsorbMoves(all, r);
    AbsorbMoves(kept, r);
    RetoldMove(gone, all, kept, announced, complete, r, Absorb(all, r), Absorb(kept, r));
  }

  lemma RetoldMove(gone: FaultRow, all: FaultRow, kept: FaultRow, announced: bool, complete: bool, r: Record,
      all': FaultRow, kept': FaultRow)
    requires Retold(gone, all, kept, announced, complete) && Moves(all, r, all') && Moves(kept, r, kept')
    ensures
      var applied := r.event == DriverApplied;
      Retold(gone, all', kept', announced || applied, complete && (applied ==> Complete(r)))
  {
  }

  /** How the fault's row on the whole log compares to its row on what is kept. */
  ghost predicate RetoldBy(gone: seq<Record>, kept: seq<Record>, uid: string) {
    Retold(Row(gone, uid), Row(gone + kept, uid), Row(kept, uid), HasAnnouncement(kept, uid),
      CompletelyAnnounced(kept, uid))
  }

  lemma NothingKept(gone: seq<Record>, uid: string)
    ensures RetoldBy(gone, [], uid)
  {
    assert gone + [] == gone;
  }

  lemma OneMoreKept(gone: seq<Record>, front: seq<Record>, last: Record, kept: seq<Record>, uid: string)
    requires uid != "" && RetoldBy(gone, front, uid) && kept == front + [last]
    ensures RetoldBy(gone, kept, uid)
  {
    assert gone + kept == (gone + front) + [last];
    AnnouncementSnoc(front, last, uid);
    RowOfExtension(gone + front, last, uid);
    RowOfExtension(front, last, uid);
    if last.faultUID == uid {
      RetoldStep(Row(gone, uid), Row(gone + front, uid), Row(front, uid), HasAnnouncement(front, uid),
        CompletelyAnnounced(front, uid), last);
    }
  }

  /** Each record tells the kept part's row what it told the whole log's. */
  lemma KeptRetells(gone: seq<Record>, kept: seq<Record>, uid: string)
    requires uid != ""
    ensures RetoldBy(gone, kept, uid)
  {
    var holds := (records: seq<Record>) => RetoldBy(gone, records, uid);
    EachStepRetells(gone, uid);
    RecordByRecord(holds, kept);
    assert holds(kept);
  }

  lemma EachStepRetells(gone: seq<Record>, uid: string)
    requires uid != ""
    ensures RetoldBy(gone, [], uid)
    ensures forall front, last :: RetoldBy(gone, front, uid) ==> RetoldBy(gone, front + [last], uid)
  {
    NothingKept(gone, uid);
    forall front, last | RetoldBy(gone, front, uid) ensures RetoldBy(gone, front + [last], uid) {
      OneMoreKept(gone, front, last, front + [last], uid);
    }
  }

  lemma AnnouncementSnoc(front: seq<Record>, last: Record, uid: string)
    ensures HasAnnouncement(front + [last], uid) <==> HasAnnouncement(front, uid) || IsAnnouncement(last, uid)
    ensures CompletelyAnnounced(front + [last], uid) <==>
      CompletelyAnnounced(front, uid) && (IsAnnouncement(last, uid) ==> Complete(last))
  {
    var all := front + [last];
    assert forall r :: r in all <==> r in front || r == last;
    if r :| r in front && IsAnnouncement(r, uid) { assert r in all; }
    if IsAnnouncement(last, uid) { assert last in all; }
  }

  /**
   * A fault the kept part shows as applied and open was announced there, for the object and deadline the whole log
   * has, and it is applied and open on the whole log exactly when nothing lost had closed it.
   */
  lemma KeptShowsLive(gone: seq<Record>, kept: seq<Record>, uid: string)
    requires uid != "" && IsLive(Row(kept, uid))
    ensures HasAnnouncement(kept, uid)
    ensures IsLive(Row(gone + kept, uid)) <==> Row(gone, uid).outcome == Open
    ensures Row(gone + kept, uid).engineUID == Row(kept, uid).engineUID
    ensures Row(gone + kept, uid).deadline == Row(kept, uid).deadline
    ensures CompletelyAnnounced(kept, uid) ==>
      SameFaultDescribed(Row(gone + kept, uid).described, Row(kept, uid).described)
  {
    KeptRetells(gone, kept, uid);
  }

  /** And one the whole log shows as applied and open shows in the kept part exactly when its announcement is there. */
  lemma LiveShowsIfAnnounced(gone: seq<Record>, kept: seq<Record>, uid: string)
    requires uid != "" && IsLive(Row(gone + kept, uid)) && CompletelyAnnounced(kept, uid)
    ensures IsLive(Row(kept, uid)) <==> HasAnnouncement(kept, uid)
    ensures Row(gone, uid).outcome == Open
  {
    KeptRetells(gone, kept, uid);
  }
}
