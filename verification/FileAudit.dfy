/** The audit file and its two generations, with a file system that may fail at every step (pkg/audit/file.go). */
module FileAudit {

  const DEFAULT_FILE_MAX_BYTES := 0x640_0000

  /** The bytes one write left in a file: a whole line, or the front of one whose write failed. */
  type Chunk = seq<char>

  function Bytes(chunks: seq<Chunk>): nat {
    if chunks == [] then 0 else Bytes(chunks[..|chunks| - 1]) + |chunks[|chunks| - 1]|
  }

  /** How the file system answers the calls one event may make. */
  datatype Answers = Answers(closeFails: bool, renameFails: bool, openFails: bool, accepted: nat)

  datatype Failure = CloseFailed | RenameFailed | OpenFailed | WriteFailed

  /** The auditor and its two files, newest generation last, with everything ever written before them. */
  datatype Trail = Trail(isOpen: bool, size: nat, previous: seq<Chunk>, current: seq<Chunk>, written: seq<Chunk>)

  function Opened(t: Trail, a: Answers): Trail {
    if a.openFails then t.(isOpen := false) else t.(isOpen := true, size := Bytes(t.current))
  }

  function Rotated(t: Trail, a: Answers): Trail {
    if a.renameFails then Opened(t.(isOpen := false), a)
    else Opened(t.(isOpen := false, previous := t.current, current := []), a)
  }

  function Accepted(line: Chunk, a: Answers): Chunk {
    if a.accepted < |line| then line[..a.accepted] else line
  }

  function Written(t: Trail, line: Chunk, a: Answers): Trail {
    var chunk := Accepted(line, a);
    t.(size := t.size + |chunk|, current := t.current + [chunk], written := t.written + [chunk])
  }

  predicate NeedsRoom(t: Trail, max: nat, line: Chunk) {
    t.size > 0 && t.size + |line| > max
  }

  /** What an event leaves: dropped without an open file, else written, after a rotation when the file is full. */
  function Emitted(t: Trail, max: nat, line: Chunk, a: Answers): Trail {
    if !t.isOpen then t
    else
      var ready := if NeedsRoom(t, max, line) then Rotated(t, a) else t;
      if !ready.isOpen then ready else Written(ready, line, a)
  }

  class FileAuditor {
    const maxBytes: nat
    var isOpen: bool
    var size: nat
    var previous: seq<Chunk>
    var current: seq<Chunk>
    ghost var written: seq<Chunk>

    ghost function State(): Trail
      reads this
    {
      Trail(isOpen, size, previous, current, written)
    }

    ghost predicate Valid()
      reads this
    {
      maxBytes > 0 && Sound(State())
    }

    /** Opens a path that may hold an earlier process's trail. */
    constructor (limit: int, previous: seq<Chunk>, current: seq<Chunk>, openFails: bool)
      ensures Valid()
      ensures State() == Opened(Trail(false, 0, previous, current, previous + current),
        Answers(false, false, openFails, 0))
      ensures maxBytes == if limit <= 0 then 100 * 1024 * 1024 else limit
    {
      maxBytes := if limit <= 0 then DEFAULT_FILE_MAX_BYTES else limit;
      this.previous, this.current, written := previous, current, previous + current;
      isOpen, size := !openFails, if openFails then 0 else Bytes(current);
      new;
      AtStart(previous, current);
    }

    method Open(a: Answers) returns (ok: bool)
      modifies this`isOpen, this`size
      ensures State() == Opened(old(State()).(isOpen := false), a) && ok == !a.openFails
    {
      isOpen := false;
      if a.openFails { return false; }
      isOpen, size := true, Bytes(current);
      return true;
    }

    method Rotate(a: Answers) returns (failures: seq<Failure>)
      modifies this`isOpen, this`size, this`previous, this`current
      ensures State() == Rotated(old(State()), a)
      ensures CloseFailed in failures <==> a.closeFails
      ensures RenameFailed in failures <==> a.renameFails && !a.openFails
      ensures OpenFailed in failures <==> a.openFails
      ensures WriteFailed !in failures
    {
      failures := if a.closeFails then [CloseFailed] else [];
      isOpen := false;
      if a.renameFails {
        var reopened := Open(a);
        failures := failures + if reopened then [RenameFailed] else [OpenFailed];
        return;
      }
      previous, current := current, [];
      var started := Open(a);
      if !started { failures := failures + [OpenFailed]; }
    }

    method Emit(line: Chunk, a: Answers) returns (failures: seq<Failure>)
      requires Valid()
      modifies this
      ensures Valid() && State() == Emitted(old(State()), maxBytes, line, a)
      ensures old(isOpen) && isOpen ==>
        current != [] && current[|current| - 1] == if a.accepted < |line| then line[..a.accepted] else line
      ensures !old(isOpen) ==> failures == []
      ensures WriteFailed in failures <==>
        a.accepted < |line| && old(isOpen) && (NeedsRoom(old(State()), maxBytes, line) ==> !a.openFails)
    {
      EmitKeepsSound(State(), maxBytes, line, a);
      failures := [];
      if !isOpen { return; }
      if size > 0 && size + |line| > maxBytes {
        failures := Rotate(a);
        if !isOpen { return; }
      }
      var chunk := Accepted(line, a);
      current, written := current + [chunk], written + [chunk];
      size := size + |chunk|;
      if a.accepted < |line| { failures := failures + [WriteFailed]; }
    }

    method Close()
      requires Valid()
      modifies this`isOpen
      ensures Valid() && State() == old(State()).(isOpen := false)
    {
      isOpen := false;
    }
  }

  // ----- What the two files hold -----

  ghost predicate IsSuffix<T>(part: seq<T>, whole: seq<T>) {
    |part| <= |whole| && part == whole[|whole| - |part|..]
  }

  /** The size is the open file's, and the two files one after the other are the end of all that was written. */
  ghost predicate Sound(t: Trail) {
    (t.isOpen ==> t.size == Bytes(t.current)) && IsSuffix(t.previous + t.current, t.written)
  }

  lemma AtStart(previous: seq<Chunk>, current: seq<Chunk>)
    ensures IsSuffix(previous + current, previous + current)
  {
  }

  lemma BytesSnoc(chunks: seq<Chunk>, c: Chunk)
    ensures Bytes(chunks + [c]) == Bytes(chunks) + |c|
  {
    assert (chunks + [c])[..|chunks|] == chunks;
  }

  lemma SuffixSnoc(part: seq<Chunk>, whole: seq<Chunk>, c: Chunk)
    requires IsSuffix(part, whole)
    ensures IsSuffix(part + [c], whole + [c])
  {
  }

  lemma SuffixTail(front: seq<Chunk>, back: seq<Chunk>, whole: seq<Chunk>)
    requires IsSuffix(front + back, whole)
    ensures IsSuffix(back, whole)
  {
  }

  lemma RotateKeepsSound(t: Trail, a: Answers)
    requires Sound(t)
    ensures Sound(Rotated(t, a))
  {
    SuffixTail(t.previous, t.current, t.written);
    assert t.current + [] == t.current;
  }

  lemma WriteKeepsSound(t: Trail, line: Chunk, a: Answers)
    requires Sound(t) && t.isOpen
    ensures Sound(Written(t, line, a))
  {
    var chunk := Accepted(line, a);
    BytesSnoc(t.current, chunk);
    SuffixSnoc(t.previous + t.current, t.written, chunk);
    assert t.previous + (t.current + [chunk]) == (t.previous + t.current) + [chunk];
  }

  /** Whatever fails, the files stay the end of what was written, without a gap. */
  lemma EmitKeepsSound(t: Trail, max: nat, line: Chunk, a: Answers)
    requires Sound(t)
    ensures Sound(Emitted(t, max, line, a))
  {
    if t.isOpen {
      RotateKeepsSound(t, a);
      var ready := if NeedsRoom(t, max, line) then Rotated(t, a) else t;
      if ready.isOpen { WriteKeepsSound(ready, line, a); }
    }
  }

  datatype Emission = Emission(line: Chunk, answers: Answers)

  ghost function After(t: Trail, max: nat, emissions: seq<Emission>): Trail {
    if emissions == [] then t
    else
      var e := emissions[|emissions| - 1];
      Emitted(After(t, max, emissions[..|emissions| - 1]), max, e.line, e.answers)
  }

  /** After any events and any failures: PATH.1 followed by PATH is a contiguous end of the stream. */
  lemma {:induction false} TrailIsContiguous(t: Trail, max: nat, emissions: seq<Emission>)
    requires Sound(t)
    ensures Sound(After(t, max, emissions))
  {
    if emissions != [] {
      var front, e := emissions[..|emissions| - 1], emissions[|emissions| - 1];
      TrailIsContiguous(t, max, front);
      EmitKeepsSound(After(t, max, front), max, e.line, e.answers);
    }
  }

  /** A file system that does as it is asked. */
  ghost predicate Obliging(emissions: seq<Emission>) {
    forall i :: 0 <= i < |emissions| ==>
      && !emissions[i].answers.renameFails && !emissions[i].answers.openFails
      && emissions[i].answers.accepted >= |emissions[i].line|
  }

  function Lines(emissions: seq<Emission>): seq<Chunk> {
    seq(|emissions|, i requires 0 <= i < |emissions| => emissions[i].line)
  }

  /** Nothing has been let go, or more than a file's worth is kept. */
  ghost predicate KeepsEnough(t: Trail, max: nat) {
    t.previous + t.current == t.written || Bytes(t.previous) + Bytes(t.current) > max
  }

  ghost predicate Fits(t: Trail, max: nat) {
    Bytes(t.current) <= max && Bytes(t.previous) <= max
  }

  lemma ObligedEmit(t: Trail, max: nat, line: Chunk, a: Answers)
    requires Sound(t) && t.isOpen && KeepsEnough(t, max)
    requires !a.renameFails && !a.openFails && a.accepted >= |line|
    ensures var after := Emitted(t, max, line, a);
      after.isOpen && after.written == t.written + [line] && KeepsEnough(after, max)
    ensures Fits(t, max) && |line| <= max ==> Fits(Emitted(t, max, line, a), max)
  {
    var ready := if NeedsRoom(t, max, line) then Rotated(t, a) else t;
    BytesSnoc(ready.current, line);
    assert ready.previous + (ready.current + [line]) == (ready.previous + ready.current) + [line];
  }

  ghost predicate ShortLines(emissions: seq<Emission>, max: nat) {
    forall i :: 0 <= i < |emissions| ==> |emissions[i].line| <= max
  }

  /** Every line was written whole, in order; what is retained is everything or more than the limit. */
  ghost predicate WellKept(t: Trail, after: Trail, emissions: seq<Emission>, max: nat) {
    && Sound(after) && after.isOpen
    && after.written == t.written + Lines(emissions)
    && KeepsEnough(after, max)
    && (Fits(t, max) && ShortLines(emissions, max) ==> Fits(after, max))
  }

  lemma ObligingStep(t: Trail, before: Trail, front: seq<Emission>, e: Emission, max: nat)
    requires WellKept(t, before, front, max) && Obliging([e])
    ensures WellKept(t, Emitted(before, max, e.line, e.answers), front + [e], max)
  {
    assert [e][0] == e;
    ObligedEmit(before, max, e.line, e.answers);
    EmitKeepsSound(before, max, e.line, e.answers);
    LinesSnoc(t.written, front, e);
    ShortSnoc(front, e, max);
  }

  lemma ShortSnoc(front: seq<Emission>, e: Emission, max: nat)
    ensures ShortLines(front + [e], max) <==> ShortLines(front, max) && |e.line| <= max
  {
    assert forall i :: 0 <= i < |front| ==> (front + [e])[i] == front[i];
    assert (front + [e])[|front|] == e;
  }

  /**
   * On an obliging file system every line is written whole, in order; what is retained is everything or more
   * than the limit; and no file outgrows a limit that every line fits.
   */
  lemma {:induction false} ObligingTrail(t: Trail, max: nat, emissions: seq<Emission>)
    requires Sound(t) && t.isOpen && KeepsEnough(t, max) && Obliging(emissions)
    ensures WellKept(t, After(t, max, emissions), emissions, max)
  {
    if emissions == [] {
      assert t.written + Lines(emissions) == t.written;
    } else {
      var front, e := emissions[..|emissions| - 1], emissions[|emissions| - 1];
      ObligingTrail(t, max, front);
      ObligingStep(t, After(t, max, front), front, e, max);
      assert emissions == front + [e];
    }
  }

  lemma LinesSnoc(written: seq<Chunk>, front: seq<Emission>, e: Emission)
    ensures (written + Lines(front)) + [e.line] == written + Lines(front + [e])
  {
    assert Lines(front + [e]) == Lines(front) + [e.line];
  }

  /** A failed rename loses nothing: the line goes to the old file, behind everything that was there. */
  lemma FailedRenameKeepsEverything(t: Trail, max: nat, line: Chunk, a: Answers)
    requires Sound(t) && t.isOpen && a.renameFails && !a.openFails
    ensures var after := Emitted(t, max, line, a);
      after.previous == t.previous && after.current == t.current + [Accepted(line, a)] && after.isOpen
  {
  }

  /** Once the file cannot be reopened the trail stays as it is: later events are dropped. */
  lemma {:induction false} ClosedForGood(t: Trail, max: nat, emissions: seq<Emission>)
    requires !t.isOpen
    ensures After(t, max, emissions) == t
  {
    if emissions != [] { ClosedForGood(t, max, emissions[..|emissions| - 1]); }
  }
}
