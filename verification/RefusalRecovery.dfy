/**
 * What a restarted controller remembers of refusals and recent faults: the trail, the executor's history and the
 * loop's repeated-refusal count, end to end (pkg/executor/history.go, cmd/simian/serve.go, pkg/loop/loop.go).
 */
module RefusalRecovery {
  import opened Vocabulary
  import opened Ordering
  import opened Rings
  import opened Restart
  import A = AuditTrail
  import H = History
  import R = Refusals

  const BACKED_OUT_REASONS: set<string> := {"injection-failed", "probe-failed", "cannot-gate", "probe-not-configured"}

  /** Applied, and taken back because it did not take or could not be verified. */
  predicate BackedOut(row: A.FaultRow) {
    row.outcome == A.Cleared && row.reason in BACKED_OUT_REASONS
  }

  /** The fault as it was submitted, or as recorded when the trail has no submission of it. */
  function RequestedManifest(row: A.FaultRow): Option<Manifest> {
    RowManifest(if row.requested.Some? then row.(described := row.requested.value) else row)
  }

  predicate TellsOfRefusal(row: A.FaultRow, since: Time) {
    && (row.outcome == A.Refused || row.outcome == A.DriverWouldNot || BackedOut(row))
    && row.reason != R.BUDGET_EXCEEDED && row.endedAt >= since
    && RequestedManifest(row).Some?
  }

  function RefusalOf(row: A.FaultRow): H.RefusedFault
    requires RequestedManifest(row).Some?
  {
    H.RefusedFault(row.faultUID, RequestedManifest(row).value, row.endedAt, "", row.reason, row.error)
  }

  function RefusalsOf(rows: seq<A.FaultRow>, since: Time): seq<H.RefusedFault> {
    if rows == [] then []
    else
      RefusalsOf(rows[..|rows| - 1], since)
      + if TellsOfRefusal(rows[|rows| - 1], since) then [RefusalOf(rows[|rows| - 1])] else []
  }

  function RefusedAt(rf: H.RefusedFault): Time { rf.refusedAt }

  method RefusalsFromAudit(rows: seq<A.FaultRow>, since: Time) returns (out: seq<H.RefusedFault>)
    ensures out == Sort(RefusalsOf(rows, since), RefusedAt, IntBefore)
    ensures forall i, j :: 0 <= i < j < |out| ==> out[i].refusedAt <= out[j].refusedAt
    ensures multiset(out) == multiset(RefusalsOf(rows, since))
  {
    out := [];
    for i := 0 to |rows|
      invariant out == RefusalsOf(rows[..i], since)
    {
      assert rows[..i + 1][..i] == rows[..i];
      var r := rows[i];
      if r.outcome != A.Refused && r.outcome != A.DriverWouldNot && !BackedOut(r) { continue; }
      if r.reason == R.BUDGET_EXCEEDED || r.endedAt < since { continue; }
      var m := RequestedManifest(r);
      if m.None? { continue; }
      out := out + [H.RefusedFault(r.faultUID, m.value, r.endedAt, "", r.reason, r.error)];
    }
    assert rows[..|rows|] == rows;
    IntIsTotal();
    SortIsStable(out, RefusedAt, IntBefore);
    out := Sort(out, RefusedAt, IntBefore);
  }

  // ----- From the history to the loop's counts -----

  function Everything(rf: H.RefusedFault): bool { rf.manifest.TargetsNamespace("") }

  /** What the loop makes of a listed refusal: its step's key, when, and why. */
  function AsSeed(rf: H.RefusedFault, key: Manifest -> string): R.RefusedFault {
    R.RefusedFault(key(rf.manifest), rf.refusedAt, rf.reason)
  }

  function Seeds(listed: seq<H.RefusedFault>, key: Manifest -> string): seq<R.RefusedFault> {
    if listed == [] then [] else [AsSeed(listed[0], key)] + Seeds(listed[1..], key)
  }

  lemma {:induction false} SeedsAt(listed: seq<H.RefusedFault>, key: Manifest -> string)
    ensures |Seeds(listed, key)| == |listed|
    ensures forall i :: 0 <= i < |listed| ==> Seeds(listed, key)[i] == AsSeed(listed[i], key)
  {
    if listed != [] { SeedsAt(listed[1..], key); }
  }

  method ToSeeds(listed: seq<H.RefusedFault>, key: Manifest -> string) returns (seeds: seq<R.RefusedFault>)
    ensures seeds == Seeds(listed, key)
  {
    seeds := [];
    SeedsAt(listed, key);
    for i := 0 to |listed|
      invariant seeds == Seeds(listed, key)[..i]
    {
      seeds := seeds + [AsSeed(listed[i], key)];
    }
    assert Seeds(listed, key)[..|listed|] == Seeds(listed, key);
  }

  method PushRefusals(history: H.History, past: seq<H.RefusedFault>)
    requires history.Valid() && history.refusals == []
    modifies history
    ensures history.Valid() && history.refusals == past
  {
    for i := 0 to |past|
      invariant history.Valid() && history.refusals == past[..i]
    {
      history.PushRefused(past[i]);
    }
    assert past[..|past|] == past;
  }

  /** Start-up: the trail's refusals go into the fresh history, and the history's listing into the fresh log. */
  method RecoverRefusals(rows: seq<A.FaultRow>, since: Time, history: H.History, log: R.RefusalLog,
      key: Manifest -> string)
    requires history.Valid() && history.refusals == [] && log.refusals == map[]
    modifies history, log
    ensures history.Valid()
    ensures log.refusals == SeededLog(rows, since, history.capacity, key)
  {
    var past := RefusalsFromAudit(rows, since);
    PushRefusals(history, past);
    var listed := NewestFirst(history.refused, Everything, 0);
    var seeds := ToSeeds(listed, key);
    log.SeedRefusals(seeds);
  }

  function Remembered(rows: seq<A.FaultRow>, since: Time, capacity: nat): seq<H.RefusedFault> {
    Last(Sort(RefusalsOf(rows, since), RefusedAt, IntBefore), capacity)
  }

  ghost function SeededLog(rows: seq<A.FaultRow>, since: Time, capacity: nat, key: Manifest -> string): R.Log {
    R.Seeded(map[], Seeds(Newest(Remembered(rows, since, capacity), Everything, 0), key))
  }

  // ----- Counting -----

  ghost function CountIf<T>(xs: seq<T>, p: T -> bool): nat {
    if xs == [] then 0 else CountIf(xs[..|xs| - 1], p) + if p(xs[|xs| - 1]) then 1 else 0
  }

  lemma CountSnoc<T>(xs: seq<T>, x: T, p: T -> bool)
    ensures CountIf(xs + [x], p) == CountIf(xs, p) + if p(x) then 1 else 0
  {
    assert (xs + [x])[..|xs|] == xs;
  }

  lemma CountOne<T>(x: T, p: T -> bool)
    ensures CountIf([x], p) == if p(x) then 1 else 0
  {
    assert [x][..0] == [];
  }

  lemma {:induction false} CountIfSplits<T>(xs: seq<T>, ys: seq<T>, p: T -> bool)
    ensures CountIf(xs + ys, p) == CountIf(xs, p) + CountIf(ys, p)
  {
    if ys == [] {
      assert xs + ys == xs;
    } else {
      CountIfSplits(xs, ys[..|ys| - 1], p);
      assert (xs + ys)[..|xs + ys| - 1] == xs + ys[..|ys| - 1];
    }
  }

  lemma CountIfInsert<T>(front: seq<T>, x: T, back: seq<T>, p: T -> bool)
    ensures CountIf(front + ([x] + back), p) == CountIf(front + back, p) + if p(x) then 1 else 0
  {
    CountIfSplits(front, [x] + back, p);
    CountIfSplits([x], back, p);
    CountIfSplits(front, back, p);
    assert [x][..0] == [];
  }

  lemma SplitAt<T>(ys: seq<T>, i: nat)
    requires i < |ys|
    ensures ys == ys[..i] + ([ys[i]] + ys[i + 1..])
  {
  }

  lemma MultisetWithout<T>(front: seq<T>, x: T, back: seq<T>)
    ensures multiset(front + back) == multiset(front + ([x] + back)) - multiset{x}
  {
  }

  lemma Without<T>(ys: seq<T>, i: nat, p: T -> bool)
    requires i < |ys|
    ensures CountIf(ys, p) == CountIf(ys[..i] + ys[i + 1..], p) + if p(ys[i]) then 1 else 0
    ensures multiset(ys[..i] + ys[i + 1..]) == multiset(ys) - multiset{ys[i]}
  {
    SplitAt(ys, i);
    CountIfInsert(ys[..i], ys[i], ys[i + 1..], p);
    MultisetWithout(ys[..i], ys[i], ys[i + 1..]);
  }

  /** Counting does not care about order. */
  lemma {:induction false} CountIfPermutes<T>(xs: seq<T>, ys: seq<T>, p: T -> bool)
    requires multiset(xs) == multiset(ys)
    ensures CountIf(xs, p) == CountIf(ys, p)
    decreases |xs|
  {
    if xs == [] {
      assert |multiset(ys)| == 0;
    } else {
      var front, x := xs[..|xs| - 1], xs[|xs| - 1];
      assert xs == front + [x];
      assert x in multiset(ys);
      var i :| 0 <= i < |ys| && ys[i] == x;
      Without(ys, i, p);
      CountIfPermutes(front, ys[..i] + ys[i + 1..], p);
    }
  }

  function Against(key: Manifest -> string, k: string, cutoff: Time): H.RefusedFault -> bool {
    (rf: H.RefusedFault) => key(rf.manifest) == k && rf.reason != R.BUDGET_EXCEEDED && rf.refusedAt >= cutoff
  }

  /** The trail's rows that count against a step. */
  ghost predicate RowAgainst(row: A.FaultRow, since: Time, key: Manifest -> string, k: string, cutoff: Time) {
    TellsOfRefusal(row, since) && key(RequestedManifest(row).value) == k && row.endedAt >= cutoff
  }

  ghost function RowsAgainst(rows: seq<A.FaultRow>, since: Time, key: Manifest -> string, k: string,
      cutoff: Time): nat
  {
    if rows == [] then 0
    else RowsAgainst(rows[..|rows| - 1], since, key, k, cutoff)
         + if RowAgainst(rows[|rows| - 1], since, key, k, cutoff) then 1 else 0
  }

  lemma {:induction false} RowsAreCounted(rows: seq<A.FaultRow>, since: Time, key: Manifest -> string, k: string,
      cutoff: Time)
    ensures CountIf(RefusalsOf(rows, since), Against(key, k, cutoff)) == RowsAgainst(rows, since, key, k, cutoff)
  {
    if rows != [] {
      var front, last := rows[..|rows| - 1], rows[|rows| - 1];
      RowsAreCounted(front, since, key, k, cutoff);
      if TellsOfRefusal(last, since) {
        CountSnoc(RefusalsOf(front, since), RefusalOf(last), Against(key, k, cutoff));
      } else {
        assert RefusalsOf(rows, since) == RefusalsOf(front, since);
      }
    }
  }

  /** Listing newest first and seeding oldest first counts the listed refusals once each. */
  lemma {:induction false} SeedsAreCounted(xs: seq<H.RefusedFault>, upto: nat, key: Manifest -> string, k: string,
      cutoff: Time)
    requires upto <= |xs|
    ensures R.Listed(Seeds(NewestOf(xs, Everything, upto), key), k, cutoff)
      == CountIf(xs[..upto], Against(key, k, cutoff))
  {
    if upto > 0 {
      SeedsAreCounted(xs, upto - 1, key, k, cutoff);
      var x, rest := xs[upto - 1], NewestOf(xs, Everything, upto - 1);
      assert xs[..upto][..upto - 1] == xs[..upto - 1];
      assert ([x] + rest)[1..] == rest;
      var seeds := Seeds([x] + rest, key);
      assert seeds[1..] == Seeds(rest, key);
    }
  }

  lemma {:induction false} NewestReverses(xs: seq<H.RefusedFault>, upto: nat)
    requires upto <= |xs|
    ensures |NewestOf(xs, Everything, upto)| == upto
    ensures forall i :: 0 <= i < upto ==> NewestOf(xs, Everything, upto)[i] == xs[upto - 1 - i]
  {
    if upto > 0 { NewestReverses(xs, upto - 1); }
  }

  lemma SeedsAreNewestFirst(xs: seq<H.RefusedFault>, key: Manifest -> string, now: Time)
    requires Ordered(xs, RefusedAt, IntBefore) && forall i :: 0 <= i < |xs| ==> xs[i].refusedAt <= now
    ensures R.NewestFirstUntil(Seeds(NewestOf(xs, Everything, |xs|), key), now)
  {
    var listed := NewestOf(xs, Everything, |xs|);
    NewestReverses(xs, |xs|);
    SeedsAt(listed, key);
    var seeds := Seeds(listed, key);
    forall i, j | 0 <= i < j < |seeds| ensures seeds[i].at >= seeds[j].at {
      assert !IntBefore(RefusedAt(xs[|xs| - 1 - i]), RefusedAt(xs[|xs| - 1 - j]));
    }
  }

  lemma {:induction false} RefusalsAreNotLater(rows: seq<A.FaultRow>, since: Time, now: Time)
    requires forall i :: 0 <= i < |rows| ==> rows[i].endedAt <= now
    ensures forall rf :: rf in RefusalsOf(rows, since) ==> rf.refusedAt <= now
  {
    if rows != [] { RefusalsAreNotLater(rows[..|rows| - 1], since, now); }
  }

  function RefusedSince(cutoff: Time): H.RefusedFault -> bool {
    (rf: H.RefusedFault) => rf.refusedAt >= cutoff
  }

  /** The refusals the history has no room for. */
  ghost function Evicted(rows: seq<A.FaultRow>, since: Time, capacity: nat): seq<H.RefusedFault> {
    var past := Sort(RefusalsOf(rows, since), RefusedAt, IntBefore);
    past[..|past| - |Remembered(rows, since, capacity)|]
  }

  lemma {:induction false} NoneToCount<T>(xs: seq<T>, p: T -> bool)
    requires forall x :: x in xs ==> !p(x)
    ensures CountIf(xs, p) == 0
  {
    if xs != [] {
      assert xs[|xs| - 1] in xs;
      NoneToCount(xs[..|xs| - 1], p);
    }
  }

  lemma {:induction false} AllToCount<T>(xs: seq<T>, p: T -> bool)
    requires forall x :: x in xs ==> p(x)
    ensures CountIf(xs, p) == |xs|
  {
    if xs != [] {
      assert xs[|xs| - 1] in xs;
      AllToCount(xs[..|xs| - 1], p);
    }
  }

  /** In time order, what a ring with room for everything since the cutoff evicts is older than that. */
  lemma EvictedAreOld(past: seq<H.RefusedFault>, capacity: nat, cutoff: Time)
    requires Ordered(past, RefusedAt, IntBefore) && CountIf(past, RefusedSince(cutoff)) <= capacity
    ensures forall rf :: rf in past[..|past| - |Last(past, capacity)|] ==> rf.refusedAt < cutoff
  {
    var last := Last(past, capacity);
    var front := past[..|past| - |last|];
    if rf :| rf in front && rf.refusedAt >= cutoff {
      var i :| 0 <= i < |front| && past[i] == rf;
      var tail := past[i..];
      forall x | x in tail ensures RefusedSince(cutoff)(x) {
        var j :| 0 <= j < |tail| && tail[j] == x;
        assert past[i + j] == x && !IntBefore(RefusedAt(past[i + j]), RefusedAt(past[i]));
      }
      AllToCount(tail, RefusedSince(cutoff));
      assert past == past[..i] + tail;
      CountIfSplits(past[..i], tail, RefusedSince(cutoff));
    }
  }

  lemma NewestInOrder(past: seq<H.RefusedFault>, capacity: nat)
    requires Ordered(past, RefusedAt, IntBefore)
    ensures Ordered(Last(past, capacity), RefusedAt, IntBefore)
    ensures past[..|past| - |Last(past, capacity)|] + Last(past, capacity) == past
    ensures forall i :: 0 <= i < |Last(past, capacity)| ==> Last(past, capacity)[i] in past
  {
    var kept := Last(past, capacity);
    var gone := |past| - |kept|;
    assert forall i :: 0 <= i < |kept| ==> kept[i] == past[gone + i];
  }

  lemma RememberedAreInOrder(rows: seq<A.FaultRow>, since: Time, capacity: nat)
    ensures
      var past := Sort(RefusalsOf(rows, since), RefusedAt, IntBefore);
      var kept := Remembered(rows, since, capacity);
      && Ordered(past, RefusedAt, IntBefore) && Ordered(kept, RefusedAt, IntBefore)
      && multiset(past) == multiset(RefusalsOf(rows, since))
      && Evicted(rows, since, capacity) + kept == past
      && forall i :: 0 <= i < |kept| ==> kept[i] in RefusalsOf(rows, since)
  {
    var found := RefusalsOf(rows, since);
    IntIsTotal();
    SortIsStable(found, RefusedAt, IntBefore);
    SortKeepsMembers(found, RefusedAt, IntBefore);
    NewestInOrder(Sort(found, RefusedAt, IntBefore), capacity);
  }

  /** Every refusal the trail records of a step within the window is remembered or evicted. */
  lemma RememberedAndEvicted(rows: seq<A.FaultRow>, since: Time, capacity: nat, key: Manifest -> string, k: string,
      cutoff: Time)
    ensures RowsAgainst(rows, since, key, k, cutoff)
      == CountIf(Remembered(rows, since, capacity), Against(key, k, cutoff))
         + CountIf(Evicted(rows, since, capacity), Against(key, k, cutoff))
    ensures CountIf(RefusalsOf(rows, since), RefusedSince(cutoff)) <= capacity ==>
      CountIf(Evicted(rows, since, capacity), Against(key, k, cutoff)) == 0
  {
    var found := RefusalsOf(rows, since);
    var past := Sort(found, RefusedAt, IntBefore);
    RememberedAreInOrder(rows, since, capacity);
    CountIfSplits(Evicted(rows, since, capacity), Remembered(rows, since, capacity), Against(key, k, cutoff));
    CountIfPermutes(past, found, Against(key, k, cutoff));
    RowsAreCounted(rows, since, key, k, cutoff);
    CountIfPermutes(past, found, RefusedSince(cutoff));
    if CountIf(found, RefusedSince(cutoff)) <= capacity {
      EvictedAreOld(past, capacity, cutoff);
      NoneToCount(Evicted(rows, since, capacity), Against(key, k, cutoff));
    }
  }

  /**
   * What a restart counts against a step: exactly the refusals inside the window among the newest the history has room
   * for, so all that the retained trail records of it when the history has room for everything refused in the window.
   */
  lemma RestartKeepsRefusalCounts(rows: seq<A.FaultRow>, since: Time, capacity: nat, key: Manifest -> string, k: string,
      now: Time)
    requires k != ""
    ensures
      var cutoff := now - R.REPEATED_REFUSAL_WINDOW;
      var counted := R.InWindow(SeededLog(rows, since, capacity, key), k, now);
      && counted == CountIf(Remembered(rows, since, capacity), Against(key, k, cutoff))
      && counted + CountIf(Evicted(rows, since, capacity), Against(key, k, cutoff))
        == RowsAgainst(rows, since, key, k, cutoff)
      && (CountIf(RefusalsOf(rows, since), RefusedSince(cutoff)) <= capacity ==>
            counted == RowsAgainst(rows, since, key, k, cutoff))
  {
    var kept := Remembered(rows, since, capacity);
    var cutoff := now - R.REPEATED_REFUSAL_WINDOW;
    R.SeedingCountsTheHistory(Seeds(NewestOf(kept, Everything, |kept|), key), k, now);
    SeedsAreCounted(kept, |kept|, key, k, cutoff);
    assert kept[..|kept|] == kept;
    RememberedAndEvicted(rows, since, capacity, key, k, cutoff);
  }

  lemma SeedsKeepOrder(kept: seq<H.RefusedFault>, key: Manifest -> string, now: Time)
    requires Ordered(kept, RefusedAt, IntBefore) && forall i :: 0 <= i < |kept| ==> kept[i].refusedAt <= now
    ensures R.OldestFirstUntil(R.Seeded(map[], Seeds(Newest(kept, Everything, 0), key)), now)
  {
    SeedsAreNewestFirst(kept, key, now);
    R.SeedingKeepsOrder(Seeds(NewestOf(kept, Everything, |kept|), key), now);
  }

  /** The log a restart starts from is in time order, so the loop's count and its guard are exact from the start. */
  lemma RestartKeepsTimeOrder(rows: seq<A.FaultRow>, since: Time, capacity: nat, key: Manifest -> string, now: Time)
    requires forall i :: 0 <= i < |rows| ==> rows[i].endedAt <= now
    ensures R.OldestFirstUntil(SeededLog(rows, since, capacity, key), now)
  {
    RememberedAreInOrder(rows, since, capacity);
    RefusalsAreNotLater(rows, since, now);
    SeedsKeepOrder(Remembered(rows, since, capacity), key, now);
  }

  // ----- The trail's count and the running loop's -----

  /** One call of a step: the row the trail has of it, if any is kept, and what the loop was told. */
  datatype Told = Told(row: Option<A.FaultRow>, notice: R.Notice)

  /** A row that counts against the step, whenever it ended. */
  predicate RefusedStep(row: A.FaultRow, key: Manifest -> string, k: string) {
    && (row.outcome == A.Refused || row.outcome == A.DriverWouldNot || BackedOut(row))
    && row.reason != R.BUDGET_EXCEEDED
    && RequestedManifest(row).Some? && key(RequestedManifest(row).value) == k
  }

  predicate Recorded(t: Told, key: Manifest -> string, k: string) {
    t.row.Some? && RefusedStep(t.row.value, key, k)
  }

  /**
   * A refusal on the record was one to the loop, which reads its clock when the call is over and the record is out.
   * Not the other way round: a call may leave no row, or one that is no refusal of the step.
   */
  predicate Agrees(t: Told, key: Manifest -> string, k: string) {
    Recorded(t, key, k) ==> R.WorthRemembering(t.notice.outcome) && t.row.value.endedAt <= t.notice.at
  }

  /** Refused before the cutoff on the record, and after it by the loop's own clock. */
  predicate Straddles(t: Told, key: Manifest -> string, k: string, cutoff: Time) {
    Recorded(t, key, k) && t.row.value.endedAt < cutoff <= t.notice.at
  }

  /** A refusal the loop was told of that the trail does not show as one of the step. */
  predicate Unrecorded(t: Told, key: Manifest -> string, k: string, cutoff: Time) {
    R.RefusedSince(t.notice, cutoff) && !Recorded(t, key, k)
  }

  function RowsTold(calls: seq<Told>): seq<A.FaultRow> {
    if calls == [] then []
    else RowsTold(calls[..|calls| - 1]) + match calls[|calls| - 1].row case Some(row) => [row] case None => []
  }

  function Notices(calls: seq<Told>): seq<R.Notice> {
    if calls == [] then [] else Notices(calls[..|calls| - 1]) + [calls[|calls| - 1].notice]
  }

  ghost function CountedAgainst(since: Time, key: Manifest -> string, k: string, cutoff: Time): A.FaultRow -> bool {
    (row: A.FaultRow) => RowAgainst(row, since, key, k, cutoff)
  }

  ghost function Straddling(calls: seq<Told>, key: Manifest -> string, k: string, cutoff: Time): nat {
    CountIf(calls, (t: Told) => Straddles(t, key, k, cutoff))
  }

  ghost function NotOnTrail(calls: seq<Told>, key: Manifest -> string, k: string, cutoff: Time): nat {
    CountIf(calls, (t: Told) => Unrecorded(t, key, k, cutoff))
  }

  lemma {:induction false} RowsAgainstAreCounted(rows: seq<A.FaultRow>, since: Time, key: Manifest -> string, k: string,
      cutoff: Time)
    ensures RowsAgainst(rows, since, key, k, cutoff) == CountIf(rows, CountedAgainst(since, key, k, cutoff))
  {
    if rows != [] { RowsAgainstAreCounted(rows[..|rows| - 1], since, key, k, cutoff); }
  }

  lemma ToldSnoc(notices: seq<R.Notice>, n: R.Notice, cutoff: Time)
    ensures R.RefusalsTold(notices + [n], cutoff)
      == R.RefusalsTold(notices, cutoff) + if R.RefusedSince(n, cutoff) then 1 else 0
  {
    assert (notices + [n])[..|notices|] == notices;
  }

  /** Each call is on the trail in the window, straddles its edge, is not recorded, or was no refusal in the window. */
  lemma {:induction false} CallsTally(calls: seq<Told>, since: Time, key: Manifest -> string, k: string, cutoff: Time)
    requires since <= cutoff && forall t :: t in calls ==> Agrees(t, key, k)
    ensures RowsAgainst(RowsTold(calls), since, key, k, cutoff) + Straddling(calls, key, k, cutoff)
          + NotOnTrail(calls, key, k, cutoff)
      == R.RefusalsTold(Notices(calls), cutoff)
  {
    if calls != [] {
      var front, last := calls[..|calls| - 1], calls[|calls| - 1];
      assert calls == front + [last] && last in calls;
      CallsTally(front, since, key, k, cutoff);
      RowsToldSnoc(front, last, since, key, k, cutoff);
      CountSnoc(front, last, (t: Told) => Straddles(t, key, k, cutoff));
      CountSnoc(front, last, (t: Told) => Unrecorded(t, key, k, cutoff));
      ToldSnoc(Notices(front), last.notice, cutoff);
    }
  }

  lemma RowsToldSnoc(front: seq<Told>, last: Told, since: Time, key: Manifest -> string, k: string, cutoff: Time)
    ensures RowsAgainst(RowsTold(front + [last]), since, key, k, cutoff)
      == RowsAgainst(RowsTold(front), since, key, k, cutoff)
         + if last.row.Some? && RowAgainst(last.row.value, since, key, k, cutoff) then 1 else 0
  {
    assert (front + [last])[..|front|] == front;
    if last.row.Some? {
      var rows := RowsTold(front);
      assert (rows + [last.row.value])[..|rows|] == rows;
    } else {
      assert RowsTold(front) + [] == RowsTold(front);
    }
  }

  lemma RowsAgainstSplit(rows: seq<A.FaultRow>, a: seq<A.FaultRow>, b: seq<A.FaultRow>, since: Time,
      key: Manifest -> string, k: string, cutoff: Time)
    requires multiset(rows) == multiset(a + b)
    ensures RowsAgainst(rows, since, key, k, cutoff)
      == RowsAgainst(a, since, key, k, cutoff) + RowsAgainst(b, since, key, k, cutoff)
  {
    var against := CountedAgainst(since, key, k, cutoff);
    RowsAgainstAreCounted(rows, since, key, k, cutoff);
    RowsAgainstAreCounted(a, since, key, k, cutoff);
    RowsAgainstAreCounted(b, since, key, k, cutoff);
    CountIfPermutes(rows, a + b, against);
    CountIfSplits(a, b, against);
  }

  /**
   * What a restart counts against a step, beside what the loop that ran before counted. The kept trail has the refusals
   * the loop was told of, but those that straddle the window's edge and those it does not show as refusals of the
   * step, and those of others on top. So the running count is the trail's exactly when what a run forgave and what
   * others were refused make up for what the trail lacks.
   */
  lemma TrailAgainstLoop(rows: seq<A.FaultRow>, calls: seq<Told>, others: seq<A.FaultRow>, since: Time,
      key: Manifest -> string, k: string, now: Time)
    requires k != "" && since <= now - R.REPEATED_REFUSAL_WINDOW
    requires multiset(rows) == multiset(RowsTold(calls) + others)
    requires forall t :: t in calls ==> Agrees(t, key, k)
    ensures
      var cutoff := now - R.REPEATED_REFUSAL_WINDOW;
      var onTrail := RowsAgainst(rows, since, key, k, cutoff);
      var lacking := Straddling(calls, key, k, cutoff) + NotOnTrail(calls, key, k, cutoff);
      var foreign := RowsAgainst(others, since, key, k, cutoff);
      var forgiven := R.ForgivenCount(Notices(calls), cutoff);
      var running := R.InWindow(R.LogAfter(k, Notices(calls)), k, now);
      && onTrail + lacking == R.RefusalsTold(Notices(calls), cutoff) + foreign
      && onTrail + lacking == running + forgiven + foreign
      && (running == onTrail <==> forgiven + foreign == lacking)
      && (lacking == foreign == 0 ==> (running == onTrail <==> !R.Forgiven(Notices(calls), cutoff)))
  {
    var cutoff := now - R.REPEATED_REFUSAL_WINDOW;
    RowsAgainstSplit(rows, RowsTold(calls), others, since, key, k, cutoff);
    CallsTally(calls, since, key, k, cutoff);
    R.RestartForgetsForgiving(k, Notices(calls), now);
  }

  // ----- Refusals the trail does not show -----

  /** Counted by the loop and by no restart: one refusal, just told, whose row is no refusal of the step. */
  ghost predicate CountedOnlyByTheLoop(row: A.FaultRow, reason: string, since: Time, key: Manifest -> string, k: string,
      now: Time)
  {
    var call := Told(Some(row), R.Notice(R.Refused(reason), now));
    && R.InWindow(R.LogAfter(k, [call.notice]), k, now) == 1
    && RowsAgainst([row], since, key, k, now - R.REPEATED_REFUSAL_WINDOW) == 0
    && NotOnTrail([call], key, k, now - R.REPEATED_REFUSAL_WINDOW) == 1
    && Straddling([call], key, k, now - R.REPEATED_REFUSAL_WINDOW) == 0
    && !R.Forgiven([call.notice], now - R.REPEATED_REFUSAL_WINDOW)
  }

  lemma NoRefusalRow(row: A.FaultRow, reason: string, since: Time, key: Manifest -> string, k: string, now: Time)
    requires k != "" && reason != R.BUDGET_EXCEEDED && !RefusedStep(row, key, k)
    ensures CountedOnlyByTheLoop(row, reason, since, key, k, now)
  {
    var call := Told(Some(row), R.Notice(R.Refused(reason), now));
    var cutoff := now - R.REPEATED_REFUSAL_WINDOW;
    R.OneNotice(k, call.notice, now);
    CountOne(call, (t: Told) => Straddles(t, key, k, cutoff));
    CountOne(call, (t: Told) => Unrecorded(t, key, k, cutoff));
    RowsAgainstAreCounted([row], since, key, k, cutoff);
    CountOne(row, CountedAgainst(since, key, k, cutoff));
  }

  /** The process is told to stop while a fault waits to be confirmed: it is taken back, and nothing held against it. */
  lemma InterruptedIsNotOnTrail(records: seq<A.Record>, closing: A.Record, since: Time, key: Manifest -> string,
      k: string, now: Time)
    requires closing.event == A.LeaseCleared && closing.reason == "interrupted" && !A.LeftInPlace(closing)
    requires closing.faultUID != "" && k != ""
    ensures CountedOnlyByTheLoop(A.Row(records + [closing], closing.faultUID), "interrupted", since, key, k, now)
  {
    A.RowOfExtension(records, closing, closing.faultUID);
    ClearedFor(A.Row(records, closing.faultUID), closing);
    NoRefusalRow(A.Row(records + [closing], closing.faultUID), "interrupted", since, key, k, now);
  }

  lemma ClearedFor(row: A.FaultRow, closing: A.Record)
    requires closing.event == A.LeaseCleared && !A.LeftInPlace(closing)
    ensures A.Absorb(row, closing).outcome == A.Cleared && A.Absorb(row, closing).reason == closing.reason
  {
  }

  /** A fault to be taken back that the driver does not clear: its row stays open, and later reads as expired. */
  lemma LeftToReaperIsNotOnTrail(records: seq<A.Record>, closing: A.Record, expiry: A.Record, reason: string,
      since: Time, key: Manifest -> string, k: string, now: Time)
    requires closing.event == A.LeaseCleared && A.LeftInPlace(closing)
    requires expiry.event == A.LeaseExpired && expiry.faultUID == closing.faultUID != ""
    requires A.Row(records, closing.faultUID).outcome == A.Open && k != "" && reason != R.BUDGET_EXCEEDED
    ensures CountedOnlyByTheLoop(A.Row(records + [closing], closing.faultUID), reason, since, key, k, now)
    ensures CountedOnlyByTheLoop(A.Row(records + [closing] + [expiry], closing.faultUID), reason, since, key, k, now)
  {
    var uid := closing.faultUID;
    A.RowOfExtension(records, closing, uid);
    A.AbsorbMoves(A.Row(records, uid), closing);
    A.RowOfExtension(records + [closing], expiry, uid);
    A.AbsorbMoves(A.Row(records + [closing], uid), expiry);
    NoRefusalRow(A.Row(records + [closing], uid), reason, since, key, k, now);
    NoRefusalRow(A.Row(records + [closing] + [expiry], uid), reason, since, key, k, now);
  }
}
