/**
 * What a restarted controller remembers of the faults that ran: the trail, the executor's history and the planner's
 * listing of it (pkg/executor/history.go, cmd/simian/serve.go).
 */
module HistoryRecovery {
  import opened Vocabulary
  import opened Ordering
  import opened Rings
  import opened Restart
  import RefusalRecovery
  import opened RestartRecovery
  import A = AuditTrail
  import H = History
  import L = Leases

  /** The entry a row is rebuilt as; none for a fault never applied, applied too long ago, or backed out. */
  function RecentOf(row: A.FaultRow, since: Time, now: Time): (r: Option<H.RecentFault>)
    ensures r.Some? ==> r.value.faultUID == row.faultUID
  {
    if row.appliedAt == NEVER || row.appliedAt < since || RefusalRecovery.BackedOut(row) then None
    else
      match RowManifest(row)
      case None => None
      case Some(m) =>
        var rf := H.RecentFault(row.faultUID, m, row.appliedAt, NEVER, "");
        if row.outcome != A.Open then Some(rf.(clearedAt := row.endedAt, clearReason := row.reason))
        else if row.deadline.Some? && row.deadline.value <= now then
          Some(rf.(clearedAt := row.deadline.value, clearReason := A.UNTRACKED_AFTER_RESTART))
        else Some(rf)
  }

  function RecentsOf(rows: seq<A.FaultRow>, since: Time, now: Time): seq<H.RecentFault> {
    if rows == [] then []
    else
      RecentsOf(rows[..|rows| - 1], since, now)
      + match RecentOf(rows[|rows| - 1], since, now) case Some(rf) => [rf] case None => []
  }

  method RecentFromAudit(rows: seq<A.FaultRow>, since: Time, now: Time) returns (out: seq<H.RecentFault>)
    ensures out == Sort(RecentsOf(rows, since, now), H.AppliedAt, IntBefore)
    ensures forall i, j :: 0 <= i < j < |out| ==> out[i].appliedAt <= out[j].appliedAt
    ensures multiset(out) == multiset(RecentsOf(rows, since, now))
  {
    out := [];
    for i := 0 to |rows|
      invariant out == RecentsOf(rows[..i], since, now)
    {
      assert rows[..i + 1][..i] == rows[..i];
      var r := rows[i];
      if r.appliedAt == NEVER || r.appliedAt < since || RefusalRecovery.BackedOut(r) { continue; }
      var m := RowManifest(r);
      if m.None? { continue; }
      var rf := H.RecentFault(r.faultUID, m.value, r.appliedAt, NEVER, "");
      if r.outcome != A.Open {
        rf := rf.(clearedAt := r.endedAt, clearReason := r.reason);
      } else if r.deadline.Some? && r.deadline.value <= now {
        rf := rf.(clearedAt := r.deadline.value, clearReason := A.UNTRACKED_AFTER_RESTART);
      }
      out := out + [rf];
    }
    assert rows[..|rows|] == rows;
    IntIsTotal();
    SortIsStable(out, H.AppliedAt, IntBefore);
    out := Sort(out, H.AppliedAt, IntBefore);
  }

  // ----- Every fault once, and findable -----

  /** One entry for each row that is rebuilt, and no other. */
  lemma {:induction false} RecentsAreTheRows(rows: seq<A.FaultRow>, since: Time, now: Time)
    ensures forall rf :: rf in RecentsOf(rows, since, now) <==>
      exists row :: row in rows && RecentOf(row, since, now) == Some(rf)
    ensures RowsDistinct(rows) ==> H.DistinctFaults(RecentsOf(rows, since, now))
  {
    if rows != [] {
      var front, last := rows[..|rows| - 1], rows[|rows| - 1];
      assert rows == front + [last];
      RecentsAreTheRows(front, since, now);
      var before := RecentsOf(front, since, now);
      if RowsDistinct(rows) {
        forall i | 0 <= i < |before| ensures before[i].faultUID != last.faultUID {
          var row :| row in front && RecentOf(row, since, now) == Some(before[i]);
          var k :| 0 <= k < |front| && rows[k] == row;
        }
      }
    }
  }

  lemma DistinctInAnyOrder(xs: seq<H.RecentFault>, ys: seq<H.RecentFault>)
    requires multiset(xs) == multiset(ys) && H.DistinctFaults(xs)
    ensures H.DistinctFaults(ys)
  {
    OnceEach(xs);
    forall i, j | 0 <= i < j < |ys| ensures ys[i].faultUID != ys[j].faultUID {
      Twice(ys, i, j);
      assert ys[i] in multiset(xs) && ys[j] in multiset(xs);
      var k :| 0 <= k < |xs| && xs[k] == ys[i];
      var l :| 0 <= l < |xs| && xs[l] == ys[j];
    }
  }

  /** The faults a trail is read back as, oldest first: each named, none twice. */
  lemma RecoveredAreDistinct(records: seq<A.Record>, since: Time, now: Time)
    ensures
      var past := Sort(RecentsOf(A.FaultsOf(records), since, now), H.AppliedAt, IntBefore);
      && Ordered(past, H.AppliedAt, IntBefore) && H.DistinctFaults(past)
      && (forall rf :: rf in past ==> rf.faultUID != "")
      && (forall rf :: rf in past <==>
        exists row :: row in A.FaultsOf(records) && RecentOf(row, since, now) == Some(rf))
  {
    var rows := A.FaultsOf(records);
    var found := RecentsOf(rows, since, now);
    FoldedRowsAreDistinct(records);
    RecentsAreTheRows(rows, since, now);
    IntIsTotal();
    SortIsStable(found, H.AppliedAt, IntBefore);
    SortKeepsMembers(found, H.AppliedAt, IntBefore);
    DistinctInAnyOrder(found, Sort(found, H.AppliedAt, IntBefore));
    forall rf | rf in found ensures rf.faultUID != "" {
      var row :| row in rows && RecentOf(row, since, now) == Some(rf);
      RowByUID(records, row);
    }
  }

  /**
   * Start-up: whatever the trail, the history it is read back into holds the newest faults that ran, and its index
   * finds each of them and no other.
   */
  method RecoverHistory(records: seq<A.Record>, since: Time, now: Time, history: H.History)
    requires history.Valid() && history.pushed == history.asPushed == []
    modifies history
    ensures history.Valid()
    ensures history.items == Last(Sort(RecentsOf(A.FaultsOf(records), since, now), H.AppliedAt, IntBefore),
      history.capacity)
    ensures forall uid :: uid in history.byUID <==> exists rf :: rf in history.items && rf.faultUID == uid
    ensures FarApart(history.asPushed, history.capacity)
  {
    var rows := A.Faults(records);
    var past := RecentFromAudit(rows, since, now);
    RecoveredAreDistinct(records, since, now);
    PushAll(past, history);
    IndexedAndRemembered(history.byUID, past, history.capacity);
  }

  method PushAll(past: seq<H.RecentFault>, history: H.History)
    requires history.Valid() && history.pushed == history.asPushed == []
    requires forall rf :: rf in past ==> rf.faultUID != ""
    modifies history
    ensures history.Valid() && history.pushed == history.asPushed == past
  {
    for i := 0 to |past|
      invariant history.Valid() && history.pushed == history.asPushed == past[..i]
    {
      assert past[i] in past;
      assert past[..i + 1] == past[..i] + [past[i]];
      history.Push(past[i]);
    }
    assert past[..|past|] == past;
  }

  lemma IndexedAndRemembered(index: H.Index, past: seq<H.RecentFault>, capacity: nat)
    requires capacity > 0 && H.DistinctFaults(past) && H.Indexes(index, past, capacity)
    ensures forall uid :: uid in index <==> exists rf :: rf in Last(past, capacity) && rf.faultUID == uid
  {
    H.DistinctFaultsAreIndexed(past, capacity);
    var ring := Last(past, capacity);
    forall uid ensures uid in index <==> exists rf :: rf in ring && rf.faultUID == uid {
      assert H.IndexSays(index, past, capacity, uid);
      H.IndexOfPushes(past, capacity, uid);
      assert H.IndexedRight(H.IndexAfter(past, capacity), ring, uid);
      var at := H.LastIndex(ring, uid);
      if at.Some? { assert ring[at.value] in ring; }
    }
  }

  // ----- Leased faults the history lacks -----

  /** Entries of one fault are at least a ring's length apart. */
  ghost predicate FarApart(pushes: seq<H.RecentFault>, capacity: nat) {
    forall i, j :: 0 <= i < j < |pushes| && pushes[i].faultUID == pushes[j].faultUID ==> j - i >= capacity
  }

  ghost predicate InRing(pushes: seq<H.RecentFault>, capacity: nat, uid: string) {
    exists k :: 0 <= k < |pushes| && |pushes| - capacity <= k && pushes[k].faultUID == uid
  }

  /** Then no track is ever lost: a fault is known exactly while an entry of it is in the ring. */
  lemma KnownWhileInRing(index: H.Index, pushes: seq<H.RecentFault>, capacity: nat, uid: string)
    requires capacity > 0 && H.Indexes(index, pushes, capacity) && FarApart(pushes, capacity)
    ensures uid in index <==> InRing(pushes, capacity, uid)
  {
    assert H.IndexSays(index, pushes, capacity, uid);
    H.LastIndexIsLast(pushes, uid);
    H.LastIndexIsNewest(pushes, uid);
    var newest := H.LastIndex(pushes, uid);
    if newest.Some? {
      assert pushes[newest.value].faultUID == uid;
      if H.LostTrack(pushes, capacity, uid) {
        var i :| 0 <= i < |pushes| - capacity && newest.value < i + capacity && pushes[i].faultUID == uid;
        assert i == newest.value;
      }
    }
  }

  lemma PushKeepsApart(pushes: seq<H.RecentFault>, capacity: nat, rf: H.RecentFault)
    requires FarApart(pushes, capacity) && !InRing(pushes, capacity, rf.faultUID)
    ensures FarApart(pushes + [rf], capacity)
  {
  }

  lemma PushesStay(pushes: seq<H.RecentFault>, more: seq<H.RecentFault>, uid: string)
    requires pushes <= more && H.Pushed(pushes, uid)
    ensures H.Pushed(more, uid)
  {
    var i :| 0 <= i < |pushes| && pushes[i].faultUID == uid;
    assert more[i].faultUID == uid;
  }

  function AsRunning(af: L.ActiveFault): H.RecentFault {
    H.RecentFault(af.faultUID, af.manifest, af.appliedAt, NEVER, "")
  }

  ghost predicate OneOfThem(listed: seq<L.ActiveFault>, rf: H.RecentFault) {
    exists af :: af in listed && rf.faultUID == af.faultUID && rf.manifest == af.manifest
              && rf.appliedAt == af.appliedAt && rf.clearedAt == NEVER && rf.clearReason == ""
  }

  ghost predicate PushedSince(pushes: seq<H.RecentFault>, from: nat, uid: string) {
    exists k :: from <= k < |pushes| && pushes[k].faultUID == uid
  }

  /** What the loop has seen to of the leases so far. */
  ghost predicate Remembers(was: seq<H.RecentFault>, pushes: seq<H.RecentFault>, listed: seq<L.ActiveFault>,
      capacity: nat) {
    && was <= pushes && |pushes| <= |was| + |listed| && FarApart(pushes, capacity)
    && (forall af :: af in listed ==> H.Pushed(pushes, af.faultUID))
    && (forall k :: |was| <= k < |pushes| ==> OneOfThem(listed, pushes[k]))
    && (forall af :: af in listed && !InRing(was, capacity, af.faultUID) ==>
          PushedSince(pushes, |was|, af.faultUID))
  }

  lemma ListedSnoc(listed: seq<L.ActiveFault>, af: L.ActiveFault)
    ensures forall a :: a in listed + [af] <==> a in listed || a == af
    ensures forall rf :: OneOfThem(listed, rf) ==> OneOfThem(listed + [af], rf)
    ensures OneOfThem(listed + [af], AsRunning(af))
  {
    assert forall a :: a in listed + [af] <==> a in listed || a == af;
    forall rf | OneOfThem(listed, rf) ensures OneOfThem(listed + [af], rf) {
      var a :| a in listed && rf == AsRunning(a);
      assert a in listed + [af];
    }
    assert af in listed + [af];
  }

  lemma KnownOrNew(was: seq<H.RecentFault>, pushes: seq<H.RecentFault>, capacity: nat, uid: string)
    requires was <= pushes && InRing(pushes, capacity, uid)
    ensures InRing(was, capacity, uid) || PushedSince(pushes, |was|, uid)
    ensures H.Pushed(pushes, uid)
  {
    var k :| 0 <= k < |pushes| && |pushes| - capacity <= k && pushes[k].faultUID == uid;
    assert k < |was| ==> was[k].faultUID == uid;
  }

  lemma SincePersists(pushes: seq<H.RecentFault>, more: seq<H.RecentFault>, from: nat, uid: string)
    requires pushes <= more && PushedSince(pushes, from, uid)
    ensures PushedSince(more, from, uid)
  {
    var k :| from <= k < |pushes| && pushes[k].faultUID == uid;
    assert more[k].faultUID == uid;
  }

  lemma RemembersKnown(was: seq<H.RecentFault>, pushes: seq<H.RecentFault>, listed: seq<L.ActiveFault>,
      capacity: nat, af: L.ActiveFault)
    requires Remembers(was, pushes, listed, capacity) && InRing(pushes, capacity, af.faultUID)
    ensures Remembers(was, pushes, listed + [af], capacity)
  {
    ListedSnoc(listed, af);
    KnownOrNew(was, pushes, capacity, af.faultUID);
  }

  lemma RemembersPushed(was: seq<H.RecentFault>, pushes: seq<H.RecentFault>, listed: seq<L.ActiveFault>,
      capacity: nat, af: L.ActiveFault)
    requires Remembers(was, pushes, listed, capacity) && !InRing(pushes, capacity, af.faultUID)
    ensures Remembers(was, pushes + [AsRunning(af)], listed + [af], capacity)
  {
    var more := pushes + [AsRunning(af)];
    ListedSnoc(listed, af);
    PushKeepsApart(pushes, capacity, AsRunning(af));
    assert more[|pushes|] == AsRunning(af) && |was| <= |pushes|;
    assert H.Pushed(more, af.faultUID) && PushedSince(more, |was|, af.faultUID);
    forall a | a in listed
      ensures H.Pushed(more, a.faultUID)
      ensures !InRing(was, capacity, a.faultUID) ==> PushedSince(more, |was|, a.faultUID)
    {
      PushesStay(pushes, more, a.faultUID);
      if !InRing(was, capacity, a.faultUID) { SincePersists(pushes, more, |was|, a.faultUID); }
    }
    forall k | |was| <= k < |more| ensures OneOfThem(listed + [af], more[k]) {
      if k < |pushes| { assert more[k] == pushes[k] && OneOfThem(listed, pushes[k]); }
    }
  }

  method RememberEach(listed: seq<L.ActiveFault>, history: H.History)
    requires history.Valid() && FarApart(history.asPushed, history.capacity)
    requires forall af :: af in listed ==> af.faultUID != ""
    modifies history
    ensures history.Valid() && Remembers(old(history.asPushed), history.asPushed, listed, history.capacity)
  {
    ghost var was := history.asPushed;
    for i := 0 to |listed|
      invariant history.Valid() && Remembers(was, history.asPushed, listed[..i], history.capacity)
    {
      assert listed[i] in listed && listed[..i + 1] == listed[..i] + [listed[i]];
      RememberOne(was, listed[..i], listed[i], history);
    }
    assert listed[..|listed|] == listed;
  }

  method RememberOne(ghost was: seq<H.RecentFault>, ghost before: seq<L.ActiveFault>, af: L.ActiveFault,
      history: H.History)
    requires history.Valid() && Remembers(was, history.asPushed, before, history.capacity) && af.faultUID != ""
    modifies history
    ensures history.Valid() && Remembers(was, history.asPushed, before + [af], history.capacity)
  {
    KnownWhileInRing(history.byUID, history.asPushed, history.capacity, af.faultUID);
    assert H.IndexSays(history.byUID, history.asPushed, history.capacity, af.faultUID);
    var known := history.Has(af.faultUID);
    if known {
      RemembersKnown(was, history.asPushed, before, history.capacity, af);
    } else {
      RemembersPushed(was, history.asPushed, before, history.capacity, af);
      history.Push(AsRunning(af));
    }
  }

  lemma {:induction false} ListedOnce(items: L.Items, listed: seq<L.ActiveFault>)
    requires forall af :: af in listed ==> af.faultUID in items && items[af.faultUID] == af
    requires forall af :: multiset(listed)[af] <= 1
    ensures |listed| <= |items|
    decreases |listed|
  {
    if listed != [] {
      var front, last := listed[..|listed| - 1], listed[|listed| - 1];
      assert listed == front + [last] && last in listed;
      assert multiset(listed) == multiset(front) + multiset{last};
      forall af ensures multiset(front)[af] <= 1 {
        assert multiset(listed)[af] <= 1;
      }
      assert multiset(listed)[last] <= 1;
      forall af | af in front ensures af in listed && af.faultUID != last.faultUID {
        assert af in listed && (af == last ==> multiset(front)[af] >= 1);
      }
      ListedOnce(items - {last.faultUID}, front);
      assert |items.Keys - {last.faultUID}| == |items.Keys| - 1;
      assert (items - {last.faultUID}).Keys == items.Keys - {last.faultUID};
      assert |items| == |items.Keys| && |items - {last.faultUID}| == |(items - {last.faultUID}).Keys|;
    }
  }

  /**
   * After start-up every leased fault has an entry, as running where the trail gave none, and the history knows it
   * unless newer entries have evicted it, which they do to none pushed here when the leases fit the ring.
   */
  method RememberLeases(registry: L.Registry, history: H.History)
    requires registry.Valid() && "" !in registry.items
    requires history.Valid() && FarApart(history.asPushed, history.capacity)
    modifies history
    ensures history.Valid() && old(history.asPushed) <= history.asPushed
    ensures forall uid :: uid in registry.items ==> H.Pushed(history.asPushed, uid)
    ensures forall uid :: uid in history.byUID <==> InRing(history.asPushed, history.capacity, uid)
    ensures |registry.items| <= history.capacity ==>
      forall uid :: uid in registry.items && uid !in old(history.byUID) ==> uid in history.byUID
  {
    ghost var was, index := history.asPushed, history.byUID;
    var listed := registry.List("");
    ListedOnce(registry.items, listed);
    RememberEach(listed, history);
    LeasesAreKnown(registry.items, listed, index, was, history.byUID, history.asPushed, history.capacity);
  }

  lemma LeasesAreKnown(items: L.Items, listed: seq<L.ActiveFault>, before: H.Index, was: seq<H.RecentFault>,
      after: H.Index, pushes: seq<H.RecentFault>, capacity: nat)
    requires capacity > 0 && L.Keyed(items) && |listed| <= |items|
    requires forall af :: af in listed <==> af.faultUID in items && items[af.faultUID] == af
    requires FarApart(was, capacity) && H.Indexes(before, was, capacity)
    requires Remembers(was, pushes, listed, capacity) && H.Indexes(after, pushes, capacity)
    ensures forall uid :: uid in items ==> H.Pushed(pushes, uid)
    ensures forall uid :: uid in after <==> InRing(pushes, capacity, uid)
    ensures |items| <= capacity ==> forall uid :: uid in items && uid !in before ==> uid in after
  {
    forall uid ensures uid in after <==> InRing(pushes, capacity, uid) {
      KnownWhileInRing(after, pushes, capacity, uid);
    }
    forall uid | uid in items
      ensures H.Pushed(pushes, uid)
      ensures |items| <= capacity && uid !in before ==> InRing(pushes, capacity, uid)
    {
      assert items[uid] in listed && items[uid].faultUID == uid;
      KnownWhileInRing(before, was, capacity, uid);
    }
  }

  // ----- What the planner is told about faults left open -----

  /** Listed as still running. */
  predicate ListedRunning(row: A.FaultRow, since: Time, now: Time) {
    var r := RecentOf(row, since, now);
    r.Some? && r.value.clearedAt == NEVER && r.value.clearReason == ""
  }

  /** Nothing a take-over could hold a lease on, whenever it looks. */
  predicate BeyondAdoption(row: A.FaultRow, drivers: set<string>, adopting: bool) {
    !adopting || row.deadline.None? || row.engineUID == "" || row.described.engine == ""
      || row.described.engine !in drivers
  }

  /** The trail says enough, and not too long ago, for an entry. */
  predicate Recent(row: A.FaultRow, memory: Time) {
    row.appliedAt >= memory && RowManifest(row).Some?
  }

  /**
   * The listing made at start-up against the take-over that follows it, for a fault the trail leaves open. Listed as
   * running is exactly what is recent and has no deadline behind it. Of that, left to be closed is exactly what cannot
   * be taken over, deadlines that pass meanwhile aside; and taken over but not listed is exactly what was applied too
   * long ago.
   */
  lemma ListingAgreesWithAdoption(records: seq<A.Record>, items: L.Items, adoptions: seq<A.Record>,
                                  closings: seq<A.Record>, drivers: set<string>, adopting: bool, holder: string,
                                  since: Time, until: Time, row: A.FaultRow, memory: Time, now: Time)
    requires TakenOver(records, items, adoptions, closings, drivers, adopting, holder, since, until)
    requires row in A.FaultsOf(records) && A.IsLive(row) && now <= since <= until
    ensures ListedRunning(row, memory, now) <==> Recent(row, memory) && (row.deadline.None? || row.deadline.value > now)
    ensures row.faultUID in items ==> (ListedRunning(row, memory, now) <==> row.appliedAt >= memory)
    ensures row.deadline.None? || row.deadline.value <= now || row.deadline.value > until ==>
      (ListedRunning(row, memory, now) && row.faultUID !in items <==>
        BeyondAdoption(row, drivers, adopting) && Recent(row, memory)
        && (row.deadline.None? || row.deadline.value > now))
  {
    RowIsTaken(records, items, adoptions, closings, drivers, adopting, holder, since, until, row);
    if row.faultUID in items {
      TakenWasAhead(row, items[row.faultUID], drivers, holder, since, until);
    } else if row.deadline.Some? && row.deadline.value > until {
      assert Revived(row, until).None? || Revived(row, until).value.manifest.engine !in drivers || !adopting;
    }
  }

  /** What the lease of a row's fault was taken from is that row. */
  lemma RowIsTaken(records: seq<A.Record>, items: L.Items, adoptions: seq<A.Record>, closings: seq<A.Record>,
                   drivers: set<string>, adopting: bool, holder: string, since: Time, until: Time, row: A.FaultRow)
    requires TakenOver(records, items, adoptions, closings, drivers, adopting, holder, since, until)
    requires row in A.FaultsOf(records)
    ensures row.faultUID in items ==> adopting && Takes(row, items[row.faultUID], drivers, holder, since, until)
    ensures (adopting && Revived(row, until).Some? && Revived(row, until).value.manifest.engine in drivers) ==>
      row.faultUID in items
  {
    RowByUID(records, row);
    if row.faultUID in items {
      var taken :| taken in A.FaultsOf(records) && taken.faultUID == row.faultUID
        && Takes(taken, items[row.faultUID], drivers, holder, since, until);
      RowByUID(records, taken);
    }
  }

  lemma TakenWasAhead(row: A.FaultRow, af: L.ActiveFault, drivers: set<string>, holder: string, since: Time,
      until: Time)
    requires Takes(row, af, drivers, holder, since, until)
    ensures row.deadline.Some? && row.deadline.value > since && RowManifest(row).Some?
    ensures !BeyondAdoption(row, drivers, true)
  {
  }

  lemma OpenWithoutDeadline(row: A.FaultRow, at: Time)
    requires A.IsLive(row) && row.deadline.None? && row.described.targets != [] && row.described.kind != ""
    ensures ListedRunning(row, row.appliedAt, at) && Revived(row, at).None?
  {
  }

  /** A fault applied without a deadline: the planner is told it is running, and the take-over closes it. */
  lemma ListedRunningYetClosed(applied: A.Record, at: Time)
    requires applied.event == A.DriverApplied && applied.faultUID != "" && applied.ts > NEVER
    requires applied.payload.deadline.None? && applied.payload.kind.Some? && applied.payload.kind.value != ""
    requires applied.payload.targets.Some? && applied.payload.targets.value != []
    ensures
      var row := A.Row([applied], applied.faultUID);
      ListedRunning(row, applied.ts, at) && Revived(row, at).None? && A.IsLive(row)
  {
    A.RowOfOne(applied);
    A.AbsorbMoves(A.NewRow(applied.faultUID), applied);
    AppliedIsListed(applied, A.Row([applied], applied.faultUID), at);
  }

  lemma AppliedIsListed(applied: A.Record, row: A.FaultRow, at: Time)
    requires applied.event == A.DriverApplied && applied.ts > NEVER && applied.payload.deadline.None?
    requires applied.payload.kind.Some? && applied.payload.kind.value != ""
    requires applied.payload.targets.Some? && applied.payload.targets.value != []
    requires A.Moves(A.NewRow(applied.faultUID), applied, row)
    ensures ListedRunning(row, applied.ts, at) && Revived(row, at).None? && A.IsLive(row)
  {
    OpenWithoutDeadline(row, at);
  }
}
