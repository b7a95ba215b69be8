/** Restart recovery: what a new controller makes of the trail a previous one left
    (pkg/audit/faults.go: ActiveFault, ClosingEvents; cmd/simian/serve.go: the take-over closure). */
module Restart {
  import opened Vocabulary
  import opened Ordering
  import opened AuditTrail
  import opened Leases

  /** A clock that never runs backwards; how far it moves between two readings is not known. */
  class Clock {
    var time: Time

    method Now() returns (now: Time)
      modifies this
      ensures now == time && old(time) <= now
    {
      var elapsed :| 0 <= elapsed;
      time := time + elapsed;
      now := time;
    }
  }

  /** The fault as the trail records it; none when the record says too little. */
  function RowManifest(row: FaultRow): Option<Manifest> {
    if row.described.targets == [] || row.described.kind == "" then None
    else
      Some(Manifest(row.faultUID, row.source, row.described.engine, row.described.kind, row.described.spec,
                    row.described.targets, row.described.duration, row.described.tier, row.planID))
  }

  /** The lease of a fault the trail shows as still running, when the trail says enough to hold one. */
  function Revived(row: FaultRow, now: Time): Option<ActiveFault> {
    if row.outcome != Open || row.appliedAt == NEVER || row.engineUID == "" || row.described.engine == "" then None
    else if row.deadline.None? || row.deadline.value <= now then None
    else
      match RowManifest(row)
      case None => None
      case Some(m) => Some(ActiveFault(row.faultUID, row.engineUID, m, row.appliedAt, row.deadline.value, ""))
  }

  function Closing(row: FaultRow, now: Time): Record {
    Record(now, LeaseExpired, row.faultUID, row.planID, row.scenarioID, row.source, UNTRACKED_AFTER_RESTART,
           EMPTY_PAYLOAD.(engineUID := row.engineUID, deadline := row.deadline))
  }

  /** One closing record for each row that reached the cluster and was never closed, in row order. */
  function ClosingsOf(rows: seq<FaultRow>, now: Time): seq<Record> {
    if rows == [] then []
    else
      var front := ClosingsOf(rows[..|rows| - 1], now);
      if IsLive(rows[|rows| - 1]) then front + [Closing(rows[|rows| - 1], now)] else front
  }

  const ByFault := (r: Record) => r.faultUID

  method ClosingEvents(rows: seq<FaultRow>, now: Time) returns (out: seq<Record>)
    ensures out == Sort(ClosingsOf(rows, now), ByFault, TextBefore)
  {
    out := [];
    for i := 0 to |rows|
      invariant out == ClosingsOf(rows[..i], now)
    {
      assert rows[..i + 1][..i] == rows[..i];
      if rows[i].outcome != Open || rows[i].appliedAt == NEVER {
        continue;
      }
      out := out + [Closing(rows[i], now)];
    }
    assert rows[..|rows|] == rows;
    out := Sort(out, ByFault, TextBefore);
  }

  ghost predicate RowsDistinct(rows: seq<FaultRow>) {
    forall i, j :: 0 <= i < j < |rows| ==> rows[i].faultUID != rows[j].faultUID
  }

  ghost predicate RecordsDistinct(rs: seq<Record>) {
    forall i, j :: 0 <= i < j < |rs| ==> rs[i].faultUID != rs[j].faultUID
  }

  /** An untracked-after-restart end: all the fold reads of a closing record. */
  predicate Closes(r: Record) {
    r.event == LeaseExpired && r.reason == UNTRACKED_AFTER_RESTART
  }

  ghost function FaultsNamed(rs: seq<Record>): set<string> {
    set r | r in rs :: r.faultUID
  }

  lemma LiveInSnoc(rows: seq<FaultRow>, row: FaultRow)
    ensures LiveIn(rows + [row]) == LiveIn(rows) + if IsLive(row) then {row.faultUID} else {}
  {
    assert forall r :: r in rows + [row] <==> r in rows || r == row;
  }

  /** The closing records name exactly the live rows, each once. */
  lemma {:induction false} ClosingsAreExact(rows: seq<FaultRow>, now: Time)
    requires RowsDistinct(rows)
    ensures FaultsNamed(ClosingsOf(rows, now)) == LiveIn(rows)
    ensures RecordsDistinct(ClosingsOf(rows, now))
    ensures forall r :: r in ClosingsOf(rows, now) ==> Closes(r) && r.ts == now
  {
    if rows != [] {
      var front, last := rows[..|rows| - 1], rows[|rows| - 1];
      assert rows == front + [last];
      ClosingsAreExact(front, now);
      LiveInSnoc(front, last);
      LastRowIsNew(rows);
      var cs := ClosingsOf(front, now);
      assert forall i :: 0 <= i < |cs| ==> cs[i].faultUID in FaultsNamed(cs);
      assert forall r :: r in cs + [Closing(last, now)] <==> r in cs || r == Closing(last, now);
    }
  }

  lemma LastRowIsNew(rows: seq<FaultRow>)
    requires RowsDistinct(rows) && rows != []
    ensures rows[|rows| - 1].faultUID !in LiveIn(rows[..|rows| - 1])
  {
    var front := rows[..|rows| - 1];
    forall row | row in front ensures row.faultUID != rows[|rows| - 1].faultUID {
      var i :| 0 <= i < |front| && front[i] == row;
    }
  }

  lemma SortedClosingsAreExact(rows: seq<FaultRow>, now: Time)
    requires RowsDistinct(rows)
    ensures var out := Sort(ClosingsOf(rows, now), ByFault, TextBefore);
            && FaultsNamed(out) == LiveIn(rows) && RecordsDistinct(out)
            && forall r :: r in out ==> Closes(r) && r.ts == now
  {
    var xs := ClosingsOf(rows, now);
    TextIsTotal();
    ClosingsAreExact(rows, now);
    SortKeepsMembers(xs, ByFault, TextBefore);
    DistinctSurvivesSort(xs);
  }

  lemma DistinctSurvivesSort(xs: seq<Record>)
    requires StrictTotal(TextBefore) && RecordsDistinct(xs)
    ensures RecordsDistinct(Sort(xs, ByFault, TextBefore))
  {
    var out := Sort(xs, ByFault, TextBefore);
    SortIsStable(xs, ByFault, TextBefore);
    forall i, j | 0 <= i < j < |out| ensures out[i].faultUID != out[j].faultUID {
      OnePerFault(xs, out[i].faultUID);
      TwoPerFault(out, i, j);
    }
  }

  lemma {:induction false} OnePerFault(xs: seq<Record>, uid: string)
    requires RecordsDistinct(xs)
    ensures |WithKey(xs, ByFault, uid)| <= 1
    ensures (forall r :: r in xs ==> r.faultUID != uid) ==> WithKey(xs, ByFault, uid) == []
  {
    if xs != [] {
      var front, last := xs[..|xs| - 1], xs[|xs| - 1];
      OnePerFault(front, uid);
      assert forall r :: r in front ==> r in xs;
      assert last in xs;
      if last.faultUID == uid {
        assert forall r :: r in front ==> r.faultUID != uid;
      }
    }
  }

  lemma {:induction false} TwoPerFault(xs: seq<Record>, i: nat, j: nat)
    requires i < j < |xs|
    ensures xs[i].faultUID == xs[j].faultUID ==> |WithKey(xs, ByFault, xs[i].faultUID)| >= 2
  {
    if xs[i].faultUID == xs[j].faultUID {
      HasKey(xs[..j], i);
      KeyPrefix(xs, j + 1);
      assert xs[..j + 1][..j] == xs[..j];
    }
  }

  lemma {:induction false} HasKey(xs: seq<Record>, i: nat)
    requires i < |xs|
    ensures |WithKey(xs, ByFault, xs[i].faultUID)| >= 1
  {
    if i < |xs| - 1 { HasKey(xs[..|xs| - 1], i); }
  }

  lemma {:induction false} KeyPrefix(xs: seq<Record>, n: nat)
    requires n <= |xs|
    ensures forall uid :: |WithKey(xs[..n], ByFault, uid)| <= |WithKey(xs, ByFault, uid)|
  {
    if n < |xs| {
      KeyPrefix(xs[..|xs| - 1], n);
      assert xs[..|xs| - 1][..n] == xs[..n];
    } else {
      assert xs[..n] == xs;
    }
  }

  // ----- Taking over -----

  function AdoptionRecord(row: FaultRow, at: Time): Record {
    Record(at, LeaseAdopted, row.faultUID, row.planID, row.scenarioID, row.source, UNTRACKED_AFTER_RESTART,
           EMPTY_PAYLOAD.(engineUID := row.engineUID, deadline := row.deadline))
  }

  /** A row the new process took over as a lease, at some moment of the take-over. */
  ghost predicate Takes(row: FaultRow, af: ActiveFault, drivers: set<string>, holder: string, since: Time,
      until: Time)
  {
    exists at :: since <= at <= until && Revived(row, at).Some? && Revived(row, at).value.manifest.engine in drivers
                 && af == Revived(row, at).value.(holder := holder)
  }

  /** The leases a take-over leaves: each from a row that could be revived, and every row that still can be. */
  ghost predicate LeasesTaken(rows: seq<FaultRow>, items: Items, drivers: set<string>, adopting: bool, holder: string,
                              since: Time, until: Time) {
    && (forall uid :: uid in items ==>
          adopting && exists row ::
            row in rows && row.faultUID == uid && Takes(row, items[uid], drivers, holder, since, until))
    && (forall row ::
          (row in rows && adopting && Revived(row, until).Some?
           && Revived(row, until).value.manifest.engine in drivers) ==>
            row.faultUID in items)
  }

  /** Stamped while the take-over ran, each record no earlier than the one before. */
  ghost predicate InOrder(rs: seq<Record>, since: Time, until: Time) {
    && (forall i :: 0 <= i < |rs| ==> since <= rs[i].ts <= until)
    && (forall i, j :: 0 <= i < j < |rs| ==> rs[i].ts <= rs[j].ts)
  }

  /** The adoption record of a lease: its fault, its object and its deadline. */
  predicate TellsAdoption(r: Record, items: Items) {
    && r.event == LeaseAdopted && r.faultUID in items
    && r.payload.engineUID == items[r.faultUID].engineUID && r.payload.deadline == Some(items[r.faultUID].deadline)
  }

  /** Each adopted fault has one adoption record; the closings end each other live row, once. */
  ghost predicate EndsRecorded(rows: seq<FaultRow>, items: Items, adoptions: seq<Record>, closings: seq<Record>) {
    && (forall r :: r in adoptions ==> TellsAdoption(r, items))
    && FaultsNamed(adoptions) == items.Keys && RecordsDistinct(adoptions)
    && FaultsNamed(closings) == LiveIn(rows) - items.Keys && RecordsDistinct(closings)
    && (forall r :: r in closings ==> Closes(r))
  }

  lemma RevivalOnlyExpires(row: FaultRow, earlier: Time, later: Time)
    requires earlier <= later && Revived(row, later).Some?
    ensures Revived(row, earlier) == Revived(row, later) && IsLive(row)
    ensures Revived(row, later).value.faultUID == row.faultUID
  {
  }

  lemma LongerIsWeaker(rows: seq<FaultRow>, items: Items, drivers: set<string>, adopting: bool, holder: string,
                       since: Time, until: Time, later: Time)
    requires LeasesTaken(rows, items, drivers, adopting, holder, since, until) && until <= later
    ensures LeasesTaken(rows, items, drivers, adopting, holder, since, later)
  {
    forall uid | uid in items
      ensures adopting && exists row ::
        row in rows && row.faultUID == uid && Takes(row, items[uid], drivers, holder, since, later)
    {
      var row :| row in rows && row.faultUID == uid && Takes(row, items[uid], drivers, holder, since, until);
      assert Takes(row, items[uid], drivers, holder, since, later);
    }
    forall row | row in rows && adopting && Revived(row, later).Some?
      && Revived(row, later).value.manifest.engine in drivers
      ensures row.faultUID in items
    {
      RevivalOnlyExpires(row, until, later);
    }
  }

  /** One more row looked at: taken, or not takeable any more. */
  lemma OneMoreRow(rows: seq<FaultRow>, row: FaultRow, before: Items, after: Items, drivers: set<string>,
                   adopting: bool, holder: string, since: Time, at: Time)
    requires LeasesTaken(rows, before, drivers, adopting, holder, since, at) && since <= at
    requires row.faultUID !in before
    requires var taken := adopting && Revived(row, at).Some? && Revived(row, at).value.manifest.engine in drivers;
             after == if taken then before[row.faultUID := Revived(row, at).value.(holder := holder)] else before
    ensures LeasesTaken(rows + [row], after, drivers, adopting, holder, since, at)
  {
    forall uid | uid in after
      ensures adopting && exists x ::
        x in rows + [row] && x.faultUID == uid && Takes(x, after[uid], drivers, holder, since, at)
    {
      if uid == row.faultUID {
        assert Takes(row, after[uid], drivers, holder, since, at);
        assert row in rows + [row];
      } else {
        var x :| x in rows && x.faultUID == uid && Takes(x, before[uid], drivers, holder, since, at);
        assert x in rows + [row];
      }
    }
  }

  /** What the take-over's first loop holds after a prefix of the rows. */
  ghost predicate Offered(rows: seq<FaultRow>, items: Items, left: seq<FaultRow>, adoptions: seq<Record>) {
    && (forall uid :: uid in items ==> exists row :: row in rows && row.faultUID == uid)
    && (forall row :: row in left ==> row in rows)
    && RowsDistinct(left) && LiveIn(left) == LiveIn(rows) - items.Keys
    && (forall r :: r in adoptions ==> TellsAdoption(r, items))
    && FaultsNamed(adoptions) == items.Keys && RecordsDistinct(adoptions)
  }

  lemma OfferedRow(rows: seq<FaultRow>, k: nat, items: Items, left: seq<FaultRow>, adoptions: seq<Record>)
    requires RowsDistinct(rows) && k < |rows| && Offered(rows[..k], items, left, adoptions)
    ensures rows[k].faultUID !in items && rows[..k + 1] == rows[..k] + [rows[k]]
    ensures forall row :: row in left ==> row.faultUID != rows[k].faultUID
    ensures LiveIn(rows[..k + 1]) == LiveIn(rows[..k]) + if IsLive(rows[k]) then {rows[k].faultUID} else {}
    ensures forall row :: row in rows[..k + 1] <==> row in rows[..k] || row == rows[k]
  {
    assert rows[..k + 1] == rows[..k] + [rows[k]];
    RowIsNew(rows, k);
    LiveInSnoc(rows[..k], rows[k]);
  }

  lemma OfferedLeft(rows: seq<FaultRow>, k: nat, items: Items, left: seq<FaultRow>, adoptions: seq<Record>)
    requires RowsDistinct(rows) && k < |rows| && Offered(rows[..k], items, left, adoptions)
    ensures rows[k].outcome != Open ==> Offered(rows[..k + 1], items, left, adoptions)
    ensures Offered(rows[..k + 1], items, left + [rows[k]], adoptions)
  {
    OfferedRow(rows, k, items, left, adoptions);
    LiveInSnoc(left, rows[k]);
    assert rows[k].faultUID !in LiveIn(left);
  }

  lemma OfferedTaken(rows: seq<FaultRow>, k: nat, items: Items, left: seq<FaultRow>, adoptions: seq<Record>,
                     af: ActiveFault, at: Time)
    requires RowsDistinct(rows) && k < |rows| && Offered(rows[..k], items, left, adoptions)
    requires af.faultUID == rows[k].faultUID && af.engineUID == rows[k].engineUID
      && rows[k].deadline == Some(af.deadline)
    ensures Offered(rows[..k + 1], items[af.faultUID := af], left, adoptions + [AdoptionRecord(rows[k], at)])
  {
    OfferedRow(rows, k, items, left, adoptions);
    var r, taken := AdoptionRecord(rows[k], at), items[af.faultUID := af];
    RecordsSnoc(adoptions, r);
    assert taken.Keys == items.Keys + {af.faultUID};
    assert rows[k].faultUID !in LiveIn(left);
    forall x | x in adoptions + [r] ensures TellsAdoption(x, taken) {
      assert x == r || TellsAdoption(x, items);
    }
  }

  lemma RecordsSnoc(rs: seq<Record>, r: Record)
    requires RecordsDistinct(rs) && r.faultUID !in FaultsNamed(rs)
    ensures RecordsDistinct(rs + [r]) && FaultsNamed(rs + [r]) == FaultsNamed(rs) + {r.faultUID}
  {
    assert forall i :: 0 <= i < |rs| ==> rs[i].faultUID in FaultsNamed(rs);
    assert forall x :: x in rs + [r] <==> x in rs || x == r;
  }

  lemma InOrderSnoc(rs: seq<Record>, r: Record, since: Time, until: Time)
    requires InOrder(rs, since, until) && since <= until <= r.ts
    ensures InOrder(rs + [r], since, r.ts)
  {
  }

  /** Offers every open row to the registry, then closes the rest on the record. A take-over that adopts nothing
      closes every open row. The adoption records go out before the closings. */
  method TakeOver(rows: seq<FaultRow>, registry: Registry, drivers: set<string>, adopting: bool, clock: Clock)
    returns (adoptions: seq<Record>, closings: seq<Record>)
    requires registry.Valid() && registry.items == map[] && RowsDistinct(rows)
    modifies registry, clock
    ensures registry.Valid() && old(clock.time) <= clock.time
    ensures LeasesTaken(rows, registry.items, drivers, adopting, registry.holder, old(clock.time), clock.time)
    ensures EndsRecorded(rows, registry.items, adoptions, closings)
    ensures InOrder(adoptions + closings, old(clock.time), clock.time)
  {
    var left: seq<FaultRow>;
    left, adoptions := Offer(rows, registry, drivers, adopting, clock);
    ghost var was := clock.time;
    var now := clock.Now();
    var planned := ClosingEvents(left, now);
    SortedClosingsAreExact(left, now);
    closings := Restamp(planned, clock);
    LongerIsWeaker(rows, registry.items, drivers, adopting, registry.holder, old(clock.time), was, clock.time);
    RestampedNameTheSame(planned, closings);
  }

  lemma RestampedNameTheSame(planned: seq<Record>, out: seq<Record>)
    requires |out| == |planned| && RecordsDistinct(planned) && (forall r :: r in planned ==> Closes(r))
    requires forall i :: 0 <= i < |planned| ==> out[i] == planned[i].(ts := out[i].ts)
    ensures FaultsNamed(out) == FaultsNamed(planned) && RecordsDistinct(out) && forall r :: r in out ==> Closes(r)
  {
    forall r | r in out ensures r.faultUID in FaultsNamed(planned) && Closes(r) {
      var i :| 0 <= i < |out| && out[i] == r;
      assert planned[i] in planned;
    }
    forall r | r in planned ensures r.faultUID in FaultsNamed(out) {
      var i :| 0 <= i < |planned| && planned[i] == r;
      assert out[i] in out;
    }
  }

  method Offer(rows: seq<FaultRow>, registry: Registry, drivers: set<string>, adopting: bool, clock: Clock)
    returns (left: seq<FaultRow>, adoptions: seq<Record>)
    requires registry.Valid() && registry.items == map[] && RowsDistinct(rows)
    modifies registry, clock
    ensures registry.Valid() && old(clock.time) <= clock.time
    ensures LeasesTaken(rows, registry.items, drivers, adopting, registry.holder, old(clock.time), clock.time)
    ensures Offered(rows, registry.items, left, adoptions)
    ensures InOrder(adoptions, old(clock.time), clock.time)
  {
    left, adoptions := [], [];
    for k := 0 to |rows|
      invariant registry.Valid() && old(clock.time) <= clock.time
      invariant LeasesTaken(rows[..k], registry.items, drivers, adopting, registry.holder, old(clock.time), clock.time)
      invariant Offered(rows[..k], registry.items, left, adoptions)
      invariant InOrder(adoptions, old(clock.time), clock.time)
    {
      left, adoptions := OfferRow(rows, k, registry, drivers, adopting, clock, left, adoptions, old(clock.time));
    }
    assert rows[..|rows|] == rows;
  }

  /** One row: adopted and announced, left for closing, or passed over because it is closed already. */
  method OfferRow(rows: seq<FaultRow>, k: nat, registry: Registry, drivers: set<string>, adopting: bool, clock: Clock,
                  left: seq<FaultRow>, adoptions: seq<Record>, ghost since: Time)
    returns (left': seq<FaultRow>, adoptions': seq<Record>)
    requires registry.Valid() && RowsDistinct(rows) && k < |rows| && since <= clock.time
    requires LeasesTaken(rows[..k], registry.items, drivers, adopting, registry.holder, since, clock.time)
    requires Offered(rows[..k], registry.items, left, adoptions) && InOrder(adoptions, since, clock.time)
    modifies registry, clock
    ensures registry.Valid() && old(clock.time) <= clock.time
    ensures LeasesTaken(rows[..k + 1], registry.items, drivers, adopting, registry.holder, since, clock.time)
    ensures Offered(rows[..k + 1], registry.items, left', adoptions') && InOrder(adoptions', since, clock.time)
  {
    var row := rows[k];
    ghost var was, before := clock.time, registry.items;
    var at := clock.Now();
    var af := Revived(row, at);
    left', adoptions' := left, adoptions;
    OfferedRow(rows, k, before, left, adoptions);
    LongerIsWeaker(rows[..k], before, drivers, adopting, registry.holder, since, was, at);
    if adopting && af.Some? && af.value.manifest.engine in drivers {
      registry.Adopt(af.value);
      var told := clock.Now();
      OfferedTaken(rows, k, before, left, adoptions, registry.items[row.faultUID], told);
      InOrderSnoc(adoptions, AdoptionRecord(row, told), since, told);
      adoptions' := adoptions + [AdoptionRecord(row, told)];
    } else {
      OfferedLeft(rows, k, before, left, adoptions);
      if row.outcome == Open { left' := left + [row]; }
    }
    OneMoreRow(rows[..k], row, before, registry.items, drivers, adopting, registry.holder, since, at);
    LongerIsWeaker(rows[..k + 1], registry.items, drivers, adopting, registry.holder, since, at, clock.time);
  }

  lemma RowIsNew(rows: seq<FaultRow>, k: nat)
    requires RowsDistinct(rows) && k < |rows|
    ensures rows[k].faultUID !in (set row | row in rows[..k] :: row.faultUID)
    ensures forall row :: row in rows[..k] ==> row.faultUID != rows[k].faultUID
  {
    forall row | row in rows[..k] ensures row.faultUID != rows[k].faultUID {
      var i :| 0 <= i < k && rows[i] == row;
    }
  }

  /** Emitting stamps each record with the time it goes out. */
  method Restamp(planned: seq<Record>, clock: Clock) returns (out: seq<Record>)
    modifies clock
    ensures old(clock.time) <= clock.time
    ensures |out| == |planned| && InOrder(out, old(clock.time), clock.time)
    ensures forall i :: 0 <= i < |planned| ==> out[i] == planned[i].(ts := out[i].ts)
  {
    out := [];
    for i := 0 to |planned|
      invariant old(clock.time) <= clock.time
      invariant |out| == i && InOrder(out, old(clock.time), clock.time)
      invariant forall k :: 0 <= k < i ==> out[k] == planned[k].(ts := out[k].ts)
    {
      var at := clock.Now();
      out := out + [planned[i].(ts := at)];
    }
  }
}
