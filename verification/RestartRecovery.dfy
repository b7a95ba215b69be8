/** What refolding the trail after a take-over shows, and what that means for the leases of the process before. */
module RestartRecovery {
  import opened Vocabulary
  import opened AuditTrail
  import opened Leases
  import opened Slots
  import opened Lifecycle
  import opened Restart

  /** A finished take-over of the faults a trail shows. */
  ghost predicate TakenOver(records: seq<Record>, items: Items, adoptions: seq<Record>, closings: seq<Record>,
                            drivers: set<string>, adopting: bool, holder: string, since: Time, until: Time) {
    && LeasesTaken(FaultsOf(records), items, drivers, adopting, holder, since, until)
    && EndsRecorded(FaultsOf(records), items, adoptions, closings)
    && InOrder(adoptions + closings, since, until)
  }

  lemma RowByUID(records: seq<Record>, row: FaultRow)
    requires row in FaultsOf(records)
    ensures row.faultUID != "" && row == Row(records, row.faultUID) && row.faultUID in FirstSeen(records)
  {
    var order := FirstSeen(records);
    var i :| 0 <= i < |order| && FaultsOf(records)[i] == row;
    RowKeepsUID(order[i], Only(records, order[i]));
    FirstSeenIsExact(records);
    assert order[i] in order;
  }

  lemma FoldedRowsAreDistinct(records: seq<Record>)
    ensures RowsDistinct(FaultsOf(records))
  {
    var rows := FaultsOf(records);
    forall i, j | 0 <= i < j < |rows| ensures rows[i].faultUID != rows[j].faultUID {
      FaultsProjects(records, i);
    }
  }

  lemma ClosingEnds(row: FaultRow, c: Record)
    requires Closes(c)
    ensures Absorb(row, c).outcome == Expired && Absorb(row, c).endedAt == UntrackedEnd(row, c.ts)
  {
  }

  lemma ClosingExtends(log: seq<Record>, c: Record)
    requires Closes(c) && c.faultUID != ""
    ensures Row(log + [c], c.faultUID).outcome == Expired
    ensures Row(log + [c], c.faultUID).endedAt == UntrackedEnd(Row(log, c.faultUID), c.ts)
  {
    RowOfExtension(log, c, c.faultUID);
    ClosingEnds(Row(log, c.faultUID), c);
  }

  lemma OthersAround(closings: seq<Record>, at: nat)
    requires at < |closings| && RecordsDistinct(closings)
    ensures forall r :: r in closings[..at] || r in closings[at + 1..] ==> r.faultUID != closings[at].faultUID
    ensures closings == closings[..at] + [closings[at]] + closings[at + 1..]
  {
    forall r | r in closings[..at] ensures r.faultUID != closings[at].faultUID {
      var i :| 0 <= i < at && closings[..at][i] == r;
    }
    forall r | r in closings[at + 1..] ensures r.faultUID != closings[at].faultUID {
      var i :| 0 <= i < |closings| - at - 1 && closings[at + 1..][i] == r;
    }
  }

  /** A row the take-over left behind ends on the record, at the earlier of its deadline and the closing time. */
  lemma ClosedRow(records: seq<Record>, adoptions: seq<Record>, closings: seq<Record>, uid: string, at: nat)
    requires uid != "" && at < |closings| && closings[at].faultUID == uid && Closes(closings[at])
    requires (forall r :: r in adoptions ==> r.faultUID != uid) && RecordsDistinct(closings)
    ensures Row(records + adoptions + closings, uid).outcome == Expired
    ensures Row(records + adoptions + closings, uid).endedAt == UntrackedEnd(Row(records, uid), closings[at].ts)
  {
    var log, c := records + adoptions, closings[at];
    OthersAround(closings, at);
    var upTo := log + closings[..at];
    RowUnchanged(records, adoptions, uid);
    RowUnchanged(log, closings[..at], uid);
    ClosingExtends(upTo, c);
    RowUnchanged(upTo + [c], closings[at + 1..], uid);
    Reassociate(log, closings[..at], c, closings[at + 1..]);
  }

  lemma RowUnchanged(records: seq<Record>, more: seq<Record>, uid: string)
    requires forall r :: r in more ==> r.faultUID != uid
    ensures Row(records + more, uid) == Row(records, uid)
  {
    AdoptionsKeepStanding(records, more, uid);
  }

  lemma Reassociate(a: seq<Record>, b: seq<Record>, c: Record, d: seq<Record>)
    ensures a + (b + [c] + d) == a + b + [c] + d
  {
  }

  predicate AsRecorded(row: FaultRow, af: ActiveFault) {
    && af.faultUID == row.faultUID && af.engineUID == row.engineUID && row.deadline == Some(af.deadline)
    && af.manifest.engine == row.described.engine && af.manifest.resourceKind == row.described.kind
    && af.manifest.targets == row.described.targets && af.manifest.spec == row.described.spec
    && af.manifest.duration == row.described.duration && af.manifest.tier == row.described.tier
    && af.manifest.uid == row.faultUID && af.manifest.source == row.source && af.manifest.planID == row.planID
    && af.appliedAt == row.appliedAt
  }

  lemma TakenAsRecorded(row: FaultRow, af: ActiveFault, drivers: set<string>, holder: string, since: Time, until: Time)
    requires Takes(row, af, drivers, holder, since, until)
    ensures IsLive(row) && AsRecorded(row, af) && af.deadline > since && Rebuildable(af, drivers)
    ensures af.holder == holder
  {
  }

  /** What a take-over adopted says what the fault's row said. */
  lemma AdoptedAsRecorded(records: seq<Record>, items: Items, adoptions: seq<Record>, closings: seq<Record>,
                          drivers: set<string>, adopting: bool, holder: string, since: Time, until: Time, uid: string)
    requires TakenOver(records, items, adoptions, closings, drivers, adopting, holder, since, until) && uid in items
    ensures uid != "" && IsLive(Row(records, uid)) && AsRecorded(Row(records, uid), items[uid])
    ensures items[uid].deadline > since && items[uid].faultUID == uid && Rebuildable(items[uid], drivers)
    ensures items[uid].holder == holder
  {
    var row :| row in FaultsOf(records) && row.faultUID == uid && Takes(row, items[uid], drivers, holder, since, until);
    TakenAsRecorded(row, items[uid], drivers, holder, since, until);
    RowByUID(records, row);
  }

  /** The emitted records leave the rows of adopted faults as they stood. */
  lemma EmittedKeepAdopted(records: seq<Record>, items: Items, adoptions: seq<Record>, closings: seq<Record>,
      uid: string)
    requires EndsRecorded(FaultsOf(records), items, adoptions, closings) && uid in items
    ensures SameStanding(Row(records, uid), Row(records + adoptions + closings, uid))
  {
    AdoptionsKeepStanding(records, adoptions, uid);
    forall r | r in closings ensures r.faultUID != uid {
      assert r.faultUID in FaultsNamed(closings);
    }
    AdoptionsKeepStanding(records + adoptions, closings, uid);
  }

  /** An adopted fault's row stays live and says what the lease says; its deadline lies ahead. */
  lemma AdoptedRow(records: seq<Record>, items: Items, adoptions: seq<Record>, closings: seq<Record>,
                   drivers: set<string>, adopting: bool, holder: string, since: Time, until: Time, uid: string)
    requires TakenOver(records, items, adoptions, closings, drivers, adopting, holder, since, until) && uid in items
    ensures var row := Row(records + adoptions + closings, uid);
            uid != "" && IsLive(row) && Tells(row, items[uid]) && items[uid].deadline > since
              && items[uid].faultUID == uid
    ensures IsLive(Row(records, uid))
  {
    AdoptedAsRecorded(records, items, adoptions, closings, drivers, adopting, holder, since, until, uid);
    EmittedKeepAdopted(records, items, adoptions, closings, uid);
  }

  lemma OtherRow(records: seq<Record>, items: Items, adoptions: seq<Record>, closings: seq<Record>,
                 drivers: set<string>, adopting: bool, holder: string, since: Time, until: Time, uid: string)
    requires TakenOver(records, items, adoptions, closings, drivers, adopting, holder, since, until)
    requires uid !in items && uid != ""
    ensures !IsLive(Row(records + adoptions + closings, uid))
    ensures uid in LiveIn(FaultsOf(records)) ==>
              exists c :: c in closings && c.faultUID == uid
                && Row(records + adoptions + closings, uid).outcome == Expired
                          && Row(records + adoptions + closings, uid).endedAt == UntrackedEnd(Row(records, uid), c.ts)
  {
    if uid in LiveIn(FaultsOf(records)) {
      assert uid in FaultsNamed(closings);
      var c :| c in closings && c.faultUID == uid;
      var at :| 0 <= at < |closings| && closings[at] == c;
      ClosedRow(records, adoptions, closings, uid, at);
    } else {
      LiveIsPerFault(records, uid);
      AdoptionsKeepStanding(records, adoptions, uid);
      forall r | r in closings ensures r.faultUID != uid {
        assert r.faultUID in FaultsNamed(closings);
      }
      AdoptionsKeepStanding(records + adoptions, closings, uid);
    }
  }

  /** Restart recovery. For any retained trail, refolding it with what the take-over emitted shows as applied-and-open
      exactly the adopted faults, each as its lease has it and with its deadline ahead; every other fault that was
      open ended at the earlier of its deadline and the closing time. */
  lemma RecoveryIsExact(records: seq<Record>, items: Items, adoptions: seq<Record>, closings: seq<Record>,
                        drivers: set<string>, adopting: bool, holder: string, since: Time, until: Time)
    requires TakenOver(records, items, adoptions, closings, drivers, adopting, holder, since, until)
    ensures LiveIn(FaultsOf(records + adoptions + closings)) == items.Keys
    ensures forall uid :: uid in items ==>
      Tells(Row(records + adoptions + closings, uid), items[uid]) && items[uid].deadline > since
    ensures forall uid :: uid in LiveIn(FaultsOf(records)) - items.Keys ==>
              exists c :: c in closings && c.faultUID == uid
                && Row(records + adoptions + closings, uid).outcome == Expired
                          && Row(records + adoptions + closings, uid).endedAt == UntrackedEnd(Row(records, uid), c.ts)
  {
    var after := records + adoptions + closings;
    forall uid
      ensures uid in LiveIn(FaultsOf(after)) <==> uid in items
      ensures uid in items ==> Tells(Row(after, uid), items[uid]) && items[uid].deadline > since
      ensures uid in LiveIn(FaultsOf(records)) - items.Keys ==>
                exists c :: c in closings && c.faultUID == uid && Row(after, uid).outcome == Expired
                            && Row(after, uid).endedAt == UntrackedEnd(Row(records, uid), c.ts)
    {
      LiveIsPerFault(after, uid);
      LiveIsPerFault(records, uid);
      if uid in items {
        AdoptedRow(records, items, adoptions, closings, drivers, adopting, holder, since, until, uid);
      } else if uid != "" {
        OtherRow(records, items, adoptions, closings, drivers, adopting, holder, since, until, uid);
      }
    }
  }

  /** Closing every open row leaves nothing for a second take-over to close. */
  lemma ClosingTwiceAddsNothing(records: seq<Record>, adoptions: seq<Record>, closings: seq<Record>,
                                drivers: set<string>, holder: string, since: Time, until: Time, again: Time)
    requires TakenOver(records, map[], adoptions, closings, drivers, false, holder, since, until)
    ensures ClosingsOf(FaultsOf(records + adoptions + closings), again) == []
  {
    var after := records + adoptions + closings;
    RecoveryIsExact(records, map[], adoptions, closings, drivers, false, holder, since, until);
    FoldedRowsAreDistinct(after);
    ClosingsAreExact(FaultsOf(after), again);
    SomeRecordNamesAFault(ClosingsOf(FaultsOf(after), again));
  }

  lemma SomeRecordNamesAFault(rs: seq<Record>)
    ensures rs != [] ==> FaultsNamed(rs) != {}
  {
    if rs != [] { assert rs[0].faultUID in FaultsNamed(rs); }
  }

  /** The state a controller starts from once the file and then the cluster have been adopted from. */
  ghost function Startup(log: seq<Record>, leases: Items, cluster: map<string, string>, now: Time): State {
    State(now, NO_SLOTS, None, leases, cluster, map[], map[], map[], log,
          leases.Keys + (set uid | uid in FirstSeen(log)), [])
  }

  /** A take-over, followed by the adoption of what the drivers list, is a start the lifecycle results apply to:
      the trail already equals the leases, those found only in the cluster aside. */
  lemma StartupIsInit(records: seq<Record>, items: Items, adoptions: seq<Record>, closings: seq<Record>,
                      drivers: set<string>, adopting: bool, holder: string, since: Time, until: Time,
                      listed: seq<ActiveFault>, listing: seq<Record>, cluster: map<string, string>, now: Time)
    requires TakenOver(records, items, adoptions, closings, drivers, adopting, holder, since, until)
    requires now > NEVER
    requires forall r :: r in listing ==> r.event == LeaseAdopted || r.faultUID == ""
    requires var leases := AdoptAll(items, holder, listed);
             forall e :: e in cluster ==> cluster[e] in leases && leases[cluster[e]].engineUID == e
    ensures var leases := AdoptAll(items, holder, listed);
            Init(Startup(records + adoptions + closings + listing, leases, cluster, now), leases.Keys - items.Keys)
  {
    var leases := AdoptAll(items, holder, listed);
    RecoveryIsExact(records, items, adoptions, closings, drivers, adopting, holder, since, until);
    StartupLeases(records, items, adoptions, closings, drivers, adopting, holder, since, until, listed);
    StartupLog(records + adoptions + closings, items, listing);
    StartupMeetsInit(records + adoptions + closings + listing, items, leases, cluster, now);
  }

  lemma StartupMeetsInit(log: seq<Record>, items: Items, leases: Items, cluster: map<string, string>, now: Time)
    requires now > NEVER && Keyed(leases) && "" !in leases && "" !in FirstSeen(log)
    requires items.Keys <= leases.Keys && forall uid :: uid in items ==> leases[uid] == items[uid]
    requires LiveIn(FaultsOf(log)) == items.Keys && forall uid :: uid in items ==> Tells(Row(log, uid), items[uid])
    requires forall uid :: IsLive(Row(log, uid)) ==> uid in FirstSeen(log)
    requires forall e :: e in cluster ==> cluster[e] in leases && leases[cluster[e]].engineUID == e
    ensures Init(Startup(log, leases, cluster, now), leases.Keys - items.Keys)
  {
    assert leases.Keys - (leases.Keys - items.Keys) == items.Keys;
  }

  lemma StartupLeases(records: seq<Record>, items: Items, adoptions: seq<Record>, closings: seq<Record>,
                      drivers: set<string>, adopting: bool, holder: string, since: Time, until: Time,
                      listed: seq<ActiveFault>)
    requires TakenOver(records, items, adoptions, closings, drivers, adopting, holder, since, until)
    ensures var leases := AdoptAll(items, holder, listed);
            && Keyed(leases) && "" !in leases && items.Keys <= leases.Keys
            && forall uid :: uid in items ==> leases[uid] == items[uid]
  {
    forall uid | uid in items ensures items[uid].faultUID == uid && uid != "" {
      AdoptedRow(records, items, adoptions, closings, drivers, adopting, holder, since, until, uid);
    }
    AdoptionKeepsHeldLeases(items, holder, listed);
    AdoptionAddsTheListed(items, holder, listed);
  }

  lemma StartupLog(log: seq<Record>, items: Items, listing: seq<Record>)
    requires forall r :: r in listing ==> r.event == LeaseAdopted || r.faultUID == ""
    requires LiveIn(FaultsOf(log)) == items.Keys
    requires forall uid :: uid in items ==> Tells(Row(log, uid), items[uid])
    ensures LiveIn(FaultsOf(log + listing)) == items.Keys
    ensures forall uid :: uid in items ==> Tells(Row(log + listing, uid), items[uid])
    ensures forall uid :: IsLive(Row(log + listing, uid)) ==> uid in FirstSeen(log + listing)
    ensures "" !in FirstSeen(log + listing)
  {
    FirstSeenIsExact(log + listing);
    forall uid
      ensures uid in LiveIn(FaultsOf(log + listing)) <==> uid in items
      ensures uid in items ==> Tells(Row(log + listing, uid), items[uid])
      ensures IsLive(Row(log + listing, uid)) ==> uid in FirstSeen(log + listing)
    {
      ListingKeepsRow(log, listing, uid);
    }
  }

  lemma ListingKeepsRow(log: seq<Record>, listing: seq<Record>, uid: string)
    requires forall r :: r in listing ==> r.event == LeaseAdopted || r.faultUID == ""
    ensures SameStanding(Row(log, uid), Row(log + listing, uid))
    ensures uid in LiveIn(FaultsOf(log + listing)) <==> uid in LiveIn(FaultsOf(log))
    ensures IsLive(Row(log + listing, uid)) ==> uid in FirstSeen(log + listing)
  {
    LiveIsPerFault(log + listing, uid);
    LiveIsPerFault(log, uid);
    AdoptionsKeepStanding(log, listing, uid);
    if uid !in FirstSeen(log + listing) {
      UnseenHasNoRecords(log + listing, uid);
    }
  }

  predicate Rebuildable(af: ActiveFault, drivers: set<string>) {
    && af.engineUID != "" && af.manifest.engine != "" && af.manifest.engine in drivers
    && af.manifest.targets != [] && af.manifest.resourceKind != ""
  }

  /** A live row that a lease can be rebuilt from until the end of the take-over is taken. */
  lemma RecordedIsAdopted(records: seq<Record>, items: Items, adoptions: seq<Record>, closings: seq<Record>,
                          drivers: set<string>, holder: string, since: Time, until: Time, uid: string, af: ActiveFault)
    requires TakenOver(records, items, adoptions, closings, drivers, true, holder, since, until) && uid != ""
    requires IsLive(Row(records, uid)) && Tells(Row(records, uid), af)
    requires Rebuildable(af, drivers) && WholeSecond(af.deadline) > until
    ensures uid in items
  {
    LiveIsPerFault(records, uid);
    var row :| row in FaultsOf(records) && IsLive(row) && row.faultUID == uid;
    RowByUID(records, row);
    assert Revived(row, until).Some?;
  }
}
