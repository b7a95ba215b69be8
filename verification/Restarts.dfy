/**
 * Leases across restarts (cmd/simian/serve.go, pkg/audit/faults.go, pkg/lease/adopt.go). A process may stop at any
 * moment, between a registry change and its event included, and the next one reads what rotation kept of its trail.
 */
module Restarts {
  import opened Vocabulary
  import opened AuditTrail
  import opened Leases
  import opened Slots
  import opened Lifecycle
  import opened LifecycleIdentity
  import opened LifecycleLeaks
  import opened LifecycleTrail
  import opened RestartRecovery
  import opened Retention
  import F = FileAudit

  // ----- One process and its trail -----

  /** An apply the driver has accepted whose lease does not exist yet. */
  ghost predicate BetweenDriverAndLease(s: State, uid: string) {
    exists t :: t in s.applies && s.applies[t].phase.Accepted? && s.applies[t].manifest.uid == uid
  }

  predicate SameFault(a: Manifest, b: Manifest) {
    a.engine == b.engine && a.resourceKind == b.resourceKind && a.spec == b.spec && a.targets == b.targets
      && a.duration == b.duration
  }

  /** What the trail of a running process says of one fault, at any moment. */
  lemma WhatTheTrailSays(s: State, live: set<string>, uid: string)
    requires TrailInv(s, live)
    ensures IsLive(Row(s.log, uid)) ==> uid !in live && (uid in s.leases || PendingEnd(s, uid))
    ensures StillAnnouncing(s, uid) || BetweenDriverAndLease(s, uid) ==> Row(s.log, uid).appliedAt == NEVER
    ensures uid in s.leases && uid !in live && !StillAnnouncing(s, uid) ==>
      IsLive(Row(s.log, uid)) && Tells(Row(s.log, uid), s.leases[uid])
  {
    assert TruthAbout(s, live, uid);
    if StillAnnouncing(s, uid) {
      var t :| At(s, t, Announcing) && s.applies[t].manifest.uid == uid;
      assert ApplyTold(s, t);
    }
    if BetweenDriverAndLease(s, uid) {
      var t :| t in s.applies && s.applies[t].phase.Accepted? && s.applies[t].manifest.uid == uid;
      assert ApplyTold(s, t) && At(s, t, Early);
    }
  }

  // ----- What the next process adopts from it -----

  /**
   * Every fault the next process adopts from what is kept of the trail is applied and open on the whole trail, unless
   * rotation let go of a record that closed it and kept the announcement that came after. Then it is one the last
   * process had leased itself, with the same object and fault and the deadline to the second, or one it had just
   * cleared and not yet said so.
   */
  lemma RestartAdoptsOnlyLeases(cfg: Config, s0: State, live: set<string>, steps: seq<Step>, s: State,
                                kept: seq<Record>, items: Items, adoptions: seq<Record>, closings: seq<Record>,
                                drivers: set<string>, adopting: bool, holder: string, since: Time, until: Time,
                                uid: string)
    requires Init(s0, live) && Reaches(cfg, s0, steps, s) && F.IsSuffix(kept, s.log)
    requires TakenOver(kept, items, adoptions, closings, drivers, adopting, holder, since, until) && uid in items
    ensures HasAnnouncement(kept, uid)
    ensures IsLive(Row(s.log, uid)) <==> Row(LetGo(s.log, kept), uid).outcome == Open
    ensures IsLive(Row(s.log, uid)) ==> uid !in live && (uid !in s.leases ==> PendingEnd(s, uid))
    ensures uid in s.leases && uid !in live ==>
      && IsLive(Row(s.log, uid)) && items[uid].engineUID == s.leases[uid].engineUID
      && items[uid].deadline == WholeSecond(s.leases[uid].deadline)
      && (CompletelyAnnounced(kept, uid) ==> SameFault(items[uid].manifest, s.leases[uid].manifest))
  {
    TrailHolds(cfg, s0, live, steps, s);
    WhatTheTrailSays(s, live, uid);
    AdoptedAsRecorded(kept, items, adoptions, closings, drivers, adopting, holder, since, until, uid);
    KeptShowsLive(LetGo(s.log, kept), kept, uid);
    KeptRetells(LetGo(s.log, kept), kept, uid);
    assert TruthAbout(s, live, uid);
  }

  /** A lease the take-over can rebuild and whose written deadline is still ahead when it is over. */
  predicate Holdable(af: ActiveFault, drivers: set<string>, until: Time) {
    Rebuildable(af, drivers) && WholeSecond(af.deadline) > until
  }

  /** The deadline passes while the take-over looks at its rows: then what it adopts depends on the clock. */
  predicate PassesMeanwhile(af: ActiveFault, since: Time, until: Time) {
    since < WholeSecond(af.deadline) <= until
  }

  /**
   * Of its own leases the next process adopts exactly those whose announcement was kept, that a lease can be rebuilt
   * from, and whose written deadline lies ahead.
   */
  lemma RestartRestoresLeases(cfg: Config, s0: State, live: set<string>, steps: seq<Step>, s: State,
                              kept: seq<Record>, items: Items, adoptions: seq<Record>, closings: seq<Record>,
                              drivers: set<string>, holder: string, since: Time, until: Time, uid: string)
    requires Init(s0, live) && Reaches(cfg, s0, steps, s) && F.IsSuffix(kept, s.log)
    requires TakenOver(kept, items, adoptions, closings, drivers, true, holder, since, until)
    requires uid in s.leases && uid !in live && CompletelyAnnounced(kept, uid)
    requires !PassesMeanwhile(s.leases[uid], since, until)
    ensures uid in items <==> HasAnnouncement(kept, uid) && Holdable(s.leases[uid], drivers, until)
  {
    IdentityHolds(cfg, s0, live, steps, s);
    if uid in items {
      RestartAdoptsOnlyLeases(cfg, s0, live, steps, s, kept, items, adoptions, closings, drivers, true, holder,
        since, until, uid);
      AdoptedAsRecorded(kept, items, adoptions, closings, drivers, true, holder, since, until, uid);
    } else if HasAnnouncement(kept, uid) && Holdable(s.leases[uid], drivers, until) {
      TrailHolds(cfg, s0, live, steps, s);
      AnnouncedLeaseShows(s, live, kept, uid);
      RecordedIsAdopted(kept, items, adoptions, closings, drivers, holder, since, until, uid, s.leases[uid]);
    }
  }

  lemma AnnouncedLeaseShows(s: State, live: set<string>, kept: seq<Record>, uid: string)
    requires TrailInv(s, live) && F.IsSuffix(kept, s.log) && uid != ""
    requires uid in s.leases && uid !in live && HasAnnouncement(kept, uid) && CompletelyAnnounced(kept, uid)
    ensures IsLive(Row(kept, uid)) && Tells(Row(kept, uid), s.leases[uid])
  {
    KeptRetells(LetGo(s.log, kept), kept, uid);
    WhatTheTrailSays(s, live, uid);
    LiveShowsIfAnnounced(LetGo(s.log, kept), kept, uid);
  }

  /** An announcement that was made and that rotation let go of. */
  ghost predicate AnnouncementLost(log: seq<Record>, kept: seq<Record>, uid: string)
    requires F.IsSuffix(kept, log)
  {
    HasAnnouncement(LetGo(log, kept), uid) && !HasAnnouncement(kept, uid)
  }

  /**
   * What a crash leaves to the cluster's own listing. Of the engine objects the stopped process left behind, and had
   * applied itself or adopted from a trail, the take-over does not bring back exactly those of an apply that had not
   * announced its fault, with or without its lease, those whose announcement rotation let go of, and those whose lease
   * cannot be rebuilt or is over. Those it knew from the cluster alone stay so unless rotation cut off their end.
   */
  lemma OnlyTheClusterKnows(cfg: Config, s0: State, live: set<string>, steps: seq<Step>, s: State,
                            kept: seq<Record>, items: Items, adoptions: seq<Record>, closings: seq<Record>,
                            drivers: set<string>, holder: string, since: Time, until: Time, e: string)
    requires Init(s0, live) && Reaches(cfg, s0, steps, s) && e in s.cluster && F.IsSuffix(kept, s.log)
    requires TakenOver(kept, items, adoptions, closings, drivers, true, holder, since, until)
    requires CompletelyAnnounced(kept, s.cluster[e])
    requires s.cluster[e] in s.leases ==> !PassesMeanwhile(s.leases[s.cluster[e]], since, until)
    ensures
      var uid := s.cluster[e];
      if uid in live then uid in items ==> Row(LetGo(s.log, kept), uid).outcome != Open
      else
        uid !in items <==>
          || BetweenDriverAndLease(s, uid) || StillAnnouncing(s, uid) || AnnouncementLost(s.log, kept, uid)
          || (uid in s.leases && !Holdable(s.leases[uid], drivers, until))
  {
    var uid := s.cluster[e];
    NoLeakedFault(cfg, s0, live, steps, s);
    TrailHolds(cfg, s0, live, steps, s);
    IdentityHolds(cfg, s0, live, steps, s);
    assert Answered(s, e);
    if uid in items {
      RestartAdoptsOnlyLeases(cfg, s0, live, steps, s, kept, items, adoptions, closings, drivers, true, holder,
        since, until, uid);
    }
    if uid !in live {
      WhatWasAnnounced(s, live, kept, uid);
      if uid in s.leases {
        RestartRestoresLeases(cfg, s0, live, steps, s, kept, items, adoptions, closings, drivers, holder,
          since, until, uid);
      } else {
        assert BetweenDriverAndLease(s, uid);
      }
    }
  }

  /** An apply that is not through announcing has nothing on the trail; any other own lease was announced. */
  lemma WhatWasAnnounced(s: State, live: set<string>, kept: seq<Record>, uid: string)
    requires TrailInv(s, live) && F.IsSuffix(kept, s.log) && uid != "" && CompletelyAnnounced(kept, uid)
    ensures StillAnnouncing(s, uid) || BetweenDriverAndLease(s, uid) ==> !HasAnnouncement(kept, uid)
    ensures uid in s.leases && uid !in live && !StillAnnouncing(s, uid) && !HasAnnouncement(kept, uid) ==>
      AnnouncementLost(s.log, kept, uid)
  {
    WhatTheTrailSays(s, live, uid);
    KeptRetells(LetGo(s.log, kept), kept, uid);
    AppliedWasAnnounced(LetGo(s.log, kept), uid);
  }

  lemma AppliedWasAnnounced(records: seq<Record>, uid: string)
    requires uid != ""
    ensures Row(records, uid).appliedAt != NEVER ==> HasAnnouncement(records, uid)
  {
    KeptRetells([], records, uid);
  }

  // ----- Two inputs -----

  function AnnouncementOf(af: ActiveFault, at: Time): Record {
    Record(at, DriverApplied, af.faultUID, af.manifest.planID, "", af.manifest.source, "",
           AuditPayload(af.manifest).(engineUID := af.engineUID, deadline := Some(WholeSecond(af.deadline))))
  }

  function ExplicitClear(uid: string, at: Time): Record {
    Record(at, LeaseCleared, uid, "", "", "", "explicit-clear", EMPTY_PAYLOAD)
  }

  /** A record of something else, as every attack cycle leaves some. */
  function OtherRecord(at: Time): Record {
    Record(at, OtherEvent("cycle.started"), "", "", "", "", "", EMPTY_PAYLOAD)
  }

  /** The emission of each record, by a file system that does as it is asked. */
  function Emissions(log: seq<Record>, encode: Record -> F.Chunk): seq<F.Emission> {
    seq(|log|, i requires 0 <= i < |log| =>
      F.Emission(encode(log[i]), F.Answers(false, false, false, |encode(log[i])|)))
  }

  /** The files of a controller that started without any and logged these records. */
  ghost function FilesAfter(log: seq<Record>, encode: Record -> F.Chunk, max: nat): F.Trail {
    F.After(F.Trail(true, 0, [], [], []), max, Emissions(log, encode))
  }

  /** Each line reads back, and a file has room for one of them but not for two. */
  ghost predicate OneLineAFile(log: seq<Record>, encode: Record -> F.Chunk, decode: F.Chunk -> Option<Record>,
      max: nat) {
    && (forall r :: r in log ==> decode(encode(r)) == Some(r) && 0 < |encode(r)| <= max)
    && (forall i :: 0 < i < |log| ==> |encode(log[i - 1])| + |encode(log[i])| > max)
  }

  /** What a new controller reads from the files of one that logged these records. */
  ghost function KeptOf(log: seq<Record>, encode: Record -> F.Chunk, decode: F.Chunk -> Option<Record>, max: nat)
    : seq<Record>
  {
    var files := FilesAfter(log, encode, max);
    ReadBack(files.previous + files.current, decode)
  }

  lemma OneMoreFile(log: seq<Record>, r: Record, encode: Record -> F.Chunk, max: nat, previous: seq<F.Chunk>,
                    last: F.Chunk)
    requires FilesAfter(log, encode, max).isOpen && FilesAfter(log, encode, max).previous == previous
    requires FilesAfter(log, encode, max).current == [last] && FilesAfter(log, encode, max).size == |last| > 0
    requires |last| + |encode(r)| > max
    ensures var files := FilesAfter(log + [r], encode, max);
      files.isOpen && files.previous == [last] && files.current == [encode(r)] && files.size == |encode(r)|
  {
    var all := Emissions(log + [r], encode);
    assert all[..|log|] == Emissions(log, encode);
  }

  lemma FirstFile(r: Record, encode: Record -> F.Chunk, max: nat)
    ensures var files := FilesAfter([r], encode, max);
      files.isOpen && files.previous == [] && files.current == [encode(r)] && files.size == |encode(r)|
  {
    var e := Emissions([r], encode);
    assert e[..0] == [] && F.After(F.Trail(true, 0, [], [], []), max, e[..0]) == F.Trail(true, 0, [], [], []);
    assert [] + [encode(r)] == [encode(r)];
  }

  lemma ReadBackSnoc(chunks: seq<F.Chunk>, c: F.Chunk, r: Record, decode: F.Chunk -> Option<Record>)
    requires decode(c) == Some(r)
    ensures ReadBack(chunks + [c], decode) == ReadBack(chunks, decode) + [r]
  {
    assert (chunks + [c])[..|chunks|] == chunks;
  }

  lemma TwoReadBack(x: F.Chunk, y: F.Chunk, b: Record, c: Record, decode: F.Chunk -> Option<Record>)
    requires decode(x) == Some(b) && decode(y) == Some(c)
    ensures ReadBack([x] + [y], decode) == [b, c]
  {
    ReadBackSnoc([], x, b, decode);
    ReadBackSnoc([x], y, c, decode);
    assert [] + [x] == [x] && [] + [b] == [b];
  }

  /** Of three such lines the two files hold the last two. */
  lemma LastTwoAreKept(a: Record, b: Record, c: Record, encode: Record -> F.Chunk, decode: F.Chunk -> Option<Record>,
                       max: nat)
    requires OneLineAFile([a, b, c], encode, decode, max)
    ensures KeptOf([a, b, c], encode, decode, max) == [b, c] && F.IsSuffix([b, c], [a, b, c])
  {
    var log := [a, b, c];
    assert a == log[0] && b == log[1] && c == log[2];
    FirstFile(a, encode, max);
    assert [a] + [b] == [a, b] && [a, b] + [c] == log;
    OneMoreFile([a], b, encode, max, [], encode(a));
    OneMoreFile([a, b], c, encode, max, [encode(a)], encode(b));
    TwoReadBack(encode(b), encode(c), b, c, decode);
  }

  /** A controller with nothing running. */
  ghost function Idle(now: Time, leases: Items, cluster: map<string, string>, log: seq<Record>,
      known: set<string>): State {
    State(now, NO_SLOTS, None, leases, cluster, map[], map[], map[], log, known, [])
  }

  lemma AnnouncedRow(row: FaultRow, af: ActiveFault, at: Time)
    requires at != NEVER
    ensures Absorb(row, AnnouncementOf(af, at)).outcome == row.outcome && Tells(Absorb(row, AnnouncementOf(af, at)), af)
  {
  }

  lemma ClearedRow(row: FaultRow, at: Time)
    ensures Absorb(row, ExplicitClear(row.faultUID, at)).outcome == Cleared
  {
  }

  /** Records of no fault leave every row as it was. */
  lemma UnnamedChangesNoRow(log: seq<Record>, r: Record, u: string)
    requires r.faultUID == ""
    ensures Row(log + [r], u) == Row(log, u)
  {
    RowOfExtension(log, r, u);
  }

  lemma NoRow(u: string)
    ensures Row([], u).outcome == Open && Row([], u).appliedAt == NEVER && Row([], u).faultUID == u
  {
  }

  lemma RowOfAnnouncement(af: ActiveFault, at: Time, u: string)
    requires af.faultUID != "" && at != NEVER
    ensures
      var row := Row([AnnouncementOf(af, at)], u);
      row.outcome == Open && if u == af.faultUID then Tells(row, af) else row.appliedAt == NEVER
  {
    var r := AnnouncementOf(af, at);
    NoRow(u);
    RowOfExtension([], r, u);
    assert [] + [r] == [r];
    AnnouncedRow(Row([], u), af, at);
  }

  lemma RowOfClear(uid: string, at: Time, u: string)
    requires uid != ""
    ensures
      var row := Row([ExplicitClear(uid, at)], u);
      if u == uid then row.outcome == Cleared else row == Row([], u)
  {
    var q := ExplicitClear(uid, at);
    NoRow(u);
    RowOfExtension([], q, u);
    assert [] + [q] == [q];
    ClearedRow(Row([], u), at);
  }

  lemma RowOfClearThenAnnouncement(af: ActiveFault, at: Time, u: string)
    requires af.faultUID != "" && at != NEVER
    ensures
      var row := Row([ExplicitClear(af.faultUID, at), AnnouncementOf(af, at)], u);
      if u == af.faultUID then row.outcome == Cleared else row.appliedAt == NEVER
  {
    var q, r := ExplicitClear(af.faultUID, at), AnnouncementOf(af, at);
    NoRow(u);
    RowOfClear(af.faultUID, at, u);
    RowOfExtension([q], r, u);
    assert [q] + [r] == [q, r];
    AnnouncedRow(Row([q], u), af, at);
  }

  /** What a trail has to show of a fault for a start that holds its lease, or for one without any. */
  ghost predicate ShowsOnly(log: seq<Record>, af: ActiveFault) {
    && (forall u :: IsLive(Row(log, u)) <==> u == af.faultUID) && Tells(Row(log, af.faultUID), af)
    && LiveIn(FaultsOf(log)) == {af.faultUID}
  }

  ghost predicate ShowsNothing(log: seq<Record>) {
    (forall u :: !IsLive(Row(log, u))) && LiveIn(FaultsOf(log)) == {}
  }

  lemma LiveRowsAre(log: seq<Record>, uids: set<string>)
    requires "" !in uids && forall u :: IsLive(Row(log, u)) <==> u in uids
    ensures LiveIn(FaultsOf(log)) == uids
  {
    forall u ensures u in LiveIn(FaultsOf(log)) <==> u in uids { LiveIsPerFault(log, u); }
  }

  lemma AnnouncedThenOthers(af: ActiveFault, at: Time)
    requires af.faultUID != "" && at != NEVER
    ensures ShowsOnly([AnnouncementOf(af, at), OtherRecord(at)], af)
    ensures ShowsOnly([AnnouncementOf(af, at), OtherRecord(at), OtherRecord(at)], af)
  {
    var r, o := AnnouncementOf(af, at), OtherRecord(at);
    assert [r] + [o] == [r, o] && [r, o] + [o] == [r, o, o];
    forall u
      ensures Row([r, o], u) == Row([r], u) && Row([r, o, o], u) == Row([r], u)
      ensures IsLive(Row([r], u)) <==> u in {af.faultUID}
    {
      UnnamedChangesNoRow([r], o, u);
      UnnamedChangesNoRow([r, o], o, u);
      RowOfAnnouncement(af, at, u);
    }
    LiveRowsAre([r, o], {af.faultUID});
    LiveRowsAre([r, o, o], {af.faultUID});
    RowOfAnnouncement(af, at, af.faultUID);
  }

  lemma ClearedThenAnnounced(af: ActiveFault, at: Time)
    requires af.faultUID != "" && at != NEVER
    ensures
      var log := [ExplicitClear(af.faultUID, at), AnnouncementOf(af, at), OtherRecord(at)];
      ShowsNothing(log) && Row(log, af.faultUID).outcome == Cleared
  {
    var q, r, o := ExplicitClear(af.faultUID, at), AnnouncementOf(af, at), OtherRecord(at);
    assert [q, r] + [o] == [q, r, o];
    forall u
      ensures Row([q, r, o], u) == Row([q, r], u) && (IsLive(Row([q, r, o], u)) <==> u in {})
    {
      UnnamedChangesNoRow([q, r], o, u);
      RowOfClearThenAnnouncement(af, at, u);
    }
    LiveRowsAre([q, r, o], {});
    RowOfClearThenAnnouncement(af, at, af.faultUID);
  }

  /** A trail that shows one fault running is one a controller may start with that leases just this fault. */
  lemma StartsWithOneLease(af: ActiveFault, now: Time, log: seq<Record>) returns (s: State)
    requires af.faultUID != "" && now > NEVER && ShowsOnly(log, af)
    ensures Init(s, {}) && s.log == log
    ensures s.leases == map[af.faultUID := af] && s.cluster == map[af.engineUID := af.faultUID]
  {
    var uid := af.faultUID;
    s := Idle(now, map[uid := af], map[af.engineUID := uid], log, {uid});
  }

  lemma AnnouncementIsThere(af: ActiveFault, at: Time)
    requires at != NEVER
    ensures
      var log := [AnnouncementOf(af, at), OtherRecord(at), OtherRecord(at)];
      HasAnnouncement(log, af.faultUID) && AllComplete(log)
  {
    var log := [AnnouncementOf(af, at), OtherRecord(at), OtherRecord(at)];
    assert log[0] in log && IsAnnouncement(log[0], af.faultUID);
  }

  lemma RowOfOthers(at: Time, u: string)
    ensures Row([OtherRecord(at), OtherRecord(at)], u) == Row([], u)
  {
    var o := OtherRecord(at);
    assert [] + [o] == [o] && [o] + [o] == [o, o];
    UnnamedChangesNoRow([], o, u);
    UnnamedChangesNoRow([o], o, u);
  }

  lemma NothingToTakeOver(items: Items, adoptions: seq<Record>, closings: seq<Record>, drivers: set<string>,
                          holder: string, at: Time, since: Time, until: Time)
    requires TakenOver([OtherRecord(at), OtherRecord(at)], items, adoptions, closings, drivers, true, holder, since,
      until)
    ensures items == map[]
  {
    forall u ensures u !in items {
      RowOfOthers(at, u);
      NoRow(u);
      if u in items {
        AdoptedAsRecorded([OtherRecord(at), OtherRecord(at)], items, adoptions, closings, drivers, true, holder, since,
          until, u);
      }
    }
  }

  /**
   * A fault is applied and announced, and two more records of other things rotate its announcement away. Its lease is
   * held, its deadline lies ahead, and no take-over of what the files hold adopts anything.
   */
  lemma LeaseLostToRotation(af: ActiveFault, encode: Record -> F.Chunk, decode: F.Chunk -> Option<Record>, max: nat,
                            items: Items, adoptions: seq<Record>, closings: seq<Record>, drivers: set<string>,
                            holder: string, since: Time, until: Time) returns (s: State, kept: seq<Record>)
    requires af.faultUID != "" && since > NEVER && Holdable(af, drivers, until)
    requires OneLineAFile([AnnouncementOf(af, since), OtherRecord(since), OtherRecord(since)], encode, decode, max)
    requires TakenOver([OtherRecord(since), OtherRecord(since)], items, adoptions, closings, drivers, true, holder,
      since, until)
    ensures Init(s, {}) && s.leases == map[af.faultUID := af] && s.cluster == map[af.engineUID := af.faultUID]
    ensures HasAnnouncement(s.log, af.faultUID) && AllComplete(s.log)
    ensures kept == [OtherRecord(since), OtherRecord(since)]
    ensures kept == KeptOf(s.log, encode, decode, max) && F.IsSuffix(kept, s.log)
    ensures items == map[]
  {
    var r, o := AnnouncementOf(af, since), OtherRecord(since);
    kept := [o, o];
    AnnouncedThenOthers(af, since);
    s := StartsWithOneLease(af, since, [r, o, o]);
    AnnouncementIsThere(af, since);
    LastTwoAreKept(r, o, o, encode, decode, max);
    NothingToTakeOver(items, adoptions, closings, drivers, holder, since, since, until);
  }

  /**
   * A fault that was cleared between its registration and its announcement has its closing record first. One more
   * record rotates that away and leaves the announcement: every take-over of what the files hold adopts a fault that
   * is gone and was reported so.
   */
  lemma ClearedYetTakenOver(af: ActiveFault, encode: Record -> F.Chunk, decode: F.Chunk -> Option<Record>, max: nat,
                            items: Items, adoptions: seq<Record>, closings: seq<Record>, drivers: set<string>,
                            holder: string, since: Time, until: Time) returns (s: State, kept: seq<Record>)
    requires af.faultUID != "" && since > NEVER && Holdable(af, drivers, until)
    requires OneLineAFile([ExplicitClear(af.faultUID, since), AnnouncementOf(af, since), OtherRecord(since)], encode,
      decode, max)
    requires TakenOver([AnnouncementOf(af, since), OtherRecord(since)], items, adoptions, closings, drivers, true,
      holder, since, until)
    ensures Init(s, {}) && s.leases == map[] && s.cluster == map[] && Row(s.log, af.faultUID).outcome == Cleared
    ensures kept == [AnnouncementOf(af, since), OtherRecord(since)]
    ensures kept == KeptOf(s.log, encode, decode, max) && F.IsSuffix(kept, s.log)
    ensures af.faultUID in items
  {
    var q, r, o := ExplicitClear(af.faultUID, since), AnnouncementOf(af, since), OtherRecord(since);
    s := Idle(since, map[], map[], [q, r, o], {});
    kept := [r, o];
    ClearedThenAnnounced(af, since);
    LastTwoAreKept(q, r, o, encode, decode, max);
    AnnouncedThenOthers(af, since);
    RecordedIsAdopted(kept, items, adoptions, closings, drivers, holder, since, until, af.faultUID, af);
  }
}
