/** The trail tells the truth: folding the emitted events gives back the leases. */
module LifecycleTrail {
  import opened Vocabulary
  import opened AuditTrail
  import opened Leases
  import opened Slots
  import opened Lifecycle
  import opened LifecycleIdentity

  /** How far the trail can speak about an apply. */
  datatype Stage = Early | Failed | Announcing | Told

  function StageOf(p: ApplyPhase): Stage {
    match p
    case Failing => Failed
    case Registered(_) => Announcing
    case Stamping(_) => Announcing
    case HandedOver(_) => Announcing
    case Announced(_) => Told
    case _ => Early
  }

  ghost predicate At(s: State, t: Tid, stage: Stage) {
    t in s.applies && StageOf(s.applies[t].phase) == stage
  }

  ghost predicate StillAnnouncing(s: State, uid: string) {
    exists t :: At(s, t, Announcing) && s.applies[t].manifest.uid == uid
  }

  /** Someone forgot the lease and has yet to say so. */
  ghost predicate PendingEnd(s: State, uid: string) {
    exists t :: t in s.clearers && s.clearers[t].phase == Forgotten && s.clearers[t].uid == uid
  }

  /** Leased, or ended on the record, or about to be. */
  ghost predicate Accounted(s: State, uid: string) {
    uid in s.leases || Row(s.log, uid).outcome != Open || PendingEnd(s, uid)
  }

  ghost predicate ApplyTold(s: State, t: Tid)
    requires t in s.applies
  {
    var uid := s.applies[t].manifest.uid;
    && (!At(s, t, Told) ==> Row(s.log, uid).appliedAt == NEVER)
    && (At(s, t, Early) ==> Row(s.log, uid).outcome == Open)
    && (At(s, t, Announcing) ==> Accounted(s, uid))
  }

  /** The trail's account of one fault agrees with what is running: its applies, its lease and its row.
      `live` are the leases taken from the cluster, of which the trail holds no apply. */
  ghost predicate TruthAbout(s: State, live: set<string>, uid: string) {
    && (forall t :: t in s.applies && s.applies[t].manifest.uid == uid ==> uid !in live && ApplyTold(s, t))
    && (uid in s.leases && uid !in live ==>
          Row(s.log, uid).outcome == Open && (StillAnnouncing(s, uid) || Tells(Row(s.log, uid), s.leases[uid])))
    && (IsLive(Row(s.log, uid)) ==> uid !in live && (uid in s.leases || PendingEnd(s, uid)))
  }

  ghost predicate ClearersTold(s: State) {
    && (forall t :: t in s.clearers && s.clearers[t].phase == Forgotten ==> s.clearers[t].uid !in s.leases)
    && (forall t :: t in s.clearers && s.clearers[t].kind.Abandoning? ==> s.clearers[t].kind.why in ABANDON_REASONS)
  }

  ghost predicate TrailInv(s: State, live: set<string>) {
    s.now > NEVER && live <= s.known && ClearersTold(s) && forall uid :: TruthAbout(s, live, uid)
  }

  // ----- What one record does to a row -----

  ghost predicate SameRows(s: State, s': State) {
    forall uid :: SameStanding(Row(s.log, uid), Row(s'.log, uid))
  }

  ghost predicate SameOtherRows(s: State, s': State, uid: string) {
    forall u :: u != uid ==> Row(s'.log, u) == Row(s.log, u)
  }

  lemma InformationalRow(row: FaultRow, r: Record)
    requires Informational(r.event)
    ensures SameStanding(row, Absorb(row, r))
  {
  }

  lemma LeftInPlaceRow(row: FaultRow, r: Record)
    requires r.event == LeaseCleared && LeftInPlace(r)
    ensures SameStanding(row, Absorb(row, r))
  {
  }

  lemma InformationalLeavesStanding(log: seq<Record>, r: Record, uid: string)
    requires Informational(r.event) || (r.event == LeaseCleared && LeftInPlace(r)) || r.faultUID == ""
    ensures SameStanding(Row(log, uid), Row(log + [r], uid))
  {
    RowOfExtension(log, r, uid);
    if Informational(r.event) {
      InformationalRow(Row(log, uid), r);
    } else if r.faultUID != "" {
      LeftInPlaceRow(Row(log, uid), r);
    }
  }

  lemma NoRecordsNoRow(log: seq<Record>, uid: string)
    requires uid != "" && forall r :: r in log ==> r.faultUID != uid
    ensures Row(log, uid) == NewRow(uid)
  {
    FirstSeenIsExact(log);
    UnseenHasNoRecords(log, uid);
  }

  // ----- Moves that say nothing new -----

  /** Leases, closing obligations and the stages of the applies stay; the rows keep their standing. */
  ghost predicate Quiet(s: State, s': State) {
    && s'.leases == s.leases && s.known <= s'.known && s'.now >= s.now && SameRows(s, s')
    && (forall t :: t in s'.applies ==> t in s.applies && s'.applies[t].manifest.uid == s.applies[t].manifest.uid
                                        && StageOf(s'.applies[t].phase) == StageOf(s.applies[t].phase))
    && (forall t :: At(s, t, Announcing) ==> t in s'.applies)
    && (forall t :: t in s.clearers && s.clearers[t].phase == Forgotten ==>
      t in s'.clearers && s'.clearers[t] == s.clearers[t])
    && (forall t :: t in s'.clearers && s'.clearers[t].phase == Forgotten ==>
      t in s.clearers && s'.clearers[t] == s.clearers[t])
    && (forall t :: t in s'.clearers && s'.clearers[t].kind.Abandoning? ==>
          s'.clearers[t].kind.why in ABANDON_REASONS || (t in s.clearers && s'.clearers[t].kind == s.clearers[t].kind))
  }

  /** What a step owes the faults it does not speak about. */
  ghost predicate ObligationsStay(s: State, s': State, uid: string) {
    && (PendingEnd(s, uid) ==> PendingEnd(s', uid))
    && (StillAnnouncing(s, uid) ==> StillAnnouncing(s', uid))
    && (Accounted(s, uid) ==> Accounted(s', uid))
  }

  lemma QuietKeepsObligations(s: State, s': State, uid: string)
    requires Quiet(s, s')
    ensures ObligationsStay(s, s', uid)
  {
    assert SameStanding(Row(s.log, uid), Row(s'.log, uid));
    if StillAnnouncing(s, uid) {
      var t :| At(s, t, Announcing) && s.applies[t].manifest.uid == uid;
      assert At(s', t, Announcing);
    }
    if PendingEnd(s, uid) {
      var t :| t in s.clearers && s.clearers[t].phase == Forgotten && s.clearers[t].uid == uid;
      assert t in s'.clearers;
    }
  }

  lemma QuietKeepsTruth(s: State, s': State, live: set<string>, uid: string)
    requires TruthAbout(s, live, uid) && Quiet(s, s')
    ensures TruthAbout(s', live, uid)
  {
    assert SameStanding(Row(s.log, uid), Row(s'.log, uid));
    QuietKeepsObligations(s, s', uid);
    forall t | t in s'.applies && s'.applies[t].manifest.uid == uid ensures ApplyTold(s', t) {
      assert ApplyTold(s, t);
    }
  }

  lemma QuietKeepsTrail(s: State, s': State, live: set<string>)
    requires TrailInv(s, live) && Quiet(s, s')
    ensures TrailInv(s', live)
  {
    forall uid ensures TruthAbout(s', live, uid) {
      QuietKeepsTruth(s, s', live, uid);
    }
  }

  /** The one goroutine that moves keeps its stage, or leaves while nothing is owed. */
  ghost predicate QuietMover(s: State, s': State, t: Tid) {
    && (t in s'.applies ==> t in s.applies && s'.applies[t].manifest.uid == s.applies[t].manifest.uid
                            && StageOf(s'.applies[t].phase) == StageOf(s.applies[t].phase))
    && (At(s, t, Announcing) ==> t in s'.applies)
    && (t in s'.clearers && t in s.clearers ==> s'.clearers[t].kind == s.clearers[t].kind)
    && (t in s'.clearers && t !in s.clearers && s'.clearers[t].kind.Abandoning? ==>
      s'.clearers[t].kind.why in ABANDON_REASONS)
    && (t in s.clearers ==> s.clearers[t].phase != Forgotten)
    && (t in s'.clearers ==> s'.clearers[t].phase != Forgotten)
  }

  lemma QuietMoveIsQuiet(s: State, s': State, t: Tid)
    requires OthersStay(s, s', t) && QuietMover(s, s', t)
    requires s'.leases == s.leases && s'.known == s.known && s'.now == s.now && SameRows(s, s')
    ensures Quiet(s, s')
  {
  }

  predicate SaysNothing(a: ApplyStep) {
    a.EnterReserve? || a.LeaveReserve? || a.DropSlot? || a.DriverAccepts? || a.RecordApply? || a.HandBack? || a.Succeed?
  }

  lemma SilentApplyKeepsLog(cfg: Config, s: State, t: Tid, a: ApplyStep)
    requires ApplyEnabled(cfg, s, t, a) && (SaysNothing(a) || a.Abandon?)
    ensures NextApply(cfg, s, t, a).log == s.log && NextApply(cfg, s, t, a).now == s.now
  {
  }

  lemma SilentEarlyMover(cfg: Config, s: State, t: Tid, a: ApplyStep)
    requires ApplyEnabled(cfg, s, t, a) && t !in s.clearers
    requires a.EnterReserve? || a.LeaveReserve? || a.DropSlot? || a.DriverAccepts?
    ensures QuietMover(s, NextApply(cfg, s, t, a), t)
  {
  }

  lemma SilentLateMover(cfg: Config, s: State, t: Tid, a: ApplyStep)
    requires ApplyEnabled(cfg, s, t, a) && t !in s.clearers
    requires a.RecordApply? || a.HandBack? || a.Succeed?
    ensures QuietMover(s, NextApply(cfg, s, t, a), t)
  {
  }

  lemma AbandonMover(cfg: Config, s: State, t: Tid, a: ApplyStep)
    requires ApplyEnabled(cfg, s, t, a) && a.Abandon? && t !in s.clearers
    ensures QuietMover(s, NextApply(cfg, s, t, a), t)
  {
  }

  lemma ApplyQuietly(cfg: Config, s: State, t: Tid, a: ApplyStep)
    requires ApplyEnabled(cfg, s, t, a) && (SaysNothing(a) || a.Abandon?) && t !in s.clearers
    ensures Quiet(s, NextApply(cfg, s, t, a))
  {
    SilentApplyKeepsLog(cfg, s, t, a);
    if a.Abandon? {
      AbandonMover(cfg, s, t, a);
    } else if a.RecordApply? || a.HandBack? || a.Succeed? {
      SilentLateMover(cfg, s, t, a);
    } else {
      SilentEarlyMover(cfg, s, t, a);
    }
    ApplyMovesOnlyItself(cfg, s, t, a);
    QuietMoveIsQuiet(s, NextApply(cfg, s, t, a), t);
  }

  lemma ClearQuietly(s: State, t: Tid, c: ClearStep)
    requires IdentityInv(s) && ClearEnabled(s, t, c) && !c.ForgetLease? && !c.ReportEnd?
    ensures Quiet(s, NextClear(s, t, c))
  {
    var s' := NextClear(s, t, c);
    ClearKeepsIdentity(s, t, c);
    if c.ReportRefusal? {
      RefusalLeavesRows(s, s.clearers[t]);
    }
    SilentClearMover(s, t, c);
    QuietMoveIsQuiet(s, s', t);
  }

  lemma SilentClearMover(s: State, t: Tid, c: ClearStep)
    requires ClearEnabled(s, t, c) && !c.ForgetLease? && !c.ReportEnd?
    ensures QuietMover(s, NextClear(s, t, c), t)
    ensures NextClear(s, t, c).leases == s.leases && NextClear(s, t, c).known == s.known
      && NextClear(s, t, c).now == s.now
    ensures c.ReportRefusal? || NextClear(s, t, c).log == s.log
  {
  }

  /** A failed clear's record leaves every row's standing alone: the reaper will close the fault. */
  lemma RefusalLeavesRows(s: State, c: ClearOp)
    ensures forall uid :: SameStanding(Row(s.log, uid), Row(s.log + RefusalRecords(s, c), uid))
  {
    if c.kind.Explicit? {
      assert s.log + RefusalRecords(s, c) == s.log;
    } else {
      var r := RefusalRecords(s, c)[0];
      assert RefusalRecords(s, c) == [r];
      forall uid ensures SameStanding(Row(s.log, uid), Row(s.log + [r], uid)) {
        InformationalLeavesStanding(s.log, r, uid);
      }
    }
  }

  // ----- Moves that speak about one fault -----

  /** Everything about every other fault stays as it was. */
  ghost predicate ConcernsOnly(s: State, s': State, uid: string) {
    && SameOtherRows(s, s', uid)
    && (forall u :: u != uid ==> (u in s'.leases <==> u in s.leases) && (u in s.leases ==> s'.leases[u] == s.leases[u]))
    && (forall t :: t in s'.applies && s'.applies[t].manifest.uid != uid ==>
      t in s.applies && s'.applies[t] == s.applies[t])
    && (forall t :: t in s.applies && s.applies[t].manifest.uid != uid ==>
      t in s'.applies && s'.applies[t] == s.applies[t])
    && (forall t :: t in s.clearers && s.clearers[t].uid != uid ==> t in s'.clearers && s'.clearers[t] == s.clearers[t])
  }

  lemma OthersKeepTruth(s: State, s': State, live: set<string>, uid: string, u: string)
    requires ConcernsOnly(s, s', uid) && TruthAbout(s, live, u) && u != uid
    ensures TruthAbout(s', live, u)
  {
    assert Row(s'.log, u) == Row(s.log, u);
    if StillAnnouncing(s, u) {
      var t :| At(s, t, Announcing) && s.applies[t].manifest.uid == u;
      assert At(s', t, Announcing);
    }
    if PendingEnd(s, u) {
      var t :| t in s.clearers && s.clearers[t].phase == Forgotten && s.clearers[t].uid == u;
      assert t in s'.clearers;
    }
    forall t | t in s'.applies && s'.applies[t].manifest.uid == u ensures ApplyTold(s', t) {
      assert ApplyTold(s, t);
    }
  }

  /** A move about one fault keeps the invariant as soon as the truth about that fault is kept. */
  lemma SpeakingKeepsTrail(s: State, s': State, live: set<string>, uid: string)
    requires TrailInv(s, live) && ConcernsOnly(s, s', uid) && TruthAbout(s', live, uid)
    requires s'.now == s.now && s.known <= s'.known && ClearersTold(s')
    ensures TrailInv(s', live)
  {
    forall u ensures TruthAbout(s', live, u) {
      if u != uid { OthersKeepTruth(s, s', live, uid, u); }
    }
  }

  // What the records that matter do to their own row.

  lemma ReceivedRow(log: seq<Record>, r: Record)
    requires r.event == ExecutorReceived && r.faultUID != "" && forall x :: x in log ==> x.faultUID != r.faultUID
    ensures Row(log + [r], r.faultUID).outcome == Open && Row(log + [r], r.faultUID).appliedAt == NEVER
  {
    RowOfExtension(log, r, r.faultUID);
    NoRecordsNoRow(log, r.faultUID);
  }

  lemma RefusedRow(log: seq<Record>, r: Record)
    requires (r.event == ExecutorRejected || r.event == DriverFailed) && r.faultUID != ""
    ensures Row(log + [r], r.faultUID).outcome != Open
      && Row(log + [r], r.faultUID).appliedAt == Row(log, r.faultUID).appliedAt
  {
    RowOfExtension(log, r, r.faultUID);
    AbsorbMoves(Row(log, r.faultUID), r);
  }

  lemma EndedRow(log: seq<Record>, r: Record)
    requires (r.event == LeaseExpired || (r.event == LeaseCleared && !LeftInPlace(r))) && r.faultUID != ""
    ensures Row(log + [r], r.faultUID).outcome != Open
      && Row(log + [r], r.faultUID).appliedAt == Row(log, r.faultUID).appliedAt
  {
    RowOfExtension(log, r, r.faultUID);
    AbsorbMoves(Row(log, r.faultUID), r);
  }

  lemma AppliedRow(s: State, af: ActiveFault)
    requires s.now > NEVER && af.manifest.uid == af.faultUID != ""
    ensures var log' := s.log + [AppliedRecord(s, af)];
            Row(log', af.faultUID).outcome == Row(s.log, af.faultUID).outcome && Tells(Row(log', af.faultUID), af)
  {
    RowOfExtension(s.log, AppliedRecord(s, af), af.faultUID);
    AbsorbMoves(Row(s.log, af.faultUID), AppliedRecord(s, af));
  }

  // The speaking moves, one by one.

  lemma ReceiveKeepsTrail(s: State, t: Tid, m: Manifest, live: set<string>)
    requires TrailInv(s, live) && IdentityInv(s) && Unused(s, t) && FreshUID(s, m.uid)
    ensures TrailInv(DoReceive(s, t, m), live)
  {
    var s' := DoReceive(s, t, m);
    var r := About(s, ExecutorReceived, m, "", AuditPayload(m));
    OtherRowsStay(s.log, r);
    ReceivedTruth(s, t, m, live);
    SpeakingKeepsTrail(s, s', live, m.uid);
  }

  lemma ReceivedTruth(s: State, t: Tid, m: Manifest, live: set<string>)
    requires TrailInv(s, live) && IdentityInv(s) && Unused(s, t) && FreshUID(s, m.uid)
    ensures TruthAbout(DoReceive(s, t, m), live, m.uid)
  {
    var s' := DoReceive(s, t, m);
    ReceivedRow(s.log, About(s, ExecutorReceived, m, "", AuditPayload(m)));
    assert forall x :: x in s'.applies && s'.applies[x].manifest.uid == m.uid ==> x == t;
    assert ApplyTold(s', t);
  }

  lemma RefuseEarlyKeepsTrail(s: State, t: Tid, reason: string, live: set<string>)
    requires TrailInv(s, live) && IdentityInv(s) && (In(s, t, Received) || In(s, t, Denied))
    ensures TrailInv(DoRefuseEarly(s, t, reason), live)
  {
    var s', uid := DoRefuseEarly(s, t, reason), s.applies[t].manifest.uid;
    var r := About(s, ExecutorRejected, s.applies[t].manifest, reason, EMPTY_PAYLOAD);
    OtherRowsStay(s.log, r);
    RefusedRow(s.log, r);
    SpeakingKeepsTrail(s, s', live, uid);
  }

  lemma FailReservedKeepsTrail(s: State, t: Tid, byDriver: bool, reason: string, live: set<string>)
    requires TrailInv(s, live) && IdentityInv(s) && In(s, t, Reserved)
    ensures TrailInv(DoFailReserved(s, t, byDriver, reason), live)
  {
    var s', uid := DoFailReserved(s, t, byDriver, reason), s.applies[t].manifest.uid;
    var event := if byDriver then DriverFailed else ExecutorRejected;
    var r := About(s, event, s.applies[t].manifest, reason, EMPTY_PAYLOAD);
    OtherRowsStay(s.log, r);
    assert TruthAbout(s, live, uid);
    FailReservedTruth(s, t, byDriver, reason, live);
    SpeakingKeepsTrail(s, s', live, uid);
  }

  lemma FailReservedTruth(s: State, t: Tid, byDriver: bool, reason: string, live: set<string>)
    requires IdentityInv(s) && In(s, t, Reserved) && TruthAbout(s, live, s.applies[t].manifest.uid)
    ensures TruthAbout(DoFailReserved(s, t, byDriver, reason), live, s.applies[t].manifest.uid)
  {
    var event := if byDriver then DriverFailed else ExecutorRejected;
    var r := About(s, event, s.applies[t].manifest, reason, EMPTY_PAYLOAD);
    RefusedTruth(s, DoFailReserved(s, t, byDriver, reason), t, r, live, s.applies[t].manifest.uid);
  }

  /** A refusal of an apply that holds no lease yet: its row ends before it ever was applied. */
  lemma RefusedTruth(s: State, s': State, t: Tid, r: Record, live: set<string>, uid: string)
    requires IdentityInv(s) && At(s, t, Early) && s.applies[t].manifest.uid == uid && TruthAbout(s, live, uid)
    requires NotYetLeased(s.applies[t].phase)
    requires s'.applies == s.applies[t := s.applies[t].(phase := Failing)]
    requires s'.clearers == s.clearers && s'.sweeps == s.sweeps && s'.leases == s.leases && s'.log == s.log + [r]
    requires (r.event == ExecutorRejected || r.event == DriverFailed) && r.faultUID == uid
    ensures TruthAbout(s', live, uid)
  {
    RefusedRow(s.log, r);
    assert ApplyTold(s, t);
    OneApplyTruth(s, s', t, live, uid);
  }

  /** For a fault with no lease, the truth is the truth about its one apply. */
  lemma OneApplyTruth(s: State, s': State, t: Tid, live: set<string>, uid: string)
    requires IdentityInv(s) && OthersStay(s, s', t) && t in s.applies && s.applies[t].manifest.uid == uid
    requires t in s'.applies && s'.applies[t].manifest.uid == uid && uid !in live
    requires uid !in s'.leases && ApplyTold(s', t) && !IsLive(Row(s'.log, uid))
    ensures TruthAbout(s', live, uid)
  {
  }

  /** Register: the lease appears while the apply still owes its driver.applied. */
  lemma RegisterTruth(s: State, t: Tid, at: Time, live: set<string>)
    requires IdentityInv(s) && t in s.applies && s.applies[t].phase.Accepted?
    requires TruthAbout(s, live, s.applies[t].manifest.uid)
    ensures TruthAbout(DoRegisterLease(s, t, at), live, s.applies[t].manifest.uid)
  {
    var s', uid := DoRegisterLease(s, t, at), s.applies[t].manifest.uid;
    assert ApplyTold(s, t) && At(s, t, Early);
    assert At(s', t, Announcing) && ApplyTold(s', t);
    assert forall x :: x in s'.applies && s'.applies[x].manifest.uid == uid ==> x == t;
  }

  lemma RegisterKeepsTrail(s: State, t: Tid, at: Time, live: set<string>)
    requires TrailInv(s, live) && IdentityInv(s) && t in s.applies && s.applies[t].phase.Accepted?
    ensures TrailInv(DoRegisterLease(s, t, at), live)
  {
    var s', uid := DoRegisterLease(s, t, at), s.applies[t].manifest.uid;
    assert TruthAbout(s, live, uid);
    RegisterTruth(s, t, at, live);
    assert ClearersTold(s') by {
      assert forall x :: x in s.clearers ==> EngineStands(s, s.clearers[x]);
    }
    SpeakingKeepsTrail(s, s', live, uid);
  }

  /** driver.applied: the row opens only if the lease is still held or its end is on the record or on its way. */
  lemma AnnounceTruth(s: State, t: Tid, live: set<string>)
    requires s.now > NEVER && IdentityInv(s) && t in s.applies && s.applies[t].phase.HandedOver?
    requires TruthAbout(s, live, s.applies[t].manifest.uid)
    ensures TruthAbout(DoAnnounceApplied(s, t), live, s.applies[t].manifest.uid)
  {
    var uid, af := s.applies[t].manifest.uid, s.applies[t].phase.lease;
    assert LeaseStands(s, uid, af);
    AppliedRow(s, af);
    AnnouncedTruth(s, DoAnnounceApplied(s, t), t, af, live, uid);
  }

  lemma AnnouncedTruth(s: State, s': State, t: Tid, af: ActiveFault, live: set<string>, uid: string)
    requires IdentityInv(s) && At(s, t, Announcing) && s.applies[t].manifest.uid == uid && TruthAbout(s, live, uid)
    requires LeaseStands(s, uid, af)
    requires s'.applies == s.applies[t := s.applies[t].(phase := Announced(af))]
    requires s'.clearers == s.clearers && s'.leases == s.leases
    requires Row(s'.log, uid).outcome == Row(s.log, uid).outcome && Tells(Row(s'.log, uid), af)
    ensures TruthAbout(s', live, uid)
  {
    AnnouncedIsTold(s, s', t, af, live, uid);
    NobodyElseApplies(s, s', t, uid);
    assert PendingEnd(s, uid) ==> PendingEnd(s', uid);
  }

  lemma AnnouncedIsTold(s: State, s': State, t: Tid, af: ActiveFault, live: set<string>, uid: string)
    requires At(s, t, Announcing) && s.applies[t].manifest.uid == uid && TruthAbout(s, live, uid)
    requires s'.applies == s.applies[t := s.applies[t].(phase := Announced(af))]
    requires Row(s'.log, uid).outcome == Row(s.log, uid).outcome && Tells(Row(s'.log, uid), af)
    ensures ApplyTold(s', t) && uid !in live
  {
    assert ApplyTold(s, t);
    assert At(s', t, Told);
  }

  lemma NobodyElseApplies(s: State, s': State, t: Tid, uid: string)
    requires IdentityInv(s) && t in s.applies && s.applies[t].manifest.uid == uid
    requires forall x :: x in s'.applies && x != t ==> x in s.applies && s'.applies[x] == s.applies[x]
    ensures forall x :: x in s'.applies && s'.applies[x].manifest.uid == uid ==> x == t
  {
  }

  lemma AnnounceKeepsTrail(s: State, t: Tid, live: set<string>)
    requires TrailInv(s, live) && IdentityInv(s) && t in s.applies && s.applies[t].phase.HandedOver?
    ensures TrailInv(DoAnnounceApplied(s, t), live)
  {
    var s', uid, af := DoAnnounceApplied(s, t), s.applies[t].manifest.uid, s.applies[t].phase.lease;
    assert LeaseStands(s, uid, af);
    OtherRowsStay(s.log, AppliedRecord(s, af));
    assert TruthAbout(s, live, uid);
    AnnounceTruth(s, t, live);
    SpeakingKeepsTrail(s, s', live, uid);
  }

  /** Forget: whoever drops the lease takes on the duty to say so. */
  lemma ForgetTruth(s: State, t: Tid, live: set<string>)
    requires Clearing(s, t, Gone) && TruthAbout(s, live, s.clearers[t].uid)
    ensures TruthAbout(NextClear(s, t, ForgetLease), live, s.clearers[t].uid)
  {
    var s', uid := NextClear(s, t, ForgetLease), s.clearers[t].uid;
    assert s'.clearers[t].phase == Forgotten && s'.clearers[t].uid == uid;
    assert PendingEnd(s', uid);
    forall x | x in s'.applies && s'.applies[x].manifest.uid == uid ensures ApplyTold(s', x) {
      assert ApplyTold(s, x);
    }
  }

  lemma ForgetKeepsTrail(s: State, t: Tid, live: set<string>)
    requires TrailInv(s, live) && Clearing(s, t, Gone)
    ensures TrailInv(NextClear(s, t, ForgetLease), live)
  {
    var s', uid := NextClear(s, t, ForgetLease), s.clearers[t].uid;
    assert TruthAbout(s, live, uid);
    ForgetTruth(s, t, live);
    assert ConcernsOnly(s, s', uid);
    assert ClearersTold(s');
    SpeakingKeepsTrail(s, s', live, uid);
  }

  /** The closing record ends the row it is about. */
  lemma ReportEndTruth(s: State, t: Tid, live: set<string>)
    requires IdentityInv(s) && ClearersTold(s) && Clearing(s, t, Forgotten) && TruthAbout(s, live, s.clearers[t].uid)
    ensures TruthAbout(NextClear(s, t, ReportEnd), live, s.clearers[t].uid)
  {
    var s', c := NextClear(s, t, ReportEnd), s.clearers[t];
    ClosingRecordEnds(s, c);
    EndedRow(s.log, ClosingRecord(s, c));
    assert EngineStands(s, c);
    forall x | x in s'.applies && s'.applies[x].manifest.uid == c.uid ensures ApplyTold(s', x) {
      assert ApplyTold(s, x);
    }
  }

  lemma ClosingRecordEnds(s: State, c: ClearOp)
    requires c.kind.Abandoning? ==> c.kind.why in ABANDON_REASONS
    ensures
      var r := ClosingRecord(s, c);
      r.faultUID == c.uid && (r.event == LeaseExpired || (r.event == LeaseCleared && !LeftInPlace(r)))
  {
  }

  lemma ReportEndKeepsTrail(s: State, t: Tid, live: set<string>)
    requires TrailInv(s, live) && IdentityInv(s) && Clearing(s, t, Forgotten)
    ensures TrailInv(NextClear(s, t, ReportEnd), live)
  {
    var s', c := NextClear(s, t, ReportEnd), s.clearers[t];
    assert TruthAbout(s, live, c.uid);
    ReportEndTruth(s, t, live);
    ClosingRecordEnds(s, c);
    OtherRowsStay(s.log, ClosingRecord(s, c));
    assert ConcernsOnly(s, s', c.uid);
    assert ClearersTold(s');
    SpeakingKeepsTrail(s, s', live, c.uid);
  }

  // ----- Every step, every run -----

  lemma ApplyKeepsTrail(cfg: Config, s: State, t: Tid, a: ApplyStep, live: set<string>)
    requires TrailInv(s, live) && IdentityInv(s) && ApplyEnabled(cfg, s, t, a)
    ensures TrailInv(NextApply(cfg, s, t, a), live)
  {
    match a
    case Receive(m) => ReceiveKeepsTrail(s, t, m, live);
    case RefuseEarly(reason) => RefuseEarlyKeepsTrail(s, t, reason, live);
    case FailReserved(byDriver, reason) => FailReservedKeepsTrail(s, t, byDriver, reason, live);
    case RegisterLease(at) => RegisterKeepsTrail(s, t, at, live);
    case AnnounceApplied => AnnounceKeepsTrail(s, t, live);
    case _ =>
      ApplyQuietly(cfg, s, t, a);
      QuietKeepsTrail(s, NextApply(cfg, s, t, a), live);
  }

  lemma ClearKeepsTrail(s: State, t: Tid, c: ClearStep, live: set<string>)
    requires TrailInv(s, live) && IdentityInv(s) && ClearEnabled(s, t, c)
    ensures TrailInv(NextClear(s, t, c), live)
  {
    match c
    case ForgetLease => ForgetKeepsTrail(s, t, live);
    case ReportEnd => ReportEndKeepsTrail(s, t, live);
    case _ =>
      ClearQuietly(s, t, c);
      QuietKeepsTrail(s, NextClear(s, t, c), live);
  }

  lemma TrailStep(cfg: Config, s: State, a: Step, live: set<string>)
    requires TrailInv(s, live) && IdentityInv(s) && Enabled(cfg, s, a)
    ensures TrailInv(Next(cfg, s, a), live)
  {
    match a
    case ApplyMove(t, b) => ApplyKeepsTrail(cfg, s, t, b, live);
    case ClearMove(t, c) => ClearKeepsTrail(s, t, c, live);
    case Tick(_) => QuietKeepsTrail(s, Next(cfg, s, a), live);
    case Note(r) =>
      forall uid ensures SameStanding(Row(s.log, uid), Row(s.log + [r], uid)) {
        InformationalLeavesStanding(s.log, r, uid);
      }
      QuietKeepsTrail(s, Next(cfg, s, a), live);
  }

  lemma InitIsTrue(s: State, live: set<string>)
    requires Init(s, live)
    ensures TrailInv(s, live)
  {
    forall uid ensures TruthAbout(s, live, uid) {
      LiveIsPerFault(s.log, uid);
      assert uid in s.leases && uid !in live ==> uid in LiveIn(FaultsOf(s.log));
    }
  }

  /** Nobody sits between changing the registry and saying so. */
  ghost predicate Quiescent(s: State) {
    && (forall t :: t in s.applies ==> StageOf(s.applies[t].phase) != Announcing)
    && (forall t :: t in s.clearers ==> s.clearers[t].phase != Forgotten)
  }

  lemma {:induction false} TrailHolds(cfg: Config, s0: State, live: set<string>, steps: seq<Step>, s: State)
    requires Init(s0, live) && Reaches(cfg, s0, steps, s)
    ensures TrailInv(s, live)
  {
    if steps == [] {
      InitIsTrue(s0, live);
    } else {
      var front, last := steps[..|steps| - 1], steps[|steps| - 1];
      var before := Run(cfg, s0, front).value;
      TrailHolds(cfg, s0, live, front, before);
      IdentityHolds(cfg, s0, live, front, before);
      TrailStep(cfg, before, last, live);
    }
  }

  /** Trail equals state. In every run, whenever no operation sits between its registry change and its event, folding
      the emitted events shows as applied-and-open exactly the leased faults (those adopted from the cluster aside), and
      each such row names its lease's engine object, deadline and fault. */
  lemma TrailEqualsState(cfg: Config, s0: State, live: set<string>, steps: seq<Step>, s: State)
    requires Init(s0, live) && Reaches(cfg, s0, steps, s) && Quiescent(s)
    ensures LiveIn(FaultsOf(s.log)) == s.leases.Keys - live
    ensures forall uid :: uid in s.leases && uid !in live ==> Tells(Row(s.log, uid), s.leases[uid])
  {
    TrailHolds(cfg, s0, live, steps, s);
    IdentityHolds(cfg, s0, live, steps, s);
    forall uid
      ensures uid in LiveIn(FaultsOf(s.log)) <==> uid in s.leases && uid !in live
      ensures uid in s.leases && uid !in live ==> Tells(Row(s.log, uid), s.leases[uid])
    {
      QuietTruth(s, live, uid);
    }
  }

  lemma QuietTruth(s: State, live: set<string>, uid: string)
    requires TrailInv(s, live) && IdentityInv(s) && Quiescent(s)
    ensures uid in LiveIn(FaultsOf(s.log)) <==> uid in s.leases && uid !in live
    ensures uid in s.leases && uid !in live ==> Tells(Row(s.log, uid), s.leases[uid])
  {
    LiveIsPerFault(s.log, uid);
    assert TruthAbout(s, live, uid);
  }

  /** In between, the two differ only by what somebody is about to say: a lease whose driver.applied is not out yet,
      or a live row whose lease is gone and whose closing event is not out yet. */
  lemma TrailLagsByPendingEvents(cfg: Config, s0: State, live: set<string>, steps: seq<Step>, s: State, uid: string)
    requires Init(s0, live) && Reaches(cfg, s0, steps, s) && uid != ""
    ensures uid in s.leases && uid !in live && !IsLive(Row(s.log, uid)) ==> StillAnnouncing(s, uid)
    ensures uid !in s.leases && IsLive(Row(s.log, uid)) ==> PendingEnd(s, uid)
  {
    TrailHolds(cfg, s0, live, steps, s);
    assert TruthAbout(s, live, uid);
  }
}
