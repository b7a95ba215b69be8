/** Which operation speaks for which fault: the bookkeeping both the no-leak and the trail results rest on. */
module LifecycleIdentity {
  import opened Leases
  import opened Slots
  import opened Lifecycle

  /** Before RegisterLease: the fault has no lease and never had one. */
  predicate NotYetLeased(p: ApplyPhase) {
    p.Received? || p.Reading? || p.Denied? || p.Reserved? || p.Failing? || p.Accepted?
  }

  ghost predicate LeasesKnown(s: State) {
    Keyed(s.leases) && s.leases.Keys <= s.known && "" !in s.known
  }

  ghost predicate AppliesIdentified(s: State) {
    && (forall t, u :: t in s.applies && u in s.applies && t != u ==>
      s.applies[t].manifest.uid != s.applies[u].manifest.uid)
    && (forall t :: t in s.applies ==> s.applies[t].manifest.uid != "" && t !in s.clearers && t !in s.sweeps)
    && (forall t :: t in s.applies && NotYetLeased(s.applies[t].phase) ==> s.applies[t].manifest.uid !in s.known)
    && (forall t :: t in s.applies && !NotYetLeased(s.applies[t].phase) ==>
          LeaseStands(s, s.applies[t].manifest.uid, s.applies[t].phase.lease)
            && s.applies[t].phase.lease.manifest == s.applies[t].manifest)
  }

  /** A lease somebody remembers: known, and unchanged if it is still held. */
  ghost predicate LeaseStands(s: State, uid: string, af: ActiveFault) {
    && af.faultUID == uid && uid in s.known
    && (uid in s.leases ==> s.leases[uid] == af)
  }

  ghost predicate EngineStands(s: State, c: ClearOp) {
    && c.uid in s.known
    && (c.uid in s.leases ==> s.leases[c.uid].engineUID == c.engineUID)
  }

  ghost predicate ClearersIdentified(s: State) {
    && (forall t :: t in s.clearers ==> EngineStands(s, s.clearers[t]))
    && (forall t, i :: t in s.sweeps && 0 <= i < |s.sweeps[t]| ==>
      LeaseStands(s, s.sweeps[t][i].faultUID, s.sweeps[t][i]))
  }

  ghost predicate IdentityInv(s: State) {
    LeasesKnown(s) && AppliesIdentified(s) && ClearersIdentified(s)
  }

  /** Leases of known faults are never changed or brought back. */
  ghost predicate Persists(s: State, s': State) {
    && s.known <= s'.known
    && forall uid :: uid in s.known && uid in s'.leases ==> uid in s.leases && s'.leases[uid] == s.leases[uid]
  }

  lemma StandsPersists(s: State, s': State)
    requires Persists(s, s')
    ensures forall uid, af :: LeaseStands(s, uid, af) ==> LeaseStands(s', uid, af)
    ensures forall c :: EngineStands(s, c) ==> EngineStands(s', c)
  {
  }

  /** Outside the goroutine that moves, everything about operations stays put. */
  ghost predicate OthersStay(s: State, s': State, t: Tid) {
    && (forall x :: x != t ==>
      (x in s.applies <==> x in s'.applies) && (x in s.applies ==> s'.applies[x] == s.applies[x]))
    && (forall x :: x != t ==>
      (x in s.clearers <==> x in s'.clearers) && (x in s.clearers ==> s'.clearers[x] == s.clearers[x]))
    && (forall x :: x != t ==> (x in s.sweeps <==> x in s'.sweeps) && (x in s.sweeps ==> s'.sweeps[x] == s.sweeps[x]))
  }

  /** What the moving goroutine has to show for the bookkeeping to survive. */
  ghost predicate MoverIdentified(s: State, s': State, t: Tid) {
    && (t in s'.clearers ==> EngineStands(s', s'.clearers[t]))
    && (t in s'.sweeps ==> forall i :: 0 <= i < |s'.sweeps[t]| ==>
      LeaseStands(s', s'.sweeps[t][i].faultUID, s'.sweeps[t][i]))
    && (t in s'.applies ==>
          && s'.applies[t].manifest.uid != "" && t !in s'.clearers && t !in s'.sweeps
          && (forall x :: x in s.applies && x != t ==> s.applies[x].manifest.uid != s'.applies[t].manifest.uid)
          && (if NotYetLeased(s'.applies[t].phase) then s'.applies[t].manifest.uid !in s'.known
              else LeaseStands(s', s'.applies[t].manifest.uid, s'.applies[t].phase.lease)
                   && s'.applies[t].phase.lease.manifest == s'.applies[t].manifest))
  }

  lemma AppliesStayIdentified(s: State, s': State, t: Tid)
    requires IdentityInv(s) && Persists(s, s') && OthersStay(s, s', t) && MoverIdentified(s, s', t)
    requires forall x :: x in s.applies && x != t && NotYetLeased(s.applies[x].phase) ==>
      s.applies[x].manifest.uid !in s'.known
    ensures AppliesIdentified(s')
  {
    forall x ensures IdentifiedAt(s', x) {
      if x in s'.applies && x != t { OtherStaysIdentified(s, s', t, x); }
    }
    OthersStayDistinct(s, s', t);
    EachIdentified(s');
  }

  lemma EachIdentified(s: State)
    requires forall x :: IdentifiedAt(s, x)
    requires forall x, y :: x in s.applies && y in s.applies && x != y ==>
      s.applies[x].manifest.uid != s.applies[y].manifest.uid
    ensures AppliesIdentified(s)
  {
    forall x | x in s.applies ensures IdentifiedAt(s, x) { }
  }

  /** What the bookkeeping says of one apply. */
  ghost predicate IdentifiedAt(s: State, x: Tid) {
    x in s.applies ==>
      && s.applies[x].manifest.uid != "" && x !in s.clearers && x !in s.sweeps
      && (if NotYetLeased(s.applies[x].phase) then s.applies[x].manifest.uid !in s.known
          else LeaseStands(s, s.applies[x].manifest.uid, s.applies[x].phase.lease)
               && s.applies[x].phase.lease.manifest == s.applies[x].manifest)
  }

  lemma OtherStaysIdentified(s: State, s': State, t: Tid, x: Tid)
    requires AppliesIdentified(s) && Persists(s, s') && OthersStay(s, s', t) && x in s.applies && x != t
    requires NotYetLeased(s.applies[x].phase) ==> s.applies[x].manifest.uid !in s'.known
    ensures IdentifiedAt(s', x)
  {
  }

  lemma OthersStayDistinct(s: State, s': State, t: Tid)
    requires AppliesIdentified(s) && OthersStay(s, s', t) && MoverIdentified(s, s', t)
    ensures forall x, y :: x in s'.applies && y in s'.applies && x != y ==>
      s'.applies[x].manifest.uid != s'.applies[y].manifest.uid
  {
  }

  lemma ClearersStayIdentified(s: State, s': State, t: Tid)
    requires IdentityInv(s) && Persists(s, s') && OthersStay(s, s', t) && MoverIdentified(s, s', t)
    ensures ClearersIdentified(s')
  {
    StandsPersists(s, s');
  }

  lemma OperationsStayIdentified(s: State, s': State, t: Tid)
    requires IdentityInv(s) && Persists(s, s') && OthersStay(s, s', t) && MoverIdentified(s, s', t)
    requires LeasesKnown(s')
    requires forall x :: x in s.applies && x != t && NotYetLeased(s.applies[x].phase) ==>
      s.applies[x].manifest.uid !in s'.known
    ensures IdentityInv(s')
  {
    AppliesStayIdentified(s, s', t);
    ClearersStayIdentified(s, s', t);
  }

  lemma ApplyMovesOnlyItself(cfg: Config, s: State, t: Tid, a: ApplyStep)
    requires ApplyEnabled(cfg, s, t, a) && !a.RegisterLease?
    ensures OthersStay(s, NextApply(cfg, s, t, a), t)
    ensures NextApply(cfg, s, t, a).leases == s.leases && NextApply(cfg, s, t, a).known == s.known
  {
    if a.Receive? || a.RefuseEarly? || a.EnterReserve? || a.LeaveReserve? || a.FailReserved? || a.DropSlot? {
      OpeningMovesOnlyItself(cfg, s, t, a);
    }
  }

  lemma OpeningMovesOnlyItself(cfg: Config, s: State, t: Tid, a: ApplyStep)
    requires ApplyEnabled(cfg, s, t, a)
    requires a.Receive? || a.RefuseEarly? || a.EnterReserve? || a.LeaveReserve? || a.FailReserved? || a.DropSlot?
    ensures OthersStay(s, NextApply(cfg, s, t, a), t)
    ensures NextApply(cfg, s, t, a).leases == s.leases && NextApply(cfg, s, t, a).known == s.known
  {
  }

  lemma EarlyMoverIdentified(cfg: Config, s: State, t: Tid, a: ApplyStep)
    requires IdentityInv(s) && ApplyEnabled(cfg, s, t, a)
    requires a.Receive? || a.RefuseEarly? || a.EnterReserve? || a.LeaveReserve? || a.FailReserved? || a.DropSlot?
      || a.DriverAccepts?
    ensures MoverIdentified(s, NextApply(cfg, s, t, a), t)
  {
  }

  lemma LateMoverKeepsLease(cfg: Config, s: State, t: Tid, a: ApplyStep)
    requires ApplyEnabled(cfg, s, t, a)
    requires a.RecordApply? || a.HandBack? || a.AnnounceApplied? || a.Succeed?
    ensures var s' := NextApply(cfg, s, t, a);
            && t in s.applies && !NotYetLeased(s.applies[t].phase)
            && (t in s'.applies ==>
                  && s'.applies[t].manifest == s.applies[t].manifest
                  && !NotYetLeased(s'.applies[t].phase) && s'.applies[t].phase.lease == s.applies[t].phase.lease)
            && s'.clearers == s.clearers && s'.sweeps == s.sweeps && s'.leases == s.leases && s'.known == s.known
  {
  }

  lemma LateMoverIdentified(cfg: Config, s: State, t: Tid, a: ApplyStep)
    requires IdentityInv(s) && ApplyEnabled(cfg, s, t, a)
    requires a.RecordApply? || a.HandBack? || a.AnnounceApplied? || a.Succeed?
    ensures MoverIdentified(s, NextApply(cfg, s, t, a), t)
  {
    LateMoverKeepsLease(cfg, s, t, a);
    StandsPersists(s, NextApply(cfg, s, t, a));
  }

  lemma AbandonIdentified(cfg: Config, s: State, t: Tid, a: ApplyStep)
    requires IdentityInv(s) && ApplyEnabled(cfg, s, t, a) && a.Abandon?
    ensures MoverIdentified(s, NextApply(cfg, s, t, a), t)
  {
    assert LeaseStands(s, s.applies[t].manifest.uid, s.applies[t].phase.lease);
  }

  /** A lease appears only for a fault nobody leased before, so every remembered lease still stands. */
  lemma RegisterIdentified(cfg: Config, s: State, t: Tid, a: ApplyStep)
    requires IdentityInv(s) && a.RegisterLease? && ApplyEnabled(cfg, s, t, a)
    ensures var s' := NextApply(cfg, s, t, a);
            && OthersStay(s, s', t) && Persists(s, s') && MoverIdentified(s, s', t) && LeasesKnown(s')
            && s'.known == s.known + {s.applies[t].manifest.uid}
  {
    RegisterAddsOneLease(cfg, s, t, a);
    LeaseAdded(s, NextApply(cfg, s, t, a), t);
    RegisteredIdentified(s, NextApply(cfg, s, t, a), t);
  }

  lemma LeaseAdded(s: State, s': State, t: Tid)
    requires IdentityInv(s) && t in s.applies && NotYetLeased(s.applies[t].phase)
    requires t in s'.applies && s'.applies[t].phase.Registered?
    requires s'.applies[t].phase.lease.faultUID == s.applies[t].manifest.uid
    requires s'.leases == s.leases[s.applies[t].manifest.uid := s'.applies[t].phase.lease]
    requires s'.known == s.known + {s.applies[t].manifest.uid}
    ensures Persists(s, s') && LeasesKnown(s')
    ensures LeaseStands(s', s.applies[t].manifest.uid, s'.applies[t].phase.lease)
  {
  }

  lemma RegisteredIdentified(s: State, s': State, t: Tid)
    requires AppliesIdentified(s) && t in s.applies && t in s'.applies && s'.applies[t].phase.Registered?
    requires s'.applies[t].manifest == s.applies[t].manifest == s'.applies[t].phase.lease.manifest
    requires LeaseStands(s', s.applies[t].manifest.uid, s'.applies[t].phase.lease)
    requires s'.clearers == s.clearers && s'.sweeps == s.sweeps
    ensures MoverIdentified(s, s', t)
  {
  }

  lemma RegisterAddsOneLease(cfg: Config, s: State, t: Tid, a: ApplyStep)
    requires a.RegisterLease? && ApplyEnabled(cfg, s, t, a)
    ensures
      var s' := NextApply(cfg, s, t, a);
      && t in s.applies && s.applies[t].phase.Accepted? && t in s'.applies
      && s'.applies == s.applies[t := s'.applies[t]] && s'.applies[t].phase.Registered?
      && s'.applies[t].manifest == s.applies[t].manifest
      && s'.applies[t].phase.lease.manifest == s.applies[t].manifest
      && s'.applies[t].phase.lease.faultUID == s.applies[t].manifest.uid
      && s'.leases == s.leases[s.applies[t].manifest.uid := s'.applies[t].phase.lease]
      && s'.clearers == s.clearers && s'.sweeps == s.sweeps
      && s'.known == s.known + {s.applies[t].manifest.uid}
  {
  }

  lemma ApplyKeepsIdentity(cfg: Config, s: State, t: Tid, a: ApplyStep)
    requires IdentityInv(s) && ApplyEnabled(cfg, s, t, a)
    ensures IdentityInv(NextApply(cfg, s, t, a)) && Persists(s, NextApply(cfg, s, t, a))
      && OthersStay(s, NextApply(cfg, s, t, a), t)
  {
    if a.RegisterLease? {
      RegisterIdentified(cfg, s, t, a);
    } else if a.Abandon? {
      ApplyMovesOnlyItself(cfg, s, t, a);
      AbandonIdentified(cfg, s, t, a);
    } else if a.RecordApply? || a.HandBack? || a.AnnounceApplied? || a.Succeed? {
      ApplyMovesOnlyItself(cfg, s, t, a);
      LateMoverIdentified(cfg, s, t, a);
    } else {
      ApplyMovesOnlyItself(cfg, s, t, a);
      EarlyMoverIdentified(cfg, s, t, a);
    }
    OperationsStayIdentified(s, NextApply(cfg, s, t, a), t);
  }

  lemma ClearMovesIdentified(s: State, t: Tid, c: ClearStep)
    requires IdentityInv(s) && ClearEnabled(s, t, c)
    ensures var s' := NextClear(s, t, c);
            && OthersStay(s, s', t) && Persists(s, s') && LeasesKnown(s') && s'.known == s.known
            && s'.applies == s.applies
  {
  }

  lemma ClearMoverIdentified(s: State, t: Tid, c: ClearStep)
    requires IdentityInv(s) && ClearEnabled(s, t, c)
    ensures var s' := NextClear(s, t, c);
            && (t in s'.clearers ==> EngineStands(s, s'.clearers[t]))
            && (t in s'.sweeps ==> forall i :: 0 <= i < |s'.sweeps[t]| ==>
              LeaseStands(s, s'.sweeps[t][i].faultUID, s'.sweeps[t][i]))
  {
    match c
    case NextInSweep =>
      assert LeaseStands(s, s.sweeps[t][0].faultUID, s.sweeps[t][0]);
    case _ =>
  }

  lemma ClearKeepsIdentity(s: State, t: Tid, c: ClearStep)
    requires IdentityInv(s) && ClearEnabled(s, t, c)
    ensures IdentityInv(NextClear(s, t, c)) && Persists(s, NextClear(s, t, c)) && OthersStay(s, NextClear(s, t, c), t)
  {
    var s' := NextClear(s, t, c);
    ClearMovesIdentified(s, t, c);
    ClearMoverIdentified(s, t, c);
    StandsPersists(s, s');
    OperationsStayIdentified(s, s', t);
  }

  lemma IdentityStep(cfg: Config, s: State, a: Step)
    requires IdentityInv(s) && Enabled(cfg, s, a)
    ensures IdentityInv(Next(cfg, s, a)) && Persists(s, Next(cfg, s, a))
  {
    match a
    case ApplyMove(t, b) => ApplyKeepsIdentity(cfg, s, t, b);
    case ClearMove(t, c) => ClearKeepsIdentity(s, t, c);
    case _ => StandsPersists(s, Next(cfg, s, a));
  }

  lemma {:induction false} IdentityHolds(cfg: Config, s0: State, adoptedFromCluster: set<string>, steps: seq<Step>,
      s: State)
    requires Init(s0, adoptedFromCluster) && Reaches(cfg, s0, steps, s)
    ensures IdentityInv(s)
  {
    if steps != [] {
      var front, last := steps[..|steps| - 1], steps[|steps| - 1];
      var before := Run(cfg, s0, front).value;
      IdentityHolds(cfg, s0, adoptedFromCluster, front, before);
      IdentityStep(cfg, before, last);
    }
  }
}
