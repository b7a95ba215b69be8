/** The lifecycle never hangs: whatever the interleaving, every operation under way has a step to take. */
module LifecycleProgress {
  import opened Vocabulary
  import opened AuditTrail
  import opened Leases
  import opened Slots
  import opened Lifecycle
  import opened LifecycleCap

  /** The next step of an apply that the lock does not keep waiting; a check that is being made may refuse. */
  function ApplyTurn(s: State, t: Tid): ApplyStep
    requires t in s.applies
  {
    match s.applies[t].phase
    case Received => EnterReserve
    case Reading(_) => LeaveReserve(false)
    case Denied => RefuseEarly("")
    case Reserved => FailReserved(true, "")
    case Failing => DropSlot
    case Accepted(_) => RegisterLease(s.now)
    case Registered(_) => RecordApply
    case Stamping(_) => HandBack
    case HandedOver(_) => AnnounceApplied
    case Announced(_) => Succeed
  }

  predicate Underway(s: State, t: Tid) {
    t in s.applies || t in s.clearers || t in s.sweeps
  }

  /** While nobody holds the executor's lock, every operation under way can move, and so can who holds it. */
  lemma EachCanMove(cfg: Config, s: State, t: Tid) returns (a: Step)
    requires Underway(s, t) && (s.locked == None || s.locked == Some(t))
    requires t in s.applies && s.applies[t].phase.Reading? <==> s.locked == Some(t)
    ensures Enabled(cfg, s, a) && (a.ApplyMove? || a.ClearMove?) && a.t == t
  {
    if t in s.applies {
      a := ApplyMove(t, ApplyTurn(s, t));
    } else if t in s.clearers {
      a := ClearMove(t, match s.clearers[t].phase
                        case Asking => DriverRefuses
                        case Gone => ForgetLease
                        case Forgotten => ReportEnd
                        case Refusing => ReportRefusal);
    } else {
      a := ClearMove(t, if s.sweeps[t] == [] then EndSweep else NextInSweep);
    }
  }

  /**
   * In every run an operation under way can move, or waits for the executor's lock, and then the apply that holds it
   * can move; whatever the driver answers, a clear can go on either way.
   */
  lemma LifecycleNeverHangs(cfg: Config, s0: State, live: set<string>, steps: seq<Step>, s: State, t: Tid)
    returns (u: Tid, a: Step)
    requires Init(s0, live) && Reaches(cfg, s0, steps, s) && Underway(s, t)
    ensures Enabled(cfg, s, a) && (a.ApplyMove? || a.ClearMove?) && a.t == u
    ensures u == if s.locked.Some? then s.locked.value else t
    ensures t in s.clearers && s.clearers[t].phase == Asking ==>
      Enabled(cfg, s, ClearMove(t, DriverClears)) && Enabled(cfg, s, ClearMove(t, DriverRefuses))
  {
    CapHolds(cfg, s0, live, steps, s);
    u := if s.locked.Some? then s.locked.value else t;
    a := EachCanMove(cfg, s, u);
  }

  // ----- What the machine leaves to the world -----

  /** A record that names no fault, or is none of the lifecycle's own about it. */
  predicate EndsNothing(r: Record) {
    || r.faultUID == ""
    || r.event in {ExecutorValidated, FaultPrecheck, FaultInjected, FaultEfficacy, FaultRecovered, LeaseRegistered}
  }

  /** Time passes, records of no end are written, requests come in and sweeps begin, whatever else is under way. */
  lemma WorldMayAct(cfg: Config, s: State, t: Tid, elapsed: nat, r: Record, m: Manifest, uid: string, actor: string,
                    batch: seq<ActiveFault>)
    ensures Enabled(cfg, s, Tick(elapsed))
    ensures r.ts == s.now && EndsNothing(r) ==> Enabled(cfg, s, Note(r))
    ensures Unused(s, t) && FreshUID(s, m.uid) ==> Enabled(cfg, s, ApplyMove(t, Receive(m)))
    ensures Unused(s, t) && uid in s.leases ==> Enabled(cfg, s, ClearMove(t, AskClear(uid, actor)))
    ensures Unused(s, t) && ListsOverdue(s, batch) ==> Enabled(cfg, s, ClearMove(t, StartSweep(s.now, batch)))
  {
  }

  /** The leases whose deadline has passed, in any order. */
  ghost predicate ListsOverdue(s: State, batch: seq<ActiveFault>) {
    forall af :: af in batch <==>
      af.faultUID in s.leases && s.leases[af.faultUID] == af && af.deadline != NEVER && af.deadline < s.now
  }

  /** Narrowing keeps the fault's identity and the namespaces it targets. */
  ghost predicate SameFaultAndPlace(narrowed: Manifest, m: Manifest) {
    narrowed.uid == m.uid && narrowed.TargetNamespaces() == m.TargetNamespaces()
  }

  /**
   * An apply that is being checked may be admitted exactly when there is room under the cap for one more beside the
   * leases it saw, and every namespace it targets has rested; one that is admitted the driver may take or refuse; and
   * one that was announced may be taken back for four reasons and no other.
   */
  lemma AdmissionAndDriver(cfg: Config, s: State, t: Tid, narrowed: Manifest, engineUID: string, reason: string,
                           why: string)
    requires t in s.applies
    ensures s.applies[t].phase.Reading? ==>
      (Enabled(cfg, s, ApplyMove(t, LeaveReserve(true))) <==>
        && (cfg.maxConcurrentFaults <= 0 || s.applies[t].phase.seen + s.slots.inFlight < cfg.maxConcurrentFaults)
        && (cfg.minCooldown <= 0
            || forall ns :: ns in s.applies[t].manifest.TargetNamespaces() ==>
                 (ns !in s.slots.inFlightNS || s.slots.inFlightNS[ns] <= 0)
                 && (ns !in s.slots.lastApplyByNS || s.slots.lastApplyByNS[ns] + cfg.minCooldown <= s.now)))
    ensures s.applies[t].phase.Reserved? ==> Enabled(cfg, s, ApplyMove(t, FailReserved(true, reason)))
    ensures s.applies[t].phase.Reserved? && SameFaultAndPlace(narrowed, s.applies[t].manifest) ==>
      Enabled(cfg, s, ApplyMove(t, DriverAccepts(narrowed, engineUID)))
    ensures s.applies[t].phase.Announced? ==>
      (Enabled(cfg, s, ApplyMove(t, Abandon(why))) <==>
        why in {"probe-failed", "injection-failed", "interrupted", "probe-not-configured"})
  {
  }
}
