/** The fault lifecycle as interleaved atomic steps: Executor.Apply and Clear and Reaper.Sweep, over the executor's
    slots, the lease registry, the engine's objects and the audit trail (pkg/executor/executor.go,
    pkg/lease/registry.go). Each step is one mutex-guarded section, one driver call or one emitted event. */
module Lifecycle {
  import opened Vocabulary
  import opened AuditTrail
  import opened Leases
  import opened Slots

  /** A goroutine inside Apply, Clear or Sweep. */
  type Tid = nat

  datatype ApplyPhase =
    | Received                        // executor.received is out; nothing is held
    | Reading(seen: nat)              // inside reserve: the registry was counted, the executor's mutex is held
    | Denied                          // reserve said no
    | Reserved                        // a slot is held; the cluster is untouched
    | Failing                         // refused or failed while holding a slot
    | Accepted(engineUID: string)     // the driver took the fault; no lease yet
    | Registered(lease: ActiveFault)  // leased; not yet stamped for the cooldown
    | Stamping(lease: ActiveFault)    // stamped; the slot is still held
    | HandedOver(lease: ActiveFault)  // slot released; driver.applied not yet out
    | Announced(lease: ActiveFault)   // driver.applied is out; injection and settle checks under way

  datatype ApplyOp = ApplyOp(manifest: Manifest, phase: ApplyPhase)

  datatype ClearKind = Abandoning(why: string) | Explicit(actor: string) | Reaping

  datatype ClearPhase =
    | Asking     // the driver is being asked to delete the engine's object
    | Gone       // the driver answered without an error; the lease is still held
    | Forgotten  // the lease is gone; the closing event is not out
    | Refusing   // the driver answered with an error

  datatype ClearOp = ClearOp(kind: ClearKind, uid: string, engineUID: string, phase: ClearPhase)

  /** One recordApply: which namespaces, and when. */
  datatype Stamp = Stamp(namespaces: set<string>, at: Time)

  datatype State = State(
    now: Time,
    slots: Slots,
    locked: Option<Tid>,             // who holds the executor's mutex across reserve
    leases: Items,
    cluster: map<string, string>,    // engine objects accepted and not cleared, with the fault that last asked for each
    applies: map<Tid, ApplyOp>,
    clearers: map<Tid, ClearOp>,
    sweeps: map<Tid, seq<ActiveFault>>,
    log: seq<Record>,
    known: set<string>,              // every fault that was ever leased
    stamps: seq<Stamp>)              // every recordApply so far

  /** Why abandon was called; it never names a failed clear. */
  const ABANDON_REASONS := {"probe-failed", "injection-failed", "interrupted", "probe-not-configured"}

  /** What a goroutine inside Apply may do next. */
  datatype ApplyStep =
    | Receive(manifest: Manifest)
    | RefuseEarly(reason: string)
    | EnterReserve
    | LeaveReserve(admitted: bool)
    | FailReserved(byDriver: bool, reason: string)
    | DropSlot
    | DriverAccepts(narrowed: Manifest, engineUID: string)
    | RegisterLease(at: Time)
    | RecordApply
    | HandBack
    | AnnounceApplied
    | Succeed
    | Abandon(why: string)

  /** What a goroutine inside abandon, Clear or Sweep may do next. */
  datatype ClearStep =
    | AskClear(uid: string, actor: string)
    | StartSweep(since: Time, batch: seq<ActiveFault>)
    | NextInSweep
    | EndSweep
    | DriverClears
    | DriverRefuses
    | ForgetLease
    | ReportEnd
    | ReportRefusal

  /** The clock, a record that ends no fault (or names none, as the orphan scan's do), or one goroutine's move. */
  datatype Step =
    | Tick(elapsed: nat)
    | Note(record: Record)
    | ApplyMove(t: Tid, apply: ApplyStep)
    | ClearMove(t: Tid, clear: ClearStep)

  predicate Informational(e: Event) {
    e in {ExecutorValidated, FaultPrecheck, FaultInjected, FaultEfficacy, FaultRecovered, LeaseRegistered}
  }

  ghost predicate Unused(s: State, t: Tid) {
    t !in s.applies && t !in s.clearers && t !in s.sweeps
  }

  /** A UID no record, lease or running apply has used: what the executor mints. */
  ghost predicate FreshUID(s: State, uid: string) {
    && uid != ""
    && uid !in s.known && uid !in s.leases
    && (forall r :: r in s.log ==> r.faultUID != uid)
    && (forall t :: t in s.applies ==> s.applies[t].manifest.uid != uid)
  }

  ghost predicate In(s: State, t: Tid, phase: ApplyPhase) {
    t in s.applies && s.applies[t].phase == phase
  }

  ghost predicate Clearing(s: State, t: Tid, phase: ClearPhase) {
    t in s.clearers && s.clearers[t].phase == phase
  }

  ghost predicate ApplyEnabled(cfg: Config, s: State, t: Tid, a: ApplyStep) {
    match a
    case Receive(m) => Unused(s, t) && FreshUID(s, m.uid)
    case RefuseEarly(_) => In(s, t, Received) || In(s, t, Denied)
    case EnterReserve => In(s, t, Received) && s.locked == None
    case LeaveReserve(admitted) =>
      && t in s.applies && s.applies[t].phase.Reading?
      && (admitted ==> CanReserve(cfg, s.applies[t].phase.seen, s.slots, s.applies[t].manifest.TargetNamespaces(),
        s.now))
    case FailReserved(_, _) => In(s, t, Reserved)
    case DropSlot => In(s, t, Failing) && s.locked == None
    case DriverAccepts(narrowed, _) =>
      && In(s, t, Reserved)
      && narrowed.uid == s.applies[t].manifest.uid
      && narrowed.TargetNamespaces() == s.applies[t].manifest.TargetNamespaces()
    case RegisterLease(at) => t in s.applies && s.applies[t].phase.Accepted? && at <= s.now
    case RecordApply => t in s.applies && s.applies[t].phase.Registered? && s.locked == None
    case HandBack => t in s.applies && s.applies[t].phase.Stamping? && s.locked == None
    case AnnounceApplied => t in s.applies && s.applies[t].phase.HandedOver?
    case Succeed => t in s.applies && s.applies[t].phase.Announced?
    case Abandon(why) => t in s.applies && s.applies[t].phase.Announced? && why in ABANDON_REASONS
  }

  ghost predicate ClearEnabled(s: State, t: Tid, c: ClearStep) {
    match c
    case AskClear(uid, _) => Unused(s, t) && uid in s.leases
    case StartSweep(since, batch) =>
      && Unused(s, t) && since <= s.now
      && (forall af :: af in batch <==>
        af.faultUID in s.leases && s.leases[af.faultUID] == af && PastDeadline(af, since))
    case NextInSweep => t in s.sweeps && s.sweeps[t] != [] && t !in s.clearers
    case EndSweep => t in s.sweeps && s.sweeps[t] == [] && t !in s.clearers
    case DriverClears => Clearing(s, t, Asking)
    case DriverRefuses => Clearing(s, t, Asking)
    case ForgetLease => Clearing(s, t, Gone)
    case ReportEnd => Clearing(s, t, Forgotten)
    case ReportRefusal => Clearing(s, t, Refusing)
  }

  ghost predicate Enabled(cfg: Config, s: State, a: Step) {
    match a
    case Tick(_) => true
    case Note(r) => r.ts == s.now && (Informational(r.event) || r.faultUID == "")
    case ApplyMove(t, b) => ApplyEnabled(cfg, s, t, b)
    case ClearMove(t, c) => ClearEnabled(s, t, c)
  }

  function AuditPayload(m: Manifest): Payload {
    EMPTY_PAYLOAD.(engine := Some(m.engine), kind := Some(m.resourceKind), targets := Some(m.targets),
                   spec := Some(m.spec), duration := Some(m.duration),
                   tier := if m.tier == "" then None else Some(m.tier))
  }

  function About(s: State, e: Event, m: Manifest, reason: string, payload: Payload): Record {
    Record(s.now, e, m.uid, m.planID, "", m.source, reason, payload)
  }

  function ClosingRecord(s: State, c: ClearOp): Record {
    match c.kind
    case Abandoning(why) => Record(s.now, LeaseCleared, c.uid, "", "", "", why,
      EMPTY_PAYLOAD.(engineUID := c.engineUID))
    case Explicit(actor) => Record(s.now, LeaseCleared, c.uid, "", "", "", "explicit-clear",
      EMPTY_PAYLOAD.(actor := actor))
    case Reaping => Record(s.now, LeaseExpired, c.uid, "", "", "", "deadline-reached", EMPTY_PAYLOAD)
  }

  /** An explicit clear that the driver refuses leaves no record; the other two say so. */
  function RefusalRecords(s: State, c: ClearOp): seq<Record> {
    match c.kind
    case Abandoning(why) =>
      [Record(s.now, LeaseCleared, c.uid, "", "", "", why,
        EMPTY_PAYLOAD.(engineUID := c.engineUID, leftToReaper := true))]
    case Explicit(_) => []
    case Reaping => [Record(s.now, LeaseCleared, c.uid, "", "", "", DRIVER_CLEAR_FAILED, EMPTY_PAYLOAD)]
  }

  function WithPhase(s: State, t: Tid, phase: ApplyPhase): State
    requires t in s.applies
  {
    s.(applies := s.applies[t := s.applies[t].(phase := phase)])
  }

  function WithClearPhase(s: State, t: Tid, phase: ClearPhase): State
    requires t in s.clearers
  {
    s.(clearers := s.clearers[t := s.clearers[t].(phase := phase)])
  }

  ghost function DoReceive(s: State, t: Tid, m: Manifest): State {
    s.(applies := s.applies[t := ApplyOp(m, Received)],
       log := s.log + [About(s, ExecutorReceived, m, "", AuditPayload(m))])
  }

  ghost function DoRefuseEarly(s: State, t: Tid, reason: string): State
    requires t in s.applies
  {
    s.(applies := s.applies - {t},
      log := s.log + [About(s, ExecutorRejected, s.applies[t].manifest, reason, EMPTY_PAYLOAD)])
  }

  ghost function DoLeaveReserve(s: State, t: Tid, admitted: bool): State
    requires t in s.applies
  {
    if admitted then
      WithPhase(s, t, Reserved).(locked := None, slots := Booked(s.slots, s.applies[t].manifest.TargetNamespaces()))
    else
      WithPhase(s, t, Denied).(locked := None)
  }

  ghost function DoFailReserved(s: State, t: Tid, byDriver: bool, reason: string): State
    requires t in s.applies
  {
    WithPhase(s, t, Failing).(log := s.log + [About(s, if byDriver then DriverFailed else ExecutorRejected,
                                                    s.applies[t].manifest, reason, EMPTY_PAYLOAD)])
  }

  ghost function DoDropSlot(s: State, t: Tid): State
    requires t in s.applies
  {
    s.(applies := s.applies - {t}, slots := HandedBack(s.slots, s.applies[t].manifest.TargetNamespaces()))
  }

  ghost function DoDriverAccepts(s: State, t: Tid, narrowed: Manifest, engineUID: string): State {
    s.(applies := s.applies[t := ApplyOp(narrowed, Accepted(engineUID))],
      cluster := s.cluster[engineUID := narrowed.uid])
  }

  ghost function NewLease(s: State, t: Tid, at: Time): ActiveFault
    requires t in s.applies && s.applies[t].phase.Accepted?
  {
    var m := s.applies[t].manifest;
    ActiveFault(m.uid, s.applies[t].phase.engineUID, m, s.now, at + m.duration, "")
  }

  ghost function DoRegisterLease(s: State, t: Tid, at: Time): State
    requires t in s.applies && s.applies[t].phase.Accepted?
  {
    var uid := s.applies[t].manifest.uid;
    WithPhase(s, t, Registered(NewLease(s, t, at))).(leases := s.leases[uid := NewLease(s, t, at)],
      known := s.known + {uid})
  }

  ghost function DoRecordApply(s: State, t: Tid): State
    requires t in s.applies && s.applies[t].phase.Registered?
  {
    var ns := s.applies[t].manifest.TargetNamespaces();
    WithPhase(s, t, Stamping(s.applies[t].phase.lease)).(
      slots := Stamped(s.slots, ns, s.now), stamps := s.stamps + [Stamp(ns, s.now)])
  }

  ghost function DoHandBack(s: State, t: Tid): State
    requires t in s.applies && s.applies[t].phase.Stamping?
  {
    WithPhase(s, t, HandedOver(s.applies[t].phase.lease)).(
      slots := HandedBack(s.slots, s.applies[t].manifest.TargetNamespaces()))
  }

  function AppliedRecord(s: State, af: ActiveFault): Record {
    About(s, DriverApplied, af.manifest, "",
          AuditPayload(af.manifest).(engineUID := af.engineUID, deadline := Some(WholeSecond(af.deadline))))
  }

  ghost function DoAnnounceApplied(s: State, t: Tid): State
    requires t in s.applies && s.applies[t].phase.HandedOver?
  {
    WithPhase(s, t, Announced(s.applies[t].phase.lease)).(log := s.log + [AppliedRecord(s, s.applies[t].phase.lease)])
  }

  ghost function DoAbandon(s: State, t: Tid, why: string): State
    requires t in s.applies && s.applies[t].phase.Announced?
  {
    var af := s.applies[t].phase.lease;
    s.(applies := s.applies - {t},
      clearers := s.clearers[t := ClearOp(Abandoning(why), af.faultUID, af.engineUID, Asking)])
  }

  ghost function NextApply(cfg: Config, s: State, t: Tid, a: ApplyStep): State
    requires ApplyEnabled(cfg, s, t, a)
  {
    match a
    case Receive(m) => DoReceive(s, t, m)
    case RefuseEarly(reason) => DoRefuseEarly(s, t, reason)
    case EnterReserve => WithPhase(s, t, Reading(|s.leases|)).(locked := Some(t))
    case LeaveReserve(admitted) => DoLeaveReserve(s, t, admitted)
    case FailReserved(byDriver, reason) => DoFailReserved(s, t, byDriver, reason)
    case DropSlot => DoDropSlot(s, t)
    case DriverAccepts(narrowed, engineUID) => DoDriverAccepts(s, t, narrowed, engineUID)
    case RegisterLease(at) => DoRegisterLease(s, t, at)
    case RecordApply => DoRecordApply(s, t)
    case HandBack => DoHandBack(s, t)
    case AnnounceApplied => DoAnnounceApplied(s, t)
    case Succeed => s.(applies := s.applies - {t})
    case Abandon(why) => DoAbandon(s, t, why)
  }

  ghost function NextClear(s: State, t: Tid, c: ClearStep): State
    requires ClearEnabled(s, t, c)
  {
    match c
    case AskClear(uid, actor) =>
      s.(clearers := s.clearers[t := ClearOp(Explicit(actor), uid, s.leases[uid].engineUID, Asking)])
    case StartSweep(_, batch) => s.(sweeps := s.sweeps[t := batch])
    case NextInSweep =>
      var af := s.sweeps[t][0];
      s.(sweeps := s.sweeps[t := s.sweeps[t][1..]],
        clearers := s.clearers[t := ClearOp(Reaping, af.faultUID, af.engineUID, Asking)])
    case EndSweep => s.(sweeps := s.sweeps - {t})
    case DriverClears => WithClearPhase(s, t, Gone).(cluster := s.cluster - {s.clearers[t].engineUID})
    case DriverRefuses => WithClearPhase(s, t, Refusing)
    case ForgetLease => WithClearPhase(s, t, Forgotten).(leases := s.leases - {s.clearers[t].uid})
    case ReportEnd => s.(clearers := s.clearers - {t}, log := s.log + [ClosingRecord(s, s.clearers[t])])
    case ReportRefusal => s.(clearers := s.clearers - {t}, log := s.log + RefusalRecords(s, s.clearers[t]))
  }

  ghost function Next(cfg: Config, s: State, a: Step): State
    requires Enabled(cfg, s, a)
  {
    match a
    case Tick(elapsed) => s.(now := s.now + elapsed)
    case Note(r) => s.(log := s.log + [r])
    case ApplyMove(t, b) => NextApply(cfg, s, t, b)
    case ClearMove(t, c) => NextClear(s, t, c)
  }

  /** The row says what the lease says: the engine's object, the deadline to the second, and the fault. */
  predicate Tells(row: FaultRow, af: ActiveFault) {
    && row.appliedAt != NEVER
    && row.engineUID == af.engineUID && row.deadline == Some(WholeSecond(af.deadline))
    && row.described.engine == af.manifest.engine && row.described.kind == af.manifest.resourceKind
    && row.described.targets == af.manifest.targets && row.described.spec == af.manifest.spec
    && row.described.duration == af.manifest.duration
  }

  /** A controller that has finished its start-up: the leases it adopted, the trail it inherited, nothing running. */
  ghost predicate Init(s: State, adoptedFromCluster: set<string>) {
    && s.now > NEVER
    && s.slots == NO_SLOTS && s.locked == None
    && s.applies == map[] && s.clearers == map[] && s.sweeps == map[]
    && s.stamps == []
    && Keyed(s.leases)
    && (forall e :: e in s.cluster ==> s.cluster[e] in s.leases && s.leases[s.cluster[e]].engineUID == e)
    && adoptedFromCluster <= s.leases.Keys
    && s.leases.Keys <= s.known && "" !in s.known
    && (forall uid :: IsLive(Row(s.log, uid)) ==> uid in s.known)
    && LiveIn(FaultsOf(s.log)) == s.leases.Keys - adoptedFromCluster
    && (forall uid :: uid in s.leases && uid !in adoptedFromCluster ==> Tells(Row(s.log, uid), s.leases[uid]))
  }

  /** The state after a finite run, if every step was enabled. */
  ghost function Run(cfg: Config, s: State, steps: seq<Step>): Option<State> {
    if steps == [] then Some(s)
    else
      match Run(cfg, s, steps[..|steps| - 1])
      case None => None
      case Some(before) =>
        if Enabled(cfg, before, steps[|steps| - 1]) then Some(Next(cfg, before, steps[|steps| - 1])) else None
  }

  ghost predicate Reaches(cfg: Config, s0: State, steps: seq<Step>, s: State) {
    Run(cfg, s0, steps) == Some(s)
  }
}
