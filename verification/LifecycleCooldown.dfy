/** Cooldown spacing: two recorded applies that share a namespace are at least a cooldown apart. */
module LifecycleCooldown {
  import opened Slots
  import opened Lifecycle
  import opened LifecycleCap

  /** A slot is held for a fault whose namespaces have not been stamped yet. */
  predicate Unstamped(p: ApplyPhase) {
    p.Reserved? || p.Accepted? || p.Registered?
  }

  ghost predicate Spaced(stamps: seq<Stamp>, gap: int) {
    forall i, j, ns :: 0 <= i < j < |stamps| && ns in stamps[i].namespaces && ns in stamps[j].namespaces ==>
      stamps[j].at - stamps[i].at >= gap
  }

  /** The executor's last-apply times dominate every stamp, and none lies in the future. */
  ghost predicate StampsRecorded(s: State) {
    && (forall ns :: ns in s.slots.lastApplyByNS ==> s.slots.lastApplyByNS[ns] <= s.now)
    && (forall i, ns :: 0 <= i < |s.stamps| && ns in s.stamps[i].namespaces ==>
          ns in s.slots.lastApplyByNS && s.stamps[i].at <= s.slots.lastApplyByNS[ns])
  }

  /** No two slot holders share a namespace. */
  ghost predicate HoldersApart(s: State) {
    forall t, u :: HoldsAt(s, t) && HoldsAt(s, u) && t != u ==> NamespacesAt(s, t) !! NamespacesAt(s, u)
  }

  /** Whoever is about to stamp a namespace finds its last stamp a full cooldown old. */
  ghost predicate UnstampedRested(cfg: Config, s: State) {
    forall t, ns ::
      (t in s.applies && Unstamped(s.applies[t].phase) && ns in NamespacesAt(s, t) && ns in s.slots.lastApplyByNS) ==>
        s.now - s.slots.lastApplyByNS[ns] >= cfg.minCooldown
  }

  ghost predicate CoolInv(cfg: Config, s: State) {
    && StampsRecorded(s) && HoldersApart(s) && UnstampedRested(cfg, s) && Spaced(s.stamps, cfg.minCooldown)
  }

  ghost predicate UnstampedAt(s: State, t: Tid) {
    t in s.applies && Unstamped(s.applies[t].phase)
  }

  ghost predicate SameStamps(s: State, s': State) {
    s'.slots.lastApplyByNS == s.slots.lastApplyByNS && s'.stamps == s.stamps && s'.now == s.now
  }

  lemma QuietMoveKeepsSpacing(cfg: Config, s: State, s': State, t: Tid)
    requires CoolInv(cfg, s) && OnlyMoves(s, s', t) && SameStamps(s, s')
    requires HoldsAt(s', t) ==> HoldsAt(s, t) && NamespacesAt(s', t) == NamespacesAt(s, t)
    requires UnstampedAt(s', t) ==> UnstampedAt(s, t)
    ensures CoolInv(cfg, s')
  {
    assert forall x :: x != t ==> NamespacesAt(s', x) == NamespacesAt(s, x);
    assert forall x :: HoldsAt(s', x) ==> HoldsAt(s, x);
  }

  /** Admission saw no holder in any of the namespaces, so the newcomer is apart from them all. */
  lemma AdmissionKeepsSpacing(cfg: Config, s: State, s': State, t: Tid, seen: nat)
    requires cfg.minCooldown > 0 && SlotInv(s) && CoolInv(cfg, s) && OnlyMoves(s, s', t) && SameStamps(s, s')
    requires CanReserve(cfg, seen, s.slots, NamespacesAt(s, t), s.now)
    requires !HoldsAt(s, t) && NamespacesAt(s', t) == NamespacesAt(s, t)
    ensures CoolInv(cfg, s')
  {
    assert forall x :: x != t ==> NamespacesAt(s', x) == NamespacesAt(s, x) && (HoldsAt(s', x) <==> HoldsAt(s, x));
    forall u | HoldsAt(s, u) && u != t ensures NamespacesAt(s, t) !! NamespacesAt(s, u) {
      forall ns | ns in NamespacesAt(s, t) ensures ns !in NamespacesAt(s, u) {
        NobodyHolds(cfg, s, ns, u);
      }
    }
  }

  lemma NobodyHolds(cfg: Config, s: State, ns: string, u: Tid)
    requires SlotInv(s) && Rested(cfg, s.slots, ns, s.now) && HoldsAt(s, u)
    ensures ns !in NamespacesAt(s, u)
  {
    assert Count(s.slots.inFlightNS, ns) == |HoldersIn(s, ns)|;
    assert HoldersIn(s, ns) == {};
    assert ns in NamespacesAt(s, u) ==> u in HoldersIn(s, ns);
  }

  /** Stamping: the shared namespaces' earlier stamps are at least a cooldown old. */
  lemma StampingKeepsSpacing(cfg: Config, s: State, s': State, t: Tid)
    requires cfg.minCooldown > 0 && CoolInv(cfg, s) && OnlyMoves(s, s', t) && s'.now == s.now
    requires UnstampedAt(s, t) && HoldsAt(s, t) && HoldsAt(s', t) && !UnstampedAt(s', t)
    requires NamespacesAt(s', t) == NamespacesAt(s, t)
    requires s'.stamps == s.stamps + [Stamp(NamespacesAt(s, t), s.now)]
    requires s'.slots.lastApplyByNS == Stamped(s.slots, NamespacesAt(s, t), s.now).lastApplyByNS
    ensures CoolInv(cfg, s')
  {
    assert forall x :: x != t ==> NamespacesAt(s', x) == NamespacesAt(s, x);
    assert forall x :: HoldsAt(s', x) <==> HoldsAt(s, x);
    StampIsSpaced(cfg, s, s', t);
    assert UnstampedRested(cfg, s') by {
      forall u, ns | UnstampedAt(s', u) && ns in NamespacesAt(s', u) && ns in s'.slots.lastApplyByNS
        ensures s'.now - s'.slots.lastApplyByNS[ns] >= cfg.minCooldown
      {
        assert u != t && HoldsAt(s, u) && NamespacesAt(s, t) !! NamespacesAt(s, u);
      }
    }
  }

  lemma StampIsSpaced(cfg: Config, s: State, s': State, t: Tid)
    requires cfg.minCooldown > 0 && CoolInv(cfg, s) && UnstampedAt(s, t) && s'.now == s.now
    requires s'.stamps == s.stamps + [Stamp(NamespacesAt(s, t), s.now)]
    requires s'.slots.lastApplyByNS == Stamped(s.slots, NamespacesAt(s, t), s.now).lastApplyByNS
    ensures Spaced(s'.stamps, cfg.minCooldown) && StampsRecorded(s')
  {
    var last := |s.stamps|;
    forall i, j, ns | 0 <= i < j < |s'.stamps| && ns in s'.stamps[i].namespaces && ns in s'.stamps[j].namespaces
      ensures s'.stamps[j].at - s'.stamps[i].at >= cfg.minCooldown
    {
      assert s'.stamps[i] == s.stamps[i];
      if j < last {
        assert s'.stamps[j] == s.stamps[j];
      } else {
        assert ns in NamespacesAt(s, t);
        assert s.stamps[i].at <= s.slots.lastApplyByNS[ns] && s.now - s.slots.lastApplyByNS[ns] >= cfg.minCooldown;
      }
    }
    forall i, ns | 0 <= i < |s'.stamps| && ns in s'.stamps[i].namespaces
      ensures ns in s'.slots.lastApplyByNS && s'.stamps[i].at <= s'.slots.lastApplyByNS[ns]
    {
      if i < last {
        assert s'.stamps[i] == s.stamps[i];
        assert s.stamps[i].at <= s.slots.lastApplyByNS[ns] <= s.now;
      }
    }
  }

  /** The steps of an apply before the driver has accepted it. */
  predicate Opens(a: ApplyStep) {
    a.Receive? || a.RefuseEarly? || a.EnterReserve? || a.LeaveReserve? || a.FailReserved? || a.DropSlot?
  }

  lemma QuietOpening(cfg: Config, s: State, t: Tid, a: ApplyStep)
    requires ApplyEnabled(cfg, s, t, a) && Opens(a)
    ensures SameStamps(s, NextApply(cfg, s, t, a))
    ensures a != LeaveReserve(true) && UnstampedAt(NextApply(cfg, s, t, a), t) ==> UnstampedAt(s, t)
  {
    if a.Receive? || a.RefuseEarly? || a.EnterReserve? { QuietArrival(cfg, s, t, a); }
  }

  lemma QuietArrival(cfg: Config, s: State, t: Tid, a: ApplyStep)
    requires ApplyEnabled(cfg, s, t, a) && (a.Receive? || a.RefuseEarly? || a.EnterReserve?)
    ensures SameStamps(s, NextApply(cfg, s, t, a)) && !UnstampedAt(NextApply(cfg, s, t, a), t)
  {
  }

  lemma QuietMove(cfg: Config, s: State, t: Tid, a: ApplyStep)
    requires ApplyEnabled(cfg, s, t, a) && !a.RecordApply?
    ensures SameStamps(s, NextApply(cfg, s, t, a))
    ensures a != LeaveReserve(true) && UnstampedAt(NextApply(cfg, s, t, a), t) ==> UnstampedAt(s, t)
  {
    if Opens(a) { QuietOpening(cfg, s, t, a); }
  }

  lemma CoolStep(cfg: Config, s: State, a: Step)
    requires cfg.minCooldown > 0 && SlotInv(s) && CoolInv(cfg, s) && Enabled(cfg, s, a)
    ensures CoolInv(cfg, Next(cfg, s, a))
  {
    match a
    case ApplyMove(t, b) =>
      ApplyStepMoves(cfg, s, t, b);
      if b.RecordApply? {
        StampingKeepsSpacing(cfg, s, NextApply(cfg, s, t, b), t);
      } else {
        QuietMove(cfg, s, t, b);
        if b == LeaveReserve(true) {
          AdmissionKeepsSpacing(cfg, s, NextApply(cfg, s, t, b), t, s.applies[t].phase.seen);
        } else {
          QuietMoveKeepsSpacing(cfg, s, NextApply(cfg, s, t, b), t);
        }
      }
    case ClearMove(t, c) =>
      ClearStepKeepsApplySide(s, t, c);
      TimeKeepsSpacing(cfg, s, NextClear(s, t, c));
    case _ =>
      TimeKeepsSpacing(cfg, s, Next(cfg, s, a));
  }

  /** Where no apply moves, only time can pass. */
  lemma TimeKeepsSpacing(cfg: Config, s: State, s': State)
    requires CoolInv(cfg, s) && s'.applies == s.applies && s'.slots == s.slots && s'.stamps == s.stamps
    requires s'.now >= s.now
    ensures CoolInv(cfg, s')
  {
    assert forall x :: HoldsAt(s', x) <==> HoldsAt(s, x);
    assert forall x :: NamespacesAt(s', x) == NamespacesAt(s, x);
  }

  /** Cooldown spacing: in every reachable state, any two recorded applies with a common namespace are at
      least MinCooldown apart, whatever was interleaved between them. */
  lemma {:induction false} CooldownHolds(cfg: Config, s0: State, adoptedFromCluster: set<string>, steps: seq<Step>,
      s: State)
    requires cfg.minCooldown > 0
    requires Init(s0, adoptedFromCluster) && Reaches(cfg, s0, steps, s)
    ensures CoolInv(cfg, s)
    ensures Spaced(s.stamps, cfg.minCooldown)
  {
    if steps != [] {
      var front, last := steps[..|steps| - 1], steps[|steps| - 1];
      var before := Run(cfg, s0, front).value;
      CooldownHolds(cfg, s0, adoptedFromCluster, front, before);
      CapHolds(cfg, s0, adoptedFromCluster, front, before);
      CoolStep(cfg, before, last);
    }
  }
}
