/** The concurrency cap and the in-flight counters over every interleaving. */
module LifecycleCap {
  import opened Vocabulary
  import opened Ordering
  import opened Slots
  import opened Lifecycle

  predicate HoldsSlot(p: ApplyPhase) {
    p.Reserved? || p.Failing? || p.Accepted? || p.Registered? || p.Stamping?
  }

  /** A slot is held and no lease stands for it. */
  predicate Unleased(p: ApplyPhase) {
    p.Reserved? || p.Failing? || p.Accepted?
  }

  ghost function Holders(s: State): set<Tid> {
    set t | t in s.applies && HoldsSlot(s.applies[t].phase)
  }

  ghost function Pending(s: State): set<Tid> {
    set t | t in s.applies && Unleased(s.applies[t].phase)
  }

  ghost function HoldersIn(s: State, ns: string): set<Tid> {
    set t | t in s.applies && HoldsSlot(s.applies[t].phase) && ns in s.applies[t].manifest.TargetNamespaces()
  }

  /** The counters are the numbers of unreleased reservations, and the mutex marks the one open reserve. */
  ghost predicate SlotInv(s: State) {
    && s.slots.inFlight == |Holders(s)|
    && (forall ns :: Count(s.slots.inFlightNS, ns) == |HoldersIn(s, ns)|)
    && (forall ns :: ns in s.slots.inFlightNS ==> s.slots.inFlightNS[ns] > 0)
    && (forall t :: t in s.applies && s.applies[t].phase.Reading? <==> s.locked == Some(t))
  }

  ghost predicate OnlyMoves(s: State, s': State, t: Tid) {
    forall x :: x != t ==> (x in s.applies <==> x in s'.applies) && (x in s.applies ==> s'.applies[x] == s.applies[x])
  }

  function One(b: bool): nat {
    if b then 1 else 0
  }

  ghost predicate HoldsAt(s: State, t: Tid) {
    t in s.applies && HoldsSlot(s.applies[t].phase)
  }

  ghost predicate HoldsAtIn(s: State, t: Tid, ns: string) {
    HoldsAt(s, t) && ns in s.applies[t].manifest.TargetNamespaces()
  }

  ghost predicate PendsAt(s: State, t: Tid) {
    t in s.applies && Unleased(s.applies[t].phase)
  }

  lemma SizesMove<T>(xs: set<T>, ys: set<T>, x: T)
    requires xs - {x} == ys - {x}
    ensures |ys| + One(x in xs) == |xs| + One(x in ys)
  {
    assert xs == (xs - {x}) + (if x in xs then {x} else {});
    assert ys == (ys - {x}) + (if x in ys then {x} else {});
  }

  lemma CountsMove(s: State, s': State, t: Tid)
    requires OnlyMoves(s, s', t)
    ensures |Holders(s')| + One(HoldsAt(s, t)) == |Holders(s)| + One(HoldsAt(s', t))
  {
    assert Holders(s') - {t} == Holders(s) - {t};
    SizesMove(Holders(s), Holders(s'), t);
  }

  lemma PendingMoves(s: State, s': State, t: Tid)
    requires OnlyMoves(s, s', t)
    ensures |Pending(s')| + One(PendsAt(s, t)) == |Pending(s)| + One(PendsAt(s', t))
  {
    assert Pending(s') - {t} == Pending(s) - {t};
    SizesMove(Pending(s), Pending(s'), t);
  }

  lemma CountsMoveIn(s: State, s': State, t: Tid, ns: string)
    requires OnlyMoves(s, s', t)
    ensures |HoldersIn(s', ns)| + One(HoldsAtIn(s, t, ns)) == |HoldersIn(s, ns)| + One(HoldsAtIn(s', t, ns))
  {
    assert HoldersIn(s', ns) - {t} == HoldersIn(s, ns) - {t};
    SizesMove(HoldersIn(s, ns), HoldersIn(s', ns), t);
  }

  /** What a step does to the booking of the apply it moves. */
  datatype Move = Keeps | Books | GivesBack

  function MoveOf(a: ApplyStep): Move {
    match a
    case LeaveReserve(admitted) => if admitted then Books else Keeps
    case DropSlot => GivesBack
    case HandBack => GivesBack
    case _ => Keeps
  }

  ghost function NamespacesAt(s: State, t: Tid): set<string> {
    if t in s.applies then s.applies[t].manifest.TargetNamespaces() else {}
  }

  ghost predicate SameCounters(a: Slots, b: Slots) {
    a.inFlight == b.inFlight && a.inFlightNS == b.inFlightNS
  }

  /** One apply's move from the counters' point of view. */
  ghost predicate Moves(s: State, s': State, t: Tid, move: Move) {
    && OnlyMoves(s, s', t)
    && match move
       case Keeps =>
         && SameCounters(s.slots, s'.slots) && HoldsAt(s, t) == HoldsAt(s', t)
         && (HoldsAt(s, t) ==> NamespacesAt(s, t) == NamespacesAt(s', t))
       case Books =>
         && s'.slots == Booked(s.slots, NamespacesAt(s, t)) && !HoldsAt(s, t) && HoldsAt(s', t)
         && NamespacesAt(s, t) == NamespacesAt(s', t)
       case GivesBack =>
         s'.slots == HandedBack(s.slots, NamespacesAt(s, t)) && HoldsAt(s, t) && !HoldsAt(s', t)
  }

  lemma BookingMoves(cfg: Config, s: State, t: Tid, a: ApplyStep)
    requires ApplyEnabled(cfg, s, t, a) && MoveOf(a) != Keeps
    ensures Moves(s, NextApply(cfg, s, t, a), t, MoveOf(a))
  {
  }

  lemma EarlyMovesKeep(cfg: Config, s: State, t: Tid, a: ApplyStep)
    requires ApplyEnabled(cfg, s, t, a) && MoveOf(a) == Keeps
    requires a.Receive? || a.RefuseEarly? || a.EnterReserve? || a.LeaveReserve? || a.FailReserved? || a.DriverAccepts?
    ensures Moves(s, NextApply(cfg, s, t, a), t, Keeps)
  {
  }

  lemma LateMovesKeep(cfg: Config, s: State, t: Tid, a: ApplyStep)
    requires ApplyEnabled(cfg, s, t, a) && MoveOf(a) == Keeps
    requires a.RegisterLease? || a.RecordApply? || a.AnnounceApplied? || a.Succeed? || a.Abandon?
    ensures Moves(s, NextApply(cfg, s, t, a), t, Keeps)
  {
  }

  /** Each step either leaves the counters and the holding of its apply alone, books, or gives back. */
  lemma ApplyStepMoves(cfg: Config, s: State, t: Tid, a: ApplyStep)
    requires ApplyEnabled(cfg, s, t, a)
    ensures Moves(s, NextApply(cfg, s, t, a), t, MoveOf(a))
  {
    if MoveOf(a) != Keeps {
      BookingMoves(cfg, s, t, a);
    } else if a.RegisterLease? || a.RecordApply? || a.AnnounceApplied? || a.Succeed? || a.Abandon? {
      LateMovesKeep(cfg, s, t, a);
    } else {
      EarlyMovesKeep(cfg, s, t, a);
    }
  }

  lemma MutexStep(cfg: Config, s: State, t: Tid, a: ApplyStep)
    requires SlotInv(s) && ApplyEnabled(cfg, s, t, a)
    ensures forall x :: x in NextApply(cfg, s, t, a).applies && NextApply(cfg, s, t, a).applies[x].phase.Reading?
                        <==> NextApply(cfg, s, t, a).locked == Some(x)
  {
  }

  /** The clearing side never touches what the executor's mutex guards. */
  ghost predicate SameApplySide(s: State, s': State) {
    s'.applies == s.applies && s'.slots == s.slots && s'.locked == s.locked && s'.stamps == s.stamps && s'.now == s.now
  }

  lemma ClearStepKeepsApplySide(s: State, t: Tid, c: ClearStep)
    requires ClearEnabled(s, t, c)
    ensures SameApplySide(s, NextClear(s, t, c))
    ensures NextClear(s, t, c).leases.Keys <= s.leases.Keys
  {
  }

  /** The counters follow the phase change of the one apply that moves. */
  lemma SlotStep(cfg: Config, s: State, a: Step)
    requires SlotInv(s) && Enabled(cfg, s, a)
    ensures SlotInv(Next(cfg, s, a))
  {
    match a
    case ApplyMove(t, b) =>
      ApplyStepMoves(cfg, s, t, b);
      MutexStep(cfg, s, t, b);
      CountersFollow(s, NextApply(cfg, s, t, b), t, MoveOf(b));
    case ClearMove(t, c) =>
      ClearStepKeepsApplySide(s, t, c);
      SlotInvFrame(s, NextClear(s, t, c));
    case _ =>
      SlotInvFrame(s, Next(cfg, s, a));
  }

  lemma SlotInvFrame(s: State, s': State)
    requires SlotInv(s) && s'.applies == s.applies && s'.slots == s.slots && s'.locked == s.locked
    ensures SlotInv(s')
  {
    assert Holders(s') == Holders(s);
    forall ns ensures HoldersIn(s', ns) == HoldersIn(s, ns) {}
  }

  lemma CountersFollow(s: State, s': State, t: Tid, move: Move)
    requires SlotInv(s) && Moves(s, s', t, move)
    ensures s'.slots.inFlight == |Holders(s')|
    ensures forall ns :: Count(s'.slots.inFlightNS, ns) == |HoldersIn(s', ns)|
    ensures forall ns :: ns in s'.slots.inFlightNS ==> s'.slots.inFlightNS[ns] > 0
  {
    CountsMove(s, s', t);
    forall ns ensures Count(s'.slots.inFlightNS, ns) == |HoldersIn(s', ns)| {
      CountsMoveIn(s, s', t, ns);
      assert Count(s.slots.inFlightNS, ns) == |HoldersIn(s, ns)|;
    }
    forall ns | ns in s'.slots.inFlightNS ensures s'.slots.inFlightNS[ns] > 0 {
      assert Count(s.slots.inFlightNS, ns) == |HoldersIn(s, ns)|;
    }
  }

  function Max(a: int, b: int): int {
    if a > b then a else b
  }

  /** Leases and slots on their way to one stay under the cap; an open reserve has not over-counted its room. */
  ghost predicate CapInv(cfg: Config, adopted: nat, s: State) {
    cfg.maxConcurrentFaults > 0 ==>
      && |s.leases| + |Pending(s)| <= Max(cfg.maxConcurrentFaults, adopted)
      && (forall t :: t in s.applies && s.applies[t].phase.Reading? ==>
            |s.leases| + |Pending(s)| <= s.applies[t].phase.seen + s.slots.inFlight)
  }

  lemma CapStep(cfg: Config, adopted: nat, s: State, a: Step)
    requires SlotInv(s) && CapInv(cfg, adopted, s) && Enabled(cfg, s, a)
    ensures CapInv(cfg, adopted, Next(cfg, s, a))
  {
    match a
    case ApplyMove(t, b) =>
      CapApplyStep(cfg, adopted, s, t, b);
    case ClearMove(t, c) =>
      ClearStepKeepsApplySide(s, t, c);
      SubsetIsNoLarger(NextClear(s, t, c).leases.Keys, s.leases.Keys);
      assert Pending(NextClear(s, t, c)) == Pending(s);
    case _ =>
      assert Pending(Next(cfg, s, a)) == Pending(s);
  }

  /** What a step does to the number of leases and to the applies still waiting for one. */
  ghost predicate LeaseMove(s: State, s': State, t: Tid, a: ApplyStep) {
    match a
    case RegisterLease(_) => |s'.leases| <= |s.leases| + 1 && PendsAt(s, t) && !PendsAt(s', t)
    case LeaveReserve(admitted) => s'.leases == s.leases && !PendsAt(s, t) && PendsAt(s', t) == admitted
    case _ => s'.leases == s.leases && (PendsAt(s', t) ==> PendsAt(s, t))
  }

  lemma RegisterMovesOneLease(cfg: Config, s: State, t: Tid, a: ApplyStep)
    requires ApplyEnabled(cfg, s, t, a) && a.RegisterLease?
    ensures LeaseMove(s, NextApply(cfg, s, t, a), t, a)
  {
    assert NextApply(cfg, s, t, a).leases.Keys == s.leases.Keys + {s.applies[t].manifest.uid};
  }

  lemma OtherMovesKeepLeases(cfg: Config, s: State, t: Tid, a: ApplyStep)
    requires ApplyEnabled(cfg, s, t, a) && !a.RegisterLease?
    ensures LeaseMove(s, NextApply(cfg, s, t, a), t, a)
  {
  }

  /** Who is reading the registry afterwards: the apply that just entered, or whoever already was. */
  lemma ReaderMoves(cfg: Config, s: State, t: Tid, a: ApplyStep, x: Tid)
    requires SlotInv(s) && ApplyEnabled(cfg, s, t, a)
    requires x in NextApply(cfg, s, t, a).applies && NextApply(cfg, s, t, a).applies[x].phase.Reading?
    ensures MoveOf(a) == Keeps
    ensures a.EnterReserve? ==> NextApply(cfg, s, t, a).applies[x].phase.seen == |s.leases|
    ensures !a.EnterReserve? ==> x in s.applies && s.applies[x] == NextApply(cfg, s, t, a).applies[x]
  {
  }

  lemma CapApplyStep(cfg: Config, adopted: nat, s: State, t: Tid, a: ApplyStep)
    requires SlotInv(s) && CapInv(cfg, adopted, s) && ApplyEnabled(cfg, s, t, a)
    ensures CapInv(cfg, adopted, NextApply(cfg, s, t, a))
  {
    var s' := NextApply(cfg, s, t, a);
    ApplyStepMoves(cfg, s, t, a);
    if a.RegisterLease? { RegisterMovesOneLease(cfg, s, t, a); } else { OtherMovesKeepLeases(cfg, s, t, a); }
    PendingMoves(s, s', t);
    assert Pending(s) <= Holders(s);
    SubsetIsNoLarger(Pending(s), Holders(s));
    if a.LeaveReserve? && a.admitted {
      assert HasRoom(cfg, s.applies[t].phase.seen, s.slots);
    }
    forall x | x in s'.applies && s'.applies[x].phase.Reading? && cfg.maxConcurrentFaults > 0
      ensures |s'.leases| + |Pending(s')| <= s'.applies[x].phase.seen + s'.slots.inFlight
    {
      ReaderMoves(cfg, s, t, a, x);
    }
  }

  /** Cap safety: in every state any run reaches from a start-up with `|s0.leases|` adopted leases, leases plus
      reserved-but-unregistered applies never pass the larger of the cap and what was adopted, and the in-flight
      counters count exactly the unreleased reservations. */
  lemma {:induction false} CapHolds(cfg: Config, s0: State, adoptedFromCluster: set<string>, steps: seq<Step>, s: State)
    requires Init(s0, adoptedFromCluster) && Reaches(cfg, s0, steps, s)
    ensures SlotInv(s) && CapInv(cfg, |s0.leases|, s)
    ensures cfg.maxConcurrentFaults > 0 ==> |s.leases| + |Pending(s)| <= Max(cfg.maxConcurrentFaults, |s0.leases|)
  {
    if steps == [] {
      assert Holders(s) == {} && Pending(s) == {};
      forall ns ensures HoldersIn(s, ns) == {} {}
    } else {
      var front, last := steps[..|steps| - 1], steps[|steps| - 1];
      var before := Run(cfg, s0, front).value;
      CapHolds(cfg, s0, adoptedFromCluster, front, before);
      SlotStep(cfg, before, last);
      CapStep(cfg, |s0.leases|, before, last);
    }
  }
}
