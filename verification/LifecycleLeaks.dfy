/** No leaked fault: whatever the engine holds, a lease or an apply about to register one answers for it. */
module LifecycleLeaks {
  import opened Slots
  import opened Lifecycle
  import opened LifecycleIdentity

  /** The fault that last asked for the object still answers for it. */
  ghost predicate Answered(s: State, engineUID: string)
    requires engineUID in s.cluster
  {
    var uid := s.cluster[engineUID];
    || (uid in s.leases && s.leases[uid].engineUID == engineUID)
    || exists t :: t in s.applies && s.applies[t].phase == Accepted(engineUID) && s.applies[t].manifest.uid == uid
  }

  /** A clear the driver confirmed, whose lease is about to go or has gone. */
  predicate Confirmed(p: ClearPhase) {
    p.Gone? || p.Forgotten?
  }

  ghost predicate LeakInv(s: State) {
    && (forall e :: e in s.cluster ==> Answered(s, e))
    && (forall e, t :: e in s.cluster && t in s.clearers && s.clearers[t].uid == s.cluster[e] ==>
      !Confirmed(s.clearers[t].phase))
  }

  lemma AcceptKeepsLeaks(cfg: Config, s: State, t: Tid, a: ApplyStep)
    requires IdentityInv(s) && LeakInv(s) && a.DriverAccepts? && ApplyEnabled(cfg, s, t, a)
    ensures LeakInv(NextApply(cfg, s, t, a))
  {
    var s' := NextApply(cfg, s, t, a);
    forall e | e in s'.cluster ensures Answered(s', e) {
      if e == a.engineUID {
        assert s'.applies[t].phase == Accepted(e);
      } else if !(s.cluster[e] in s.leases && s.leases[s.cluster[e]].engineUID == e) {
        var x :| x in s.applies && s.applies[x].phase == Accepted(e) && s.applies[x].manifest.uid == s.cluster[e];
        assert x != t && s'.applies[x] == s.applies[x];
      }
    }
  }

  lemma RegisterKeepsLeaks(cfg: Config, s: State, t: Tid, a: ApplyStep)
    requires IdentityInv(s) && LeakInv(s) && a.RegisterLease? && ApplyEnabled(cfg, s, t, a)
    ensures LeakInv(NextApply(cfg, s, t, a))
  {
    var s' := NextApply(cfg, s, t, a);
    forall e | e in s'.cluster ensures Answered(s', e) {
      var uid := s.cluster[e];
      if uid in s.leases && s.leases[uid].engineUID == e {
        assert s'.leases[uid] == s.leases[uid];
      } else {
        var x :| x in s.applies && s.applies[x].phase == Accepted(e) && s.applies[x].manifest.uid == uid;
        if x != t { assert s'.applies[x] == s.applies[x]; }
      }
    }
  }

  /** A move that leaves leases, engine objects and accepted applies alone keeps them answered for. */
  lemma QuietKeepsLeaks(s: State, s': State)
    requires LeakInv(s) && s'.cluster == s.cluster && s'.leases == s.leases
    requires forall x, e :: x in s.applies && s.applies[x].phase == Accepted(e) ==>
      x in s'.applies && s'.applies[x] == s.applies[x]
    requires forall x :: x in s'.clearers && Confirmed(s'.clearers[x].phase) ==>
      x in s.clearers && s'.clearers[x] == s.clearers[x]
    ensures LeakInv(s')
  {
    forall e | e in s'.cluster ensures Answered(s', e) {
      assert Answered(s, e);
    }
  }

  lemma QuietMove(cfg: Config, s: State, t: Tid, a: ApplyStep)
    requires ApplyEnabled(cfg, s, t, a) && !a.DriverAccepts? && !a.RegisterLease?
    ensures NextApply(cfg, s, t, a).cluster == s.cluster
    ensures t in s.applies ==> !s.applies[t].phase.Accepted?
  {
  }

  lemma NoMoveConfirms(cfg: Config, s: State, t: Tid, a: ApplyStep)
    requires ApplyEnabled(cfg, s, t, a)
    ensures var s' := NextApply(cfg, s, t, a);
            t in s'.clearers && Confirmed(s'.clearers[t].phase) ==> t in s.clearers && s'.clearers[t] == s.clearers[t]
  {
  }

  lemma ApplyKeepsLeaks(cfg: Config, s: State, t: Tid, a: ApplyStep)
    requires IdentityInv(s) && LeakInv(s) && ApplyEnabled(cfg, s, t, a)
    ensures LeakInv(NextApply(cfg, s, t, a))
  {
    if a.DriverAccepts? {
      AcceptKeepsLeaks(cfg, s, t, a);
    } else if a.RegisterLease? {
      RegisterKeepsLeaks(cfg, s, t, a);
    } else {
      QuietMove(cfg, s, t, a);
      NoMoveConfirms(cfg, s, t, a);
      ApplyMovesOnlyItself(cfg, s, t, a);
      QuietKeepsLeaks(s, NextApply(cfg, s, t, a));
    }
  }

  /** After the driver's confirmation nothing in the cluster was last asked for by this fault. */
  lemma DriverClearsKeepsLeaks(s: State, t: Tid)
    requires IdentityInv(s) && LeakInv(s) && ClearEnabled(s, t, DriverClears)
    ensures LeakInv(NextClear(s, t, DriverClears))
  {
    var s', c := NextClear(s, t, DriverClears), s.clearers[t];
    assert EngineStands(s, c);
    assert forall x :: x in s.applies && s.applies[x].phase.Accepted? ==> s.applies[x].manifest.uid != c.uid;
    forall e | e in s'.cluster ensures Answered(s', e) && s'.cluster[e] != c.uid {
      assert Answered(s, e);
    }
  }

  lemma ForgetKeepsLeaks(s: State, t: Tid)
    requires IdentityInv(s) && LeakInv(s) && ClearEnabled(s, t, ForgetLease)
    ensures LeakInv(NextClear(s, t, ForgetLease))
  {
    var s', c := NextClear(s, t, ForgetLease), s.clearers[t];
    forall e | e in s'.cluster ensures Answered(s', e) {
      assert Answered(s, e) && s.cluster[e] != c.uid;
    }
  }

  lemma ClearKeepsLeaks(s: State, t: Tid, c: ClearStep)
    requires IdentityInv(s) && LeakInv(s) && ClearEnabled(s, t, c)
    ensures LeakInv(NextClear(s, t, c))
  {
    match c
    case DriverClears => DriverClearsKeepsLeaks(s, t);
    case ForgetLease => ForgetKeepsLeaks(s, t);
    case _ => QuietKeepsLeaks(s, NextClear(s, t, c));
  }

  /** No leaked fault, for every run: an engine object the driver accepted and has not successfully cleared is leased
      by the fault that last asked for it, or that fault's apply is between the driver's answer and Register. */
  lemma {:induction false} NoLeakedFault(cfg: Config, s0: State, adoptedFromCluster: set<string>, steps: seq<Step>,
      s: State)
    requires Init(s0, adoptedFromCluster) && Reaches(cfg, s0, steps, s)
    ensures LeakInv(s)
    ensures forall e :: e in s.cluster ==> Answered(s, e)
  {
    if steps != [] {
      var front, last := steps[..|steps| - 1], steps[|steps| - 1];
      var before := Run(cfg, s0, front).value;
      NoLeakedFault(cfg, s0, adoptedFromCluster, front, before);
      IdentityHolds(cfg, s0, adoptedFromCluster, front, before);
      match last
      case ApplyMove(t, a) => ApplyKeepsLeaks(cfg, before, t, a);
      case ClearMove(t, c) => ClearKeepsLeaks(before, t, c);
      case _ => QuietKeepsLeaks(before, s);
    }
  }

  /** No path drops a lease whose object is still in the cluster: a step that removes a lease is the ForgetLease of a
      clear the driver confirmed, and by then no object in the cluster was last asked for by that fault. */
  lemma LeaseOutlivesItsObject(cfg: Config, s0: State, adoptedFromCluster: set<string>, steps: seq<Step>, s: State,
      a: Step, uid: string)
    requires Init(s0, adoptedFromCluster) && Reaches(cfg, s0, steps, s) && Enabled(cfg, s, a)
    requires uid in s.leases && uid !in Next(cfg, s, a).leases
    ensures a.ClearMove? && a.clear == ForgetLease && s.clearers[a.t].uid == uid && s.clearers[a.t].phase == Gone
    ensures forall e :: e in s.cluster ==> s.cluster[e] != uid
  {
    NoLeakedFault(cfg, s0, adoptedFromCluster, steps, s);
    match a
    case ApplyMove(t, b) =>
      IdentityHolds(cfg, s0, adoptedFromCluster, steps, s);
      LeasesOnlyGrow(cfg, s, t, b);
    case ClearMove(t, c) => OnlyForgetDrops(s, t, c, uid);
    case _ =>
  }

  lemma LeasesOnlyGrow(cfg: Config, s: State, t: Tid, a: ApplyStep)
    requires ApplyEnabled(cfg, s, t, a)
    ensures s.leases.Keys <= NextApply(cfg, s, t, a).leases.Keys
  {
  }

  lemma OnlyForgetDrops(s: State, t: Tid, c: ClearStep, uid: string)
    requires ClearEnabled(s, t, c) && uid in s.leases && uid !in NextClear(s, t, c).leases
    ensures c == ForgetLease && s.clearers[t].uid == uid && s.clearers[t].phase == Gone
  {
  }
}
