/**
 * One controller after another: each starts from what rotation kept of the last one's trail and from what the drivers
 * list, and runs until it stops (cmd/simian/serve.go). What holds in every run holds in every one of them.
 */
module Succession {
  import opened Vocabulary
  import opened AuditTrail
  import opened Leases
  import opened Slots
  import opened Lifecycle
  import opened LifecycleCap
  import opened LifecycleIdentity
  import opened LifecycleLeaks
  import opened LifecycleOrder
  import opened LifecycleTrail
  import opened RestartRecovery
  import opened Retention
  import opened Restarts
  import F = FileAudit

  /** What a start-up works with: the kept trail, the take-over's result, the drivers' listings, the objects left. */
  datatype Handover = Handover(
    kept: seq<Record>,
    items: Items,
    adoptions: seq<Record>,
    closings: seq<Record>,
    drivers: set<string>,
    adopting: bool,
    holder: string,
    since: Time,
    until: Time,
    listings: seq<Listing>,
    listedAt: Time,
    cluster: map<string, string>,
    now: Time)
  {
    function Listed(): seq<ActiveFault> { Flatten(listings) }

    function Leases(): Items { AdoptAll(items, holder, Listed()) }

    /** The leases only the cluster told of. */
    function FromCluster(): set<string> { Leases().Keys - items.Keys }

    function Log(): seq<Record> { kept + adoptions + closings + AdoptionLog(items, holder, listings, listedAt) }

    ghost function Start(): State { Startup(Log(), Leases(), cluster, now) }
  }

  /** The drivers list the fault, and always with its object. */
  ghost predicate ListsObject(listed: seq<ActiveFault>, uid: string, engineUID: string) {
    && (exists af :: af in listed && af.faultUID == uid)
    && (forall af :: af in listed && af.faultUID == uid ==> af.engineUID == engineUID)
  }

  /**
   * A start-up after a process that stopped in state s. Objects may have gone in between, none has come; and the
   * drivers list each that is left and was not taken over.
   */
  ghost predicate HandsOver(s: State, h: Handover) {
    && F.IsSuffix(h.kept, s.log)
    && TakenOver(h.kept, h.items, h.adoptions, h.closings, h.drivers, h.adopting, h.holder, h.since, h.until)
    && h.now > NEVER
    && (forall e :: e in h.cluster ==> e in s.cluster && h.cluster[e] == s.cluster[e])
    && (forall e :: e in h.cluster && h.cluster[e] !in h.items ==> ListsObject(h.Listed(), h.cluster[e], e))
  }

  /** What was taken over for a fault whose object is still there names that object. */
  lemma TakenOverNamesObject(cfg: Config, s0: State, live: set<string>, steps: seq<Step>, s: State, h: Handover,
                             e: string)
    requires Init(s0, live) && Reaches(cfg, s0, steps, s) && Orderly(s0.log, s0.cluster) && HandsOver(s, h)
    requires e in s.cluster && s.cluster[e] in h.items
    ensures h.items[s.cluster[e]].engineUID == e
  {
    var uid := s.cluster[e];
    NoLeakedFault(cfg, s0, live, steps, s);
    assert Answered(s, e);
    RestartAdoptsOnlyLeases(cfg, s0, live, steps, s, h.kept, h.items, h.adoptions, h.closings, h.drivers, h.adopting,
      h.holder, h.since, h.until, uid);
    OrderHolds(cfg, s0, live, steps, s);
    ObjectsHaveNames(cfg, s0, live, steps, s, e);
    if Row(LetGo(s.log, h.kept), uid).outcome != Open { CutBetween(LetGo(s.log, h.kept), h.kept, uid); }
    TrailHolds(cfg, s0, live, steps, s);
    WhatTheTrailSays(s, live, uid);
    AdoptedAsRecorded(h.kept, h.items, h.adoptions, h.closings, h.drivers, h.adopting, h.holder, h.since, h.until, uid);
    KeptRetells(LetGo(s.log, h.kept), h.kept, uid);
    assert (uid in s.leases && s.leases[uid].engineUID == e) || BetweenDriverAndLease(s, uid);
  }

  lemma {:induction false} FirstListed(listed: seq<ActiveFault>, uid: string) returns (i: nat)
    requires exists af :: af in listed && af.faultUID == uid
    ensures i < |listed| && listed[i].faultUID == uid && forall j :: 0 <= j < i ==> listed[j].faultUID != uid
  {
    i := 0;
    while listed[i].faultUID != uid
      invariant i < |listed| && forall j :: 0 <= j < i ==> listed[j].faultUID != uid
      decreases |listed| - i
    {
      i := i + 1;
    }
  }

  lemma ListedIsLeased(items: Items, holder: string, listed: seq<ActiveFault>, uid: string, engineUID: string)
    requires uid != "" && uid !in items && ListsObject(listed, uid, engineUID)
    ensures uid in AdoptAll(items, holder, listed) && AdoptAll(items, holder, listed)[uid].engineUID == engineUID
  {
    var i := FirstListed(listed, uid);
    AdoptionTakesTheFirstListing(items, holder, listed, i);
    assert listed[i] in listed;
  }

  /** What a start-up adds to the trail. */
  function Added(h: Handover): seq<Record> {
    h.adoptions + h.closings + AdoptionLog(h.items, h.holder, h.listings, h.listedAt)
  }

  lemma StartupAnnouncesNothing(s: State, h: Handover, r: Record)
    requires HandsOver(s, h) && r in Added(h) && r.faultUID != ""
    ensures r.event != DriverApplied
  {
    AdoptionLogTells(h.items, h.holder, h.listings, h.listedAt);
    assert r in h.adoptions || r in h.closings || r in AdoptionLog(h.items, h.holder, h.listings, h.listedAt);
  }

  lemma RestartKeepsOrder(cfg: Config, s0: State, live: set<string>, steps: seq<Step>, s: State, h: Handover)
    requires Init(s0, live) && Reaches(cfg, s0, steps, s) && Orderly(s0.log, s0.cluster) && HandsOver(s, h)
    ensures Orderly(h.Log(), h.cluster)
  {
    OrderHolds(cfg, s0, live, steps, s);
    forall e | e in h.cluster ensures !EndedFirst(h.Log(), h.cluster[e]) {
      ObjectsHaveNames(cfg, s0, live, steps, s, e);
      StartupKeepsOrder(s, h, h.cluster[e]);
    }
  }

  lemma StartupKeepsOrder(s: State, h: Handover, uid: string)
    requires HandsOver(s, h) && uid != "" && !EndedFirst(s.log, uid)
    ensures !EndedFirst(h.Log(), uid)
  {
    if EndedFirst(h.kept, uid) { EndedFirstInPart(LetGo(s.log, h.kept), h.kept, uid); }
    assert h.Log() == h.kept + Added(h);
    forall r | r in Added(h) ensures !IsAnnouncement(r, uid) {
      if r.faultUID == uid { StartupAnnouncesNothing(s, h, r); }
    }
    QuietKeepsOrder(h.kept, Added(h), uid);
  }

  /** Whatever moment the last process stopped at, the next start is one the lifecycle results apply to. */
  lemma RestartIsAStart(cfg: Config, s0: State, live: set<string>, steps: seq<Step>, s: State, h: Handover)
    requires Init(s0, live) && Reaches(cfg, s0, steps, s) && Orderly(s0.log, s0.cluster) && HandsOver(s, h)
    ensures Init(h.Start(), h.FromCluster()) && Orderly(h.Log(), h.cluster)
  {
    RestartKeepsOrder(cfg, s0, live, steps, s, h);
    var leases := h.Leases();
    forall e | e in h.cluster ensures h.cluster[e] in leases && leases[h.cluster[e]].engineUID == e {
      EachObjectIsLeased(cfg, s0, live, steps, s, h, e);
    }
    AdoptionLogTells(h.items, h.holder, h.listings, h.listedAt);
    StartupIsInit(h.kept, h.items, h.adoptions, h.closings, h.drivers, h.adopting, h.holder, h.since, h.until,
      h.Listed(), AdoptionLog(h.items, h.holder, h.listings, h.listedAt), h.cluster, h.now);
  }

  lemma EachObjectIsLeased(cfg: Config, s0: State, live: set<string>, steps: seq<Step>, s: State, h: Handover,
                           e: string)
    requires Init(s0, live) && Reaches(cfg, s0, steps, s) && Orderly(s0.log, s0.cluster) && HandsOver(s, h)
    requires e in h.cluster
    ensures h.cluster[e] in h.Leases() && h.Leases()[h.cluster[e]].engineUID == e
  {
    var uid := h.cluster[e];
    if uid in h.items {
      TakenOverNamesObject(cfg, s0, live, steps, s, h, e);
      StartupLeases(h.kept, h.items, h.adoptions, h.closings, h.drivers, h.adopting, h.holder, h.since, h.until,
        h.Listed());
    } else {
      ObjectsHaveNames(cfg, s0, live, steps, s, e);
      ListedIsLeased(h.items, h.holder, h.Listed(), uid, e);
    }
  }

  // ----- Any number of processes -----

  /** One process: its settings, its start and the leases it found in the cluster, its steps, and where it stopped. */
  datatype Life = Life(cfg: Config, start: State, live: set<string>, steps: seq<Step>, end: State)

  ghost predicate Lived(life: Life) {
    Reaches(life.cfg, life.start, life.steps, life.end)
  }

  ghost predicate Follows(before: Life, after: Life) {
    exists h :: HandsOver(before.end, h) && after.start == h.Start() && after.live == h.FromCluster()
  }

  ghost predicate Lineage(lives: seq<Life>) {
    && lives != [] && Init(lives[0].start, lives[0].live) && Orderly(lives[0].start.log, lives[0].start.cluster)
    && (forall i :: 0 <= i < |lives| ==> Lived(lives[i]))
    && (forall i :: 0 <= i < |lives| - 1 ==> Follows(lives[i], lives[i + 1]))
  }

  /** The cap holds, every object in the cluster is answered for, and the trail is true. */
  ghost predicate Safe(life: Life) {
    && Init(life.start, life.live)
    && LeakInv(life.end) && TrailInv(life.end, life.live)
    && (life.cfg.maxConcurrentFaults > 0 ==>
          |life.end.leases| + |Pending(life.end)| <= Max(life.cfg.maxConcurrentFaults, |life.start.leases|))
  }

  lemma LifeIsSafe(life: Life)
    requires Init(life.start, life.live) && Lived(life)
    ensures Safe(life)
  {
    NoLeakedFault(life.cfg, life.start, life.live, life.steps, life.end);
    TrailHolds(life.cfg, life.start, life.live, life.steps, life.end);
    CapHolds(life.cfg, life.start, life.live, life.steps, life.end);
  }

  /**
   * Through any number of restarts, after crashes at any moment and any rotation of the trail: every process starts
   * with each object in the cluster leased by its fault and a trail that says so, keeps to the cap, leaks no fault and
   * keeps its trail true.
   */
  lemma {:induction false} EveryLifeIsSafe(lives: seq<Life>, i: nat)
    requires Lineage(lives) && i < |lives|
    ensures Safe(lives[i]) && Orderly(lives[i].start.log, lives[i].start.cluster)
  {
    assert Lived(lives[i]);
    if i > 0 {
      EveryLifeIsSafe(lives, i - 1);
      var before := lives[i - 1];
      assert Lived(before) && Follows(lives[i - 1], lives[i - 1 + 1]);
      var h :| HandsOver(before.end, h)
            && lives[i].start == h.Start() && lives[i].live == h.FromCluster();
      RestartIsAStart(before.cfg, before.start, before.live, before.steps, before.end, h);
    }
    LifeIsSafe(lives[i]);
  }

  // ----- Announcements are complete -----

  /** What a step adds to the log, if it announces a fault, says when and what. */
  lemma StepAnnouncesCompletely(cfg: Config, s: State, a: Step)
    requires Enabled(cfg, s, a) && s.now > NEVER && AllComplete(s.log)
    ensures AllComplete(Next(cfg, s, a).log)
  {
    match a
    case ApplyMove(t, b) => ApplyAnnouncesCompletely(cfg, s, t, b);
    case ClearMove(t, c) => ClearAnnouncesNothing(s, t, c);
    case _ =>
  }

  lemma ApplyAnnouncesCompletely(cfg: Config, s: State, t: Tid, a: ApplyStep)
    requires ApplyEnabled(cfg, s, t, a) && s.now > NEVER && AllComplete(s.log)
    ensures AllComplete(NextApply(cfg, s, t, a).log)
  {
    var s' := NextApply(cfg, s, t, a);
    if a.AnnounceApplied? {
      var r := AppliedRecord(s, s.applies[t].phase.lease);
      assert Complete(r) && s'.log == s.log + [r];
    } else {
      assert forall r :: r in s'.log && r !in s.log ==> r.event != DriverApplied;
    }
  }

  lemma ClearAnnouncesNothing(s: State, t: Tid, c: ClearStep)
    requires ClearEnabled(s, t, c) && AllComplete(s.log)
    ensures AllComplete(NextClear(s, t, c).log)
  {
    assert forall r :: r in NextClear(s, t, c).log && r !in s.log ==> r.event != DriverApplied;
  }

  lemma {:induction false} RunsAnnounceCompletely(cfg: Config, s0: State, live: set<string>, steps: seq<Step>, s: State)
    requires Init(s0, live) && Reaches(cfg, s0, steps, s) && AllComplete(s0.log)
    ensures AllComplete(s.log)
  {
    if steps != [] {
      var front, last := steps[..|steps| - 1], steps[|steps| - 1];
      var before := Run(cfg, s0, front).value;
      RunsAnnounceCompletely(cfg, s0, live, front, before);
      TrailHolds(cfg, s0, live, front, before);
      StepAnnouncesCompletely(cfg, before, last);
    }
  }

  lemma RestartKeepsComplete(s: State, h: Handover)
    requires HandsOver(s, h) && AllComplete(s.log)
    ensures AllComplete(h.kept) && AllComplete(h.Log())
  {
    forall r | r in h.kept ensures r in s.log { }
    forall r | r in h.Log() && r.event == DriverApplied && r.faultUID != "" ensures r in h.kept {
      assert h.Log() == h.kept + Added(h);
      if r in Added(h) { StartupAnnouncesNothing(s, h, r); }
    }
  }

  /**
   * If the first trail's announcements are complete, so are all that any later process reads: the condition the
   * restart results put on what was kept holds of itself.
   */
  lemma {:induction false} EveryTrailIsComplete(lives: seq<Life>, i: nat)
    requires Lineage(lives) && i < |lives| && AllComplete(lives[0].start.log)
    ensures AllComplete(lives[i].start.log) && AllComplete(lives[i].end.log)
  {
    assert Lived(lives[i]);
    EveryLifeIsSafe(lives, i);
    if i > 0 {
      EveryTrailIsComplete(lives, i - 1);
      var before := lives[i - 1];
      assert Follows(lives[i - 1], lives[i - 1 + 1]);
      var h :| HandsOver(before.end, h)
            && lives[i].start == h.Start() && lives[i].live == h.FromCluster();
      RestartKeepsComplete(before.end, h);
    }
    RunsAnnounceCompletely(lives[i].cfg, lives[i].start, lives[i].live, lives[i].steps, lives[i].end);
  }
}
