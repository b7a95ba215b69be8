/**
 * The order of a fault's records while its object exists: it is announced before it is closed. A closing record that
 * comes first is of a fault cleared before its announcement, and then the object is gone for good.
 */
module LifecycleOrder {
  import opened AuditTrail
  import opened Slots
  import opened Lifecycle
  import opened LifecycleIdentity
  import opened LifecycleLeaks
  import opened LifecycleTrail
  import opened Retention

  predicate Ends(r: Record, uid: string) {
    r.faultUID == uid && EndingOf(r).Some?
  }

  ghost predicate HasEnding(records: seq<Record>, uid: string) {
    exists r :: r in records && Ends(r, uid)
  }

  /** Some record ended the fault, and a later one announced it. */
  ghost predicate EndedFirst(records: seq<Record>, uid: string) {
    exists i :: 0 <= i < |records| && IsAnnouncement(records[i], uid) && HasEnding(records[..i], uid)
  }

  /** No fault whose object exists was closed before it was announced. */
  ghost predicate Orderly(log: seq<Record>, cluster: map<string, string>) {
    forall e :: e in cluster ==> !EndedFirst(log, cluster[e])
  }

  lemma EndingSnoc(records: seq<Record>, r: Record, uid: string)
    ensures HasEnding(records + [r], uid) <==> HasEnding(records, uid) || Ends(r, uid)
  {
    assert forall x :: x in records + [r] <==> x in records || x == r;
    if x :| x in records && Ends(x, uid) { assert x in records + [r]; }
    if Ends(r, uid) { assert r in records + [r]; }
  }

  lemma EndedFirstSnoc(records: seq<Record>, r: Record, uid: string)
    ensures EndedFirst(records + [r], uid) <==>
      EndedFirst(records, uid) || (IsAnnouncement(r, uid) && HasEnding(records, uid))
  {
    var all := records + [r];
    assert all[..|records|] == records && all[|records|] == r;
    forall i | 0 <= i < |records| ensures all[i] == records[i] && all[..i] == records[..i] { }
    if EndedFirst(all, uid) {
      var i :| 0 <= i < |all| && IsAnnouncement(all[i], uid) && HasEnding(all[..i], uid);
      if i < |records| { assert IsAnnouncement(records[i], uid) && HasEnding(records[..i], uid); }
    }
    if EndedFirst(records, uid) {
      var i :| 0 <= i < |records| && IsAnnouncement(records[i], uid) && HasEnding(records[..i], uid);
      assert IsAnnouncement(all[i], uid) && HasEnding(all[..i], uid);
    }
  }

  /** A fault's row shows an ending exactly when some record is one. */
  lemma {:induction false} EndedIffSomeRecordEnds(records: seq<Record>, uid: string)
    requires uid != ""
    ensures Row(records, uid).outcome == Open <==> !HasEnding(records, uid)
  {
    if records != [] {
      var front, last := records[..|records| - 1], records[|records| - 1];
      EndedIffSomeRecordEnds(front, uid);
      assert records == front + [last];
      EndingSnoc(front, last, uid);
      RowOfExtension(front, last, uid);
      if last.faultUID == uid { AbsorbMoves(Row(front, uid), last); }
    }
  }

  lemma {:induction false} NoEndingNoEndedFirst(records: seq<Record>, uid: string)
    requires !HasEnding(records, uid)
    ensures !EndedFirst(records, uid)
  {
    forall i | 0 <= i < |records| ensures !HasEnding(records[..i], uid) {
      forall r | r in records[..i] ensures !Ends(r, uid) { assert r in records; }
    }
  }

  /** What ended before the kept part was announced in it. */
  lemma CutBetween(gone: seq<Record>, kept: seq<Record>, uid: string)
    requires uid != "" && Row(gone, uid).outcome != Open && HasAnnouncement(kept, uid)
    ensures EndedFirst(gone + kept, uid)
  {
    EndedIffSomeRecordEnds(gone, uid);
    var all := gone + kept;
    var r :| r in kept && IsAnnouncement(r, uid);
    var j :| 0 <= j < |kept| && kept[j] == r;
    var q :| q in gone && Ends(q, uid);
    var i := |gone| + j;
    assert all[i] == r;
    assert all[..i] == gone + kept[..j];
    assert q in all[..i];
  }

  lemma EndedFirstInPart(gone: seq<Record>, kept: seq<Record>, uid: string)
    requires EndedFirst(kept, uid)
    ensures EndedFirst(gone + kept, uid)
  {
    var all := gone + kept;
    var j :| 0 <= j < |kept| && IsAnnouncement(kept[j], uid) && HasEnding(kept[..j], uid);
    var i := |gone| + j;
    assert all[i] == kept[j] && all[..i] == gone + kept[..j];
    var q :| q in kept[..j] && Ends(q, uid);
    assert q in all[..i];
  }

  /** Records that announce nothing leave the order as it was. */
  lemma {:induction false} QuietKeepsOrder(log: seq<Record>, more: seq<Record>, uid: string)
    requires forall r :: r in more ==> !IsAnnouncement(r, uid)
    ensures EndedFirst(log + more, uid) <==> EndedFirst(log, uid)
    decreases |more|
  {
    if more == [] {
      assert log + more == log;
    } else {
      var front, last := more[..|more| - 1], more[|more| - 1];
      assert more == front + [last] && last in more;
      QuietKeepsOrder(log, front, uid);
      assert log + more == (log + front) + [last];
      EndedFirstSnoc(log + front, last, uid);
    }
  }

  // ----- In every run -----

  ghost predicate Extends(log: seq<Record>, longer: seq<Record>) {
    |log| <= |longer| && longer[..|log|] == log
    && forall i :: |log| <= i < |longer| ==> longer[i].event == DriverApplied ==> longer[i].faultUID == ""
  }

  lemma OpeningExtends(cfg: Config, s: State, t: Tid, a: ApplyStep)
    requires ApplyEnabled(cfg, s, t, a)
    requires a.Receive? || a.RefuseEarly? || a.EnterReserve? || a.LeaveReserve? || a.FailReserved? || a.DropSlot?
    ensures Extends(s.log, NextApply(cfg, s, t, a).log)
  {
  }

  lemma ApplyExtends(cfg: Config, s: State, t: Tid, a: ApplyStep)
    requires ApplyEnabled(cfg, s, t, a) && !a.AnnounceApplied?
    ensures Extends(s.log, NextApply(cfg, s, t, a).log)
  {
    if a.Receive? || a.RefuseEarly? || a.EnterReserve? || a.LeaveReserve? || a.FailReserved? || a.DropSlot? {
      OpeningExtends(cfg, s, t, a);
    }
  }

  lemma ClearExtends(s: State, t: Tid, c: ClearStep)
    requires ClearEnabled(s, t, c)
    ensures Extends(s.log, NextClear(s, t, c).log)
  {
  }

  /** What a step other than the announcement adds to the log announces no named fault. */
  lemma LogGrows(cfg: Config, s: State, a: Step) returns (more: seq<Record>)
    requires Enabled(cfg, s, a) && !(a.ApplyMove? && a.apply.AnnounceApplied?)
    ensures Next(cfg, s, a).log == s.log + more
    ensures forall r, uid :: r in more && uid != "" ==> !IsAnnouncement(r, uid)
  {
    var longer := Next(cfg, s, a).log;
    match a {
      case ApplyMove(t, b) => ApplyExtends(cfg, s, t, b);
      case ClearMove(t, c) => ClearExtends(s, t, c);
      case _ =>
    }
    more := longer[|s.log|..];
    RestAnnouncesNothing(s.log, longer);
  }

  lemma RestAnnouncesNothing(log: seq<Record>, longer: seq<Record>)
    requires Extends(log, longer)
    ensures longer == log + longer[|log|..]
    ensures forall r, uid :: r in longer[|log|..] && uid != "" ==> !IsAnnouncement(r, uid)
  {
    forall r, uid | r in longer[|log|..] && uid != "" ensures !IsAnnouncement(r, uid) {
      var i :| 0 <= i < |longer| - |log| && longer[|log|..][i] == r;
      assert longer[|log| + i] == r;
    }
  }

  lemma ApplyMovesCluster(cfg: Config, s: State, t: Tid, a: ApplyStep)
    requires ApplyEnabled(cfg, s, t, a)
    ensures a.DriverAccepts? ==> At(s, t, Early)
    ensures a.DriverAccepts? ==>
      NextApply(cfg, s, t, a).cluster == s.cluster[a.engineUID := s.applies[t].manifest.uid]
    ensures !a.DriverAccepts? ==> NextApply(cfg, s, t, a).cluster == s.cluster
  {
    if !a.DriverAccepts? && !a.RegisterLease? { QuietMove(cfg, s, t, a); }
  }

  lemma ClearShrinksCluster(s: State, t: Tid, c: ClearStep, e: string)
    requires ClearEnabled(s, t, c) && e in NextClear(s, t, c).cluster
    ensures e in s.cluster && NextClear(s, t, c).cluster[e] == s.cluster[e]
  {
  }

  /** Objects come only by an acceptance. */
  lemma ClusterMoves(cfg: Config, s: State, a: Step, e: string)
    requires Enabled(cfg, s, a) && e in Next(cfg, s, a).cluster
    ensures (e in s.cluster && Next(cfg, s, a).cluster[e] == s.cluster[e])
      || (a.ApplyMove? && a.apply.DriverAccepts? && At(s, a.t, Early)
          && Next(cfg, s, a).cluster[e] == s.applies[a.t].manifest.uid)
  {
    match a
    case ApplyMove(t, b) => ApplyMovesCluster(cfg, s, t, b);
    case ClearMove(t, c) => ClearShrinksCluster(s, t, c, e);
    case _ =>
  }

  /** Who announces a fault that was ended on the record has no object left. */
  lemma AnnouncingFindsOpen(s: State, live: set<string>, t: Tid, e: string)
    requires IdentityInv(s) && LeakInv(s) && TrailInv(s, live)
    requires t in s.applies && s.applies[t].phase.HandedOver? && e in s.cluster
    requires s.cluster[e] == s.applies[t].manifest.uid
    ensures Row(s.log, s.cluster[e]).outcome == Open
  {
    var uid := s.cluster[e];
    assert Answered(s, e);
    assert TruthAbout(s, live, uid);
    assert ApplyTold(s, t);
  }

  lemma StepKeepsOrder(cfg: Config, s: State, a: Step, live: set<string>, e: string)
    requires IdentityInv(s) && LeakInv(s) && TrailInv(s, live) && Enabled(cfg, s, a)
    requires Orderly(s.log, s.cluster) && e in Next(cfg, s, a).cluster && Next(cfg, s, a).cluster[e] != ""
    ensures !EndedFirst(Next(cfg, s, a).log, Next(cfg, s, a).cluster[e])
  {
    var s' := Next(cfg, s, a);
    var uid := s'.cluster[e];
    ClusterMoves(cfg, s, a, e);
    if a.ApplyMove? && a.apply.AnnounceApplied? {
      AnnouncementKeepsOrder(s, live, a.t, e);
    } else {
      var more := LogGrows(cfg, s, a);
      QuietKeepsOrder(s.log, more, uid);
      if !(e in s.cluster && s'.cluster[e] == s.cluster[e]) { EarlyIsOrderly(s, live, a.t); }
    }
  }

  lemma AnnouncementKeepsOrder(s: State, live: set<string>, t: Tid, e: string)
    requires IdentityInv(s) && LeakInv(s) && TrailInv(s, live) && Orderly(s.log, s.cluster)
    requires t in s.applies && s.applies[t].phase.HandedOver? && e in s.cluster && s.cluster[e] != ""
    ensures !EndedFirst(DoAnnounceApplied(s, t).log, s.cluster[e])
  {
    var r := AppliedRecord(s, s.applies[t].phase.lease);
    EndedFirstSnoc(s.log, r, s.cluster[e]);
    if r.faultUID == s.cluster[e] { AnnouncedHasNoEnding(s, live, t, e); }
  }

  lemma AnnouncedHasNoEnding(s: State, live: set<string>, t: Tid, e: string)
    requires IdentityInv(s) && LeakInv(s) && TrailInv(s, live)
    requires t in s.applies && s.applies[t].phase.HandedOver? && e in s.cluster
    requires s.cluster[e] == s.applies[t].phase.lease.manifest.uid != ""
    ensures !HasEnding(s.log, s.cluster[e])
  {
    assert s.applies[t].phase.lease.manifest == s.applies[t].manifest;
    AnnouncingFindsOpen(s, live, t, e);
    EndedIffSomeRecordEnds(s.log, s.cluster[e]);
  }

  lemma EarlyIsOrderly(s: State, live: set<string>, t: Tid)
    requires IdentityInv(s) && TrailInv(s, live) && At(s, t, Early)
    ensures !EndedFirst(s.log, s.applies[t].manifest.uid)
  {
    var uid := s.applies[t].manifest.uid;
    assert TruthAbout(s, live, uid) && ApplyTold(s, t);
    EndedIffSomeRecordEnds(s.log, uid);
    NoEndingNoEndedFirst(s.log, uid);
  }

  /** In every run that starts so, no fault whose object exists was closed before it was announced. */
  lemma {:induction false} OrderHolds(cfg: Config, s0: State, live: set<string>, steps: seq<Step>, s: State)
    requires Init(s0, live) && Reaches(cfg, s0, steps, s) && Orderly(s0.log, s0.cluster)
    ensures Orderly(s.log, s.cluster)
  {
    if steps != [] {
      var front, last := steps[..|steps| - 1], steps[|steps| - 1];
      var before := Run(cfg, s0, front).value;
      OrderHolds(cfg, s0, live, front, before);
      IdentityHolds(cfg, s0, live, front, before);
      NoLeakedFault(cfg, s0, live, front, before);
      TrailHolds(cfg, s0, live, front, before);
      forall e | e in s.cluster ensures !EndedFirst(s.log, s.cluster[e]) {
        ObjectsHaveNames(cfg, s0, live, steps, s, e);
        StepKeepsOrder(cfg, before, last, live, e);
      }
    }
  }

  lemma ObjectsHaveNames(cfg: Config, s0: State, live: set<string>, steps: seq<Step>, s: State, e: string)
    requires Init(s0, live) && Reaches(cfg, s0, steps, s) && e in s.cluster
    ensures s.cluster[e] != ""
  {
    NoLeakedFault(cfg, s0, live, steps, s);
    IdentityHolds(cfg, s0, live, steps, s);
    assert Answered(s, e);
  }
}
