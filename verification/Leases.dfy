/** The in-memory lease registry and the adoption of live faults it does not hold
    (pkg/lease/registry.go, pkg/lease/adopt.go). */
module Leases {
  import opened Vocabulary
  import opened Ordering
  import opened AuditTrail

  datatype ActiveFault = ActiveFault(
    faultUID: string, engineUID: string, manifest: Manifest, appliedAt: Time, deadline: Time, holder: string)

  type Items = map<string, ActiveFault>

  ghost predicate Keyed(items: Items) {
    forall uid :: uid in items ==> items[uid].faultUID == uid
  }

  predicate PastDeadline(af: ActiveFault, now: Time) {
    af.deadline != NEVER && now > af.deadline
  }

  function AppliedAt(af: ActiveFault): Time { af.appliedAt }

  class Registry {
    const holder: string
    var items: Items

    ghost predicate Valid()
      reads this
    {
      Keyed(items)
    }

    constructor (holder: string)
      ensures Valid() && items == map[] && this.holder == holder
    {
      this.holder := holder;
      items := map[];
    }

    /** A repeated UID overwrites the earlier lease. */
    method Register(faultUID: string, engineUID: string, m: Manifest, now: Time, deadline: Time)
        returns (af: ActiveFault)
      requires Valid()
      modifies this
      ensures Valid()
      ensures af == ActiveFault(faultUID, engineUID, m, now, deadline, holder)
      ensures items == old(items)[faultUID := af]
    {
      af := ActiveFault(faultUID, engineUID, m, now, deadline, holder);
      items := items[faultUID := af];
    }

    /** Takes a lease over with its own applied time and deadline; only the holder changes. */
    method Adopt(af: ActiveFault)
      requires Valid()
      modifies this
      ensures Valid()
      ensures items == old(items)[af.faultUID := af.(holder := holder)]
    {
      items := items[af.faultUID := af.(holder := holder)];
    }

    method Get(faultUID: string) returns (af: Option<ActiveFault>)
      ensures af == if faultUID in items then Some(items[faultUID]) else None
    {
      af := if faultUID in items then Some(items[faultUID]) else None;
    }

    method Forget(faultUID: string) returns (found: bool)
      requires Valid()
      modifies this
      ensures Valid()
      ensures found <==> faultUID in old(items)
      ensures items == old(items) - {faultUID}
    {
      found := faultUID in items;
      items := items - {faultUID};
    }

    /** Every lease the filter keeps, once, oldest first. */
    method List(namespace: string) returns (out: seq<ActiveFault>)
      requires Valid()
      ensures forall i, j :: 0 <= i < j < |out| ==> out[i].appliedAt <= out[j].appliedAt
      ensures forall af :: af in out <==>
        af.faultUID in items && items[af.faultUID] == af
        && (namespace == "" || exists t :: t in af.manifest.targets && t.namespace == namespace)
      ensures forall af :: multiset(out)[af] <= 1
    {
      out := [];
      var todo := items.Keys;
      while todo != {}
        invariant todo <= items.Keys
        invariant forall af :: af in out <==>
          af.faultUID in items.Keys - todo && items[af.faultUID] == af && af.manifest.TargetsNamespace(namespace)
        invariant forall af :: multiset(out)[af] <= 1
        decreases todo
      {
        ghost var some := Pick(todo);
        var uid :| uid in todo;
        todo := todo - {uid};
        if items[uid].manifest.TargetsNamespace(namespace) {
          assert items[uid] !in out;
          out := out + [items[uid]];
        }
      }
      IntIsTotal();
      SortIsStable(out, AppliedAt, IntBefore);
      SortKeepsMembers(out, AppliedAt, IntBefore);
      out := Sort(out, AppliedAt, IntBefore);
    }

    /** Exactly the leases whose deadline has passed. */
    method Expired(now: Time) returns (out: seq<ActiveFault>)
      requires Valid()
      ensures forall af :: af in out <==>
        af.faultUID in items && items[af.faultUID] == af && af.deadline != NEVER && now > af.deadline
      ensures forall af :: multiset(out)[af] <= 1
    {
      out := [];
      var todo := items.Keys;
      while todo != {}
        invariant todo <= items.Keys
        invariant forall af :: af in out <==>
          af.faultUID in items.Keys - todo && items[af.faultUID] == af && PastDeadline(af, now)
        invariant forall af :: multiset(out)[af] <= 1
        decreases todo
      {
        var uid :| uid in todo;
        todo := todo - {uid};
        if PastDeadline(items[uid], now) {
          assert items[uid] !in out;
          out := out + [items[uid]];
        }
      }
    }
  }

  /** What one driver lists as live; a driver whose listing failed may still return some. */
  datatype Listing = Listing(engine: string, live: seq<ActiveFault>, failed: bool)

  predicate Adoptable(items: Items, af: ActiveFault) {
    af.faultUID != "" && af.faultUID !in items
  }

  /** An object records its deadline, not how long it was asked for. */
  function WithDuration(af: ActiveFault): ActiveFault {
    if af.manifest.duration <= 0 && af.appliedAt != NEVER && af.deadline > af.appliedAt
    then af.(manifest := af.manifest.(duration := af.deadline - af.appliedAt)) else af
  }

  function AdoptAll(items: Items, holder: string, live: seq<ActiveFault>): Items {
    if live == [] then items
    else
      var before := AdoptAll(items, holder, live[..|live| - 1]);
      var af := live[|live| - 1];
      if Adoptable(before, af) then before[af.faultUID := WithDuration(af).(holder := holder)] else before
  }

  function Flatten(listings: seq<Listing>): seq<ActiveFault> {
    if listings == [] then [] else Flatten(listings[..|listings| - 1]) + listings[|listings| - 1].live
  }

  /** Adoption never replaces a held lease. */
  lemma {:induction false} AdoptionKeepsHeldLeases(items: Items, holder: string, live: seq<ActiveFault>)
    requires Keyed(items)
    ensures Keyed(AdoptAll(items, holder, live))
    ensures forall uid :: uid in items ==>
      uid in AdoptAll(items, holder, live) && AdoptAll(items, holder, live)[uid] == items[uid]
  {
    if live != [] {
      AdoptionKeepsHeldLeases(items, holder, live[..|live| - 1]);
    }
  }

  ghost function ListedUIDs(live: seq<ActiveFault>): set<string> {
    set af | af in live && af.faultUID != "" :: af.faultUID
  }

  /** Adoption adds exactly the listed faults that were not held. */
  lemma {:induction false} AdoptionAddsTheListed(items: Items, holder: string, live: seq<ActiveFault>)
    ensures AdoptAll(items, holder, live).Keys == items.Keys + ListedUIDs(live)
  {
    if live != [] {
      var front, last := live[..|live| - 1], live[|live| - 1];
      AdoptionAddsTheListed(items, holder, front);
      assert live == front + [last];
      assert ListedUIDs(live) == ListedUIDs(front) + if last.faultUID == "" then {} else {last.faultUID};
    }
  }

  /** A fault several drivers list is leased as the first of them described it. */
  lemma AdoptionTakesTheFirstListing(items: Items, holder: string, live: seq<ActiveFault>, i: nat)
    requires i < |live| && Adoptable(items, live[i])
    requires forall j :: 0 <= j < i ==> live[j].faultUID != live[i].faultUID
    ensures live[i].faultUID in AdoptAll(items, holder, live)
    ensures
      var told, taken := live[i], AdoptAll(items, holder, live)[live[i].faultUID];
      var timed := told.appliedAt != NEVER && told.deadline > told.appliedAt;
      && taken.faultUID == told.faultUID && taken.engineUID == told.engineUID && taken.holder == holder
      && taken.appliedAt == told.appliedAt && taken.deadline == told.deadline
      && taken.manifest == told.manifest.(duration := taken.manifest.duration)
      && (told.manifest.duration > 0 || !timed ==> taken.manifest.duration == told.manifest.duration)
      && (told.manifest.duration <= 0 && timed ==> taken.appliedAt + taken.manifest.duration == taken.deadline)
  {
    FirstListingTaken(items, holder, live, i);
  }

  lemma {:induction false} FirstListingTaken(items: Items, holder: string, live: seq<ActiveFault>, i: nat)
    requires i < |live| && Adoptable(items, live[i])
    requires forall j :: 0 <= j < i ==> live[j].faultUID != live[i].faultUID
    ensures live[i].faultUID in AdoptAll(items, holder, live)
    ensures AdoptAll(items, holder, live)[live[i].faultUID] == WithDuration(live[i]).(holder := holder)
  {
    var front := live[..|live| - 1];
    if i < |front| {
      FirstListingTaken(items, holder, front, i);
    } else {
      AdoptionAddsTheListed(items, holder, front);
      assert live[i].faultUID !in ListedUIDs(front);
    }
  }

  function AdoptedRecord(af: ActiveFault, now: Time): Record {
    Record(now, LeaseAdopted, af.faultUID, "", "", "", UNTRACKED_AFTER_RESTART,
           EMPTY_PAYLOAD.(engineUID := af.engineUID, deadline := Some(WholeSecond(af.deadline))))
  }

  function ListFailedRecord(now: Time): Record {
    Record(now, LeaseCleared, "", "", "", "", "adopt-live-failed", EMPTY_PAYLOAD)
  }

  /** What adopting one driver's listing puts on the record. */
  function ListingLog(items: Items, holder: string, live: seq<ActiveFault>, now: Time): seq<Record> {
    if live == [] then []
    else
      var front, af := live[..|live| - 1], live[|live| - 1];
      ListingLog(items, holder, front, now)
      + if Adoptable(AdoptAll(items, holder, front), af) then [AdoptedRecord(af, now)] else []
  }

  function FailureLog(listing: Listing, now: Time): seq<Record> {
    if listing.failed then [ListFailedRecord(now)] else []
  }

  function AdoptionLog(items: Items, holder: string, listings: seq<Listing>, now: Time): seq<Record> {
    if listings == [] then []
    else
      var front, last := listings[..|listings| - 1], listings[|listings| - 1];
      AdoptionLog(items, holder, front, now) + FailureLog(last, now)
      + ListingLog(AdoptAll(items, holder, Flatten(front)), holder, last.live, now)
  }

  ghost predicate Announces(log: seq<Record>, i: nat, uid: string) {
    i < |log| && log[i].event == LeaseAdopted && log[i].faultUID == uid
  }

  /** One record for each lease that is new, with its object and deadline; every other record is about no fault. */
  ghost predicate TellsOfNew(log: seq<Record>, before: Items, after: Items) {
    && before.Keys <= after.Keys
    && (forall uid :: uid in after && uid !in before ==> exists i: nat :: Announces(log, i, uid))
    && (forall i: nat, uid :: Announces(log, i, uid) ==>
          && uid in after && uid !in before
          && log[i].payload.engineUID == after[uid].engineUID
          && log[i].payload.deadline == Some(WholeSecond(after[uid].deadline)))
    && (forall i: nat, j: nat, uid :: Announces(log, i, uid) && Announces(log, j, uid) ==> i == j)
    && (forall r :: r in log && r.event != LeaseAdopted ==> r.faultUID == "")
  }

  lemma TellsOfOneMore(log: seq<Record>, before: Items, after: Items, holder: string, af: ActiveFault, now: Time)
    requires TellsOfNew(log, before, after) && Adoptable(after, af)
    ensures TellsOfNew(log + [AdoptedRecord(af, now)], before,
      after[af.faultUID := WithDuration(af).(holder := holder)])
  {
    var more, grown := log + [AdoptedRecord(af, now)], after[af.faultUID := WithDuration(af).(holder := holder)];
    forall i: nat, uid
      ensures Announces(more, i, uid) <==> Announces(log, i, uid) || (i == |log| && uid == af.faultUID)
    {
    }
    assert Announces(more, |log|, af.faultUID);
    forall uid | uid in grown && uid !in before ensures exists i: nat :: Announces(more, i, uid) {
      if uid != af.faultUID {
        var i: nat :| Announces(log, i, uid);
        assert Announces(more, i, uid);
      }
    }
    assert forall r :: r in more <==> r in log || r == AdoptedRecord(af, now);
  }

  lemma TellsOfFailure(log: seq<Record>, before: Items, after: Items, now: Time)
    requires TellsOfNew(log, before, after)
    ensures TellsOfNew(log + [ListFailedRecord(now)], before, after)
  {
    var more := log + [ListFailedRecord(now)];
    forall i: nat, uid ensures Announces(more, i, uid) <==> Announces(log, i, uid) {}
    forall uid | uid in after && uid !in before ensures exists i: nat :: Announces(more, i, uid) {
      var i: nat :| Announces(log, i, uid);
      assert Announces(more, i, uid);
    }
    assert forall r :: r in more <==> r in log || r == ListFailedRecord(now);
  }

  lemma {:induction false} ListingLogTells(log: seq<Record>, before: Items, items: Items, holder: string,
                                           live: seq<ActiveFault>, now: Time)
    requires TellsOfNew(log, before, items)
    ensures TellsOfNew(log + ListingLog(items, holder, live, now), before, AdoptAll(items, holder, live))
    decreases |live|
  {
    if live == [] {
      assert log + [] == log;
    } else {
      var front, af := live[..|live| - 1], live[|live| - 1];
      ListingLogTells(log, before, items, holder, front, now);
      var so, taken := log + ListingLog(items, holder, front, now), AdoptAll(items, holder, front);
      if Adoptable(taken, af) {
        TellsOfOneMore(so, before, taken, holder, af, now);
        assert so + [AdoptedRecord(af, now)]
          == log + (ListingLog(items, holder, front, now) + [AdoptedRecord(af, now)]);
      } else {
        assert ListingLog(items, holder, live, now) == ListingLog(items, holder, front, now);
      }
    }
  }

  lemma {:induction false} AdoptionsAppend(items: Items, holder: string, earlier: seq<ActiveFault>,
      later: seq<ActiveFault>)
    ensures AdoptAll(AdoptAll(items, holder, earlier), holder, later) == AdoptAll(items, holder, earlier + later)
    decreases |later|
  {
    if later == [] {
      assert earlier + later == earlier;
    } else {
      AdoptionsAppend(items, holder, earlier, later[..|later| - 1]);
      assert (earlier + later)[..|earlier + later| - 1] == earlier + later[..|later| - 1];
    }
  }

  /** Adoption records exactly what it took anew, once each. */
  lemma {:induction false} AdoptionLogTells(items: Items, holder: string, listings: seq<Listing>, now: Time)
    ensures TellsOfNew(AdoptionLog(items, holder, listings, now), items, AdoptAll(items, holder, Flatten(listings)))
    decreases |listings|
  {
    if listings != [] {
      var front, last := listings[..|listings| - 1], listings[|listings| - 1];
      AdoptionLogTells(items, holder, front, now);
      var log, taken := AdoptionLog(items, holder, front, now), AdoptAll(items, holder, Flatten(front));
      if last.failed {
        TellsOfFailure(log, items, taken, now);
      } else {
        assert log + [] == log;
      }
      ListingLogTells(log + FailureLog(last, now), items, taken, holder, last.live, now);
      AdoptionsAppend(items, holder, Flatten(front), last.live);
    }
  }

  /** Start-up adoption: fills in only what the registry lacks, and counts and records exactly what it took. */
  method AdoptLive(registry: Registry, listings: seq<Listing>, namespaces: seq<string>, now: Time)
    returns (adopted: nat, emitted: seq<Record>)
    requires registry.Valid()
    modifies registry
    ensures registry.Valid()
    ensures namespaces == [] ==> registry.items == old(registry.items) && emitted == []
    ensures namespaces != [] ==> registry.items == AdoptAll(old(registry.items), registry.holder, Flatten(listings))
    ensures namespaces != [] ==> emitted == AdoptionLog(old(registry.items), registry.holder, listings, now)
    ensures adopted == |registry.items| - |old(registry.items)|
    ensures TellsOfNew(emitted, old(registry.items), registry.items)
  {
    adopted, emitted := 0, [];
    if namespaces == [] {
      return;
    }
    for e := 0 to |listings|
      invariant registry.Valid()
      invariant registry.items == AdoptAll(old(registry.items), registry.holder, Flatten(listings[..e]))
      invariant adopted == |registry.items| - |old(registry.items)|
      invariant emitted == AdoptionLog(old(registry.items), registry.holder, listings[..e], now)
    {
      var listing := listings[e];
      AdoptionsAppend(old(registry.items), registry.holder, Flatten(listings[..e]), listing.live);
      assert listings[..e + 1][..e] == listings[..e];
      if listing.failed {
        emitted := emitted + [ListFailedRecord(now)];
      }
      var took, told := AdoptOneListing(registry, listing.live, now);
      adopted, emitted := adopted + took, emitted + told;
    }
    assert listings[..|listings|] == listings;
    AdoptionLogTells(old(registry.items), registry.holder, listings, now);
  }

  method AdoptOneListing(registry: Registry, live: seq<ActiveFault>, now: Time)
    returns (took: nat, emitted: seq<Record>)
    requires registry.Valid()
    modifies registry
    ensures registry.Valid()
    ensures registry.items == AdoptAll(old(registry.items), registry.holder, live)
    ensures took == |registry.items| - |old(registry.items)|
    ensures emitted == ListingLog(old(registry.items), registry.holder, live, now)
  {
    took, emitted := 0, [];
    for i := 0 to |live|
      invariant registry.Valid()
      invariant registry.items == AdoptAll(old(registry.items), registry.holder, live[..i])
      invariant took == |registry.items| - |old(registry.items)|
      invariant emitted == ListingLog(old(registry.items), registry.holder, live[..i], now)
    {
      var af := live[i];
      assert live[..i + 1][..i] == live[..i];
      var held := registry.Get(af.faultUID);
      if af.faultUID != "" && held.None? {
        registry.Adopt(WithDuration(af));
        took, emitted := took + 1, emitted + [AdoptedRecord(af, now)];
      }
    }
    assert live[..|live|] == live;
  }
}
