/** The executor's bounded memory of faults it ran and faults it refused (pkg/executor/history.go). */
module History {
  import opened Vocabulary
  import opened Ordering
  import opened Rings

  const DEFAULT_HISTORY_CAPACITY := 100

  datatype RecentFault = RecentFault(
    faultUID: string, manifest: Manifest, appliedAt: Time, clearedAt: Time, clearReason: string)

  datatype RefusedFault = RefusedFault(
    faultUID: string, manifest: Manifest, refusedAt: Time, stage: string, reason: string, error: string)

  type Index = map<string, nat>

  /** The newest entry of a fault. */
  function LastIndex(items: seq<RecentFault>, uid: string): (at: Option<nat>)
    ensures at.Some? ==> at.value < |items| && items[at.value].faultUID == uid
  {
    if items == [] then None
    else if items[|items| - 1].faultUID == uid then Some(|items| - 1)
    else LastIndex(items[..|items| - 1], uid)
  }

  /** Every entry of the index leads to an entry of its fault. */
  ghost predicate Sound(byUID: Index, items: seq<RecentFault>) {
    forall uid :: uid in byUID ==> byUID[uid] < |items| && items[byUID[uid]].faultUID == uid
  }

  /** The index is the whole truth: it leads to each remembered fault's newest entry. */
  ghost predicate Exact(byUID: Index, items: seq<RecentFault>) {
    forall uid :: IndexedRight(byUID, items, uid)
  }

  ghost predicate IndexedRight(byUID: Index, items: seq<RecentFault>, uid: string) {
    (uid in byUID <==> LastIndex(items, uid).Some?) && (uid in byUID ==> LastIndex(items, uid) == Some(byUID[uid]))
  }

  ghost predicate DistinctFaults(items: seq<RecentFault>) {
    forall i, j :: 0 <= i < j < |items| ==> items[i].faultUID != items[j].faultUID
  }

  /** The index after evicting the oldest entry. */
  function Shifted(byUID: Index, evicted: string): Index {
    map uid | uid in byUID && uid != evicted :: if byUID[uid] > 0 then byUID[uid] - 1 else 0
  }

  function PushedItems(items: seq<RecentFault>, capacity: nat, rf: RecentFault): seq<RecentFault> {
    (if |items| >= capacity > 0 then items[1..] else items) + [rf]
  }

  function PushedIndex(byUID: Index, items: seq<RecentFault>, capacity: nat, rf: RecentFault): Index {
    var left := if |items| >= capacity > 0 then Shifted(byUID, items[0].faultUID) else byUID;
    left[rf.faultUID := |PushedItems(items, capacity, rf)| - 1]
  }

  /** Moves the index of every other fault down by one. */
  method ShiftIndex(before: Index, evicted: string) returns (after: Index)
    requires forall uid :: uid in before && uid != evicted ==> before[uid] > 0
    ensures after == Shifted(before, evicted)
  {
    after := before - {evicted};
    var todo := after.Keys;
    ghost var shifted := Shifted(before, evicted);
    assert after.Keys == shifted.Keys;
    while todo != {}
      invariant todo <= after.Keys == shifted.Keys
      invariant forall uid :: uid in after ==> after[uid] == if uid in todo then before[uid] else shifted[uid]
      decreases |todo|
    {
      ghost var some := Pick(todo);
      var k :| k in todo;
      after := after[k := after[k] - 1];
      todo := todo - {k};
    }
  }

  lemma PushIsSound(byUID: Index, items: seq<RecentFault>, capacity: nat, rf: RecentFault)
    requires capacity > 0 && Sound(byUID, items)
    ensures Sound(PushedIndex(byUID, items, capacity, rf), PushedItems(items, capacity, rf))
    ensures items != [] ==> forall uid :: uid in byUID && uid != items[0].faultUID ==> byUID[uid] > 0
  {
  }

  class History {
    const capacity: nat
    var items: seq<RecentFault>
    var byUID: Index
    var refused: seq<RefusedFault>

    /** Everything pushed: as it was pushed, and with what was recorded about it while it was remembered. */
    ghost var asPushed: seq<RecentFault>
    ghost var pushed: seq<RecentFault>
    ghost var refusals: seq<RefusedFault>

    ghost predicate Valid()
      reads this
    {
      && capacity > 0
      && items == Last(pushed, capacity)
      && refused == Last(refusals, capacity)
      && SameFaults(asPushed, pushed)
      && Sound(byUID, items) && Indexes(byUID, asPushed, capacity)
    }

    constructor (limit: int)
      ensures Valid() && asPushed == pushed == [] && refusals == [] && byUID == map[]
      ensures capacity == if limit <= 0 then 100 else limit
    {
      capacity := if limit <= 0 then DEFAULT_HISTORY_CAPACITY else limit;
      items, byUID, refused := [], map[], [];
      asPushed, pushed, refusals := [], [], [];
    }

    method PushRefused(rf: RefusedFault)
      requires Valid()
      modifies this
      ensures Valid() && refusals == old(refusals) + [rf]
      ensures items == old(items) && byUID == old(byUID) && asPushed == old(asPushed) && pushed == old(pushed)
    {
      LastSnoc(refusals, rf, capacity);
      refusals := refusals + [rf];
      if |refused| >= capacity { refused := refused[1..]; }
      refused := refused + [rf];
    }

    method ListRefused(ns: string, limit: int) returns (out: seq<RefusedFault>)
      requires Valid()
      ensures out == Newest(Last(refusals, capacity), (rf: RefusedFault) => rf.manifest.TargetsNamespace(ns), limit)
    {
      out := NewestFirst(refused, (rf: RefusedFault) => rf.manifest.TargetsNamespace(ns), limit);
    }

    method Push(rf: RecentFault)
      requires Valid()
      modifies this
      ensures Valid() && refusals == old(refusals) && refused == old(refused)
      ensures pushed == if rf.faultUID == "" then old(pushed) else old(pushed) + [rf]
      ensures asPushed == if rf.faultUID == "" then old(asPushed) else old(asPushed) + [rf]
    {
      if rf.faultUID == "" { return; }
      PushIsSound(byUID, items, capacity, rf);
      PushIsTracked(byUID, asPushed, pushed, capacity, rf);
      ghost var index := PushedIndex(byUID, items, capacity, rf);
      asPushed, pushed := asPushed + [rf], pushed + [rf];
      PushEntry(rf);
      assert byUID == index;
    }

    /** The ring and its index, in place. */
    method PushEntry(rf: RecentFault)
      requires |items| >= capacity > 0 ==> forall uid :: uid in byUID && uid != items[0].faultUID ==> byUID[uid] > 0
      requires capacity > 0
      modifies this`items, this`byUID
      ensures items == PushedItems(old(items), capacity, rf)
      ensures byUID == PushedIndex(old(byUID), old(items), capacity, rf)
    {
      if |items| >= capacity {
        var evicted := items[0];
        items := items[1..];
        byUID := ShiftIndex(byUID, evicted.faultUID);
      }
      items := items + [rf];
      byUID := byUID[rf.faultUID := |items| - 1];
    }

    method Has(uid: string) returns (known: bool)
      requires Valid()
      ensures known <==> Pushed(asPushed, uid) && !LostTrack(asPushed, capacity, uid)
      ensures known ==> exists rf :: rf in items && rf.faultUID == uid
    {
      known := uid in byUID;
      assert IndexSays(byUID, asPushed, capacity, uid);
      if known { assert items[byUID[uid]] in items; }
    }

    /** Writes into the ring in place; a fault not, or no longer, remembered is left alone. */
    method UpdateCleared(uid: string, at: Time, reason: string)
      requires Valid()
      modifies this`items, this`pushed
      ensures Valid() && |pushed| == |old(pushed)| && |items| == |old(items)|
      ensures uid !in byUID ==> items == old(items) && pushed == old(pushed)
      ensures uid in byUID ==>
        && items == old(items)[byUID[uid] := old(items)[byUID[uid]].(clearedAt := at, clearReason := reason)]
        && pushed == old(pushed)[|pushed| - |items| + byUID[uid] := items[byUID[uid]]]
    {
      if uid !in byUID { return; }
      var idx := byUID[uid];
      var cleared := items[idx].(clearedAt := at, clearReason := reason);
      pushed := pushed[|pushed| - |items| + idx := cleared];
      items := items[idx := cleared];
    }

    method List(ns: string, limit: int) returns (out: seq<RecentFault>)
      requires Valid()
      ensures out == Sort(Newest(Last(pushed, capacity), (rf: RecentFault) => rf.manifest.TargetsNamespace(ns), limit),
                          AppliedAt, IntAfter)
      ensures
        var newest := Newest(Last(pushed, capacity), (rf: RecentFault) => rf.manifest.TargetsNamespace(ns), limit);
        && (forall i, j :: 0 <= i < j < |out| ==> out[i].appliedAt >= out[j].appliedAt)
        && multiset(out) == multiset(newest)
        && forall t :: WithKey(out, AppliedAt, t) == WithKey(newest, AppliedAt, t)
    {
      out := NewestFirst(items, (rf: RecentFault) => rf.manifest.TargetsNamespace(ns), limit);
      SortIsStable(out, AppliedAt, IntAfter);
      out := Sort(out, AppliedAt, IntAfter);
    }
  }

  function AppliedAt(rf: RecentFault): Time { rf.appliedAt }

  // ----- When the index stays exact -----

  lemma {:induction false} LastIndexSnoc(items: seq<RecentFault>, rf: RecentFault, uid: string)
    ensures LastIndex(items + [rf], uid) == if rf.faultUID == uid then Some(|items|) else LastIndex(items, uid)
  {
    assert (items + [rf])[..|items|] == items;
  }

  lemma {:induction false} LastIndexTail(items: seq<RecentFault>, uid: string)
    requires items != []
    ensures var at := LastIndex(items, uid);
      LastIndex(items[1..], uid) == if at.Some? && at.value > 0 then Some(at.value - 1) else None
  {
    if |items| > 1 && items[|items| - 1].faultUID != uid {
      LastIndexTail(items[..|items| - 1], uid);
      assert items[1..][..|items| - 2] == items[..|items| - 1][1..];
    }
  }

  /** The fault evicted by a push is remembered by a newer entry too. */
  predicate EvictsAlias(items: seq<RecentFault>, capacity: nat, rf: RecentFault) {
    |items| >= capacity > 0 && rf.faultUID != items[0].faultUID
    && exists i | 1 <= i < |items| :: items[i].faultUID == items[0].faultUID
  }

  lemma ShiftIsExact(byUID: Index, items: seq<RecentFault>, uid: string)
    requires items != [] && Exact(byUID, items) && uid != items[0].faultUID
    ensures IndexedRight(Shifted(byUID, items[0].faultUID), items[1..], uid)
  {
    assert IndexedRight(byUID, items, uid);
    LastIndexTail(items, uid);
  }

  /** A push keeps the index exact unless it evicts one of two entries of the same fault, and only then breaks it. */
  lemma PushKeepsIndexExact(byUID: Index, items: seq<RecentFault>, capacity: nat, rf: RecentFault)
    requires Exact(byUID, items) && capacity > 0
    ensures Exact(PushedIndex(byUID, items, capacity, rf), PushedItems(items, capacity, rf)) <==>
      !EvictsAlias(items, capacity, rf)
  {
    var index, after := PushedIndex(byUID, items, capacity, rf), PushedItems(items, capacity, rf);
    var kept := after[..|after| - 1];
    forall uid ensures LastIndex(after, uid) == if rf.faultUID == uid then Some(|kept|) else LastIndex(kept, uid) {
      LastIndexSnoc(kept, rf, uid);
      assert after == kept + [rf];
    }
    if EvictsAlias(items, capacity, rf) {
      var uid := items[0].faultUID;
      var i :| 1 <= i < |items| && items[i].faultUID == uid;
      assert kept == items[1..] && kept[i - 1].faultUID == uid;
      LastIndexIsNewest(kept, uid);
      assert !IndexedRight(index, after, uid);
    } else {
      forall uid ensures IndexedRight(index, after, uid) {
        PushedRight(byUID, items, capacity, rf, uid);
      }
    }
  }

  lemma PushedRight(byUID: Index, items: seq<RecentFault>, capacity: nat, rf: RecentFault, uid: string)
    requires Exact(byUID, items) && capacity > 0 && !EvictsAlias(items, capacity, rf)
    ensures IndexedRight(PushedIndex(byUID, items, capacity, rf), PushedItems(items, capacity, rf), uid)
  {
    var kept := if |items| >= capacity then items[1..] else items;
    LastIndexSnoc(kept, rf, uid);
    assert IndexedRight(byUID, items, uid);
    if |items| >= capacity && uid != rf.faultUID {
      if uid == items[0].faultUID {
        LastIndexTail(items, uid);
      } else {
        ShiftIsExact(byUID, items, uid);
      }
    }
  }

  // ----- What the index says after any pushes -----

  function IndexAfter(pushes: seq<RecentFault>, capacity: nat): Index {
    if pushes == [] then map[]
    else
      var front := pushes[..|pushes| - 1];
      PushedIndex(IndexAfter(front, capacity), Last(front, capacity), capacity, pushes[|pushes| - 1])
  }

  ghost predicate Pushed(pushes: seq<RecentFault>, uid: string) {
    exists i :: 0 <= i < |pushes| && pushes[i].faultUID == uid
  }

  /** An entry of the fault has left the ring that is fewer than a ring's length older than the fault's newest. */
  ghost predicate LostTrack(pushes: seq<RecentFault>, capacity: nat, uid: string) {
    var newest := LastIndex(pushes, uid);
    newest.Some? && exists i :: 0 <= i < |pushes| - capacity && newest.value < i + capacity && pushes[i].faultUID == uid
  }

  lemma LastIndexIsLast(pushes: seq<RecentFault>, uid: string)
    ensures LastIndex(pushes, uid).Some? <==> Pushed(pushes, uid)
  {
    LastIndexIsNewest(pushes, uid);
  }

  /** What the index should say of a fault. */
  ghost predicate IndexSays(index: Index, pushes: seq<RecentFault>, capacity: nat, uid: string) {
    && (uid in index <==> Pushed(pushes, uid) && !LostTrack(pushes, capacity, uid))
    && (uid in index ==> LastIndex(pushes, uid) == Some(index[uid] + |pushes| - |Last(pushes, capacity)|))
  }

  ghost predicate Indexes(index: Index, pushes: seq<RecentFault>, capacity: nat) {
    forall uid :: IndexSays(index, pushes, capacity, uid)
  }

  /** After any pushes a fault is indexed unless track of it was lost, by its newest entry's place in the ring. */
  lemma {:induction false} IndexOfPushes(pushes: seq<RecentFault>, capacity: nat, uid: string)
    requires capacity > 0
    ensures IndexSays(IndexAfter(pushes, capacity), pushes, capacity, uid)
  {
    if pushes != [] {
      var front, rf := pushes[..|pushes| - 1], pushes[|pushes| - 1];
      assert pushes == front + [rf];
      IndexOfPushes(front, capacity, uid);
      var index := IndexAfter(front, capacity);
      if rf.faultUID == uid {
        PushedFaultIsIndexed(index, front, rf, capacity);
      } else {
        OthersAfterPush(index, front, rf, capacity, uid);
      }
    }
  }

  lemma PushedFaultIsIndexed(index: Index, front: seq<RecentFault>, rf: RecentFault, capacity: nat)
    requires capacity > 0
    ensures IndexSays(PushedIndex(index, Last(front, capacity), capacity, rf), front + [rf], capacity, rf.faultUID)
  {
    LastSnoc(front, rf, capacity);
    LastIndexSnoc(front, rf, rf.faultUID);
    assert (front + [rf])[|front|] == rf;
  }

  /** What a push of another fault does to a fault's entry in the index. */
  ghost predicate MovesDown(index: Index, after: Index, items: seq<RecentFault>, capacity: nat, uid: string) {
    var full := |items| >= capacity > 0;
    && (uid in after <==> uid in index && !(full && items[0].faultUID == uid))
    && (uid in after && index[uid] > 0 ==> after[uid] == index[uid] - if full then 1 else 0)
    && (uid in after && !full ==> after[uid] == index[uid])
  }

  lemma OthersInIndex(index: Index, items: seq<RecentFault>, capacity: nat, rf: RecentFault, uid: string)
    requires capacity > 0 && rf.faultUID != uid
    ensures MovesDown(index, PushedIndex(index, items, capacity, rf), items, capacity, uid)
  {
  }

  lemma RingSizes(front: seq<RecentFault>, rf: RecentFault, capacity: nat)
    requires capacity > 0
    ensures
      var ring, after := Last(front, capacity), Last(front + [rf], capacity);
      && (|ring| >= capacity <==> |front| >= capacity)
      && (|front| >= capacity ==> ring[0] == front[|front| - capacity])
      && |front| - |ring| == (if |front| >= capacity then |front| - capacity else 0)
      && |front| + 1 - |after| == (if |front| >= capacity then |front| - capacity + 1 else 0)
  {
  }

  lemma OthersStayPushed(front: seq<RecentFault>, rf: RecentFault, uid: string)
    requires rf.faultUID != uid
    ensures Pushed(front + [rf], uid) <==> Pushed(front, uid)
  {
    LastIndexSnoc(front, rf, uid);
    LastIndexIsLast(front, uid);
    LastIndexIsLast(front + [rf], uid);
  }

  lemma OthersAfterPush(index: Index, front: seq<RecentFault>, rf: RecentFault, capacity: nat, uid: string)
    requires capacity > 0 && rf.faultUID != uid && IndexSays(index, front, capacity, uid)
    ensures IndexSays(PushedIndex(index, Last(front, capacity), capacity, rf), front + [rf], capacity, uid)
  {
    var after := PushedIndex(index, Last(front, capacity), capacity, rf);
    OthersInIndex(index, Last(front, capacity), capacity, rf, uid);
    OthersStayIndexed(index, after, front, rf, capacity, uid);
    OthersKeepPlaces(index, after, front, rf, capacity, uid);
  }

  lemma OthersStayIndexed(index: Index, after: Index, front: seq<RecentFault>, rf: RecentFault, capacity: nat,
      uid: string)
    requires capacity > 0 && rf.faultUID != uid && MovesDown(index, after, Last(front, capacity), capacity, uid)
    requires uid in index <==> Pushed(front, uid) && !LostTrack(front, capacity, uid)
    ensures uid in after <==> Pushed(front + [rf], uid) && !LostTrack(front + [rf], capacity, uid)
  {
    RingSizes(front, rf, capacity);
    OthersStayPushed(front, rf, uid);
    LostTrackSnoc(front, rf, capacity, uid);
  }

  lemma OthersKeepPlaces(index: Index, after: Index, front: seq<RecentFault>, rf: RecentFault, capacity: nat,
      uid: string)
    requires capacity > 0 && rf.faultUID != uid && MovesDown(index, after, Last(front, capacity), capacity, uid)
    requires uid in index ==> LastIndex(front, uid) == Some(index[uid] + |front| - |Last(front, capacity)|)
    ensures uid in after ==>
      LastIndex(front + [rf], uid) == Some(after[uid] + |front| + 1 - |Last(front + [rf], capacity)|)
  {
    if uid in after {
      PlaceInRing(front, capacity, uid, index[uid]);
      RingSizes(front, rf, capacity);
      LastIndexSnoc(front, rf, uid);
    }
  }

  lemma PlaceInRing(front: seq<RecentFault>, capacity: nat, uid: string, i: nat)
    requires LastIndex(front, uid) == Some(i + |front| - |Last(front, capacity)|)
    ensures i < |Last(front, capacity)| && Last(front, capacity)[i].faultUID == uid
  {
    var at := LastIndex(front, uid).value;
    assert at < |front| && front[at].faultUID == uid;
  }

  /** Pushing another fault loses track of one when it evicts an entry of it. */
  lemma LostTrackSnoc(front: seq<RecentFault>, rf: RecentFault, capacity: nat, uid: string)
    requires capacity > 0 && rf.faultUID != uid
    ensures LostTrack(front + [rf], capacity, uid) <==>
      || LostTrack(front, capacity, uid)
      || (|front| >= capacity && front[|front| - capacity].faultUID == uid)
  {
    var pushes := front + [rf];
    LastIndexSnoc(front, rf, uid);
    var at := LastIndex(front, uid);
    assert forall i :: 0 <= i < |front| ==> pushes[i] == front[i];
    LastIndexIsNewest(front, uid);
  }

  lemma {:induction false} LastIndexIsNewest(items: seq<RecentFault>, uid: string)
    ensures forall i :: 0 <= i < |items| && items[i].faultUID == uid ==>
      LastIndex(items, uid).Some? && i <= LastIndex(items, uid).value
  {
    if items != [] { LastIndexIsNewest(items[..|items| - 1], uid); }
  }

  lemma {:induction false} LastIndexDrop(items: seq<RecentFault>, k: nat, uid: string)
    requires k <= |items|
    ensures
      var at := LastIndex(items, uid);
      LastIndex(items[k..], uid) == if at.Some? && at.value >= k then Some(at.value - k) else None
  {
    var n := |items|;
    if k < n && items[n - 1].faultUID != uid {
      LastIndexDrop(items[..n - 1], k, uid);
      assert items[k..][..n - 1 - k] == items[..n - 1][k..];
    }
  }

  /**
   * For which pushes the index is exact at the end: those after which no fault still in the ring has an entry gone
   * from it that was pushed fewer than a ring's length before its newest one.
   */
  lemma IndexIsExactWhen(pushes: seq<RecentFault>, capacity: nat)
    requires capacity > 0
    ensures Exact(IndexAfter(pushes, capacity), Last(pushes, capacity)) <==>
      forall rf :: rf in Last(pushes, capacity) ==> !LostTrack(pushes, capacity, rf.faultUID)
  {
    if forall rf :: rf in Last(pushes, capacity) ==> !LostTrack(pushes, capacity, rf.faultUID) {
      forall uid ensures IndexedRight(IndexAfter(pushes, capacity), Last(pushes, capacity), uid) {
        RightUnlessLost(pushes, capacity, uid);
        RememberedAt(Last(pushes, capacity), uid);
      }
    } else {
      var rf :| rf in Last(pushes, capacity) && LostTrack(pushes, capacity, rf.faultUID);
      RightUnlessLost(pushes, capacity, rf.faultUID);
      RememberedAt(Last(pushes, capacity), rf.faultUID);
      assert !IndexedRight(IndexAfter(pushes, capacity), Last(pushes, capacity), rf.faultUID);
    }
  }

  lemma RememberedAt(ring: seq<RecentFault>, uid: string)
    ensures LastIndex(ring, uid).Some? <==> exists rf :: rf in ring && rf.faultUID == uid
  {
    var at := LastIndex(ring, uid);
    LastIndexIsNewest(ring, uid);
    if at.Some? { assert ring[at.value] in ring; }
  }

  lemma RightUnlessLost(pushes: seq<RecentFault>, capacity: nat, uid: string)
    requires capacity > 0
    ensures IndexedRight(IndexAfter(pushes, capacity), Last(pushes, capacity), uid) <==>
      LastIndex(Last(pushes, capacity), uid).None? || !LostTrack(pushes, capacity, uid)
  {
    IndexOfPushes(pushes, capacity, uid);
    RingIsTail(pushes, capacity);
    RightInRing(IndexAfter(pushes, capacity), pushes, Last(pushes, capacity), capacity, uid);
  }

  lemma RingIsTail(pushes: seq<RecentFault>, capacity: nat)
    ensures pushes[|pushes| - |Last(pushes, capacity)|..] == Last(pushes, capacity)
  {
  }

  lemma RightInRing(index: Index, pushes: seq<RecentFault>, ring: seq<RecentFault>, capacity: nat, uid: string)
    requires capacity > 0 && IndexSays(index, pushes, capacity, uid)
    requires ring == Last(pushes, capacity) == pushes[|pushes| - |ring|..]
    ensures IndexedRight(index, ring, uid) <==> LastIndex(ring, uid).None? || !LostTrack(pushes, capacity, uid)
  {
    LastIndexIsLast(pushes, uid);
    LastIndexDrop(pushes, |pushes| - |ring|, uid);
    var at := LastIndex(pushes, uid);
    if at.Some? && at.value < |pushes| - |ring| { GoneIsLost(pushes, capacity, uid); }
  }

  /** A fault with no entry left in the ring has lost track of itself. */
  lemma GoneIsLost(pushes: seq<RecentFault>, capacity: nat, uid: string)
    requires capacity > 0 && LastIndex(pushes, uid).Some?
    requires LastIndex(pushes, uid).value < |pushes| - |Last(pushes, capacity)|
    ensures LostTrack(pushes, capacity, uid)
  {
    assert pushes[LastIndex(pushes, uid).value].faultUID == uid;
  }

  /** For faults pushed once each, the index is exact across every eviction. */
  lemma DistinctFaultsAreIndexed(pushes: seq<RecentFault>, capacity: nat)
    requires capacity > 0 && DistinctFaults(pushes)
    ensures Exact(IndexAfter(pushes, capacity), Last(pushes, capacity))
  {
    var ring := Last(pushes, capacity);
    forall rf | rf in ring ensures !LostTrack(pushes, capacity, rf.faultUID) {
      var k :| 0 <= k < |ring| && ring[k] == rf;
      assert pushes[|pushes| - |ring| + k] == rf;
    }
    IndexIsExactWhen(pushes, capacity);
  }

  ghost predicate SameFaults(xs: seq<RecentFault>, ys: seq<RecentFault>) {
    |xs| == |ys| && forall i :: 0 <= i < |xs| ==> xs[i].faultUID == ys[i].faultUID
  }

  lemma SameFaultsInRing(xs: seq<RecentFault>, ys: seq<RecentFault>, capacity: nat)
    requires SameFaults(xs, ys)
    ensures SameFaults(Last(xs, capacity), Last(ys, capacity))
  {
  }

  /** A push keeps the index telling of what was pushed, whatever was recorded about it since. */
  lemma PushKeepsIndex(index: Index, asPushed: seq<RecentFault>, pushed: seq<RecentFault>, capacity: nat,
      rf: RecentFault)
    requires capacity > 0 && SameFaults(asPushed, pushed) && Indexes(index, asPushed, capacity)
    ensures Indexes(PushedIndex(index, Last(pushed, capacity), capacity, rf), asPushed + [rf], capacity)
    ensures SameFaults(asPushed + [rf], pushed + [rf])
  {
    SameFaultsInRing(asPushed, pushed, capacity);
    SameFaultsSamePush(index, Last(asPushed, capacity), Last(pushed, capacity), capacity, rf, rf);
    var after := PushedIndex(index, Last(asPushed, capacity), capacity, rf);
    forall uid ensures IndexSays(after, asPushed + [rf], capacity, uid) {
      assert IndexSays(index, asPushed, capacity, uid);
      if rf.faultUID == uid {
        PushedFaultIsIndexed(index, asPushed, rf, capacity);
      } else {
        OthersAfterPush(index, asPushed, rf, capacity, uid);
      }
    }
  }

  lemma PushIsTracked(index: Index, asPushed: seq<RecentFault>, pushed: seq<RecentFault>, capacity: nat,
      rf: RecentFault)
    requires capacity > 0 && SameFaults(asPushed, pushed) && Indexes(index, asPushed, capacity)
    ensures PushedItems(Last(pushed, capacity), capacity, rf) == Last(pushed + [rf], capacity)
    ensures Indexes(PushedIndex(index, Last(pushed, capacity), capacity, rf), asPushed + [rf], capacity)
    ensures SameFaults(asPushed + [rf], pushed + [rf])
  {
    LastSnoc(pushed, rf, capacity);
    PushKeepsIndex(index, asPushed, pushed, capacity, rf);
  }

  lemma SameFaultsSamePush(index: Index, xs: seq<RecentFault>, ys: seq<RecentFault>, capacity: nat, x: RecentFault,
      y: RecentFault)
    requires SameFaults(xs, ys) && x.faultUID == y.faultUID
    ensures PushedIndex(index, xs, capacity, x) == PushedIndex(index, ys, capacity, y)
  {
  }

  /** Pushed twice, a fault is forgotten while an entry of it is still in the ring. */
  lemma ForgottenWhileRemembered(m: Manifest) returns (pushes: seq<RecentFault>)
    ensures "u" !in IndexAfter(pushes, 2) && exists rf :: rf in Last(pushes, 2) && rf.faultUID == "u"
  {
    var u, v := RecentFault("u", m, 1, NEVER, ""), RecentFault("v", m, 2, NEVER, "");
    pushes := [u, u, v];
    assert pushes[..2] == [u, u] && [u, u][..1] == [u] && [u][..0] == [];
    assert IndexAfter([u], 2) == map["u" := 0];
    assert IndexAfter([u, u], 2) == map["u" := 1];
    assert Last(pushes, 2) == [u, v];
    assert u in Last(pushes, 2) && u.faultUID == "u";
  }
}
