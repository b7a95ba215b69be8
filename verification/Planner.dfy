/** Layering a plan's steps and refusing plans whose dependencies do not work out (pkg/planner/dag.go). */
module Planner {
  import opened Vocabulary
  import opened Ordering
  import opened PlanGraph

  datatype PlanError =
    | NoSteps
    | DuplicateOrder(order: int)
    | SelfDependency(order: int)
    | UnknownDependency(order: int, dependency: int)
    | DependencyCycle

  datatype Layering = Layers(layers: seq<seq<int>>) | Refused(error: PlanError)

  /** What a workable plan is. */
  ghost predicate Workable(steps: seq<PlanStep>) {
    UniqueOrders(steps) && KnownDependencies(steps) && !PlanCyclic(steps)
  }

  /** A layer listed in ascending order, once each. */
  ghost predicate Lists(listing: seq<int>, members: set<int>) {
    Ascending(listing, IntBefore) && forall x :: x in listing <==> x in members
  }

  /** The listings of the peeled layers, one for one. */
  ghost predicate ListsLayers(listings: seq<seq<int>>, layers: seq<set<int>>) {
    |listings| == |layers| && forall i :: 0 <= i < |layers| ==> Lists(listings[i], layers[i])
  }

  ghost function Concatenated(listings: seq<seq<int>>): seq<int> {
    if listings == [] then [] else Concatenated(listings[..|listings| - 1]) + listings[|listings| - 1]
  }

  function Orders(steps: seq<PlanStep>): seq<int> {
    seq(|steps|, i requires 0 <= i < |steps| => steps[i].order)
  }

  // ----- The plan's graph -----

  lemma {:induction false} GraphKeys(steps: seq<PlanStep>)
    ensures forall o :: o in GraphOf(steps) <==> o in Orders(steps)
    ensures |GraphOf(steps)| <= |steps|
  {
    if steps != [] {
      var front, last := steps[..|steps| - 1], steps[|steps| - 1];
      GraphKeys(front);
      assert Orders(steps) == Orders(front) + [last.order];
      assert GraphOf(steps).Keys == GraphOf(front).Keys + {last.order};
    }
  }

  lemma OrderMembers(steps: seq<PlanStep>, o: int)
    ensures o in Orders(steps) <==> exists t :: t in steps && t.order == o
  {
    if o in Orders(steps) {
      var i :| 0 <= i < |steps| && Orders(steps)[i] == o;
      assert steps[i] in steps;
    }
    if t :| t in steps && t.order == o {
      var i :| 0 <= i < |steps| && steps[i] == t;
      assert Orders(steps)[i] == o;
    }
  }

  /** Distinct orders are exactly as many graph entries as steps. */
  lemma {:induction false} UniqueByCount(steps: seq<PlanStep>)
    ensures UniqueOrders(steps) <==> |GraphOf(steps).Keys| == |steps|
  {
    if steps != [] {
      var front, last := steps[..|steps| - 1], steps[|steps| - 1];
      UniqueByCount(front);
      GraphKeys(front);
      OrderMembers(front, last.order);
      assert GraphOf(steps).Keys == GraphOf(front).Keys + {last.order};
      assert steps == front + [last];
      UniqueFront(front, last);
      if last.order in GraphOf(front) {
        assert GraphOf(steps).Keys == GraphOf(front).Keys;
      }
    }
  }

  /** One more step keeps the orders unique exactly when its own is new. */
  lemma UniqueFront(front: seq<PlanStep>, last: PlanStep)
    ensures UniqueOrders(front + [last]) <==> UniqueOrders(front) && last.order !in GraphOf(front)
  {
    var steps := front + [last];
    GraphKeys(front);
    OrderMembers(front, last.order);
    assert forall i :: 0 <= i < |front| ==> steps[i] == front[i];
    if last.order in GraphOf(front) {
      var i :| 0 <= i < |front| && Orders(front)[i] == last.order;
      assert steps[i].order == steps[|front|].order;
    } else if UniqueOrders(front) {
      UniqueSnoc(front, last);
    }
  }

  /** With distinct orders the graph holds every step's own dependencies. */
  lemma {:induction false} GraphEntries(steps: seq<PlanStep>, s: PlanStep)
    requires UniqueOrders(steps) && s in steps
    ensures s.order in GraphOf(steps) && GraphOf(steps)[s.order] == s.dependsOn
  {
    var front, last := steps[..|steps| - 1], steps[|steps| - 1];
    var i :| 0 <= i < |steps| && steps[i] == s;
    if i < |front| {
      assert front[i] == s;
      GraphEntries(front, s);
      assert steps[i].order != steps[|steps| - 1].order;
    }
  }

  /** Whatever the graph holds is some step's list of dependencies. */
  lemma {:induction false} GraphComesFromSteps(steps: seq<PlanStep>, x: int) returns (s: PlanStep)
    requires x in GraphOf(steps)
    ensures s in steps && s.order == x && s.dependsOn == GraphOf(steps)[x]
  {
    var front, last := steps[..|steps| - 1], steps[|steps| - 1];
    if x == last.order {
      s := last;
    } else {
      s := GraphComesFromSteps(front, x);
    }
  }

  lemma KnownIsClosed(steps: seq<PlanStep>)
    requires UniqueOrders(steps)
    ensures KnownDependencies(steps) <==> Closed(GraphOf(steps))
  {
    var g := GraphOf(steps);
    GraphKeys(steps);
    if KnownDependencies(steps) {
      forall x, d | x in g && d in g[x] ensures d in g {
        var s := GraphComesFromSteps(steps, x);
        OrderMembers(steps, d);
      }
    }
    if Closed(g) {
      forall s, d | s in steps && d in s.dependsOn ensures exists t :: t in steps && t.order == d {
        GraphEntries(steps, s);
        OrderMembers(steps, d);
      }
    }
  }

  /** Peeling takes every one of the steps exactly when the plan is workable. */
  lemma WorkableIffComplete(steps: seq<PlanStep>)
    ensures Workable(steps) <==> UniqueOrders(steps) && Complete(GraphOf(steps))
  {
    var g := GraphOf(steps);
    if UniqueOrders(steps) {
      KnownIsClosed(steps);
      if Closed(g) {
        CompleteIffAcyclic(g);
      } else {
        var x, d :| x in g && d in g[x] && d !in g;
        UnknownNeverFinishes(g, x, d);
      }
    }
  }

  // ----- Counting what a step still waits for -----

  /** Entries of a dependency list, repeats counted, that have not gone yet. */
  ghost function Left(ds: seq<int>, done: set<int>): nat {
    if ds == [] then 0
    else Left(ds[..|ds| - 1], done) + if ds[|ds| - 1] in done then 0 else 1
  }

  lemma {:induction false} LeftOfNone(ds: seq<int>)
    ensures Left(ds, {}) == |ds|
  {
    if ds != [] { LeftOfNone(ds[..|ds| - 1]); }
  }

  lemma {:induction false} NoneLeft(ds: seq<int>, done: set<int>)
    ensures Left(ds, done) == 0 <==> forall d :: d in ds ==> d in done
  {
    if ds != [] {
      NoneLeft(ds[..|ds| - 1], done);
      assert forall d :: d in ds <==> d in ds[..|ds| - 1] || d == ds[|ds| - 1];
    }
  }

  /** A step that goes takes each of its entries with it. */
  lemma {:induction false} LeftAfter(ds: seq<int>, done: set<int>, o: int)
    requires o !in done
    ensures Left(ds, done + {o}) + multiset(ds)[o] == Left(ds, done)
  {
    if ds != [] {
      LeftAfter(ds[..|ds| - 1], done, o);
      assert ds == ds[..|ds| - 1] + [ds[|ds| - 1]];
    }
  }

  ghost predicate CountsLeft(indeg: map<int, int>, deps: Graph, done: set<int>) {
    && indeg.Keys == deps.Keys - done
    && forall x :: x in indeg ==> indeg[x] == Left(deps[x], done)
  }

  function Entries(dependents: map<int, seq<int>>, d: int): seq<int> {
    if d in dependents then dependents[d] else []
  }

  /** How often x is listed as waiting for d. */
  ghost function Listed(dependents: map<int, seq<int>>, d: int, x: int): nat {
    multiset(Entries(dependents, d))[x]
  }

  /** The reverse adjacency of the steps in `covered`, repeats kept. */
  ghost predicate Reverses(dependents: map<int, seq<int>>, deps: Graph, covered: set<int>) {
    && covered <= deps.Keys
    && forall d, x :: Listed(dependents, d, x) == if x in covered then multiset(deps[x])[d] else 0
  }

  // ----- The planner's loops -----

  method IndexSteps(steps: seq<PlanStep>) returns (indeg: map<int, int>, deps: Graph)
    ensures deps == GraphOf(steps)
    ensures CountsLeft(indeg, deps, {})
  {
    indeg, deps := map[], map[];
    for i := 0 to |steps|
      invariant deps == GraphOf(steps[..i])
      invariant indeg.Keys == deps.Keys
      invariant forall x :: x in indeg ==> indeg[x] == |deps[x]|
    {
      var s := steps[i];
      indeg := indeg[s.order := |s.dependsOn|];
      deps := deps[s.order := s.dependsOn];
      assert steps[..i + 1][..i] == steps[..i];
    }
    assert steps[..|steps|] == steps;
    forall x | x in indeg ensures indeg[x] == Left(deps[x], {}) {
      LeftOfNone(deps[x]);
    }
  }

  lemma AddOne(dependents: map<int, seq<int>>, dep: int, order: int)
    ensures forall d, x :: Listed(dependents[dep := Entries(dependents, dep) + [order]], d, x)
                        == Listed(dependents, d, x) + if d == dep && x == order then 1 else 0
  {
    var grown := dependents[dep := Entries(dependents, dep) + [order]];
    forall d, x ensures Listed(grown, d, x) == Listed(dependents, d, x) + if d == dep && x == order then 1 else 0 {
      if d == dep {
        assert multiset(Entries(grown, dep)) == multiset(Entries(dependents, dep)) + multiset{order};
      }
    }
  }

  method AddDependents(dependents: map<int, seq<int>>, order: int, ds: seq<int>) returns (more: map<int, seq<int>>)
    ensures forall d, x :: Listed(more, d, x)
                        == Listed(dependents, d, x) + if x == order then multiset(ds)[d] else 0
  {
    more := dependents;
    for j := 0 to |ds|
      invariant forall d, x :: Listed(more, d, x)
                            == Listed(dependents, d, x) + if x == order then multiset(ds[..j])[d] else 0
    {
      assert ds[..j + 1] == ds[..j] + [ds[j]];
      assert multiset(ds[..j + 1]) == multiset(ds[..j]) + multiset{ds[j]};
      AddOne(more, ds[j], order);
      more := more[ds[j] := Entries(more, ds[j]) + [order]];
    }
    assert ds[..|ds|] == ds;
  }

  method ReverseEdges(deps: Graph) returns (dependents: map<int, seq<int>>)
    ensures Reverses(dependents, deps, deps.Keys)
  {
    dependents := map[];
    var todo := deps.Keys;
    while todo != {}
      invariant todo <= deps.Keys
      invariant Reverses(dependents, deps, deps.Keys - todo)
      decreases |todo|
    {
      ghost var some := Pick(todo);
      var order :| order in todo;
      var more := AddDependents(dependents, order, deps[order]);
      assert deps.Keys - (todo - {order}) == (deps.Keys - todo) + {order};
      dependents := more;
      todo := todo - {order};
    }
    assert deps.Keys - {} == deps.Keys;
  }

  /** The steps waiting for nothing any more, collected in whatever order the map yields them. */
  method ReadySteps(indeg: map<int, int>) returns (layer: seq<int>)
    ensures forall i, j :: 0 <= i < j < |layer| ==> layer[i] != layer[j]
    ensures forall x :: x in layer <==> x in indeg && indeg[x] == 0
  {
    layer := [];
    var todo := indeg.Keys;
    while todo != {}
      invariant todo <= indeg.Keys
      invariant forall i, j :: 0 <= i < j < |layer| ==> layer[i] != layer[j]
      invariant forall x :: x in layer <==> x in indeg && x !in todo && indeg[x] == 0
      decreases |todo|
    {
      ghost var some := Pick(todo);
      var order :| order in todo;
      if indeg[order] == 0 { layer := layer + [order]; }
      todo := todo - {order};
    }
  }

  lemma OneMoreWaits(waiting: seq<int>, j: nat)
    requires j < |waiting|
    ensures multiset(waiting[..j + 1]) == multiset(waiting[..j]) + multiset{waiting[j]}
  {
    assert waiting[..j + 1] == waiting[..j] + [waiting[j]];
  }

  lemma CountedOff(indeg: map<int, int>, next: map<int, int>, dependents: map<int, seq<int>>, order: int,
                   deps: Graph, done: set<int>)
    requires order in indeg && CountsLeft(indeg, deps, done)
    requires Reverses(dependents, deps, deps.Keys)
    requires next.Keys == indeg.Keys - {order}
    requires forall x :: x in next ==> next[x] == indeg[x] - multiset(Entries(dependents, order))[x]
    ensures CountsLeft(next, deps, done + {order})
  {
    forall x | x in next ensures next[x] == Left(deps[x], done + {order}) {
      LeftAfter(deps[x], done, order);
      assert Listed(dependents, order, x) == multiset(deps[x])[order];
    }
  }

  /** Removes one step and counts it off every entry that waits for it. */
  method Release(indeg: map<int, int>, dependents: map<int, seq<int>>, order: int,
      ghost deps: Graph, ghost done: set<int>)
    returns (next: map<int, int>)
    requires order in indeg && CountsLeft(indeg, deps, done)
    requires Reverses(dependents, deps, deps.Keys)
    ensures CountsLeft(next, deps, done + {order})
  {
    next := indeg - {order};
    var waiting := Entries(dependents, order);
    for j := 0 to |waiting|
      invariant next.Keys == indeg.Keys - {order}
      invariant forall x :: x in next ==> next[x] == indeg[x] - multiset(waiting[..j])[x]
    {
      var x := waiting[j];
      OneMoreWaits(waiting, j);
      if x in next { next := next[x := next[x] - 1]; }
    }
    assert waiting[..|waiting|] == waiting;
    CountedOff(indeg, next, dependents, order, deps, done);
  }

  /** Removes a whole layer, one step at a time. */
  method ReleaseLayer(indeg: map<int, int>, dependents: map<int, seq<int>>, layer: seq<int>,
      ghost deps: Graph, ghost done: set<int>)
    returns (next: map<int, int>)
    requires CountsLeft(indeg, deps, done) && Reverses(dependents, deps, deps.Keys)
    requires Ascending(layer, IntBefore) && forall x :: x in layer ==> x in indeg
    ensures CountsLeft(next, deps, done + Members(layer))
  {
    next := indeg;
    assert done + Members([]) == done;
    for i := 0 to |layer|
      invariant CountsLeft(next, deps, done + Members(layer[..i]))
    {
      assert layer[i] !in layer[..i] && layer[i] in layer;
      next := Release(next, dependents, layer[i], deps, done + Members(layer[..i]));
      assert layer[..i + 1] == layer[..i] + [layer[i]];
      assert done + Members(layer[..i]) + {layer[i]} == done + Members(layer[..i + 1]);
    }
    assert layer[..|layer|] == layer;
  }

  ghost function Members(xs: seq<int>): set<int> {
    set x | x in xs
  }

  /** Sorting distinct steps lists them in ascending order. */
  lemma SortedLayer(layer: seq<int>, members: set<int>)
    requires forall i, j :: 0 <= i < j < |layer| ==> layer[i] != layer[j]
    requires forall x :: x in layer <==> x in members
    ensures Lists(Sort(layer, Itself, IntBefore), members)
    ensures |layer| == |members| == |Sort(layer, Itself, IntBefore)|
  {
    SortOfDistinct(layer, IntBefore);
    SizeOfDistinct(layer);
    MembersOfListing(layer, members);
  }

  lemma {:induction false} SizeOfDistinct(xs: seq<int>)
    requires forall i, j :: 0 <= i < j < |xs| ==> xs[i] != xs[j]
    ensures |Members(xs)| == |xs|
  {
    if xs != [] {
      var front, last := xs[..|xs| - 1], xs[|xs| - 1];
      SizeOfDistinct(front);
      assert Members(xs) == Members(front) + {last};
    }
  }

  // ----- Layering -----

  /** Where the layering loop stands: the layers so far list the first peeled layers. */
  ghost predicate Layered(g: Graph, layers: seq<seq<int>>, done: set<int>) {
    && |layers| <= |Peel(g, {})|
    && ListsLayers(layers, Peel(g, {})[..|layers|])
    && done == Union(Peel(g, {})[..|layers|])
  }

  lemma NextLayer(g: Graph, layers: seq<seq<int>>, done: set<int>, indeg: map<int, int>)
    requires Layered(g, layers, done) && CountsLeft(indeg, g, done)
    ensures done <= g.Keys
    ensures forall x :: x in indeg && indeg[x] == 0 <==> x in Ready(g, done)
    ensures Ready(g, done) == {} <==> |layers| == |Peel(g, {})|
    ensures Ready(g, done) != {} ==> Peel(g, {})[|layers|] == Ready(g, done)
  {
    PeelByLayer(g, {}, |layers|);
    assert {} + done == done;
    var peeled := Peel(g, {});
    assert |layers| == |peeled| ==> peeled[..|layers|] == peeled;
    forall x | x in indeg ensures indeg[x] == 0 <==> x in Ready(g, done) {
      NoneLeft(g[x], done);
    }
  }

  lemma MembersOfListing(listing: seq<int>, members: set<int>)
    requires forall x :: x in listing <==> x in members
    ensures Members(listing) == members
  {
    forall x ensures x in Members(listing) <==> x in members {}
    assert Members(listing) <= members;
    assert members <= Members(listing);
  }

  lemma OneMoreLayer(g: Graph, layers: seq<seq<int>>, done: set<int>, layer: seq<int>)
    requires Layered(g, layers, done) && |layers| < |Peel(g, {})| && Lists(layer, Peel(g, {})[|layers|])
    ensures Layered(g, layers + [layer], done + Members(layer))
  {
    var peeled := Peel(g, {});
    assert peeled[..|layers| + 1][..|layers|] == peeled[..|layers|];
    MembersOfListing(layer, peeled[|layers|]);
    var more := layers + [layer];
    forall i | 0 <= i < |more| ensures Lists(more[i], peeled[..|more|][i]) {
      assert peeled[..|more|][i] == peeled[i];
      if i < |layers| {
        assert Lists(layers[i], peeled[..|layers|][i]);
      } else {
        assert more[i] == layer;
      }
    }
  }

  lemma SortedIsNext(g: Graph, layers: seq<seq<int>>, done: set<int>, indeg: map<int, int>, layer: seq<int>)
    requires Layered(g, layers, done) && CountsLeft(indeg, g, done)
    requires forall i, j :: 0 <= i < j < |layer| ==> layer[i] != layer[j]
    requires forall x :: x in layer <==> x in indeg && indeg[x] == 0
    requires layer != []
    ensures |layers| < |Peel(g, {})| && Peel(g, {})[|layers|] == Ready(g, done)
    ensures Lists(Sort(layer, Itself, IntBefore), Ready(g, done))
    ensures |Sort(layer, Itself, IntBefore)| == |Ready(g, done)| > 0
  {
    NextLayer(g, layers, done, indeg);
    SortedLayer(layer, Ready(g, done));
    assert layer[0] in Ready(g, done);
  }

  /** One round of the loop: the steps waiting for nothing, sorted, are the next peeled layer. */
  lemma TakeLayer(g: Graph, layers: seq<seq<int>>, done: set<int>, indeg: map<int, int>, layer: seq<int>,
      sorted: seq<int>)
    requires Layered(g, layers, done) && CountsLeft(indeg, g, done)
    requires forall i, j :: 0 <= i < j < |layer| ==> layer[i] != layer[j]
    requires forall x :: x in layer <==> x in indeg && indeg[x] == 0
    requires layer != [] && sorted == Sort(layer, Itself, IntBefore)
    ensures Layered(g, layers + [sorted], done + Members(sorted))
    ensures |done + Members(sorted)| == |done| + |sorted| && |sorted| > 0
    ensures Ascending(sorted, IntBefore) && forall x :: x in sorted ==> x in indeg
  {
    SortedIsNext(g, layers, done, indeg, layer);
    OneMoreLayer(g, layers, done, sorted);
    MembersOfListing(sorted, Ready(g, done));
    assert done !! Ready(g, done);
  }

  method PlanLayers(steps: seq<PlanStep>) returns (r: Layering)
    ensures r.Layers? <==> Workable(steps)
    ensures r.Layers? || r == Refused(DependencyCycle)
    ensures r.Layers? ==> ListsLayers(r.layers, Peel(GraphOf(steps), {}))
  {
    if steps == [] {
      EmptyPlan(steps);
      return Layers([]);
    }
    var indeg, deps := IndexSteps(steps);
    var dependents := ReverseEdges(deps);
    var layers: seq<seq<int>> := [];
    var remaining := |steps|;
    ghost var done: set<int> := {};
    while remaining > 0
      invariant Layered(deps, layers, done)
      invariant CountsLeft(indeg, deps, done)
      invariant remaining == |steps| - |done|
    {
      var layer := ReadySteps(indeg);
      if |layer| == 0 {
        NothingReady(steps, layers, done, indeg);
        return Refused(DependencyCycle);
      }
      var sorted := Sort(layer, Itself, IntBefore);
      TakeLayer(deps, layers, done, indeg, layer, sorted);
      indeg := ReleaseLayer(indeg, dependents, sorted, deps, done);
      remaining := remaining - |sorted|;
      layers, done := layers + [sorted], done + Members(sorted);
    }
    AllGone(steps, layers, done);
    return Layers(layers);
  }

  lemma EmptyPlan(steps: seq<PlanStep>)
    requires steps == []
    ensures Workable(steps) && Peel(GraphOf(steps), {}) == []
  {
    var g := GraphOf(steps);
    assert g == map[];
    assert Ready(g, {}) == {};
    assert Union([]) == {};
    WorkableIffComplete(steps);
  }

  /** With nothing ready the layers are all there are, and what is done is all that peeling ever takes. */
  lemma PeelingIsOver(g: Graph, layers: seq<seq<int>>, done: set<int>)
    requires Layered(g, layers, done) && Ready(g, done) == {}
    ensures |layers| == |Peel(g, {})| && done == Union(Peel(g, {})) && done <= g.Keys
  {
    PeelByLayer(g, {}, |layers|);
    assert {} + done == done;
    assert |layers| == |Peel(g, {})| ==> Peel(g, {})[..|layers|] == Peel(g, {});
  }

  lemma WorkableByCount(steps: seq<PlanStep>)
    ensures Workable(steps) <==> |GraphOf(steps).Keys| == |steps| && Complete(GraphOf(steps))
    ensures |GraphOf(steps).Keys| <= |steps|
  {
    WorkableIffComplete(steps);
    UniqueByCount(steps);
    GraphKeys(steps);
    assert |GraphOf(steps)| == |GraphOf(steps).Keys|;
  }

  lemma NothingReady(steps: seq<PlanStep>, layers: seq<seq<int>>, done: set<int>, indeg: map<int, int>)
    requires Layered(GraphOf(steps), layers, done) && |done| < |steps|
    requires CountsLeft(indeg, GraphOf(steps), done) && forall x :: x in indeg ==> indeg[x] != 0
    ensures !Workable(steps)
  {
    var g := GraphOf(steps);
    NextLayer(g, layers, done, indeg);
    assert Ready(g, done) == {} by {
      forall x ensures x !in Ready(g, done) {}
    }
    PeelingIsOver(g, layers, done);
    WorkableByCount(steps);
  }

  lemma AllGone(steps: seq<PlanStep>, layers: seq<seq<int>>, done: set<int>)
    requires Layered(GraphOf(steps), layers, done) && |done| >= |steps|
    ensures Workable(steps) && ListsLayers(layers, Peel(GraphOf(steps), {}))
  {
    var g := GraphOf(steps);
    PeelByLayer(g, {}, |layers|);
    WorkableByCount(steps);
    SubsetAsLarge(done, g.Keys);
    assert Ready(g, done) == {};
    PeelingIsOver(g, layers, done);
    assert Peel(g, {})[..|layers|] == Peel(g, {});
  }

  lemma {:induction false} SubsetAsLarge(a: set<int>, b: set<int>)
    requires a <= b && |a| >= |b|
    ensures a == b
  {
    assert |b| == |a| + |b - a| by { assert b == a + (b - a); }
  }

  // ----- What a layering promises -----

  lemma {:induction false} ListingCountsOnce(listing: seq<int>, members: set<int>)
    requires Lists(listing, members)
    ensures multiset(listing) == multiset(members)
  {
    MembersOfListing(listing, members);
    if listing != [] {
      var front, last := listing[..|listing| - 1], listing[|listing| - 1];
      assert listing == front + [last];
      assert last !in front;
      assert forall x :: x in listing <==> x in front || x == last;
      ListingCountsOnce(front, members - {last});
      assert members == (members - {last}) + {last};
    }
  }

  lemma OneLayerMore(earlier: set<int>, layer: set<int>, before: seq<int>, listing: seq<int>)
    requires Lists(listing, layer) && earlier !! layer && multiset(before) == multiset(earlier)
    ensures multiset(before + listing) == multiset(earlier + layer)
  {
    ListingCountsOnce(listing, layer);
    assert multiset(earlier + layer) == multiset(earlier) + multiset(layer);
  }

  /** A peeled layer is new to the layers before it. */
  lemma PeeledOnce(g: Graph, k: nat)
    requires k < |Peel(g, {})|
    ensures Union(Peel(g, {})[..k]) !! Peel(g, {})[k]
    ensures Union(Peel(g, {})[..k + 1]) == Union(Peel(g, {})[..k]) + Peel(g, {})[k]
  {
    PeelByLayer(g, {}, k);
    assert Peel(g, {})[..k + 1][..k] == Peel(g, {})[..k];
  }

  lemma ConcatenatedSnoc(listings: seq<seq<int>>, k: nat)
    requires k < |listings|
    ensures Concatenated(listings[..k + 1]) == Concatenated(listings[..k]) + listings[k]
  {
    assert listings[..k + 1][..k] == listings[..k];
  }

  lemma {:induction false} PrefixCounts(g: Graph, listings: seq<seq<int>>, k: nat)
    requires ListsLayers(listings, Peel(g, {})) && k <= |listings|
    ensures multiset(Concatenated(listings[..k])) == multiset(Union(Peel(g, {})[..k]))
  {
    var peeled := Peel(g, {});
    if k > 0 {
      PrefixCounts(g, listings, k - 1);
      PeeledOnce(g, k - 1);
      ConcatenatedSnoc(listings, k - 1);
      OneLayerMore(Union(peeled[..k - 1]), peeled[k - 1], Concatenated(listings[..k - 1]), listings[k - 1]);
    }
  }

  lemma {:induction false} OrdersCountOnce(steps: seq<PlanStep>)
    requires UniqueOrders(steps)
    ensures multiset(Orders(steps)) == multiset(GraphOf(steps).Keys)
  {
    if steps != [] {
      var front, last := steps[..|steps| - 1], steps[|steps| - 1];
      OrdersCountOnce(front);
      UniqueByCount(front);
      UniqueByCount(steps);
      assert Orders(steps) == Orders(front) + [last.order];
      assert GraphOf(steps).Keys == GraphOf(front).Keys + {last.order};
      assert last.order !in GraphOf(front).Keys;
    }
  }

  /** The layers of a workable plan hold each step once and no other. */
  lemma LayersPermuteTheSteps(steps: seq<PlanStep>, listings: seq<seq<int>>)
    requires Workable(steps) && ListsLayers(listings, Peel(GraphOf(steps), {}))
    ensures multiset(Concatenated(listings)) == multiset(Orders(steps))
    ensures forall k :: 0 <= k < |listings| ==> listings[k] != [] && Ascending(listings[k], IntBefore)
  {
    var g := GraphOf(steps);
    var peeled := Peel(g, {});
    PrefixCounts(g, listings, |listings|);
    assert listings[..|listings|] == listings && peeled[..|peeled|] == peeled;
    WorkableIffComplete(steps);
    OrdersCountOnce(steps);
    forall k | 0 <= k < |listings| ensures listings[k] != [] && Ascending(listings[k], IntBefore) {
      PeelByLayer(g, {}, k);
      assert Lists(listings[k], peeled[k]);
      var x := Pick(peeled[k]);
      assert x in listings[k];
    }
  }

  /** A step's layer is the length of its longest dependency chain, so what it waits for lies strictly earlier. */
  lemma LayerIsDepth(steps: seq<PlanStep>, listings: seq<seq<int>>, s: PlanStep, k: nat)
    requires Workable(steps) && ListsLayers(listings, Peel(GraphOf(steps), {}))
    requires s in steps && k < |listings| && s.order in listings[k]
    ensures exists c :: Chain(GraphOf(steps), c) && c[|c| - 1] == s.order && |c| - 1 == k
    ensures forall c :: Chain(GraphOf(steps), c) && c[|c| - 1] == s.order ==> |c| - 1 <= k
    ensures forall d :: d in s.dependsOn ==> exists j :: 0 <= j < k && d in listings[j]
  {
    var g := GraphOf(steps);
    GraphEntries(steps, s);
    assert Lists(listings[k], Peel(g, {})[k]);
    assert InLayer(g, s.order, k);
    LayerIsLongestChain(g, s.order, k);
    LayerDependencies(g, s.order, k);
    forall d | d in s.dependsOn ensures exists j :: 0 <= j < k && d in listings[j] {
      var j :| 0 <= j < k && InLayer(g, d, j);
      assert Lists(listings[j], Peel(g, {})[j]);
    }
  }

  /** Levels for a plan's steps that put every dependency strictly earlier. */
  ghost predicate RespectsDependencies(steps: seq<PlanStep>, level: map<int, nat>) {
    forall s :: s in steps ==> s.order in level && forall d :: d in s.dependsOn && d in level ==>
      level[d] < level[s.order]
  }

  /** Nobody layers the plan in fewer layers: any other valid layering reaches at least as high. */
  lemma NoFewerLayers(steps: seq<PlanStep>, listings: seq<seq<int>>, level: map<int, nat>)
    requires Workable(steps) && ListsLayers(listings, Peel(GraphOf(steps), {})) && listings != []
    requires RespectsDependencies(steps, level)
    ensures exists s :: s in steps && level[s.order] >= |listings| - 1
  {
    var g := GraphOf(steps);
    var k := |listings| - 1;
    PeelByLayer(g, {}, k);
    var x := Pick(Peel(g, {})[k]);
    assert InLayer(g, x, k);
    forall y | y in g ensures y in level {
      var s := GraphComesFromSteps(steps, y);
    }
    forall y, d | y in g && d in g[y] && d in g ensures level[d] < level[y] {
      var s := GraphComesFromSteps(steps, y);
    }
    LayerDependencies(g, x, k);
    NoLayeringIsShorter(g, level, x, k);
    var s := GraphComesFromSteps(steps, x);
  }

  // ----- Validation -----

  ghost predicate Explains(e: PlanError, steps: seq<PlanStep>) {
    match e
    case NoSteps => steps == []
    case DuplicateOrder(o) => exists i, j :: 0 <= i < j < |steps| && steps[i].order == o == steps[j].order
    case SelfDependency(o) => UniqueOrders(steps) && exists s :: s in steps && s.order == o && o in s.dependsOn
    case UnknownDependency(o, d) =>
      UniqueOrders(steps) && (exists s :: s in steps && s.order == o && d in s.dependsOn) && d !in Orders(steps)
    case DependencyCycle => UniqueOrders(steps) && KnownDependencies(steps) && PlanCyclic(steps)
  }

  lemma SelfLoopIsCyclic(steps: seq<PlanStep>, s: PlanStep)
    requires UniqueOrders(steps) && s in steps && s.order in s.dependsOn
    ensures PlanCyclic(steps)
  {
    GraphEntries(steps, s);
    var c := [s.order, s.order];
    assert Chain(GraphOf(steps), c);
  }

  lemma UniqueSnoc(front: seq<PlanStep>, last: PlanStep)
    requires UniqueOrders(front) && last.order !in Orders(front)
    ensures UniqueOrders(front + [last])
  {
    forall i | 0 <= i < |front| ensures front[i].order != last.order {
      assert Orders(front)[i] in Orders(front);
    }
  }

  method CheckOrders(steps: seq<PlanStep>) returns (error: Option<PlanError>, orders: set<int>)
    ensures error.None? <==> UniqueOrders(steps)
    ensures error.Some? ==> error.value.DuplicateOrder? && Explains(error.value, steps)
    ensures error.None? ==> forall o :: o in orders <==> o in Orders(steps)
  {
    orders := {};
    for i := 0 to |steps|
      invariant UniqueOrders(steps[..i])
      invariant orders == Members(Orders(steps[..i]))
    {
      var o := steps[i].order;
      assert Orders(steps[..i + 1]) == Orders(steps[..i]) + [o];
      assert Members(Orders(steps[..i]) + [o]) == Members(Orders(steps[..i])) + {o};
      if o in orders {
        var j :| 0 <= j < i && Orders(steps[..i])[j] == o;
        return Some(DuplicateOrder(o)), orders;
      }
      UniqueSnoc(steps[..i], steps[i]);
      assert steps[..i + 1] == steps[..i] + [steps[i]];
      orders := orders + {o};
    }
    assert steps[..|steps|] == steps;
    error := None;
  }

  ghost predicate SoundDependencies(s: PlanStep, ds: seq<int>, orders: set<int>) {
    forall d :: d in ds ==> d != s.order && d in orders
  }

  method CheckDependencies(s: PlanStep, orders: set<int>) returns (error: Option<PlanError>)
    ensures error.None? <==> SoundDependencies(s, s.dependsOn, orders)
    ensures error.Some? ==>
      if error.value.SelfDependency? then error.value.order == s.order && s.order in s.dependsOn
      else error.value.UnknownDependency? && error.value.order == s.order
           && error.value.dependency in s.dependsOn && error.value.dependency !in orders
  {
    for j := 0 to |s.dependsOn|
      invariant SoundDependencies(s, s.dependsOn[..j], orders)
    {
      var dep := s.dependsOn[j];
      assert dep in s.dependsOn;
      if dep == s.order { return Some(SelfDependency(s.order)); }
      if dep !in orders { return Some(UnknownDependency(s.order, dep)); }
      assert s.dependsOn[..j + 1] == s.dependsOn[..j] + [dep];
    }
    assert s.dependsOn[..|s.dependsOn|] == s.dependsOn;
    return None;
  }

  /** A plan is accepted exactly when it has steps and they are workable; each refusal names a true reason. */
  method ValidateStepDAG(steps: seq<PlanStep>) returns (error: Option<PlanError>)
    ensures error.None? <==> steps != [] && Workable(steps)
    ensures error.Some? ==> Explains(error.value, steps)
  {
    if steps == [] { return Some(NoSteps); }
    var duplicate, orders := CheckOrders(steps);
    if duplicate.Some? { return duplicate; }
    for i := 0 to |steps|
      invariant forall s :: s in steps[..i] ==> SoundDependencies(s, s.dependsOn, orders)
    {
      var unsound := CheckDependencies(steps[i], orders);
      if unsound.Some? {
        UnsoundStep(steps, steps[i], orders);
        return unsound;
      }
    }
    assert steps[..|steps|] == steps;
    AllSound(steps, orders);
    var layering := PlanLayers(steps);
    error := if layering.Refused? then Some(layering.error) else None;
  }

  lemma UnsoundStep(steps: seq<PlanStep>, s: PlanStep, orders: set<int>)
    requires UniqueOrders(steps) && s in steps && (forall o :: o in orders <==> o in Orders(steps))
    requires !SoundDependencies(s, s.dependsOn, orders)
    ensures !Workable(steps)
  {
    var d :| d in s.dependsOn && (d == s.order || d !in orders);
    if d == s.order {
      SelfLoopIsCyclic(steps, s);
    } else {
      OrderMembers(steps, d);
    }
  }

  lemma AllSound(steps: seq<PlanStep>, orders: set<int>)
    requires forall o :: o in orders <==> o in Orders(steps)
    requires forall s :: s in steps ==> SoundDependencies(s, s.dependsOn, orders)
    ensures KnownDependencies(steps)
  {
    forall s, d | s in steps && d in s.dependsOn ensures exists t :: t in steps && t.order == d {
      assert SoundDependencies(s, s.dependsOn, orders);
      OrderMembers(steps, d);
    }
  }
}
