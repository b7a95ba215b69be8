/** Step dependencies, chains and cycles, and what peeling off ready steps says about them (pkg/planner/dag.go). */
module PlanGraph {
  import opened Ordering

  /**
   * A plan step as the planner submits it: its order and the orders it waits for, repeats allowed,
   * with the blast tier of its manifest and the key of what it would do (pkg/loop/loop.go:601).
   */
  datatype PlanStep = PlanStep(order: int, dependsOn: seq<int>, tier: string, key: string)

  /** Dependencies by order. */
  type Graph = map<int, seq<int>>

  /** The later of two steps with one order wins, as in the source's maps. */
  function GraphOf(steps: seq<PlanStep>): Graph {
    if steps == [] then map[]
    else GraphOf(steps[..|steps| - 1])[steps[|steps| - 1].order := steps[|steps| - 1].dependsOn]
  }

  ghost predicate UniqueOrders(steps: seq<PlanStep>) {
    forall i, j :: 0 <= i < j < |steps| ==> steps[i].order != steps[j].order
  }

  ghost predicate KnownDependencies(steps: seq<PlanStep>) {
    forall s, d :: s in steps && d in s.dependsOn ==> exists t :: t in steps && t.order == d
  }

  ghost predicate Closed(g: Graph) {
    forall x, d :: x in g && d in g[x] ==> d in g
  }

  /** A chain of dependencies: each step waits for the one before it. */
  ghost predicate Chain(g: Graph, c: seq<int>) {
    && c != []
    && (forall i :: 0 <= i < |c| ==> c[i] in g)
    && (forall i :: 0 <= i < |c| - 1 ==> c[i] in g[c[i + 1]])
  }

  /** A step that transitively waits for itself. */
  ghost predicate Cyclic(g: Graph) {
    exists c :: Chain(g, c) && |c| >= 2 && c[0] == c[|c| - 1]
  }

  ghost predicate PlanCyclic(steps: seq<PlanStep>) {
    Cyclic(GraphOf(steps))
  }

  // ----- Peeling -----

  /** The steps left whose dependencies have all gone. */
  ghost function Ready(g: Graph, done: set<int>): set<int> {
    set x | x in g && x !in done && forall d :: d in g[x] ==> d in done
  }

  ghost function Peel(g: Graph, done: set<int>): seq<set<int>>
    decreases g.Keys - done
  {
    var r := Ready(g, done);
    if r == {} then []
    else
      assert r <= g.Keys - done && r != {};
      [r] + Peel(g, done + r)
  }

  ghost function Union(layers: seq<set<int>>): set<int> {
    if layers == [] then {} else Union(layers[..|layers| - 1]) + layers[|layers| - 1]
  }

  ghost predicate Complete(g: Graph) {
    Union(Peel(g, {})) == g.Keys
  }

  lemma {:induction false} UnionCons(x: set<int>, rest: seq<set<int>>)
    ensures Union([x] + rest) == x + Union(rest)
  {
    if rest == [] {
      assert [x] + rest == [x];
      assert Union([x][..0]) == {};
    } else {
      UnionCons(x, rest[..|rest| - 1]);
      assert ([x] + rest)[..|rest|] == [x] + rest[..|rest| - 1];
    }
  }

  /** Layer by layer: each is what is ready once the earlier ones have gone, and nothing is ready at the end. */
  lemma {:induction false} PeelByLayer(g: Graph, done: set<int>, i: nat)
    requires i <= |Peel(g, done)|
    ensures i < |Peel(g, done)| ==>
      Peel(g, done)[i] == Ready(g, done + Union(Peel(g, done)[..i])) && Peel(g, done)[i] != {}
    ensures i == |Peel(g, done)| ==> Ready(g, done + Union(Peel(g, done))) == {}
    ensures Union(Peel(g, done)[..i]) <= g.Keys - done
    decreases g.Keys - done
  {
    var layers := Peel(g, done);
    var r := Ready(g, done);
    if r == {} {
      assert done + Union(layers) == done;
    } else if i == 0 {
      assert done + Union(layers[..0]) == done;
    } else {
      var rest := Peel(g, done + r);
      PeelByLayer(g, done + r, i - 1);
      UnionCons(r, rest[..i - 1]);
      assert layers[..i] == [r] + rest[..i - 1];
      assert done + Union(layers[..i]) == (done + r) + Union(rest[..i - 1]);
      UnionCons(r, rest);
      assert done + Union(layers) == (done + r) + Union(rest);
    }
  }

  /** Layers never share a step: each is outside the union of the earlier ones. */
  lemma {:induction false} UnionMember(layers: seq<set<int>>, x: int)
    ensures x in Union(layers) <==> exists i :: 0 <= i < |layers| && x in layers[i]
  {
    if layers != [] {
      var front := layers[..|layers| - 1];
      UnionMember(front, x);
      if x in Union(front) {
        var i :| 0 <= i < |front| && x in front[i];
        assert x in layers[i];
      }
      if exists i :: 0 <= i < |layers| && x in layers[i] {
        var i :| 0 <= i < |layers| && x in layers[i];
        if i < |front| { assert x in front[i]; }
      }
    }
  }

  // ----- Depth -----

  ghost predicate InLayer(g: Graph, x: int, k: nat) {
    k < |Peel(g, {})| && x in Peel(g, {})[k]
  }

  /** What a step in layer k waits for lies in earlier layers, and something in the layer just before if any. */
  lemma LayerDependencies(g: Graph, x: int, k: nat)
    requires InLayer(g, x, k)
    ensures x in g
    ensures forall d :: d in g[x] ==> exists j :: 0 <= j < k && InLayer(g, d, j)
    ensures k > 0 ==> exists d :: d in g[x] && InLayer(g, d, k - 1)
  {
    var layers := Peel(g, {});
    PeelByLayer(g, {}, k);
    assert {} + Union(layers[..k]) == Union(layers[..k]);
    forall d | d in g[x] ensures exists j :: 0 <= j < k && InLayer(g, d, j) {
      UnionMember(layers[..k], d);
      var j :| 0 <= j < k && d in layers[..k][j];
      assert InLayer(g, d, j);
    }
    if k > 0 {
      PeelByLayer(g, {}, k - 1);
      assert {} + Union(layers[..k - 1]) == Union(layers[..k - 1]);
      assert layers[..k][..k - 1] == layers[..k - 1];
      assert x !in Union(layers[..k]);
      assert x !in Ready(g, Union(layers[..k - 1]));
      var d :| d in g[x] && d !in Union(layers[..k - 1]);
      assert d in layers[k - 1];
      assert InLayer(g, d, k - 1);
    }
  }

  /** A step sits in one layer only. */
  lemma OneLayer(g: Graph, x: int, i: nat, j: nat)
    requires InLayer(g, x, i) && i < j
    ensures !InLayer(g, x, j)
  {
    var layers := Peel(g, {});
    if j < |layers| {
      PeelByLayer(g, {}, j);
      assert {} + Union(layers[..j]) == Union(layers[..j]);
      UnionMember(layers[..j], x);
      assert x in layers[..j][i];
    }
  }

  /** No dependency chain that ends in a step of layer k has more than k links. */
  lemma {:induction false} ChainsFitTheirLayer(g: Graph, c: seq<int>, k: nat)
    requires Chain(g, c) && InLayer(g, c[|c| - 1], k)
    ensures |c| - 1 <= k
  {
    if |c| > 1 {
      var front := c[..|c| - 1];
      var d, x := c[|c| - 2], c[|c| - 1];
      LayerDependencies(g, x, k);
      assert d in g[c[|c| - 2 + 1]];
      var j :| 0 <= j < k && InLayer(g, d, j);
      ChainsFitTheirLayer(g, front, j);
    }
  }

  /** Some dependency chain that ends in a step of layer k has exactly k links. */
  lemma {:induction false} LongestChain(g: Graph, x: int, k: nat) returns (c: seq<int>)
    requires InLayer(g, x, k)
    ensures Chain(g, c) && c[|c| - 1] == x && |c| - 1 == k
    decreases k
  {
    LayerDependencies(g, x, k);
    if k == 0 {
      c := [x];
    } else {
      var d :| d in g[x] && InLayer(g, d, k - 1);
      var shorter := LongestChain(g, d, k - 1);
      c := shorter + [x];
    }
  }

  /** A step's layer is exactly the length of its longest dependency chain. */
  lemma LayerIsLongestChain(g: Graph, x: int, k: nat)
    requires InLayer(g, x, k)
    ensures exists c :: Chain(g, c) && c[|c| - 1] == x && |c| - 1 == k
    ensures forall c :: Chain(g, c) && c[|c| - 1] == x ==> |c| - 1 <= k
  {
    var longest := LongestChain(g, x, k);
    forall c | Chain(g, c) && c[|c| - 1] == x ensures |c| - 1 <= k {
      ChainsFitTheirLayer(g, c, k);
    }
  }

  /** No valid layering is shorter: one that puts every dependency strictly earlier puts no step before its layer. */
  lemma {:induction false} NoLayeringIsShorter(g: Graph, level: map<int, nat>, x: int, k: nat)
    requires InLayer(g, x, k) && x in g
    requires forall y :: y in g ==> y in level
    requires forall y, d :: y in g && d in g[y] && d in g ==> level[d] < level[y]
    ensures k <= level[x]
    decreases k
  {
    LayerDependencies(g, x, k);
    if k > 0 {
      var d :| d in g[x] && InLayer(g, d, k - 1);
      LayerDependencies(g, d, k - 1);
      NoLayeringIsShorter(g, level, d, k - 1);
    }
  }

  // ----- Cycles -----

  ghost predicate WaitsWithin(g: Graph, s: set<int>, x: int) {
    x in g && exists d :: d in g[x] && d in s
  }

  /** Steps each of which waits for another of them. */
  ghost predicate Knot(g: Graph, s: set<int>) {
    forall x {:trigger WaitsWithin(g, s, x)} :: x in s ==> WaitsWithin(g, s, x)
  }

  /** A knot is never peeled. */
  lemma {:induction false} KnotsStay(g: Graph, done: set<int>, knot: set<int>)
    requires Knot(g, knot) && knot !! done
    ensures knot !! Union(Peel(g, done))
    decreases g.Keys - done
  {
    var r := Ready(g, done);
    if r != {} {
      forall x | x in knot ensures x !in r {
        assert WaitsWithin(g, knot, x);
        var d :| d in g[x] && d in knot;
      }
      KnotsStay(g, done + r, knot);
      UnionCons(r, Peel(g, done + r));
    }
  }

  lemma CycleIsKnot(g: Graph, c: seq<int>)
    requires Chain(g, c) && |c| >= 2 && c[0] == c[|c| - 1]
    ensures !Complete(g)
  {
    var knot := set x | x in c;
    forall x | x in knot ensures WaitsWithin(g, knot, x) {
      var i :| 0 <= i < |c| && c[i] == x;
      var p := if i > 0 then i - 1 else |c| - 2;
      assert c[p] in g[c[p + 1]];
      var d := c[p];
      assert d in g[x] && d in knot;
    }
    KnotsStay(g, {}, knot);
    assert c[0] in knot && c[0] in g;
  }

  lemma ChainSnoc(g: Graph, front: seq<int>, x: int)
    requires Chain(g, front) && x in g && front[|front| - 1] in g[x]
    ensures Chain(g, front + [x])
  {
    var c := front + [x];
    forall i | 0 <= i < |c| - 1 ensures c[i] in g[c[i + 1]] {
      if i < |front| - 1 { assert front[i] in g[front[i + 1]]; }
    }
  }

  /** Walking back through a set in which everyone waits for somebody of the set, as far as one likes. */
  lemma {:induction false} WalkBack(g: Graph, stuck: set<int>, x: int, n: nat) returns (c: seq<int>)
    requires x in stuck && Knot(g, stuck)
    ensures Chain(g, c) && |c| == n + 1 && c[|c| - 1] == x
    ensures forall i :: 0 <= i < |c| ==> c[i] in stuck
    decreases n
  {
    assert WaitsWithin(g, stuck, x);
    if n == 0 {
      c := [x];
    } else {
      var d :| d in g[x] && d in stuck;
      var front := WalkBack(g, stuck, d, n - 1);
      c := front + [x];
      ChainSnoc(g, front, x);
    }
  }

  /** Pigeonhole: a walk longer than the set it stays in visits some step twice. */
  lemma {:induction false} Pigeonhole(c: seq<int>, within: set<int>) returns (i: nat, j: nat)
    requires |c| > |within| && forall k :: 0 <= k < |c| ==> c[k] in within
    ensures i < j < |c| && c[i] == c[j]
  {
    var front, last := c[..|c| - 1], c[|c| - 1];
    if last in front {
      i :| 0 <= i < |front| && front[i] == last;
      j := |c| - 1;
    } else {
      i, j := Pigeonhole(front, within - {last});
    }
  }

  lemma StuckSteps(g: Graph) returns (stuck: set<int>, x: int)
    requires Closed(g) && !Complete(g)
    ensures x in stuck && Knot(g, stuck)
  {
    var layers := Peel(g, {});
    PeelByLayer(g, {}, |layers|);
    assert layers[..|layers|] == layers;
    assert {} + Union(layers) == Union(layers);
    stuck := g.Keys - Union(layers);
    assert stuck != {};
    x := Pick(stuck);
    forall y | y in stuck ensures WaitsWithin(g, stuck, y) {
      assert y !in Ready(g, Union(layers));
      var d :| d in g[y] && d !in Union(layers);
      assert d in stuck;
    }
  }

  /** When peeling gets stuck with every dependency known, what is left contains a cycle. */
  lemma StuckIsCyclic(g: Graph)
    requires Closed(g) && !Complete(g)
    ensures Cyclic(g)
  {
    var stuck, x := StuckSteps(g);
    var walk := WalkBack(g, stuck, x, |stuck|);
    var i, j := Pigeonhole(walk, stuck);
    ChainPart(g, walk, i, j);
  }

  lemma ChainPart(g: Graph, c: seq<int>, i: nat, j: nat)
    requires Chain(g, c) && i < j < |c| && c[i] == c[j]
    ensures Cyclic(g)
  {
    var part := c[i..j + 1];
    forall k | 0 <= k < |part| - 1 ensures part[k] in g[part[k + 1]] {
      assert c[i + k] in g[c[i + k + 1]];
    }
    assert Chain(g, part);
  }

  /** Peeling finishes exactly when nothing waits for itself. */
  lemma CompleteIffAcyclic(g: Graph)
    requires Closed(g)
    ensures Complete(g) <==> !Cyclic(g)
  {
    if Cyclic(g) {
      var c :| Chain(g, c) && |c| >= 2 && c[0] == c[|c| - 1];
      CycleIsKnot(g, c);
    }
    if !Complete(g) {
      StuckIsCyclic(g);
    }
  }

  /** An unknown dependency keeps its step, and so the plan, from ever finishing. */
  lemma UnknownNeverFinishes(g: Graph, x: int, d: int)
    requires x in g && d in g[x] && d !in g
    ensures !Complete(g)
  {
    var layers := Peel(g, {});
    UnionMember(layers, x);
    if x in Union(layers) {
      var k :| 0 <= k < |layers| && x in layers[k];
      LayerDependencies(g, x, k);
      var j :| 0 <= j < k && InLayer(g, d, j);
      LayerDependencies(g, d, j);
      assert false;
    }
  }
}
