/**
 * Running a plan's layers under a cycle's budget (pkg/loop/loop.go). The loop's own goroutine walks the
 * layers; every step it submits runs in a goroutine of its own. Each action below is one atomic step.
 */
module PlanExecution {
  import opened Vocabulary
  import opened Ordering
  import opened PlanGraph
  import opened Planner
  import opened Refusals

  datatype Budget = Budget(maxFaultsPerCycle: int, maxConcurrentFaults: int, maxSeverityPerCycle: string)

  datatype Plan = Plan(steps: seq<PlanStep>, layers: seq<seq<int>>, budget: Budget)

  function MaxCycle(p: Plan): nat {
    if p.budget.maxFaultsPerCycle <= 0 then |p.steps| else p.budget.maxFaultsPerCycle
  }

  function MaxConcurrent(p: Plan): nat {
    if p.budget.maxConcurrentFaults <= 0 then 1 else p.budget.maxConcurrentFaults
  }

  function TierOrdinal(tier: string): Option<int> {
    if tier == "namespace" then Some(1)
    else if tier == "node" then Some(2)
    else if tier == "external" then Some(3)
    else None
  }

  /** Both unknowns fail closed. */
  predicate TierExceeds(have: string, max: string) {
    var h, m := TierOrdinal(have), TierOrdinal(max);
    h.None? || m.None? || h.value > m.value
  }

  predicate AboveCap(p: Plan, s: PlanStep) {
    p.budget.maxSeverityPerCycle != "" && TierExceeds(s.tier, p.budget.maxSeverityPerCycle)
  }

  /** Every tier, the narrowest blast radius first. */
  const TIERS: seq<string> := ["namespace", "node", "external"]

  /** Both tiers are known, and the cap is as wide as the step's or wider. */
  ghost predicate WithinSeverity(tier: string, cap: string) {
    exists i, j :: 0 <= i <= j < |TIERS| && TIERS[i] == tier && TIERS[j] == cap
  }

  lemma AboveIsNotWithin(p: Plan, s: PlanStep)
    ensures AboveCap(p, s) <==>
      p.budget.maxSeverityPerCycle != "" && !WithinSeverity(s.tier, p.budget.maxSeverityPerCycle)
  {
    var tier, cap := s.tier, p.budget.maxSeverityPerCycle;
    assert TIERS[0] == "namespace" && TIERS[1] == "node" && TIERS[2] == "external";
    if WithinSeverity(tier, cap) {
      var i, j :| 0 <= i <= j < |TIERS| && TIERS[i] == tier && TIERS[j] == cap;
      assert TierOrdinal(tier) == Some(i + 1) && TierOrdinal(cap) == Some(j + 1);
    } else if TierOrdinal(tier).Some? && TierOrdinal(cap).Some? {
      var i, j := TierOrdinal(tier).value - 1, TierOrdinal(cap).value - 1;
      assert TIERS[i] == tier && TIERS[j] == cap;
    }
  }

  /** The later of two steps with one order wins. */
  function StepsByOrder(steps: seq<PlanStep>): (m: map<int, PlanStep>)
    ensures m.Keys == GraphOf(steps).Keys
    ensures forall o :: o in m ==> m[o].order == o && m[o].dependsOn == GraphOf(steps)[o] && m[o] in steps
  {
    if steps == [] then map[]
    else
      var front, last := steps[..|steps| - 1], steps[|steps| - 1];
      assert last in steps && forall s :: s in front ==> s in steps;
      StepsByOrder(front)[last.order := last]
  }

  /** The plan passed layering. */
  ghost predicate Layerable(p: Plan) {
    Workable(p.steps) && ListsLayers(p.layers, Peel(GraphOf(p.steps), {}))
  }

  ghost predicate InLayerOf(p: Plan, o: int, k: nat) {
    k < |p.layers| && o in p.layers[k]
  }

  // ----- States and steps -----

  /** Where a submitted step's goroutine stands. The first five hold a slot of the layer's semaphore. */
  datatype Work = Launched | Checked | Applying | Noting(outcome: Outcome) | Leaving | Signalling | Gone

  /** Where the loop's own goroutine stands. */
  datatype Place = LayerHead | NextStep | WaitSlot | Barrier | Finished

  /** What the executor was asked, and what it was not asked because of earlier refusals. */
  datatype Call = Started(order: int) | Returned(order: int) | HeldBack(order: int)

  datatype State = State(
    place: Place,
    layer: nat,
    pos: nat,
    scheduled: nat,
    held: nat,
    work: map<int, Work>,
    refusals: Log,
    now: Time,
    calls: seq<Call>)

  datatype Step =
    | Tick(elapsed: nat)
    | EnterLayer
    | TakeStep
    | Launch
    | Join
    | CheckRefusals(order: int)
    | Start(order: int)
    | Return(order: int, outcome: Outcome)
    | Note(order: int)
    | FreeSlot(order: int)
    | Signal(order: int)

  predicate AtStep(p: Plan, s: State) {
    s.layer < |p.layers| && s.pos < |p.layers[s.layer]|
  }

  predicate IsAt(s: State, o: int, w: Work) {
    o in s.work && s.work[o] == w
  }

  /** A lookup of an order nobody has yields the zero step, as in the source's map. */
  function StepOf(p: Plan, o: int): PlanStep {
    var m := StepsByOrder(p.steps);
    if o in m then m[o] else PlanStep(0, [], "", "")
  }

  /** In a plan that passed layering every step is found under its order. */
  lemma StepIsFound(p: Plan, t: PlanStep)
    requires UniqueOrders(p.steps) && t in p.steps
    ensures StepOf(p, t.order) == t
  {
    GraphEntries(p.steps, t);
    var u := StepsByOrder(p.steps)[t.order];
    var i :| 0 <= i < |p.steps| && p.steps[i] == t;
    var j :| 0 <= j < |p.steps| && p.steps[j] == u;
  }

  ghost predicate Enabled(p: Plan, s: State, step: Step) {
    match step
    case Tick(_) => true
    case EnterLayer => s.place == LayerHead
    case TakeStep => s.place == NextStep
    case Launch => s.place == WaitSlot && AtStep(p, s) && s.held < MaxConcurrent(p)
    case Join => s.place == Barrier && forall o :: o in s.work ==> s.work[o] == Gone
    case CheckRefusals(o) => IsAt(s, o, Launched)
    case Start(o) => IsAt(s, o, Checked)
    case Return(o, _) => IsAt(s, o, Applying)
    case Note(o) => o in s.work && s.work[o].Noting?
    case FreeSlot(o) => IsAt(s, o, Leaving) && s.held > 0
    case Signal(o) => IsAt(s, o, Signalling)
  }

  ghost function DoEnterLayer(p: Plan, s: State): State {
    if s.layer >= |p.layers| || s.scheduled >= MaxCycle(p) then s.(place := Finished)
    else s.(place := NextStep, pos := 0, held := 0)
  }

  ghost function DoTakeStep(p: Plan, s: State): State {
    if !AtStep(p, s) then s.(place := Barrier)
    else if AboveCap(p, StepOf(p, p.layers[s.layer][s.pos])) then s.(pos := s.pos + 1)
    else if s.scheduled >= MaxCycle(p) then s.(pos := s.pos + 1)
    else s.(scheduled := s.scheduled + 1, place := WaitSlot)
  }

  ghost function DoCheckRefusals(p: Plan, s: State, o: int): State {
    var key := StepOf(p, o).key;
    var refused := Counted(s.refusals, key, s.now) >= REPEATED_REFUSAL_LIMIT;
    s.(refusals := Pruned(s.refusals, key, s.now),
       work := s.work[o := if refused then Leaving else Checked],
       calls := if refused then s.calls + [HeldBack(o)] else s.calls)
  }

  ghost function Next(p: Plan, s: State, step: Step): State
    requires Enabled(p, s, step)
  {
    match step
    case Tick(elapsed) => s.(now := s.now + elapsed)
    case EnterLayer => DoEnterLayer(p, s)
    case TakeStep => DoTakeStep(p, s)
    case Launch =>
      s.(held := s.held + 1, work := s.work[p.layers[s.layer][s.pos] := Launched], pos := s.pos + 1, place := NextStep)
    case Join => s.(layer := s.layer + 1, pos := 0, place := LayerHead)
    case CheckRefusals(o) => DoCheckRefusals(p, s, o)
    case Start(o) => s.(work := s.work[o := Applying], calls := s.calls + [Started(o)])
    case Return(o, outcome) => s.(work := s.work[o := Noting(outcome)], calls := s.calls + [Returned(o)])
    case Note(o) =>
      s.(work := s.work[o := Leaving],
         refusals := Noted(s.refusals, StepOf(p, o).key, s.work[o].outcome, s.now))
    case FreeSlot(o) => s.(work := s.work[o := Signalling], held := s.held - 1)
    case Signal(o) => s.(work := s.work[o := Gone])
  }

  ghost predicate Init(p: Plan, s: State) {
    && Layerable(p)
    && s.place == LayerHead && s.layer == 0 && s.pos == 0
    && s.scheduled == 0 && s.held == 0 && s.work == map[] && s.calls == []
    && OldestFirstUntil(s.refusals, s.now)
  }

  ghost predicate Follows(p: Plan, s: State, t: State) {
    exists step :: Enabled(p, s, step) && t == Next(p, s, step)
  }

  /** A run is a sequence of states, each following from the one before by some enabled step. */
  ghost predicate Run(p: Plan, run: seq<State>) {
    && run != [] && Init(p, run[0])
    && forall i :: 0 <= i < |run| - 1 ==> Follows(p, run[i], run[i + 1])
  }

  // ----- Where every step stands -----

  predicate Inside(place: Place) {
    place == NextStep || place == WaitSlot || place == Barrier
  }

  /** A step the loop has come past: in an earlier layer, or earlier in this one. */
  ghost predicate Passed(p: Plan, inside: bool, layer: nat, pos: nat, o: int) {
    || (exists k: nat :: k < layer && InLayerOf(p, o, k))
    || (inside && layer < |p.layers| && pos <= |p.layers[layer]| && o in p.layers[layer][..pos])
  }

  ghost predicate PlaceInv(p: Plan, s: State) {
    && s.layer <= |p.layers|
    && (Inside(s.place) ==> s.layer < |p.layers| && s.pos <= |p.layers[s.layer]|)
    && (s.place == WaitSlot ==> AtStep(p, s) && !AboveCap(p, StepOf(p, p.layers[s.layer][s.pos])))
    && (s.place == LayerHead ==> s.pos == 0)
    && (s.place == Barrier ==> s.pos == |p.layers[s.layer]|)
  }

  /** Every goroutine belongs to a permitted step the loop came past. */
  ghost predicate WorkInv(p: Plan, s: State) {
    forall o :: o in s.work ==> Passed(p, Inside(s.place), s.layer, s.pos, o) && !AboveCap(p, StepOf(p, o))
  }

  /** Earlier layers have no goroutine left. */
  ghost predicate EarlierInv(p: Plan, s: State) {
    forall o, k: nat :: o in s.work && k < s.layer && InLayerOf(p, o, k) ==> s.work[o] == Gone
  }

  /** The calls made so far and one goroutine tell the same story. */
  ghost predicate CallsAgree(s: State, o: int) {
    && (Started(o) in s.calls <==> Returned(o) in s.calls || IsAt(s, o, Applying))
    && (Returned(o) in s.calls ==>
      o in s.work && !IsAt(s, o, Launched) && !IsAt(s, o, Checked) && !IsAt(s, o, Applying))
  }

  ghost predicate CallsInv(s: State) {
    forall o :: CallsAgree(s, o)
  }

  /** Done with the executor, one way or the other. */
  predicate IsPast(s: State, o: int) {
    o in s.work && (s.work[o].Leaving? || s.work[o].Signalling? || s.work[o].Gone?)
  }

  /** A goroutine that is past the executor was answered by it or held back, and not both. */
  ghost predicate HeldAgrees(s: State, o: int) {
    && (HeldBack(o) in s.calls ==> IsPast(s, o) && Started(o) !in s.calls)
    && (IsPast(s, o) ==> Returned(o) in s.calls || HeldBack(o) in s.calls)
    && (o in s.work && s.work[o].Noting? ==> Returned(o) in s.calls)
  }

  ghost predicate HeldInv(s: State) {
    forall o :: HeldAgrees(s, o)
  }

  lemma LayersAreDistinct(p: Plan, o: int, i: nat, j: nat)
    requires Layerable(p) && InLayerOf(p, o, i) && InLayerOf(p, o, j)
    ensures i == j
  {
    var g := GraphOf(p.steps);
    assert Lists(p.layers[i], Peel(g, {})[i]) && Lists(p.layers[j], Peel(g, {})[j]);
    assert InLayer(g, o, i) && InLayer(g, o, j);
    if i < j {
      OneLayer(g, o, i, j);
    } else if j < i {
      OneLayer(g, o, j, i);
    }
  }

  lemma DependencyIsEarlier(p: Plan, o: int, d: int, k: nat) returns (j: nat)
    requires Layerable(p) && InLayerOf(p, o, k) && d in StepOf(p, o).dependsOn
    ensures j < k && InLayerOf(p, d, j)
  {
    var g := GraphOf(p.steps);
    assert Lists(p.layers[k], Peel(g, {})[k]);
    assert InLayer(g, o, k);
    LayerDependencies(g, o, k);
    assert StepOf(p, o).dependsOn == g[o];
    j :| 0 <= j < k && InLayer(g, d, j);
    assert Lists(p.layers[j], Peel(g, {})[j]);
  }

  /** The step the loop is at is not one it came past. */
  lemma StepIsNew(p: Plan, layer: nat, pos: nat)
    requires Layerable(p) && layer < |p.layers| && pos < |p.layers[layer]|
    ensures !Passed(p, true, layer, pos, p.layers[layer][pos])
  {
    var o := p.layers[layer][pos];
    forall k: nat | k < layer ensures !InLayerOf(p, o, k) {
      if InLayerOf(p, o, k) { LayersAreDistinct(p, o, k, layer); }
    }
    assert Lists(p.layers[layer], Peel(GraphOf(p.steps), {})[layer]);
    forall i | 0 <= i < pos ensures p.layers[layer][..pos][i] != o {
      assert IntBefore(p.layers[layer][i], o);
    }
  }

  lemma PassedGrows(p: Plan, layer: nat, pos: nat, o: int)
    requires layer < |p.layers| && pos <= |p.layers[layer]| && Passed(p, true, layer, pos, o)
    ensures pos < |p.layers[layer]| ==> Passed(p, true, layer, pos + 1, o)
    ensures Passed(p, false, layer + 1, 0, o)
  {
    if k: nat :| k < layer && InLayerOf(p, o, k) {
    } else {
      assert InLayerOf(p, o, layer);
      var i :| 0 <= i < pos && p.layers[layer][i] == o;
      assert pos < |p.layers[layer]| ==> p.layers[layer][..pos + 1][i] == o;
    }
  }

  /** Steps of a goroutine leave the loop where it is. */
  predicate OfGoroutine(step: Step) {
    step.CheckRefusals? || step.Start? || step.Return? || step.Note? || step.FreeSlot? || step.Signal?
  }

  ghost predicate SameLoop(s: State, t: State) {
    t.place == s.place && t.layer == s.layer && t.pos == s.pos && t.scheduled == s.scheduled
  }

  lemma GoroutineStep(p: Plan, s: State, step: Step) returns (w: Work)
    requires Enabled(p, s, step) && OfGoroutine(step)
    ensures SameLoop(s, Next(p, s, step))
    ensures step.order in s.work && s.work[step.order] != Gone
    ensures Next(p, s, step).work == s.work[step.order := w]
  {
    w := Next(p, s, step).work[step.order];
  }

  lemma PlacePreserved(p: Plan, s: State, step: Step)
    requires PlaceInv(p, s) && Enabled(p, s, step)
    ensures PlaceInv(p, Next(p, s, step))
  {
    if OfGoroutine(step) { var w := GoroutineStep(p, s, step); }
  }

  lemma WorkPreserved(p: Plan, s: State, step: Step)
    requires PlaceInv(p, s) && WorkInv(p, s) && Enabled(p, s, step)
    ensures WorkInv(p, Next(p, s, step))
  {
    var t := Next(p, s, step);
    if OfGoroutine(step) {
      var w := GoroutineStep(p, s, step);
    } else {
      forall o | o in t.work ensures Passed(p, Inside(t.place), t.layer, t.pos, o) && !AboveCap(p, StepOf(p, o)) {
        if o in s.work {
          if Inside(s.place) { PassedGrows(p, s.layer, s.pos, o); }
        } else {
          assert p.layers[s.layer][..s.pos + 1][s.pos] == o;
        }
      }
    }
  }

  lemma EarlierPreserved(p: Plan, s: State, step: Step)
    requires Layerable(p) && PlaceInv(p, s) && EarlierInv(p, s) && Enabled(p, s, step)
    ensures EarlierInv(p, Next(p, s, step))
  {
    var t := Next(p, s, step);
    if OfGoroutine(step) {
      var w := GoroutineStep(p, s, step);
    } else if step.Launch? {
      forall k: nat | k < s.layer ensures !InLayerOf(p, p.layers[s.layer][s.pos], k) {
        StepIsNew(p, s.layer, s.pos);
      }
    }
  }

  /** Steps of the loop call nobody; at most they launch one new goroutine. */
  lemma LoopStep(p: Plan, s: State, step: Step)
    requires Enabled(p, s, step) && !OfGoroutine(step)
    ensures Next(p, s, step).calls == s.calls
    ensures Next(p, s, step).work == if step.Launch? then s.work[p.layers[s.layer][s.pos] := Launched] else s.work
  {
  }

  /** The loop launches nobody it launched before. */
  lemma LaunchedIsNew(p: Plan, s: State)
    requires Layerable(p) && PlaceInv(p, s) && WorkInv(p, s) && Enabled(p, s, Launch)
    ensures p.layers[s.layer][s.pos] !in s.work
  {
    StepIsNew(p, s.layer, s.pos);
  }

  lemma NewcomerAgrees(s: State, t: State, newcomer: int, o: int)
    requires t.calls == s.calls && t.work == s.work[newcomer := Launched] && newcomer !in s.work
    requires CallsAgree(s, o)
    ensures CallsAgree(t, o) && (HeldAgrees(s, o) ==> HeldAgrees(t, o))
  {
  }

  lemma CallsOfGoroutine(p: Plan, s: State, step: Step, o: int)
    requires CallsAgree(s, o) && Enabled(p, s, step) && OfGoroutine(step)
    ensures CallsAgree(Next(p, s, step), o)
  {
  }

  lemma CallsPreserved(p: Plan, s: State, step: Step, o: int)
    requires Layerable(p) && PlaceInv(p, s) && WorkInv(p, s) && CallsInv(s) && Enabled(p, s, step)
    ensures CallsAgree(Next(p, s, step), o)
  {
    assert CallsAgree(s, o);
    if OfGoroutine(step) {
      CallsOfGoroutine(p, s, step, o);
    } else {
      LoopStep(p, s, step);
      if step.Launch? {
        LaunchedIsNew(p, s);
        NewcomerAgrees(s, Next(p, s, step), p.layers[s.layer][s.pos], o);
      }
    }
  }

  /** No step is called twice. */
  ghost predicate CalledOnce(calls: seq<Call>) {
    forall i, j :: 0 <= i < j < |calls| ==> calls[i] != calls[j]
  }

  lemma OncePreserved(p: Plan, s: State, step: Step)
    requires CallsInv(s) && HeldInv(s) && CalledOnce(s.calls) && Enabled(p, s, step)
    ensures CalledOnce(Next(p, s, step).calls)
  {
    if step.Start? || step.Return? || step.CheckRefusals? {
      assert CallsAgree(s, step.order) && HeldAgrees(s, step.order);
    }
  }

  lemma HeldOfGoroutine(p: Plan, s: State, step: Step, o: int)
    requires CallsAgree(s, o) && HeldAgrees(s, o) && Enabled(p, s, step) && OfGoroutine(step)
    ensures HeldAgrees(Next(p, s, step), o)
  {
  }

  lemma HeldPreserved(p: Plan, s: State, step: Step, o: int)
    requires Layerable(p) && PlaceInv(p, s) && WorkInv(p, s) && CallsInv(s) && HeldInv(s) && Enabled(p, s, step)
    ensures HeldAgrees(Next(p, s, step), o)
  {
    assert CallsAgree(s, o) && HeldAgrees(s, o);
    if OfGoroutine(step) {
      HeldOfGoroutine(p, s, step, o);
    } else {
      LoopStep(p, s, step);
      if step.Launch? {
        LaunchedIsNew(p, s);
        NewcomerAgrees(s, Next(p, s, step), p.layers[s.layer][s.pos], o);
      }
    }
  }

  // ----- The order of calls -----

  /** Before a step's call every call of a step it waits for has been made and has returned, then and ever after. */
  ghost predicate CallWaits(p: Plan, calls: seq<Call>, i: nat, d: int) {
    i < |calls| && calls[i].Started? && d in StepOf(p, calls[i].order).dependsOn && Started(d) in calls
    ==> Started(d) in calls[..i] && Returned(d) in calls[..i]
  }

  ghost predicate DependenciesReturnFirst(p: Plan, calls: seq<Call>) {
    forall i: nat, d :: CallWaits(p, calls, i, d)
  }

  /** A submitted step sits in the layer the loop is in, or an earlier one. */
  lemma LayerOfWork(p: Plan, s: State, o: int) returns (k: nat)
    requires PlaceInv(p, s) && WorkInv(p, s) && o in s.work
    ensures InLayerOf(p, o, k) && k <= s.layer && (s.work[o] != Gone && EarlierInv(p, s) ==> k == s.layer)
  {
    assert Passed(p, Inside(s.place), s.layer, s.pos, o);
    if i: nat :| i < s.layer && InLayerOf(p, o, i) {
      k := i;
    } else {
      k := s.layer;
    }
  }

  /** When a step's call starts, nothing it waits for can still be called or be under way. */
  lemma DependenciesAreOver(p: Plan, s: State, o: int, d: int)
    requires Layerable(p) && PlaceInv(p, s) && WorkInv(p, s) && EarlierInv(p, s) && CallsInv(s)
    requires IsAt(s, o, Checked) && d in StepOf(p, o).dependsOn
    ensures d != o && (Started(d) in s.calls ==> Returned(d) in s.calls)
  {
    var k := LayerOfWork(p, s, o);
    var j := DependencyIsEarlier(p, o, d, k);
    assert d == o ==> InLayerOf(p, o, j);
    assert CallsAgree(s, d);
  }

  /** A call about to start is of no step that an earlier call waited for. */
  lemma NobodyWaitedForIt(p: Plan, s: State, o: int, x: int)
    requires Layerable(p) && PlaceInv(p, s) && WorkInv(p, s) && EarlierInv(p, s) && CallsInv(s)
    requires IsAt(s, o, Checked) && Started(x) in s.calls
    ensures o !in StepOf(p, x).dependsOn
  {
    assert CallsAgree(s, x);
    var k := LayerOfWork(p, s, o);
    var i := LayerOfWork(p, s, x);
    if o in StepOf(p, x).dependsOn {
      var j := DependencyIsEarlier(p, x, o, i);
      LayersAreDistinct(p, o, j, k);
    }
  }

  /** Other calls make nobody wait. */
  lemma WaitsStay(p: Plan, calls: seq<Call>, c: Call, i: nat, d: int)
    requires CallWaits(p, calls, i, d) && !c.Started?
    ensures CallWaits(p, calls + [c], i, d)
  {
    if i < |calls| { assert (calls + [c])[..i] == calls[..i]; }
  }

  lemma WaitsOfStart(p: Plan, s: State, o: int, i: nat, d: int)
    requires Layerable(p) && PlaceInv(p, s) && WorkInv(p, s) && EarlierInv(p, s) && CallsInv(s)
    requires CallWaits(p, s.calls, i, d) && IsAt(s, o, Checked)
    ensures CallWaits(p, s.calls + [Started(o)], i, d)
  {
    var calls := s.calls + [Started(o)];
    if i == |s.calls| {
      assert calls[..i] == s.calls;
      if d in StepOf(p, o).dependsOn { DependenciesAreOver(p, s, o, d); }
    } else if i < |s.calls| {
      assert calls[..i] == s.calls[..i];
      if s.calls[i].Started? {
        assert s.calls[i] == Started(s.calls[i].order);
        NobodyWaitedForIt(p, s, o, s.calls[i].order);
      }
    }
  }

  lemma CallsOfStep(p: Plan, s: State, step: Step)
    requires Enabled(p, s, step)
    ensures step.Start? ==> Next(p, s, step).calls == s.calls + [Started(step.order)]
    ensures !step.Start? ==>
      || Next(p, s, step).calls == s.calls
      || exists c: Call :: !c.Started? && Next(p, s, step).calls == s.calls + [c]
  {
    match step
    case CheckRefusals(o) => assert !HeldBack(o).Started?;
    case Return(o, _) => assert !Returned(o).Started?;
    case _ =>
  }

  lemma OrderPreserved(p: Plan, s: State, step: Step, i: nat, d: int)
    requires Layerable(p) && PlaceInv(p, s) && WorkInv(p, s) && EarlierInv(p, s) && CallsInv(s)
    requires DependenciesReturnFirst(p, s.calls) && Enabled(p, s, step)
    ensures CallWaits(p, Next(p, s, step).calls, i, d)
  {
    assert CallWaits(p, s.calls, i, d);
    CallsOfStep(p, s, step);
    if step.Start? {
      WaitsOfStart(p, s, step.order, i, d);
    } else if Next(p, s, step).calls != s.calls {
      var c: Call :| !c.Started? && Next(p, s, step).calls == s.calls + [c];
      WaitsStay(p, s.calls, c, i, d);
    }
  }

  // ----- Budgets -----

  ghost function Holders(s: State): set<int> {
    set o | o in s.work && HoldsSlot(s.work[o])
  }

  predicate HoldsSlot(w: Work) {
    w.Launched? || w.Checked? || w.Applying? || w.Noting? || w.Leaving?
  }

  ghost function InFlight(s: State): set<int> {
    set o | o in s.work && s.work[o] == Applying
  }

  ghost predicate SlotInv(p: Plan, s: State) {
    s.held == |Holders(s)| <= MaxConcurrent(p)
  }

  lemma InFlightHoldSlots(s: State)
    ensures InFlight(s) <= Holders(s)
  {
    forall o | o in InFlight(s) ensures o in Holders(s) {
      assert HoldsSlot(s.work[o]);
    }
  }

  lemma HoldersMove(s: State, t: State, o: int, w: Work)
    requires t.work == s.work[o := w]
    ensures |Holders(t)| == |Holders(s)|
      + (if HoldsSlot(w) then 1 else 0) - (if o in s.work && HoldsSlot(s.work[o]) then 1 else 0)
  {
    OneMoves(Holders(s), Holders(t), o);
  }

  /** At the head of a layer nobody holds a slot, so a fresh semaphore loses nothing. */
  lemma NobodyHoldsAtHead(p: Plan, s: State)
    requires PlaceInv(p, s) && WorkInv(p, s) && EarlierInv(p, s) && s.place == LayerHead
    ensures Holders(s) == {}
  {
    forall o | o in s.work ensures s.work[o] == Gone {
      assert Passed(p, false, s.layer, s.pos, o);
    }
    assert forall o :: o !in Holders(s);
  }

  lemma GoroutineSlots(p: Plan, s: State, step: Step, w: Work)
    requires Enabled(p, s, step) && OfGoroutine(step) && w == Next(p, s, step).work[step.order]
    ensures HoldsSlot(w) <==> !step.FreeSlot? && !step.Signal?
    ensures HoldsSlot(s.work[step.order]) <==> !step.Signal?
    ensures Next(p, s, step).held == s.held - if step.FreeSlot? then 1 else 0
  {
  }

  lemma SlotsOfGoroutine(p: Plan, s: State, step: Step)
    requires SlotInv(p, s) && Enabled(p, s, step) && OfGoroutine(step)
    ensures SlotInv(p, Next(p, s, step))
  {
    var w := GoroutineStep(p, s, step);
    GoroutineSlots(p, s, step, w);
    HoldersMove(s, Next(p, s, step), step.order, w);
  }

  lemma SlotsOfLaunch(p: Plan, s: State)
    requires Layerable(p) && PlaceInv(p, s) && WorkInv(p, s) && SlotInv(p, s) && Enabled(p, s, Launch)
    ensures SlotInv(p, Next(p, s, Launch))
  {
    var o := p.layers[s.layer][s.pos];
    LaunchedIsNew(p, s);
    HoldersMove(s, Next(p, s, Launch), o, Launched);
  }

  lemma SlotsPreserved(p: Plan, s: State, step: Step)
    requires Layerable(p) && PlaceInv(p, s) && WorkInv(p, s) && EarlierInv(p, s) && SlotInv(p, s) && Enabled(p, s, step)
    ensures SlotInv(p, Next(p, s, step))
  {
    if OfGoroutine(step) {
      SlotsOfGoroutine(p, s, step);
    } else if step.Launch? {
      SlotsOfLaunch(p, s);
    } else {
      assert Holders(Next(p, s, step)) == Holders(s);
      if step.EnterLayer? { NobodyHoldsAtHead(p, s); }
    }
  }

  /** Calls made, and goroutines that may still make one. */
  ghost function CallsMade(calls: seq<Call>): nat {
    if calls == [] then 0 else CallsMade(calls[..|calls| - 1]) + if calls[|calls| - 1].Started? then 1 else 0
  }

  ghost function Ahead(s: State): set<int> {
    set o | o in s.work && (s.work[o] == Launched || s.work[o] == Checked)
  }

  ghost predicate CountInv(p: Plan, s: State) {
    && s.scheduled == |s.work| + (if s.place == WaitSlot then 1 else 0)
    && s.scheduled <= MaxCycle(p)
    && CallsMade(s.calls) + |Ahead(s)| <= |s.work|
  }

  lemma AheadMoves(s: State, t: State, o: int, w: Work)
    requires t.work == s.work[o := w]
    ensures |Ahead(t)| == |Ahead(s)| + (if w == Launched || w == Checked then 1 else 0)
      - (if o in s.work && (s.work[o] == Launched || s.work[o] == Checked) then 1 else 0)
  {
    OneMoves(Ahead(s), Ahead(t), o);
  }

  lemma GoroutineAhead(p: Plan, s: State, step: Step, w: Work)
    requires Enabled(p, s, step) && OfGoroutine(step) && w == Next(p, s, step).work[step.order]
    ensures w != Launched && (w == Checked ==> step.CheckRefusals?)
    ensures s.work[step.order] == Launched <==> step.CheckRefusals?
    ensures s.work[step.order] == Checked <==> step.Start?
  {
  }

  lemma CountOfGoroutine(p: Plan, s: State, step: Step)
    requires CountInv(p, s) && Enabled(p, s, step) && OfGoroutine(step)
    ensures CountInv(p, Next(p, s, step))
  {
    var t := Next(p, s, step);
    var w := GoroutineStep(p, s, step);
    GoroutineAhead(p, s, step, w);
    AheadMoves(s, t, step.order, w);
    assert t.work.Keys == s.work.Keys;
    assert |t.work| == |t.work.Keys| && |s.work| == |s.work.Keys|;
    CallsGrow(p, s, step);
  }

  lemma CountOfLaunch(p: Plan, s: State)
    requires Layerable(p) && PlaceInv(p, s) && WorkInv(p, s) && CountInv(p, s) && Enabled(p, s, Launch)
    ensures CountInv(p, Next(p, s, Launch))
  {
    var o := p.layers[s.layer][s.pos];
    LaunchedIsNew(p, s);
    AheadMoves(s, Next(p, s, Launch), o, Launched);
  }

  lemma CountOfMove(p: Plan, s: State, t: State)
    requires CountInv(p, s) && t.calls == s.calls && t.work == s.work
    requires t.scheduled == s.scheduled + (if t.place == WaitSlot then 1 else 0) - if s.place == WaitSlot then 1 else 0
    requires t.scheduled <= MaxCycle(p)
    ensures CountInv(p, t)
  {
    assert Ahead(t) == Ahead(s);
  }

  lemma CountPreserved(p: Plan, s: State, step: Step)
    requires Layerable(p) && PlaceInv(p, s) && WorkInv(p, s) && CountInv(p, s) && Enabled(p, s, step)
    ensures CountInv(p, Next(p, s, step))
  {
    if OfGoroutine(step) {
      CountOfGoroutine(p, s, step);
    } else if step.Launch? {
      CountOfLaunch(p, s);
    } else {
      LoopStep(p, s, step);
      CountOfMove(p, s, Next(p, s, step));
    }
  }

  lemma CallsGrow(p: Plan, s: State, step: Step)
    requires Enabled(p, s, step)
    ensures CallsMade(Next(p, s, step).calls) == CallsMade(s.calls) + if step.Start? then 1 else 0
  {
    var calls := Next(p, s, step).calls;
    assert calls != s.calls ==> calls[..|calls| - 1] == s.calls;
  }

  // ----- Repeated refusals -----

  predicate IsPending(w: Work) {
    w.Checked? || w.Applying? || w.Noting?
  }

  /** Goroutines that may yet note a refusal of the step. */
  ghost function Pending(p: Plan, s: State, key: string): set<int> {
    set o | o in s.work && IsPending(s.work[o]) && StepOf(p, o).key == key
  }

  ghost predicate WindowBound(p: Plan, s: State, key: string, bound: nat) {
    key != "" ==> InWindow(s.refusals, key, s.now) + |Pending(p, s, key)| <= bound
  }

  ghost predicate WindowInv(p: Plan, s: State, bound: nat) {
    && bound >= REPEATED_REFUSAL_LIMIT - 1 + MaxConcurrent(p)
    && OldestFirstUntil(s.refusals, s.now)
    && forall key :: WindowBound(p, s, key, bound)
  }

  lemma PendingMoves(p: Plan, s: State, t: State, o: int, w: Work, key: string)
    requires t.work == s.work[o := w]
    ensures |Pending(p, t, key)| == |Pending(p, s, key)|
      + (if IsPending(w) && StepOf(p, o).key == key then 1 else 0)
      - (if o in s.work && IsPending(s.work[o]) && StepOf(p, o).key == key then 1 else 0)
  {
    OneMoves(Pending(p, s, key), Pending(p, t, key), o);
  }

  /** Checking a step's refusals leaves every window as it was. */
  lemma CheckLeavesWindows(p: Plan, s: State, o: int, key: string)
    requires Enabled(p, s, CheckRefusals(o))
    ensures
      var t := Next(p, s, CheckRefusals(o));
      t.now == s.now && InWindow(t.refusals, key, t.now) == InWindow(s.refusals, key, s.now)
  {
    PruningIsInvisible(s.refusals, StepOf(p, o).key, s.now, key, s.now);
  }

  /** What a check decides: the loop's own count, which is the window's. */
  lemma CheckDecides(p: Plan, s: State, o: int)
    requires OldestFirstUntil(s.refusals, s.now) && Enabled(p, s, CheckRefusals(o))
    ensures
      var key := StepOf(p, o).key;
      var t := Next(p, s, CheckRefusals(o));
      && (key != "" && InWindow(s.refusals, key, s.now) >= REPEATED_REFUSAL_LIMIT <==> IsAt(t, o, Leaving))
      && (key == "" || InWindow(s.refusals, key, s.now) < REPEATED_REFUSAL_LIMIT <==> IsAt(t, o, Checked))
      && t.work == s.work[o := t.work[o]]
  {
    assert OldestFirst(TimesOf(s.refusals, StepOf(p, o).key));
    CountedIsExact(s.refusals, StepOf(p, o).key, s.now);
  }

  /** Only slot holders can be pending. */
  lemma PendingHoldSlots(p: Plan, s: State, key: string)
    requires SlotInv(p, s)
    ensures |Pending(p, s, key)| <= MaxConcurrent(p)
  {
    assert Pending(p, s, key) <= Holders(s);
    SubsetIsNoLarger(Pending(p, s, key), Holders(s));
  }

  /** A passed check saw fewer than the limit. */
  lemma WindowAfterCheck(p: Plan, s: State, o: int, key: string, bound: nat)
    requires WindowInv(p, s, bound) && Enabled(p, s, CheckRefusals(o))
    requires SlotInv(p, Next(p, s, CheckRefusals(o)))
    ensures WindowBound(p, Next(p, s, CheckRefusals(o)), key, bound)
  {
    assert WindowBound(p, s, key, bound);
    var t := Next(p, s, CheckRefusals(o));
    CheckLeavesWindows(p, s, o, key);
    CheckDecides(p, s, o);
    PendingMoves(p, s, t, o, t.work[o], key);
    PendingHoldSlots(p, t, key);
  }

  lemma WindowAfterNote(p: Plan, s: State, o: int, key: string, bound: nat)
    requires WindowInv(p, s, bound) && Enabled(p, s, Note(o))
    ensures WindowBound(p, Next(p, s, Note(o)), key, bound)
  {
    assert WindowBound(p, s, key, bound);
    var t := Next(p, s, Note(o));
    NotingAddsOne(s.refusals, StepOf(p, o).key, s.work[o].outcome, s.now, key);
    PendingMoves(p, s, t, o, Leaving, key);
  }

  lemma WindowAfterOther(p: Plan, s: State, step: Step, key: string, bound: nat)
    requires WindowInv(p, s, bound) && Enabled(p, s, step) && OfGoroutine(step)
    requires !step.CheckRefusals? && !step.Note?
    ensures WindowBound(p, Next(p, s, step), key, bound)
  {
    assert WindowBound(p, s, key, bound);
    PendingMoves(p, s, Next(p, s, step), step.order, Next(p, s, step).work[step.order], key);
  }

  lemma WindowAfterTick(p: Plan, s: State, elapsed: nat, key: string, bound: nat)
    requires WindowBound(p, s, key, bound)
    ensures WindowBound(p, Next(p, s, Tick(elapsed)), key, bound)
  {
    var t := Next(p, s, Tick(elapsed));
    LaterFindsFewer(TimesOf(s.refusals, key), s.now - REPEATED_REFUSAL_WINDOW, t.now - REPEATED_REFUSAL_WINDOW);
    assert Pending(p, t, key) == Pending(p, s, key);
  }

  lemma WindowAfterLaunch(p: Plan, s: State, key: string, bound: nat)
    requires Layerable(p) && PlaceInv(p, s) && WorkInv(p, s) && WindowBound(p, s, key, bound) && Enabled(p, s, Launch)
    ensures WindowBound(p, Next(p, s, Launch), key, bound)
  {
    var o := p.layers[s.layer][s.pos];
    LaunchedIsNew(p, s);
    PendingMoves(p, s, Next(p, s, Launch), o, Launched, key);
  }

  lemma WindowAfterMove(p: Plan, s: State, step: Step, key: string, bound: nat)
    requires WindowBound(p, s, key, bound) && Enabled(p, s, step)
    requires step.EnterLayer? || step.TakeStep? || step.Join?
    ensures WindowBound(p, Next(p, s, step), key, bound)
  {
    assert Pending(p, Next(p, s, step), key) == Pending(p, s, key);
  }

  lemma WindowPreserved(p: Plan, s: State, step: Step, key: string, bound: nat)
    requires Layerable(p) && PlaceInv(p, s) && WorkInv(p, s) && WindowInv(p, s, bound) && Enabled(p, s, step)
    requires SlotInv(p, Next(p, s, step))
    ensures WindowBound(p, Next(p, s, step), key, bound)
  {
    if step.CheckRefusals? {
      WindowAfterCheck(p, s, step.order, key, bound);
    } else if step.Note? {
      WindowAfterNote(p, s, step.order, key, bound);
    } else if OfGoroutine(step) {
      WindowAfterOther(p, s, step, key, bound);
    } else if step.Launch? {
      assert WindowBound(p, s, key, bound);
      WindowAfterLaunch(p, s, key, bound);
    } else if step.Tick? {
      assert WindowBound(p, s, key, bound);
      WindowAfterTick(p, s, step.elapsed, key, bound);
    } else {
      assert WindowBound(p, s, key, bound);
      WindowAfterMove(p, s, step, key, bound);
    }
  }

  // ----- Every run -----

  ghost predicate Invariant(p: Plan, s: State) {
    && Layerable(p) && PlaceInv(p, s) && WorkInv(p, s) && EarlierInv(p, s)
    && SlotInv(p, s) && CountInv(p, s)
    && CallsInv(s) && HeldInv(s) && CalledOnce(s.calls) && DependenciesReturnFirst(p, s.calls)
    && OldestFirstUntil(s.refusals, s.now)
  }

  /** The refusal log stays in time order, none of it in the future. */
  lemma TimeOrderPreserved(p: Plan, s: State, step: Step)
    requires Enabled(p, s, step) && OldestFirstUntil(s.refusals, s.now)
    ensures OldestFirstUntil(Next(p, s, step).refusals, Next(p, s, step).now)
  {
    match step
    case CheckRefusals(o) => PruningKeepsOrder(s.refusals, StepOf(p, o).key, s.now);
    case Note(o) => NotingKeepsOrder(s.refusals, StepOf(p, o).key, s.work[o].outcome, s.now);
    case Tick(elapsed) => LaterIsNoSooner(s.refusals, s.now, s.now + elapsed);
    case _ =>
  }

  lemma LaterIsNoSooner(log: Log, now: Time, later: Time)
    requires OldestFirstUntil(log, now) && now <= later
    ensures OldestFirstUntil(log, later)
  {
    forall key ensures OldestFirst(TimesOf(log, key)) && NoneAfter(TimesOf(log, key), later) {
      assert NoneAfter(TimesOf(log, key), now);
    }
  }

  lemma Preserved(p: Plan, s: State, step: Step)
    requires Invariant(p, s) && Enabled(p, s, step)
    ensures Invariant(p, Next(p, s, step))
  {
    var t := Next(p, s, step);
    PlacePreserved(p, s, step);
    WorkPreserved(p, s, step);
    EarlierPreserved(p, s, step);
    SlotsPreserved(p, s, step);
    CountPreserved(p, s, step);
    forall o ensures CallsAgree(t, o) { CallsPreserved(p, s, step, o); }
    forall o ensures HeldAgrees(t, o) { HeldPreserved(p, s, step, o); }
    OncePreserved(p, s, step);
    TimeOrderPreserved(p, s, step);
    forall i: nat, d ensures CallWaits(p, t.calls, i, d) { OrderPreserved(p, s, step, i, d); }
  }

  lemma {:induction false} InvariantHolds(p: Plan, run: seq<State>)
    requires Run(p, run)
    ensures Invariant(p, run[|run| - 1])
    decreases |run|
  {
    if |run| == 1 {
      var s := run[0];
      assert Holders(s) == {} && Ahead(s) == {};
    } else {
      FrontIsRun(p, run);
      InvariantHolds(p, run[..|run| - 1]);
      var s := run[|run| - 2];
      var step :| Enabled(p, s, step) && run[|run| - 1] == Next(p, s, step);
      Preserved(p, s, step);
    }
  }

  lemma FrontIsRun(p: Plan, run: seq<State>)
    requires Run(p, run) && |run| > 1
    ensures Run(p, run[..|run| - 1])
    ensures Follows(p, run[|run| - 2], run[|run| - 1])
  {
    var i := |run| - 2;
    assert Follows(p, run[i], run[i + 1]);
  }

  lemma CallsArePermitted(p: Plan, s: State, o: int)
    requires Invariant(p, s) && Started(o) in s.calls
    ensures !AboveCap(p, StepOf(p, o)) && o in Orders(p.steps)
  {
    assert CallsAgree(s, o);
    var k := LayerOfWork(p, s, o);
    var g := GraphOf(p.steps);
    assert Lists(p.layers[k], Peel(g, {})[k]);
    PeelByLayer(g, {}, k);
    assert o in Peel(g, {})[k];
    GraphKeys(p.steps);
  }

  /** What the plan's budget says of calls made, of calls under way, and of who may be called. */
  ghost predicate KeepsBudget(p: Plan, s: State) {
    && CallsMade(s.calls) <= (if p.budget.maxFaultsPerCycle > 0 then p.budget.maxFaultsPerCycle else |p.steps|)
    && |InFlight(s)| <= (if p.budget.maxConcurrentFaults > 0 then p.budget.maxConcurrentFaults else 1)
    && (forall o :: Started(o) in s.calls ==> o in Orders(p.steps))
    && (forall t :: t in p.steps && Started(t.order) in s.calls && p.budget.maxSeverityPerCycle != "" ==>
          WithinSeverity(t.tier, p.budget.maxSeverityPerCycle))
  }

  /** What every run of a plan keeps to. */
  lemma PlanRunsWithinBounds(p: Plan, run: seq<State>)
    requires Run(p, run)
    ensures
      var s := run[|run| - 1];
      DependenciesReturnFirst(p, s.calls) && CalledOnce(s.calls) && KeepsBudget(p, s)
  {
    InvariantHolds(p, run);
    BudgetIsKept(p, run[|run| - 1]);
  }

  lemma BudgetIsKept(p: Plan, s: State)
    requires Invariant(p, s)
    ensures KeepsBudget(p, s)
  {
    InFlightHoldSlots(s);
    SubsetIsNoLarger(InFlight(s), Holders(s));
    forall o | Started(o) in s.calls ensures !AboveCap(p, StepOf(p, o)) && o in Orders(p.steps) {
      CallsArePermitted(p, s, o);
    }
    forall t | t in p.steps && Started(t.order) in s.calls && p.budget.maxSeverityPerCycle != ""
      ensures WithinSeverity(t.tier, p.budget.maxSeverityPerCycle)
    {
      StepIsFound(p, t);
      AboveIsNotWithin(p, t);
    }
  }

  /**
   * While a plan runs, no step gathers more refusals within an hour than one below the limit
   * plus one for every call that may be under way at once, unless it started with more.
   */
  lemma {:induction false} RefusalsStayBounded(p: Plan, run: seq<State>, bound: nat)
    requires Run(p, run) && bound >= REPEATED_REFUSAL_LIMIT - 1 + MaxConcurrent(p)
    requires forall key :: key != "" ==> InWindow(run[0].refusals, key, run[0].now) <= bound
    ensures WindowInv(p, run[|run| - 1], bound)
    decreases |run|
  {
    if |run| == 1 {
      forall key ensures WindowBound(p, run[0], key, bound) {
        assert Pending(p, run[0], key) == {};
      }
    } else {
      FrontIsRun(p, run);
      RefusalsStayBounded(p, run[..|run| - 1], bound);
      InvariantHolds(p, run[..|run| - 1]);
      InvariantHolds(p, run);
      var s, t := run[|run| - 2], run[|run| - 1];
      var step :| Enabled(p, s, step) && t == Next(p, s, step);
      forall key ensures WindowBound(p, t, key, bound) {
        WindowPreserved(p, s, step, key, bound);
      }
    }
  }

  /** In every run a step about to be called is held back exactly when the last hour holds too many refusals of it. */
  lemma GuardCountsTheWindow(p: Plan, run: seq<State>, o: int)
    requires Run(p, run) && Enabled(p, run[|run| - 1], CheckRefusals(o))
    ensures
      var s := run[|run| - 1];
      var t := Next(p, s, CheckRefusals(o));
      && (forall x :: x in p.steps && x.order == o ==>
            (HeldBack(o) in t.calls <==>
               x.key != "" && CountSince(TimesOf(s.refusals, x.key), s.now - 3_600_000_000_000) >= 3))
      && t.work == s.work[o := if HeldBack(o) in t.calls then Leaving else Checked]
  {
    var s := run[|run| - 1];
    InvariantHolds(p, run);
    assert HeldAgrees(s, o);
    CheckDecides(p, s, o);
    forall x | x in p.steps && x.order == o ensures StepOf(p, o) == x { StepIsFound(p, x); }
  }

  /** In every run a step that is due waits for a slot exactly while as many are taken as the plan allows at once. */
  lemma StepsWaitOnlyForSlots(p: Plan, run: seq<State>)
    requires Run(p, run) && run[|run| - 1].place == WaitSlot
    ensures
      var s := run[|run| - 1];
      Enabled(p, s, Launch) <==>
        |Holders(s)| < if p.budget.maxConcurrentFaults > 0 then p.budget.maxConcurrentFaults else 1
  {
    InvariantHolds(p, run);
  }

  /** Until the plan is finished something other than the clock can always move. */
  lemma PlanNeverHangs(p: Plan, run: seq<State>) returns (step: Step)
    requires Run(p, run) && run[|run| - 1].place != Finished
    ensures !step.Tick? && Enabled(p, run[|run| - 1], step)
  {
    InvariantHolds(p, run);
    step := SomethingCanMove(p, run[|run| - 1]);
  }

  lemma SomethingCanMove(p: Plan, s: State) returns (step: Step)
    requires PlaceInv(p, s) && SlotInv(p, s) && s.place != Finished
    ensures !step.Tick? && Enabled(p, s, step)
  {
    match s.place
    case LayerHead => step := EnterLayer;
    case NextStep => step := TakeStep;
    case WaitSlot =>
      if s.held < MaxConcurrent(p) {
        step := Launch;
      } else {
        assert Holders(s) != {};
        var o := Pick(Holders(s));
        step := GoroutineCanMove(p, s, o);
      }
    case Barrier =>
      if o :| o in s.work && s.work[o] != Gone {
        step := GoroutineCanMove(p, s, o);
      } else {
        step := Join;
      }
  }

  lemma GoroutineCanMove(p: Plan, s: State, o: int) returns (step: Step)
    requires SlotInv(p, s) && o in s.work && s.work[o] != Gone
    ensures !step.Tick? && Enabled(p, s, step)
  {
    match s.work[o]
    case Launched => step := CheckRefusals(o);
    case Checked => step := Start(o);
    case Applying => step := Return(o, Ran);
    case Noting(_) => step := Note(o);
    case Leaving =>
      assert o in Holders(s);
      step := FreeSlot(o);
    case Signalling => step := Signal(o);
  }
}
