/**
 * How a plan's run ends (pkg/loop/loop.go): every run comes to an end, and at the end the cycle's budget went to
 * the permitted steps that come first, each of them answered by the executor or held back.
 */
module PlanCompletion {
  import opened Ordering
  import opened PlanGraph
  import opened Planner
  import opened PlanExecution

  // ----- Every run comes to an end -----

  /** How many steps a goroutine has before it. */
  function StepsLeft(w: Work): nat {
    match w
    case Launched => 6
    case Checked => 5
    case Applying => 4
    case Noting(_) => 3
    case Leaving => 2
    case Signalling => 1
    case Gone => 0
  }

  /** The goroutines with at least so many steps before them. */
  ghost function Behind(s: State, least: nat): set<int> {
    set o | o in s.work && StepsLeft(s.work[o]) >= least
  }

  ghost function GoroutineSteps(s: State, most: nat): nat {
    if most == 0 then 0 else GoroutineSteps(s, most - 1) + |Behind(s, most)|
  }

  function AtMost(n: nat, most: nat): nat {
    if n <= most then n else most
  }

  lemma {:induction false} GoroutineMoves(s: State, t: State, o: int, w: Work, most: nat)
    requires t.work == s.work[o := w]
    ensures GoroutineSteps(t, most) == GoroutineSteps(s, most)
      + AtMost(StepsLeft(w), most) - if o in s.work then AtMost(StepsLeft(s.work[o]), most) else 0
  {
    if most > 0 {
      GoroutineMoves(s, t, o, w, most - 1);
      OneMoves(Behind(s, most), Behind(t, most), o);
    }
  }

  lemma {:induction false} SameGoroutines(s: State, t: State, most: nat)
    requires t.work == s.work
    ensures GoroutineSteps(t, most) == GoroutineSteps(s, most)
  {
    if most > 0 {
      SameGoroutines(s, t, most - 1);
      assert Behind(t, most) == Behind(s, most);
    }
  }

  /** At most how many steps are before a loop that stands at the head of a layer, its goroutines' included. */
  ghost function FromHead(layers: seq<seq<int>>, layer: nat): (n: nat)
    ensures n > 0
    decreases |layers| - layer
  {
    if layer >= |layers| then 1 else FromHead(layers, layer + 1) + 8 * |layers[layer]| + 3
  }

  ghost function LoopSteps(p: Plan, s: State): nat
    requires PlaceInv(p, s)
  {
    match s.place
    case LayerHead => FromHead(p.layers, s.layer)
    case NextStep => FromHead(p.layers, s.layer + 1) + 8 * (|p.layers[s.layer]| - s.pos) + 2
    case WaitSlot => FromHead(p.layers, s.layer + 1) + 8 * (|p.layers[s.layer]| - s.pos) + 1
    case Barrier => FromHead(p.layers, s.layer + 1) + 1
    case Finished => 0
  }

  /** At most how many steps other than the clock's a run still has before it. */
  ghost function StepBudget(p: Plan, s: State): nat
    requires PlaceInv(p, s)
  {
    LoopSteps(p, s) + GoroutineSteps(s, 6)
  }

  lemma GoroutineSpends(p: Plan, s: State, step: Step)
    requires PlaceInv(p, s) && Enabled(p, s, step) && OfGoroutine(step) && PlaceInv(p, Next(p, s, step))
    ensures StepBudget(p, Next(p, s, step)) < StepBudget(p, s)
  {
    var t := Next(p, s, step);
    var w := GoroutineStep(p, s, step);
    assert w == t.work[step.order];
    GoroutineMoves(s, t, step.order, w, 6);
  }

  lemma LoopSpends(p: Plan, s: State, step: Step)
    requires PlaceInv(p, s) && Enabled(p, s, step) && PlaceInv(p, Next(p, s, step))
    requires step.EnterLayer? || step.TakeStep? || step.Join?
    ensures StepBudget(p, Next(p, s, step)) < StepBudget(p, s)
  {
    SameGoroutines(s, Next(p, s, step), 6);
  }

  lemma LaunchSpends(p: Plan, s: State, t: State, o: int)
    requires PlaceInv(p, s) && PlaceInv(p, t) && AtStep(p, s) && o !in s.work
    requires s.place == WaitSlot && t.place == NextStep && t.layer == s.layer && t.pos == s.pos + 1
    requires t.work == s.work[o := Launched]
    ensures StepBudget(p, t) < StepBudget(p, s)
  {
    GoroutineMoves(s, t, o, Launched, 6);
  }

  /** Every step but the clock's brings the end nearer. */
  lemma StepSpends(p: Plan, s: State, step: Step)
    requires Layerable(p) && PlaceInv(p, s) && WorkInv(p, s) && Enabled(p, s, step)
    ensures PlaceInv(p, Next(p, s, step))
    ensures StepBudget(p, Next(p, s, step)) + (if step.Tick? then 0 else 1) <= StepBudget(p, s)
  {
    PlacePreserved(p, s, step);
    if OfGoroutine(step) {
      GoroutineSpends(p, s, step);
    } else if step.Launch? {
      LaunchedIsNew(p, s);
      LaunchSpends(p, s, Next(p, s, step), p.layers[s.layer][s.pos]);
    } else if step.Tick? {
      SameGoroutines(s, Next(p, s, step), 6);
    } else {
      LoopSpends(p, s, step);
    }
  }

  /** How often a run changes something other than the clock. */
  ghost function Moves(run: seq<State>): nat {
    if |run| <= 1 then 0
    else
      var s, t := run[|run| - 2], run[|run| - 1];
      Moves(run[..|run| - 1]) + if t == s.(now := t.now) then 0 else 1
  }

  lemma {:induction false} MovesAreBudgeted(p: Plan, run: seq<State>)
    requires Run(p, run)
    ensures PlaceInv(p, run[0]) && PlaceInv(p, run[|run| - 1])
    ensures StepBudget(p, run[|run| - 1]) + Moves(run) <= StepBudget(p, run[0])
    decreases |run|
  {
    if |run| > 1 {
      FrontIsRun(p, run);
      var front := run[..|run| - 1];
      MovesAreBudgeted(p, front);
      InvariantHolds(p, front);
      MoveSpends(p, run[|run| - 2], run[|run| - 1]);
    }
  }

  lemma MoveSpends(p: Plan, s: State, t: State)
    requires Layerable(p) && PlaceInv(p, s) && WorkInv(p, s) && Follows(p, s, t)
    ensures PlaceInv(p, t)
    ensures StepBudget(p, t) + (if t == s.(now := t.now) then 0 else 1) <= StepBudget(p, s)
  {
    var step :| Enabled(p, s, step) && t == Next(p, s, step);
    StepSpends(p, s, step);
  }

  lemma {:induction false} BudgetOfLayers(layers: seq<seq<int>>, k: nat)
    requires k <= |layers|
    ensures FromHead(layers, k) + 8 * |Concatenated(layers[..k])| + 3 * k
      == 8 * |Concatenated(layers)| + 3 * |layers| + 1
    decreases |layers| - k
  {
    if k == |layers| {
      assert layers[..k] == layers;
    } else {
      BudgetOfLayers(layers, k + 1);
      assert layers[..k + 1][..k] == layers[..k];
    }
  }

  /**
   * Every run of a plan ends: apart from the clock it takes at most eight steps for each of the plan's steps,
   * three for each layer, and one.
   */
  lemma EveryPlanEnds(p: Plan, run: seq<State>)
    requires Run(p, run)
    ensures Moves(run) <= 8 * |p.steps| + 3 * |p.layers| + 1
  {
    MovesAreBudgeted(p, run);
    BudgetOfLayers(p.layers, 0);
    LayersPermuteTheSteps(p.steps, p.layers);
    assert |multiset(Concatenated(p.layers))| == |Concatenated(p.layers)|;
    assert |multiset(Orders(p.steps))| == |p.steps|;
    NobodyAtStart(run[0], 6);
  }

  lemma {:induction false} NobodyAtStart(s: State, most: nat)
    requires s.work == map[]
    ensures GoroutineSteps(s, most) == 0
  {
    if most > 0 {
      NobodyAtStart(s, most - 1);
      assert Behind(s, most) == {};
    }
  }

  // ----- Who gets the cycle's budget -----

  /** The steps whose tier the plan's budget allows. */
  function Permitted(p: Plan, orders: seq<int>): seq<int> {
    if orders == [] then []
    else
      var o := orders[|orders| - 1];
      Permitted(p, orders[..|orders| - 1]) + if AboveCap(p, StepOf(p, o)) then [] else [o]
  }

  /** Those of them the cycle's budget reaches. */
  function Share(p: Plan, orders: seq<int>): seq<int> {
    var permitted := Permitted(p, orders);
    permitted[..AtMost(|permitted|, MaxCycle(p))]
  }

  /** The steps the loop came past, in its order. */
  ghost function Seen(p: Plan, s: State): seq<int>
    requires PlaceInv(p, s)
  {
    Concatenated(p.layers[..s.layer]) + if Inside(s.place) then p.layers[s.layer][..s.pos] else []
  }

  ghost predicate ShareInv(p: Plan, s: State)
    requires PlaceInv(p, s)
  {
    && s.work.Keys == Members(Share(p, Seen(p, s)))
    && s.scheduled == |Share(p, Seen(p, s))| + (if s.place == WaitSlot then 1 else 0)
    && s.scheduled <= MaxCycle(p)
    && (s.place == Finished ==> s.layer == |p.layers| || s.scheduled == MaxCycle(p))
  }

  lemma PermittedSnoc(p: Plan, orders: seq<int>, o: int)
    ensures Permitted(p, orders + [o]) == Permitted(p, orders) + if AboveCap(p, StepOf(p, o)) then [] else [o]
  {
    assert (orders + [o])[..|orders|] == orders;
  }

  lemma MembersSnoc(xs: seq<int>, x: int)
    ensures Members(xs + [x]) == Members(xs) + {x}
  {
    assert (xs + [x])[|xs|] == x;
    forall y | y in Members(xs) + {x} ensures y in xs + [x] { }
  }

  lemma ShareOfSkip(p: Plan, orders: seq<int>, o: int)
    requires AboveCap(p, StepOf(p, o)) || |Share(p, orders)| == MaxCycle(p)
    ensures Share(p, orders + [o]) == Share(p, orders)
  {
    PermittedSnoc(p, orders, o);
  }

  lemma ShareOfLaunch(p: Plan, orders: seq<int>, o: int)
    requires !AboveCap(p, StepOf(p, o)) && |Share(p, orders)| < MaxCycle(p)
    ensures Share(p, orders + [o]) == Share(p, orders) + [o]
  {
    PermittedSnoc(p, orders, o);
  }

  lemma SeenSnoc(p: Plan, s: State, t: State)
    requires PlaceInv(p, s) && PlaceInv(p, t) && AtStep(p, s) && Inside(s.place) && Inside(t.place)
    requires t.layer == s.layer && t.pos == s.pos + 1
    ensures Seen(p, t) == Seen(p, s) + [p.layers[s.layer][s.pos]]
  {
    assert p.layers[s.layer][..s.pos + 1] == p.layers[s.layer][..s.pos] + [p.layers[s.layer][s.pos]];
  }

  lemma SeenJoin(p: Plan, s: State)
    requires PlaceInv(p, s) && Enabled(p, s, Join) && PlaceInv(p, Next(p, s, Join))
    ensures Seen(p, Next(p, s, Join)) == Seen(p, s)
  {
    assert p.layers[..s.layer + 1][..s.layer] == p.layers[..s.layer];
    assert p.layers[s.layer][..s.pos] == p.layers[s.layer];
  }

  lemma ShareOfTake(p: Plan, s: State)
    requires PlaceInv(p, s) && ShareInv(p, s) && Enabled(p, s, TakeStep) && PlaceInv(p, Next(p, s, TakeStep))
    ensures ShareInv(p, Next(p, s, TakeStep))
  {
    var t := Next(p, s, TakeStep);
    if AtStep(p, s) && t.place == NextStep {
      SeenSnoc(p, s, t);
      ShareOfSkip(p, Seen(p, s), p.layers[s.layer][s.pos]);
    } else {
      assert Seen(p, t) == Seen(p, s);
    }
  }

  lemma ShareAfterLaunch(p: Plan, s: State)
    requires PlaceInv(p, s) && ShareInv(p, s) && Enabled(p, s, Launch) && PlaceInv(p, Next(p, s, Launch))
    ensures ShareInv(p, Next(p, s, Launch))
  {
    var t := Next(p, s, Launch);
    var o := p.layers[s.layer][s.pos];
    SeenSnoc(p, s, t);
    ShareOfLaunch(p, Seen(p, s), o);
    MembersSnoc(Share(p, Seen(p, s)), o);
    assert t.work.Keys == s.work.Keys + {o};
  }

  lemma ShareAfterOther(p: Plan, s: State, t: State)
    requires PlaceInv(p, s) && PlaceInv(p, t) && ShareInv(p, s) && SameLoop(s, t) && t.work.Keys == s.work.Keys
    ensures ShareInv(p, t)
  {
    assert Seen(p, t) == Seen(p, s);
  }

  lemma SharePreserved(p: Plan, s: State, step: Step)
    requires PlaceInv(p, s) && ShareInv(p, s) && Enabled(p, s, step) && PlaceInv(p, Next(p, s, step))
    ensures ShareInv(p, Next(p, s, step))
  {
    var t := Next(p, s, step);
    if OfGoroutine(step) {
      var w := GoroutineStep(p, s, step);
      assert t.work.Keys == s.work.Keys;
      ShareAfterOther(p, s, t);
    } else {
      match step
      case Tick(_) => ShareAfterOther(p, s, t);
      case EnterLayer => assert Seen(p, t) == Seen(p, s);
      case TakeStep => ShareOfTake(p, s);
      case Launch => ShareAfterLaunch(p, s);
      case Join => SeenJoin(p, s);
    }
  }

  lemma {:induction false} ShareHolds(p: Plan, run: seq<State>)
    requires Run(p, run)
    ensures PlaceInv(p, run[|run| - 1]) && ShareInv(p, run[|run| - 1])
    decreases |run|
  {
    InvariantHolds(p, run);
    if |run| == 1 {
      assert Seen(p, run[0]) == [];
    } else {
      FrontIsRun(p, run);
      ShareHolds(p, run[..|run| - 1]);
      var s := run[|run| - 2];
      var step :| Enabled(p, s, step) && run[|run| - 1] == Next(p, s, step);
      SharePreserved(p, s, step);
    }
  }

  lemma {:induction false} LayersSplit(layers: seq<seq<int>>, k: nat)
    requires k <= |layers|
    ensures Concatenated(layers[..k]) <= Concatenated(layers)
    decreases |layers| - k
  {
    if k == |layers| {
      assert layers[..k] == layers;
    } else {
      LayersSplit(layers, k + 1);
      assert layers[..k + 1][..k] == layers[..k];
    }
  }

  lemma {:induction false} PermittedPrefix(p: Plan, front: seq<int>, all: seq<int>)
    requires front <= all
    ensures Permitted(p, front) <= Permitted(p, all)
    decreases |all|
  {
    if |front| < |all| {
      PermittedPrefix(p, front, all[..|all| - 1]);
    } else {
      assert front == all;
    }
  }

  /** Nobody is left at work, and whoever was submitted was answered or held back, one or the other. */
  lemma EverybodyIsDone(p: Plan, s: State, o: int)
    requires Invariant(p, s) && s.place == Finished && o in s.work
    ensures s.work[o] == Gone && (Returned(o) in s.calls <==> HeldBack(o) !in s.calls)
  {
    assert Passed(p, false, s.layer, s.pos, o);
    assert CallsAgree(s, o) && HeldAgrees(s, o);
  }

  lemma FullShareStays(p: Plan, front: seq<int>, all: seq<int>)
    requires Permitted(p, front) <= Permitted(p, all) && |Share(p, front)| == MaxCycle(p)
    ensures Share(p, front) == Share(p, all)
  {
  }

  /** The budget of a finished plan went where it would have gone had the loop come past every step. */
  lemma ShareAtTheEnd(p: Plan, s: State)
    requires PlaceInv(p, s) && ShareInv(p, s) && s.place == Finished
    ensures Share(p, Seen(p, s)) == Share(p, Concatenated(p.layers))
  {
    assert Seen(p, s) == Concatenated(p.layers[..s.layer]);
    if s.layer == |p.layers| {
      assert p.layers[..s.layer] == p.layers;
    } else {
      LayersSplit(p.layers, s.layer);
      PermittedPrefix(p, Seen(p, s), Concatenated(p.layers));
      FullShareStays(p, Seen(p, s), Concatenated(p.layers));
    }
  }

  lemma {:induction false} PermittedMembers(p: Plan, orders: seq<int>, o: int)
    ensures o in Permitted(p, orders) <==> o in orders && !AboveCap(p, StepOf(p, o))
  {
    if orders != [] {
      PermittedMembers(p, orders[..|orders| - 1], o);
      assert orders == orders[..|orders| - 1] + [orders[|orders| - 1]];
    }
  }

  /** Of the plan's steps those were submitted that the severity cap allows, the cycle's budget permitting. */
  ghost predicate SubmittedWithin(p: Plan, s: State, t: PlanStep) {
    var cap := p.budget.maxSeverityPerCycle;
    var room := s.scheduled < if p.budget.maxFaultsPerCycle > 0 then p.budget.maxFaultsPerCycle else |p.steps|;
    && (t.order in s.work ==> cap == "" || WithinSeverity(t.tier, cap))
    && (t.order !in s.work && room ==> cap != "" && !WithinSeverity(t.tier, cap))
  }

  lemma WhoWasSubmitted(p: Plan, s: State, t: PlanStep)
    requires Layerable(p) && t in p.steps
    requires
      var due := Share(p, Concatenated(p.layers));
      s.work.Keys == Members(due) && s.scheduled == |due|
    ensures SubmittedWithin(p, s, t)
  {
    var all := Concatenated(p.layers);
    LayersPermuteTheSteps(p.steps, p.layers);
    OrderMembers(p.steps, t.order);
    assert t.order in multiset(Orders(p.steps)) && t.order in multiset(all);
    PermittedMembers(p, all, t.order);
    StepIsFound(p, t);
    AboveIsNotWithin(p, t);
    assert t.order in s.work <==> t.order in Share(p, all);
    assert |Share(p, all)| < MaxCycle(p) ==> Share(p, all) == Permitted(p, all);
  }

  /**
   * What a finished plan leaves behind: submitted were the first permitted steps in the order of the layers, as many
   * as the cycle's budget allows, and each of them was either answered by the executor or held back. A step was passed
   * over because its tier or the cap is unknown, because its tier is the wider, or because the budget was spent.
   */
  lemma FinishedPlans(p: Plan, run: seq<State>)
    requires Run(p, run) && run[|run| - 1].place == Finished
    ensures
      var s := run[|run| - 1];
      var due := Share(p, Concatenated(p.layers));
      && s.work.Keys == Members(due) && s.scheduled == |due|
      && (forall o :: o in due ==> s.work[o] == Gone && (Returned(o) in s.calls <==> HeldBack(o) !in s.calls))
      && (forall t :: t in p.steps ==> SubmittedWithin(p, s, t))
  {
    var s := run[|run| - 1];
    var all := Concatenated(p.layers);
    InvariantHolds(p, run);
    ShareHolds(p, run);
    ShareAtTheEnd(p, s);
    forall o | o in Share(p, all)
      ensures o in s.work && s.work[o] == Gone && (Returned(o) in s.calls <==> HeldBack(o) !in s.calls)
    {
      assert o in Members(Share(p, all));
      EverybodyIsDone(p, s, o);
    }
    forall t | t in p.steps ensures SubmittedWithin(p, s, t) { WhoWasSubmitted(p, s, t); }
  }
}
