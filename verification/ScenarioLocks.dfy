/**
 * The harness's lock protocol (pkg/harness/runner.go): every scenario takes a slot, then either the cluster's
 * read lock and its namespaces' locks one by one, or - naming no namespace - the write lock. The read-write lock
 * is the source language's: a waiting writer keeps new readers out, and readers it kept out are let in when it
 * unlocks.
 */
module ScenarioLocks {
  import opened Vocabulary
  import opened Ordering

  // ----- A scenario's namespaces -----

  ghost function TargetedBy(faults: seq<seq<TargetRef>>): set<string> {
    set f, t | f in faults && t in f && t.namespace != "" :: t.namespace
  }

  /** The distinct namespaces of a scenario's faults, sorted: what the lock order relies on. */
  method Namespaces(faults: seq<seq<TargetRef>>) returns (sorted: seq<string>)
    ensures Ascending(sorted, TextBefore) && forall ns :: ns in sorted <==> ns in TargetedBy(faults)
  {
    var out: seq<string> := [];
    for i := 0 to |faults|
      invariant forall x, y :: 0 <= x < y < |out| ==> out[x] != out[y]
      invariant forall ns :: ns in out <==> ns in TargetedBy(faults[..i])
    {
      out := AddTargets(out, faults[i]);
      assert faults[..i + 1] == faults[..i] + [faults[i]];
    }
    assert faults[..|faults|] == faults;
    sorted := Sort(out, Itself, TextBefore);
    TextIsTotal();
    SortOfDistinct(out, TextBefore);
  }

  method AddTargets(before: seq<string>, targets: seq<TargetRef>) returns (out: seq<string>)
    requires forall x, y :: 0 <= x < y < |before| ==> before[x] != before[y]
    ensures forall x, y :: 0 <= x < y < |out| ==> out[x] != out[y]
    ensures forall ns :: ns in out <==>
      ns in before || exists t :: t in targets && t.namespace != "" && t.namespace == ns
  {
    out := before;
    for j := 0 to |targets|
      invariant forall x, y :: 0 <= x < y < |out| ==> out[x] != out[y]
      invariant forall ns :: ns in out <==>
        (ns in before || exists t :: t in targets[..j] && t.namespace != "" && t.namespace == ns)
    {
      var ns := targets[j].namespace;
      assert targets[..j + 1] == targets[..j] + [targets[j]];
      if ns != "" && ns !in out { out := out + [ns]; }
    }
    assert targets[..|targets|] == targets;
  }

  // ----- The protocol -----

  datatype Config = Config(concurrency: int, namespaces: seq<seq<string>>) {
    function Width(): nat {
      if concurrency < 1 then 1 else concurrency
    }
    ghost predicate Valid() {
      forall i :: 0 <= i < |namespaces| ==> Ascending(namespaces[i], TextBefore)
    }
    predicate Names(i: nat)
      requires i < |namespaces|
    {
      namespaces[i] != []
    }
  }

  datatype Phase =
    | Waiting
    | Admitted
    | ReadBlocked
    | Locking(taken: nat)
    | WriteWaiting
    | Critical
    | Unlocking(left: nat)
    | Leaving
    | Done

  datatype State = State(phase: seq<Phase>, slots: nat, readers: nat, writer: Option<nat>, owner: map<string, nat>)

  datatype Step =
    | AcquireSlot(who: nat)
    | ReadLock(who: nat)
    | WriteAnnounce(who: nat)
    | WriteEnter(who: nat)
    | LockNamespace(who: nat)
    | Enter(who: nat)
    | Leave(who: nat)
    | UnlockNamespace(who: nat)
    | ReadUnlock(who: nat)
    | ReleaseSlot(who: nat)

  predicate Enabled(c: Config, s: State, step: Step) {
    var i := step.who;
    && |s.phase| == |c.namespaces| && i < |s.phase|
    && match step
       case AcquireSlot(_) => s.phase[i] == Waiting && s.slots < c.Width()
       case ReadLock(_) => s.phase[i] == Admitted && c.Names(i)
       case WriteAnnounce(_) => s.phase[i] == Admitted && !c.Names(i) && s.writer == None
       case WriteEnter(_) => s.phase[i] == WriteWaiting && s.readers == 0
       case LockNamespace(_) =>
         s.phase[i].Locking? && s.phase[i].taken < |c.namespaces[i]| && c.namespaces[i][s.phase[i].taken] !in s.owner
       case Enter(_) => s.phase[i] == Locking(|c.namespaces[i]|)
       case Leave(_) => s.phase[i] == Critical
       case UnlockNamespace(_) => s.phase[i].Unlocking? && 0 < s.phase[i].left <= |c.namespaces[i]|
       case ReadUnlock(_) => s.phase[i] == Unlocking(0) && s.readers > 0
       case ReleaseSlot(_) => s.phase[i] == Leaving && s.slots > 0
  }

  function Move(s: State, i: nat, p: Phase): State
    requires i < |s.phase|
  {
    s.(phase := s.phase[i := p])
  }

  ghost function Blocked(s: State): set<nat> {
    set i | 0 <= i < |s.phase| && s.phase[i] == ReadBlocked
  }

  /** The writer lets go: every reader it kept out is let in. */
  ghost function WriteUnlock(s: State, i: nat): State
    requires i < |s.phase|
  {
    s.(phase := seq(|s.phase|, j requires 0 <= j < |s.phase| =>
                  if j == i then Leaving else if s.phase[j] == ReadBlocked then Locking(0) else s.phase[j]),
       readers := s.readers + |Blocked(s)|,
       writer := None)
  }

  ghost function Next(c: Config, s: State, step: Step): State
    requires Enabled(c, s, step)
  {
    var i := step.who;
    match step
    case AcquireSlot(_) => Move(s, i, Admitted).(slots := s.slots + 1)
    case ReadLock(_) =>
      if s.writer.Some? then Move(s, i, ReadBlocked) else Move(s, i, Locking(0)).(readers := s.readers + 1)
    case WriteAnnounce(_) => Move(s, i, WriteWaiting).(writer := Some(i))
    case WriteEnter(_) => Move(s, i, Critical)
    case LockNamespace(_) =>
      Move(s, i, Locking(s.phase[i].taken + 1)).(owner := s.owner[c.namespaces[i][s.phase[i].taken] := i])
    case Enter(_) => Move(s, i, Critical)
    case Leave(_) => if c.Names(i) then Move(s, i, Unlocking(|c.namespaces[i]|)) else WriteUnlock(s, i)
    case UnlockNamespace(_) =>
      Move(s, i, Unlocking(s.phase[i].left - 1)).(owner := s.owner - {c.namespaces[i][s.phase[i].left - 1]})
    case ReadUnlock(_) => Move(s, i, Leaving).(readers := s.readers - 1)
    case ReleaseSlot(_) => Move(s, i, Done).(slots := s.slots - 1)
  }

  predicate Init(c: Config, s: State) {
    && |s.phase| == |c.namespaces|
    && (forall i :: 0 <= i < |s.phase| ==> s.phase[i] == Waiting)
    && s.slots == 0 && s.readers == 0 && s.writer == None && s.owner == map[]
  }

  ghost predicate Follows(c: Config, s: State, t: State) {
    exists step :: Enabled(c, s, step) && t == Next(c, s, step)
  }

  ghost predicate Run(c: Config, run: seq<State>) {
    run != [] && Init(c, run[0]) && forall i :: 0 <= i < |run| - 1 ==> Follows(c, run[i], run[i + 1])
  }

  // ----- What holds all along -----

  predicate Reads(names: bool, p: Phase) {
    p.Locking? || p.Unlocking? || (p.Critical? && names)
  }

  predicate Writes(names: bool, p: Phase) {
    p.WriteWaiting? || (p.Critical? && !names)
  }

  predicate HasSlot(p: Phase) {
    !p.Waiting? && !p.Done?
  }

  /** How many of its namespaces' locks a scenario holds. */
  function Held(p: Phase, all: nat): nat {
    match p
    case Locking(taken) => taken
    case Critical => all
    case Unlocking(left) => left
    case _ => 0
  }

  ghost predicate PhaseInv(c: Config, s: State) {
    && |s.phase| == |c.namespaces|
    && forall i :: 0 <= i < |s.phase| ==>
         && Held(s.phase[i], |c.namespaces[i]|) <= |c.namespaces[i]|
         && (s.phase[i].ReadBlocked? || s.phase[i].Locking? || s.phase[i].Unlocking? ==> c.Names(i))
         && (s.phase[i].WriteWaiting? ==> !c.Names(i))
  }

  ghost function SlotHolders(s: State): set<nat> {
    set i | 0 <= i < |s.phase| && HasSlot(s.phase[i])
  }

  ghost function Readers(c: Config, s: State): set<nat>
    requires |s.phase| == |c.namespaces|
  {
    set i | 0 <= i < |s.phase| && Reads(c.Names(i), s.phase[i])
  }

  ghost predicate SlotInv(c: Config, s: State) {
    s.slots == |SlotHolders(s)| && s.slots <= c.Width()
  }

  ghost predicate ReaderInv(c: Config, s: State) {
    |s.phase| == |c.namespaces| && s.readers == |Readers(c, s)|
  }

  ghost predicate WriterInv(c: Config, s: State) {
    && |s.phase| == |c.namespaces|
    && (forall i :: 0 <= i < |s.phase| && Writes(c.Names(i), s.phase[i]) ==> s.writer == Some(i))
    && (s.writer.Some? ==> s.writer.value < |s.phase| && Writes(c.Names(s.writer.value), s.phase[s.writer.value]))
    && (s.writer.Some? && s.phase[s.writer.value] == Critical ==> s.readers == 0)
    && (forall i :: 0 <= i < |s.phase| && s.phase[i] == ReadBlocked ==> s.writer.Some?)
  }

  /** A scenario owns exactly the first so many of its namespaces' locks. */
  ghost predicate Owns(c: Config, s: State, i: nat, k: nat) {
    i < |s.phase| == |c.namespaces| && k < |c.namespaces[i]| && k < Held(s.phase[i], |c.namespaces[i]|)
  }

  ghost predicate OwnerInv(c: Config, s: State) {
    && (forall i: nat, k: nat :: Owns(c, s, i, k) ==> c.namespaces[i][k] in s.owner && s.owner[c.namespaces[i][k]] == i)
    && (forall ns :: ns in s.owner ==>
      exists k: nat :: Owns(c, s, s.owner[ns], k) && c.namespaces[s.owner[ns]][k] == ns)
  }

  predicate UnlocksCluster(c: Config, s: State, step: Step)
    requires Enabled(c, s, step)
  {
    step.Leave? && !c.Names(step.who)
  }

  lemma PhasesPreserved(c: Config, s: State, step: Step)
    requires PhaseInv(c, s) && Enabled(c, s, step)
    ensures PhaseInv(c, Next(c, s, step))
  {
  }

  lemma SlotHoldersMove(s: State, i: nat, p: Phase)
    requires i < |s.phase|
    ensures |SlotHolders(Move(s, i, p))|
         == |SlotHolders(s)| + (if HasSlot(p) then 1 else 0) - (if HasSlot(s.phase[i]) then 1 else 0)
  {
    OneMoves(SlotHolders(s), SlotHolders(Move(s, i, p)), i);
  }

  lemma SlotsPreserved(c: Config, s: State, step: Step)
    requires SlotInv(c, s) && Enabled(c, s, step)
    ensures SlotInv(c, Next(c, s, step))
  {
    var t := Next(c, s, step);
    if UnlocksCluster(c, s, step) {
      assert SlotHolders(t) == SlotHolders(s);
    } else {
      var p := t.phase[step.who];
      SlotHoldersMove(s, step.who, p);
      assert SlotHolders(t) == SlotHolders(Move(s, step.who, p));
    }
  }

  lemma ReadersMove(c: Config, s: State, i: nat, p: Phase)
    requires i < |s.phase| == |c.namespaces|
    ensures |Readers(c, Move(s, i, p))|
         == |Readers(c, s)| + (if Reads(c.Names(i), p) then 1 else 0) - (if Reads(c.Names(i), s.phase[i]) then 1 else 0)
  {
    OneMoves(Readers(c, s), Readers(c, Move(s, i, p)), i);
  }

  lemma ReadersAtUnlock(c: Config, s: State, i: nat)
    requires i < |s.phase| == |c.namespaces| && s.phase[i] == Critical && !c.Names(i)
    ensures |Readers(c, WriteUnlock(s, i))| == |Readers(c, s)| + |Blocked(s)|
  {
    assert Readers(c, WriteUnlock(s, i)) == Readers(c, s) + Blocked(s);
    assert Readers(c, s) !! Blocked(s);
  }

  lemma ReadersPreserved(c: Config, s: State, step: Step)
    requires PhaseInv(c, s) && ReaderInv(c, s) && Enabled(c, s, step)
    ensures ReaderInv(c, Next(c, s, step))
  {
    var t := Next(c, s, step);
    if UnlocksCluster(c, s, step) {
      ReadersAtUnlock(c, s, step.who);
    } else {
      var p := t.phase[step.who];
      ReadersMove(c, s, step.who, p);
      assert Readers(c, t) == Readers(c, Move(s, step.who, p));
    }
  }

  lemma WriterPreserved(c: Config, s: State, step: Step)
    requires PhaseInv(c, s) && WriterInv(c, s) && Enabled(c, s, step)
    ensures WriterInv(c, Next(c, s, step))
  {
  }

  /** Steps that neither take nor give back a namespace lock leave everybody's holdings as they are. */
  lemma HoldingsKept(c: Config, s: State, step: Step)
    requires PhaseInv(c, s) && Enabled(c, s, step) && !step.LockNamespace? && !step.UnlockNamespace?
    ensures Next(c, s, step).owner == s.owner && |Next(c, s, step).phase| == |s.phase|
    ensures forall j :: 0 <= j < |s.phase| ==>
      Held(Next(c, s, step).phase[j], |c.namespaces[j]|) == Held(s.phase[j], |c.namespaces[j]|)
  {
  }

  lemma OwnersAfterLock(c: Config, s: State, i: nat)
    requires PhaseInv(c, s) && OwnerInv(c, s) && Enabled(c, s, LockNamespace(i))
    ensures OwnerInv(c, Next(c, s, LockNamespace(i)))
  {
    var t, n := Next(c, s, LockNamespace(i)), s.phase[i].taken;
    forall j: nat, k: nat | Owns(c, t, j, k) ensures c.namespaces[j][k] in t.owner && t.owner[c.namespaces[j][k]] == j {
      if j != i || k != n { assert Owns(c, s, j, k); }
    }
    forall ns | ns in t.owner
      ensures exists k: nat :: Owns(c, t, t.owner[ns], k) && c.namespaces[t.owner[ns]][k] == ns
    {
      if ns == c.namespaces[i][n] {
        assert Owns(c, t, i, n);
      } else {
        var k: nat :| Owns(c, s, s.owner[ns], k) && c.namespaces[s.owner[ns]][k] == ns;
        assert Owns(c, t, t.owner[ns], k);
      }
    }
  }

  lemma NamespacesDiffer(c: Config, i: nat, j: nat, k: nat)
    requires c.Valid() && i < |c.namespaces| && j < k < |c.namespaces[i]|
    ensures TextBefore(c.namespaces[i][j], c.namespaces[i][k])
    ensures c.namespaces[i][j] != c.namespaces[i][k]
  {
    TextIsTotal();
  }

  /** What giving back the last lock held does to the state. */
  ghost predicate Unlocks(c: Config, s: State, t: State, i: nat) {
    && |s.phase| == |c.namespaces| == |t.phase| && i < |s.phase|
    && s.phase[i].Unlocking? && 0 < s.phase[i].left <= |c.namespaces[i]|
    && t.phase == s.phase[i := Unlocking(s.phase[i].left - 1)]
    && t.owner == s.owner - {c.namespaces[i][s.phase[i].left - 1]}
  }

  lemma HoldingsAfterUnlock(c: Config, s: State, t: State, i: nat, j: nat, k: nat)
    requires Unlocks(c, s, t, i)
    ensures Owns(c, t, j, k) <==> Owns(c, s, j, k) && (j != i || k != s.phase[i].left - 1)
  {
  }

  lemma OwnedAfterUnlock(c: Config, s: State, t: State, i: nat, j: nat, k: nat)
    requires c.Valid() && OwnerInv(c, s) && Unlocks(c, s, t, i) && Owns(c, t, j, k)
    ensures c.namespaces[j][k] in t.owner && t.owner[c.namespaces[j][k]] == j
  {
    var n := s.phase[i].left - 1;
    HoldingsAfterUnlock(c, s, t, i, j, k);
    assert Owns(c, s, i, n) && Owns(c, s, j, k);
    if j == i { NamespacesDiffer(c, i, k, n); }
  }

  lemma OwnerAfterUnlock(c: Config, s: State, t: State, i: nat, ns: string)
    requires OwnerInv(c, s) && Unlocks(c, s, t, i) && ns in t.owner
    ensures exists k: nat :: Owns(c, t, t.owner[ns], k) && c.namespaces[t.owner[ns]][k] == ns
  {
    var k: nat :| Owns(c, s, s.owner[ns], k) && c.namespaces[s.owner[ns]][k] == ns;
    HoldingsAfterUnlock(c, s, t, i, s.owner[ns], k);
  }

  lemma OwnersAfterUnlock(c: Config, s: State, t: State, i: nat)
    requires c.Valid() && OwnerInv(c, s) && Unlocks(c, s, t, i)
    ensures OwnerInv(c, t)
  {
    forall j: nat, k: nat | Owns(c, t, j, k) ensures c.namespaces[j][k] in t.owner && t.owner[c.namespaces[j][k]] == j {
      OwnedAfterUnlock(c, s, t, i, j, k);
    }
    forall ns | ns in t.owner
      ensures exists k: nat :: Owns(c, t, t.owner[ns], k) && c.namespaces[t.owner[ns]][k] == ns
    {
      OwnerAfterUnlock(c, s, t, i, ns);
    }
  }

  lemma OwnersPreserved(c: Config, s: State, step: Step)
    requires c.Valid() && PhaseInv(c, s) && OwnerInv(c, s) && Enabled(c, s, step)
    ensures OwnerInv(c, Next(c, s, step))
  {
    if step.LockNamespace? {
      OwnersAfterLock(c, s, step.who);
    } else if step.UnlockNamespace? {
      OwnersAfterUnlock(c, s, Next(c, s, step), step.who);
    } else {
      HoldingsKept(c, s, step);
      SameOwners(c, s, Next(c, s, step));
    }
  }

  lemma SameOwners(c: Config, s: State, t: State)
    requires OwnerInv(c, s) && t.owner == s.owner && |t.phase| == |s.phase| == |c.namespaces|
    requires forall j :: 0 <= j < |s.phase| ==>
      Held(t.phase[j], |c.namespaces[j]|) == Held(s.phase[j], |c.namespaces[j]|)
    ensures OwnerInv(c, t)
  {
    forall j: nat, k: nat ensures Owns(c, t, j, k) <==> Owns(c, s, j, k) {}
  }

  ghost predicate Invariant(c: Config, s: State) {
    PhaseInv(c, s) && SlotInv(c, s) && ReaderInv(c, s) && WriterInv(c, s) && OwnerInv(c, s)
  }

  lemma {:induction false} InvariantHolds(c: Config, run: seq<State>)
    requires c.Valid() && Run(c, run)
    ensures Invariant(c, run[|run| - 1])
    decreases |run|
  {
    if |run| == 1 {
      assert SlotHolders(run[0]) == {} && Readers(c, run[0]) == {};
    } else {
      var s, t := run[|run| - 2], run[|run| - 1];
      assert Follows(c, run[|run| - 2], run[|run| - 2 + 1]);
      InvariantHolds(c, run[..|run| - 1]);
      var step :| Enabled(c, s, step) && t == Next(c, s, step);
      PhasesPreserved(c, s, step);
      SlotsPreserved(c, s, step);
      ReadersPreserved(c, s, step);
      WriterPreserved(c, s, step);
      OwnersPreserved(c, s, step);
    }
  }

  // ----- Exclusion -----

  predicate IsInside(s: State, i: nat) {
    i < |s.phase| && s.phase[i] == Critical
  }

  /**
   * Two scenarios inside their critical section share no namespace, and one without a namespace is there alone.
   */
  lemma ScenariosAreFenced(c: Config, run: seq<State>, i: nat, j: nat)
    requires c.Valid() && Run(c, run) && i < |c.namespaces| && j < |c.namespaces| && i != j
    requires IsInside(run[|run| - 1], i) && IsInside(run[|run| - 1], j)
    ensures c.Names(i) && c.Names(j)
    ensures forall ns :: ns in c.namespaces[i] ==> ns !in c.namespaces[j]
  {
    var s := run[|run| - 1];
    InvariantHolds(c, run);
    if !c.Names(i) { WriterIsAlone(c, s, i, j); }
    if !c.Names(j) { WriterIsAlone(c, s, j, i); }
    forall ns | ns in c.namespaces[i] ensures ns !in c.namespaces[j] {
      InsideOwnsAll(c, s, i, ns);
      if ns in c.namespaces[j] { InsideOwnsAll(c, s, j, ns); }
    }
  }

  /**
   * At any time at most as many scenarios are under way as were asked for, and at least one may be; one that waits may
   * start exactly while there are fewer.
   */
  lemma NoMoreThanAsked(c: Config, run: seq<State>, i: nat)
    requires c.Valid() && Run(c, run) && i < |c.namespaces|
    ensures
      var s := run[|run| - 1];
      var most := if c.concurrency > 1 then c.concurrency else 1;
      && |SlotHolders(s)| <= most && i < |s.phase|
      && (Enabled(c, s, AcquireSlot(i)) <==> s.phase[i] == Waiting && |SlotHolders(s)| < most)
      && (IsInside(s, i) ==> i in SlotHolders(s))
  {
    InvariantHolds(c, run);
  }

  lemma InsideOwnsAll(c: Config, s: State, i: nat, ns: string)
    requires OwnerInv(c, s) && IsInside(s, i) && |s.phase| == |c.namespaces| && ns in c.namespaces[i]
    ensures ns in s.owner && s.owner[ns] == i
  {
    var k :| 0 <= k < |c.namespaces[i]| && c.namespaces[i][k] == ns;
    assert Owns(c, s, i, k);
  }

  lemma WriterIsAlone(c: Config, s: State, w: nat, j: nat)
    requires Invariant(c, s) && w < |s.phase| && j < |s.phase| && w != j
    requires s.phase[w] == Critical && !c.Names(w)
    ensures s.phase[j] != Critical
  {
    assert Writes(c.Names(w), s.phase[w]);
    assert s.writer == Some(w);
    assert Readers(c, s) == {};
    assert j !in Readers(c, s);
    assert Writes(c.Names(j), s.phase[j]) ==> s.writer == Some(j);
  }

  // ----- Nobody waits for ever -----

  /** The names that come after one: what a scenario waiting for it may still have to wait for. */
  ghost function Later(c: Config, ns: string): set<string> {
    set i, k | 0 <= i < |c.namespaces| && 0 <= k < |c.namespaces[i]| && TextBefore(ns, c.namespaces[i][k]) ::
      c.namespaces[i][k]
  }

  lemma LaterShrinks(c: Config, a: string, b: string)
    requires TextBefore(a, b) && b in Later(c, a)
    ensures Later(c, b) < Later(c, a)
  {
    TextIsTotal();
    assert b !in Later(c, b);
    assert Later(c, b) <= Later(c, a);
  }

  /** Whoever waits for a namespace waits, in the end, for somebody who can move: locks are taken in order. */
  lemma {:induction false} LockingCanMove(c: Config, s: State, i: nat) returns (step: Step)
    requires c.Valid() && Invariant(c, s) && i < |s.phase| && s.phase[i].Locking?
    ensures Enabled(c, s, step)
    decreases if s.phase[i].taken < |c.namespaces[i]| then Later(c, c.namespaces[i][s.phase[i].taken]) else {}, 1
  {
    var n := s.phase[i].taken;
    if n == |c.namespaces[i]| {
      step := Enter(i);
    } else if c.namespaces[i][n] !in s.owner {
      step := LockNamespace(i);
    } else {
      var ns := c.namespaces[i][n];
      var o := s.owner[ns];
      var k: nat :| Owns(c, s, o, k) && c.namespaces[o][k] == ns;
      step := OwnerCanMove(c, s, o, k);
    }
  }

  lemma {:induction false} OwnerCanMove(c: Config, s: State, o: nat, k: nat) returns (step: Step)
    requires c.Valid() && Invariant(c, s) && Owns(c, s, o, k)
    ensures Enabled(c, s, step)
    decreases Later(c, c.namespaces[o][k]), 0
  {
    match s.phase[o]
    case Critical => step := Leave(o);
    case Unlocking(_) => step := UnlockNamespace(o);
    case Locking(n) =>
      if n == |c.namespaces[o]| {
        step := Enter(o);
      } else {
        var awaited := c.namespaces[o][n];
        NamespacesDiffer(c, o, k, n);
        assert awaited in Later(c, c.namespaces[o][k]);
        LaterShrinks(c, c.namespaces[o][k], awaited);
        step := LockingCanMove(c, s, o);
      }
  }

  lemma ReaderCanMove(c: Config, s: State, i: nat) returns (step: Step)
    requires c.Valid() && Invariant(c, s) && i in Readers(c, s)
    ensures Enabled(c, s, step)
  {
    match s.phase[i]
    case Critical => step := Leave(i);
    case Unlocking(left) => step := if left > 0 then UnlockNamespace(i) else ReadUnlock(i);
    case Locking(_) => step := LockingCanMove(c, s, i);
  }

  lemma WriterCanMove(c: Config, s: State) returns (step: Step)
    requires c.Valid() && Invariant(c, s) && s.writer.Some?
    ensures Enabled(c, s, step)
  {
    var w := s.writer.value;
    if s.phase[w] == Critical {
      step := Leave(w);
    } else if s.readers == 0 {
      step := WriteEnter(w);
    } else {
      var i := Pick(Readers(c, s));
      step := ReaderCanMove(c, s, i);
    }
  }

  /** As long as a scenario is unfinished some scenario can move, also while a waiting writer keeps readers out. */
  lemma NoDeadlock(c: Config, run: seq<State>, i: nat) returns (step: Step)
    requires c.Valid() && Run(c, run) && i < |run[|run| - 1].phase| && run[|run| - 1].phase[i] != Done
    ensures Enabled(c, run[|run| - 1], step)
  {
    var s := run[|run| - 1];
    InvariantHolds(c, run);
    if s.writer.Some? {
      step := WriterCanMove(c, s);
    } else if s.phase[i] == Waiting {
      step := WaitingCanMove(c, s, i);
    } else {
      step := HolderCanMove(c, s, i);
    }
  }

  lemma HolderCanMove(c: Config, s: State, i: nat) returns (step: Step)
    requires c.Valid() && Invariant(c, s) && s.writer == None && i in SlotHolders(s)
    ensures Enabled(c, s, step)
  {
    match s.phase[i]
    case Admitted => step := if c.Names(i) then ReadLock(i) else WriteAnnounce(i);
    case Leaving => step := ReleaseSlot(i);
    case Critical => step := Leave(i);
    case Locking(_) => step := LockingCanMove(c, s, i);
    case Unlocking(_) => step := ReaderCanMove(c, s, i);
    case WriteWaiting => assert false;
    case ReadBlocked => assert false;
  }

  lemma WaitingCanMove(c: Config, s: State, i: nat) returns (step: Step)
    requires c.Valid() && Invariant(c, s) && s.writer == None && i < |s.phase| && s.phase[i] == Waiting
    ensures Enabled(c, s, step)
  {
    if s.slots < c.Width() {
      step := AcquireSlot(i);
    } else {
      var j := Pick(SlotHolders(s));
      step := HolderCanMove(c, s, j);
    }
  }

  // ----- And every run ends -----

  /** At most how many steps a scenario still has before it. */
  function Remaining(p: Phase, all: nat): nat {
    match p
    case Waiting => 2 * all + 8
    case Admitted => 2 * all + 7
    case ReadBlocked => 2 * all + 6
    case WriteWaiting => 2 * all + 6
    case Locking(taken) => if taken <= all then 2 * all + 5 - taken else 0
    case Critical => all + 4
    case Unlocking(left) => left + 3
    case Leaving => 1
    case Done => 0
  }

  ghost function Budget(c: Config, s: State, upto: nat): nat
    requires upto <= |s.phase| == |c.namespaces|
  {
    if upto == 0 then 0 else Budget(c, s, upto - 1) + Remaining(s.phase[upto - 1], |c.namespaces[upto - 1]|)
  }

  lemma NobodyGoesBack(c: Config, s: State, step: Step, j: nat)
    requires PhaseInv(c, s) && Enabled(c, s, step) && j < |s.phase|
    ensures |Next(c, s, step).phase| == |s.phase|
    ensures Remaining(Next(c, s, step).phase[j], |c.namespaces[j]|) <= Remaining(s.phase[j], |c.namespaces[j]|)
    ensures j == step.who ==>
      Remaining(Next(c, s, step).phase[j], |c.namespaces[j]|) < Remaining(s.phase[j], |c.namespaces[j]|)
  {
  }

  lemma {:induction false} BudgetShrinks(c: Config, s: State, step: Step, upto: nat)
    requires PhaseInv(c, s) && Enabled(c, s, step) && upto <= |s.phase|
    ensures |Next(c, s, step).phase| == |s.phase|
    ensures Budget(c, Next(c, s, step), upto) + (if step.who < upto then 1 else 0) <= Budget(c, s, upto)
  {
    NobodyGoesBack(c, s, step, step.who);
    if upto > 0 {
      BudgetShrinks(c, s, step, upto - 1);
      NobodyGoesBack(c, s, step, upto - 1);
    }
  }

  /** No run has more steps than the scenarios have between them, so, never stuck, every scenario gets done. */
  lemma {:induction false} EveryRunEnds(c: Config, run: seq<State>)
    requires c.Valid() && Run(c, run)
    ensures |run[|run| - 1].phase| == |c.namespaces|
    ensures Budget(c, run[|run| - 1], |c.namespaces|) + |run| - 1 <= Budget(c, run[0], |c.namespaces|)
    decreases |run|
  {
    if |run| > 1 {
      var s, t := run[|run| - 2], run[|run| - 1];
      assert Follows(c, run[|run| - 2], run[|run| - 2 + 1]);
      EveryRunEnds(c, run[..|run| - 1]);
      InvariantHolds(c, run[..|run| - 1]);
      var step :| Enabled(c, s, step) && t == Next(c, s, step);
      BudgetShrinks(c, s, step, |s.phase|);
    }
  }
}
