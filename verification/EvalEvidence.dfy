/** What an audit log proves about each scenario, and its join with the subject's runs (pkg/eval/artifact.go). */
module EvalEvidence {
  import opened Vocabulary
  import opened Ordering

  datatype EvalEvent =
    | ArenaLeaked
    | DriverApplied
    | DriverFailed
    | ExecutorRejected
    | FaultEfficacy(passed: bool)
    | FaultInjected(passed: bool)
    | OtherEvent(name: string)

  /** A line that parsed, names an event and a scenario; `ts` is the event's stamp, `time` the logger's. */
  datatype Line = Line(time: Time, ts: Time, event: EvalEvent, faultUID: string, scenarioID: string)

  function At(l: Line): Time {
    if l.ts != NEVER then l.ts else l.time
  }

  /** One fault's trail so far. Failure texts are never empty, so whether there is one is a flag. */
  datatype FaultFacts = FaultFacts(
    applied: bool, passedAt: Time, passes: nat, failed: bool, driverFailed: bool, rejected: bool)

  const NO_FACTS := FaultFacts(false, NEVER, 0, false, false, false)

  datatype Accum = Accum(faults: map<string, FaultFacts>, leaked: bool)

  const NO_LINES := Accum(map[], false)

  datatype ScenarioFacts = ScenarioFacts(
    scenarioID: string, manifested: bool, injectedAt: Time, injectFailed: bool, faults: seq<string>, leaked: bool)

  // ----- Folding lines -----

  function ApplyToFault(f: FaultFacts, l: Line): FaultFacts {
    match l.event
    case DriverApplied => f.(applied := true)
    case DriverFailed => f.(driverFailed := true)
    case ExecutorRejected => f.(rejected := true)
    case FaultEfficacy(passed) =>
      if passed then f.(passes := f.passes + 1, passedAt := if At(l) > f.passedAt then At(l) else f.passedAt)
      else f.(failed := true)
    case FaultInjected(passed) => if passed then f else f.(failed := true)
    case _ => f
  }

  function ApplyLine(acc: Accum, l: Line): Accum {
    if l.event.ArenaLeaked? then acc.(leaked := true)
    else if l.faultUID == "" then acc
    else
      var f := if l.faultUID in acc.faults then acc.faults[l.faultUID] else NO_FACTS;
      acc.(faults := acc.faults[l.faultUID := ApplyToFault(f, l)])
  }

  /** The fold of one scenario's lines. */
  function AccumOf(lines: seq<Line>, sid: string): Accum {
    if lines == [] then NO_LINES
    else
      var acc, l := AccumOf(lines[..|lines| - 1], sid), lines[|lines| - 1];
      if l.scenarioID == sid then ApplyLine(acc, l) else acc
  }

  /** A fault that landed: applied without complaint and seen to work. */
  predicate Landed(f: FaultFacts) {
    !f.rejected && !f.driverFailed && !f.failed && f.passes > 0
  }

  ghost predicate AllLanded(faults: map<string, FaultFacts>, uids: seq<string>) {
    forall uid :: uid in uids ==> uid in faults && Landed(faults[uid])
  }

  /** The last time any of these faults' gates passed, or never when none passed at a time at all. */
  ghost predicate IsLatest(t: Time, faults: map<string, FaultFacts>, uids: seq<string>) {
    && t >= NEVER
    && (forall uid :: uid in uids && uid in faults ==> faults[uid].passedAt <= t)
    && (t == NEVER || exists uid :: uid in uids && uid in faults && faults[uid].passedAt == t)
  }

  lemma LatestSnoc(t: Time, faults: map<string, FaultFacts>, uids: seq<string>, uid: string)
    requires IsLatest(t, faults, uids) && uid in faults
    ensures IsLatest(if faults[uid].passedAt > t then faults[uid].passedAt else t, faults, uids + [uid])
  {
    if t != NEVER {
      var u :| u in uids && u in faults && faults[u].passedAt == t;
      assert u in uids + [uid];
    }
    assert uid in uids + [uid];
  }

  /** Goes through the faults in order: whether each landed, and when the last one was seen to. */
  method JudgeFaults(faults: map<string, FaultFacts>, uids: seq<string>) returns (manifested: bool, injectedAt: Time)
    requires forall uid :: uid in uids ==> uid in faults
    ensures manifested <==> AllLanded(faults, uids)
    ensures manifested ==> IsLatest(injectedAt, faults, uids)
  {
    manifested, injectedAt := true, NEVER;
    for i := 0 to |uids|
      invariant manifested <==> AllLanded(faults, uids[..i])
      invariant manifested ==> IsLatest(injectedAt, faults, uids[..i])
    {
      var f := faults[uids[i]];
      assert uids[..i + 1] == uids[..i] + [uids[i]];
      assert uids[i] in uids[..i + 1];
      if f.rejected || f.driverFailed || f.failed || f.passes == 0 {
        manifested := false;
      } else {
        if manifested { LatestSnoc(injectedAt, faults, uids[..i], uids[i]); }
        if f.passedAt > injectedAt { injectedAt := f.passedAt; }
      }
    }
    assert uids[..|uids|] == uids;
  }

  method SummarizeFacts(sid: string, acc: Accum) returns (out: ScenarioFacts)
    ensures out.scenarioID == sid && out.leaked == acc.leaked
    ensures Ascending(out.faults, TextBefore) && forall uid :: uid in out.faults <==> uid in acc.faults
    ensures out.manifested <==> out.faults != [] && AllLanded(acc.faults, out.faults)
    ensures out.injectFailed == !out.manifested
    ensures if out.manifested then IsLatest(out.injectedAt, acc.faults, out.faults) else out.injectedAt == NEVER
  {
    var uids := CollectSorted(acc.faults.Keys);
    if |uids| == 0 {
      return ScenarioFacts(sid, false, NEVER, true, uids, acc.leaked);
    }
    var manifested, injectedAt := JudgeFaults(acc.faults, uids);
    return ScenarioFacts(sid, manifested, if manifested then injectedAt else NEVER, !manifested, uids, acc.leaked);
  }

  // ----- What the lines say, whatever their order -----

  /** A line about a fault of the scenario. */
  predicate About(l: Line, sid: string, uid: string) {
    l.scenarioID == sid && l.faultUID == uid && uid != "" && !l.event.ArenaLeaked?
  }

  predicate Rejects(e: EvalEvent) { e.ExecutorRejected? }
  predicate FailsToApply(e: EvalEvent) { e.DriverFailed? }
  predicate Applies(e: EvalEvent) { e.DriverApplied? }
  predicate Fails(e: EvalEvent) { (e.FaultEfficacy? || e.FaultInjected?) && !e.passed }
  predicate Passes(e: EvalEvent) { e.FaultEfficacy? && e.passed }

  ghost predicate Says(lines: seq<Line>, sid: string, uid: string, p: EvalEvent -> bool) {
    exists l :: l in lines && About(l, sid, uid) && p(l.event)
  }

  ghost predicate Mentioned(lines: seq<Line>, sid: string, uid: string) {
    exists l :: l in lines && About(l, sid, uid)
  }

  /** The pass times seen so far: `t` is the latest of them. */
  ghost predicate LatestPass(lines: seq<Line>, sid: string, uid: string, t: Time) {
    && t >= NEVER
    && (forall l :: l in lines && About(l, sid, uid) && Passes(l.event) ==> At(l) <= t)
    && (t == NEVER || exists l :: l in lines && About(l, sid, uid) && Passes(l.event) && At(l) == t)
  }

  /** What the fold knows of a fault is what some line says of it. */
  ghost predicate FaithfulFacts(lines: seq<Line>, sid: string, uid: string, f: FaultFacts) {
    && (f.applied <==> Says(lines, sid, uid, Applies))
    && (f.rejected <==> Says(lines, sid, uid, Rejects))
    && (f.driverFailed <==> Says(lines, sid, uid, FailsToApply))
    && (f.failed <==> Says(lines, sid, uid, Fails))
    && (f.passes > 0 <==> Says(lines, sid, uid, Passes))
    && LatestPass(lines, sid, uid, f.passedAt)
  }

  ghost predicate FaithfulAccum(lines: seq<Line>, sid: string, acc: Accum) {
    && (forall uid :: uid in acc.faults <==> Mentioned(lines, sid, uid))
    && (forall uid :: uid in acc.faults ==> FaithfulFacts(lines, sid, uid, acc.faults[uid]))
    && (acc.leaked <==> exists l :: l in lines && l.scenarioID == sid && l.event.ArenaLeaked?)
  }

  lemma SaysSnoc(lines: seq<Line>, l: Line, sid: string, uid: string, p: EvalEvent -> bool)
    ensures Says(lines + [l], sid, uid, p) <==> Says(lines, sid, uid, p) || (About(l, sid, uid) && p(l.event))
  {
    if k :| k in lines && About(k, sid, uid) && p(k.event) { assert k in lines + [l]; }
    assert l in lines + [l];
  }

  lemma MentionedSnoc(lines: seq<Line>, l: Line, sid: string, uid: string)
    ensures Mentioned(lines + [l], sid, uid) <==> Mentioned(lines, sid, uid) || About(l, sid, uid)
  {
    if k :| k in lines && About(k, sid, uid) { assert k in lines + [l]; }
    assert l in lines + [l];
  }

  lemma AllSaysSnoc(lines: seq<Line>, l: Line, sid: string, uid: string)
    ensures Says(lines + [l], sid, uid, Applies) <==>
      Says(lines, sid, uid, Applies) || (About(l, sid, uid) && Applies(l.event))
    ensures Says(lines + [l], sid, uid, Rejects) <==>
      Says(lines, sid, uid, Rejects) || (About(l, sid, uid) && Rejects(l.event))
    ensures Says(lines + [l], sid, uid, FailsToApply) <==>
      Says(lines, sid, uid, FailsToApply) || (About(l, sid, uid) && FailsToApply(l.event))
    ensures Says(lines + [l], sid, uid, Fails) <==>
      Says(lines, sid, uid, Fails) || (About(l, sid, uid) && Fails(l.event))
    ensures Says(lines + [l], sid, uid, Passes) <==>
      Says(lines, sid, uid, Passes) || (About(l, sid, uid) && Passes(l.event))
  {
    SaysSnoc(lines, l, sid, uid, Applies);
    SaysSnoc(lines, l, sid, uid, Rejects);
    SaysSnoc(lines, l, sid, uid, FailsToApply);
    SaysSnoc(lines, l, sid, uid, Fails);
    SaysSnoc(lines, l, sid, uid, Passes);
  }

  lemma LatestPassSnoc(lines: seq<Line>, l: Line, sid: string, uid: string, t: Time)
    requires LatestPass(lines, sid, uid, t)
    ensures LatestPass(lines + [l], sid, uid, if About(l, sid, uid) && Passes(l.event) && At(l) > t then At(l) else t)
  {
    if t != NEVER {
      var k :| k in lines && About(k, sid, uid) && Passes(k.event) && At(k) == t;
      assert k in lines + [l];
    }
    assert l in lines + [l];
  }

  lemma NobodySaid(lines: seq<Line>, sid: string, uid: string)
    requires !Mentioned(lines, sid, uid)
    ensures FaithfulFacts(lines, sid, uid, NO_FACTS)
  {
  }

  lemma FactsStep(lines: seq<Line>, l: Line, sid: string, uid: string, f: FaultFacts)
    requires FaithfulFacts(lines, sid, uid, f)
    ensures FaithfulFacts(lines + [l], sid, uid, if About(l, sid, uid) then ApplyToFault(f, l) else f)
  {
    if About(l, sid, uid) { LineRead(f, l); }
    FactsSnoc(lines, l, sid, uid, f, if About(l, sid, uid) then ApplyToFault(f, l) else f);
  }

  /** What one line adds to what is known of its fault. */
  ghost predicate Adds(f: FaultFacts, g: FaultFacts, l: Line) {
    && (g.applied <==> f.applied || Applies(l.event))
    && (g.rejected <==> f.rejected || Rejects(l.event))
    && (g.driverFailed <==> f.driverFailed || FailsToApply(l.event))
    && (g.failed <==> f.failed || Fails(l.event))
    && (g.passes > 0 <==> f.passes > 0 || Passes(l.event))
    && g.passedAt == if Passes(l.event) && At(l) > f.passedAt then At(l) else f.passedAt
  }

  lemma LineRead(f: FaultFacts, l: Line)
    requires !l.event.ArenaLeaked?
    ensures Adds(f, ApplyToFault(f, l), l)
  {
  }

  lemma FactsSnoc(lines: seq<Line>, l: Line, sid: string, uid: string, f: FaultFacts, g: FaultFacts)
    requires FaithfulFacts(lines, sid, uid, f) && if About(l, sid, uid) then Adds(f, g, l) else g == f
    ensures FaithfulFacts(lines + [l], sid, uid, g)
  {
    AllSaysSnoc(lines, l, sid, uid);
    LatestPassSnoc(lines, l, sid, uid, f.passedAt);
  }

  /** The fold remembers of each fault exactly what its lines say, repeats and order aside. */
  lemma {:induction false} FoldIsFaithful(lines: seq<Line>, sid: string)
    ensures FaithfulAccum(lines, sid, AccumOf(lines, sid))
  {
    if lines != [] {
      var front, l := lines[..|lines| - 1], lines[|lines| - 1];
      FoldIsFaithful(front, sid);
      assert lines == front + [l];
      AccumStep(front, l, sid, AccumOf(front, sid));
    }
  }

  lemma AccumStep(lines: seq<Line>, l: Line, sid: string, acc: Accum)
    requires FaithfulAccum(lines, sid, acc)
    ensures FaithfulAccum(lines + [l], sid, if l.scenarioID == sid then ApplyLine(acc, l) else acc)
  {
    var after := if l.scenarioID == sid then ApplyLine(acc, l) else acc;
    forall uid ensures uid in after.faults <==> Mentioned(lines + [l], sid, uid) {
      MentionedSnoc(lines, l, sid, uid);
    }
    forall uid | uid in after.faults ensures FaithfulFacts(lines + [l], sid, uid, after.faults[uid]) {
      if uid !in acc.faults { NobodySaid(lines, sid, uid); }
      FactsStep(lines, l, sid, uid, if uid in acc.faults then acc.faults[uid] else NO_FACTS);
    }
    LeakedStep(lines, l, sid, acc, after);
  }

  lemma LeakedStep(lines: seq<Line>, l: Line, sid: string, acc: Accum, after: Accum)
    requires acc.leaked <==> exists k :: k in lines && k.scenarioID == sid && k.event.ArenaLeaked?
    requires after.leaked <==> acc.leaked || (l.scenarioID == sid && l.event.ArenaLeaked?)
    ensures after.leaked <==> exists k :: k in lines + [l] && k.scenarioID == sid && k.event.ArenaLeaked?
  {
    if k :| k in lines && k.scenarioID == sid && k.event.ArenaLeaked? { assert k in lines + [l]; }
    assert l in lines + [l];
  }

  // ----- Evidence -----

  /** The lines show the fault landed: something passed, and nothing at all speaks against it. */
  ghost predicate ShownToLand(lines: seq<Line>, sid: string, uid: string) {
    && Says(lines, sid, uid, Passes)
    && !Says(lines, sid, uid, Rejects) && !Says(lines, sid, uid, FailsToApply) && !Says(lines, sid, uid, Fails)
  }

  predicate PassOf(l: Line, sid: string) {
    l.scenarioID == sid && l.faultUID != "" && Passes(l.event)
  }

  /** What the facts of a scenario mean, in terms of which lines there are. */
  ghost predicate Evidence(lines: seq<Line>, sid: string, out: ScenarioFacts) {
    && out.scenarioID == sid && out.injectFailed == !out.manifested
    && Ascending(out.faults, TextBefore) && (forall uid :: uid in out.faults <==> Mentioned(lines, sid, uid))
    && (out.manifested <==> out.faults != [] && forall uid :: uid in out.faults ==> ShownToLand(lines, sid, uid))
    && (if out.manifested then LatestOf(lines, sid, out.injectedAt) else out.injectedAt == NEVER)
    && (out.leaked <==> exists l :: l in lines && l.scenarioID == sid && l.event.ArenaLeaked?)
  }

  /** The latest time of a pass; a line's own stamp counts, and the logger's time only where it has none. */
  ghost predicate LatestOf(lines: seq<Line>, sid: string, t: Time) {
    && t >= NEVER
    && (forall l :: l in lines && PassOf(l, sid) && l.ts != NEVER ==> l.ts <= t)
    && (forall l :: l in lines && PassOf(l, sid) && l.ts == NEVER ==> l.time <= t)
    && (t == NEVER || exists l :: l in lines && PassOf(l, sid) && (l.ts == t || (l.ts == NEVER && l.time == t)))
  }

  lemma LandedIsShown(lines: seq<Line>, sid: string, uid: string, f: FaultFacts)
    requires FaithfulFacts(lines, sid, uid, f)
    ensures Landed(f) <==> ShownToLand(lines, sid, uid)
  {
  }

  lemma LatestOfFaults(lines: seq<Line>, sid: string, acc: Accum, uids: seq<string>, t: Time)
    requires FaithfulAccum(lines, sid, acc) && (forall uid :: uid in uids <==> uid in acc.faults)
    requires IsLatest(t, acc.faults, uids)
    ensures LatestOf(lines, sid, t)
  {
    forall l | l in lines && PassOf(l, sid) ensures At(l) <= t {
      assert About(l, sid, l.faultUID) && Mentioned(lines, sid, l.faultUID);
      assert FaithfulFacts(lines, sid, l.faultUID, acc.faults[l.faultUID]);
      assert LatestPass(lines, sid, l.faultUID, acc.faults[l.faultUID].passedAt);
      assert acc.faults[l.faultUID].passedAt <= t;
    }
    if t != NEVER {
      var uid :| uid in uids && uid in acc.faults && acc.faults[uid].passedAt == t;
      assert FaithfulFacts(lines, sid, uid, acc.faults[uid]);
      var l :| l in lines && About(l, sid, uid) && Passes(l.event) && At(l) == t;
      assert PassOf(l, sid);
    }
  }

  lemma SummaryIsEvidence(lines: seq<Line>, sid: string, acc: Accum, out: ScenarioFacts)
    requires acc == AccumOf(lines, sid)
    requires out.scenarioID == sid && out.leaked == acc.leaked && out.injectFailed == !out.manifested
    requires Ascending(out.faults, TextBefore) && forall uid :: uid in out.faults <==> uid in acc.faults
    requires out.manifested <==> out.faults != [] && AllLanded(acc.faults, out.faults)
    requires if out.manifested then IsLatest(out.injectedAt, acc.faults, out.faults) else out.injectedAt == NEVER
    ensures Evidence(lines, sid, out)
  {
    FoldIsFaithful(lines, sid);
    forall uid | uid in out.faults ensures Landed(acc.faults[uid]) <==> ShownToLand(lines, sid, uid) {
      LandedIsShown(lines, sid, uid, acc.faults[uid]);
    }
    if out.manifested { LatestOfFaults(lines, sid, acc, out.faults, out.injectedAt); }
  }

  ghost predicate SameLines(a: seq<Line>, b: seq<Line>, sid: string) {
    forall l: Line :: l.scenarioID == sid ==> (l in a <==> l in b)
  }

  lemma SameSays(a: seq<Line>, b: seq<Line>, sid: string, uid: string, p: EvalEvent -> bool)
    requires SameLines(a, b, sid)
    ensures Says(a, sid, uid, p) <==> Says(b, sid, uid, p)
  {
  }

  lemma SameLand(a: seq<Line>, b: seq<Line>, sid: string, uid: string)
    requires SameLines(a, b, sid)
    ensures ShownToLand(a, sid, uid) <==> ShownToLand(b, sid, uid)
  {
    SameSays(a, b, sid, uid, Passes);
    SameSays(a, b, sid, uid, Rejects);
    SameSays(a, b, sid, uid, FailsToApply);
    SameSays(a, b, sid, uid, Fails);
  }

  lemma SameLatest(a: seq<Line>, b: seq<Line>, sid: string, t: Time, u: Time)
    requires SameLines(a, b, sid) && LatestOf(a, sid, t) && LatestOf(b, sid, u)
    ensures t == u
  {
    if t != NEVER {
      var l :| l in a && PassOf(l, sid) && (l.ts == t || (l.ts == NEVER && l.time == t));
      assert l in b;
    }
    if u != NEVER {
      var l :| l in b && PassOf(l, sid) && (l.ts == u || (l.ts == NEVER && l.time == u));
      assert l in a;
    }
  }

  /** Scoring evidence depends on which lines a scenario has, not on their order or on repeats. */
  lemma EvidenceIsOrderFree(a: seq<Line>, b: seq<Line>, sid: string, x: ScenarioFacts, y: ScenarioFacts)
    requires SameLines(a, b, sid) && Evidence(a, sid, x) && Evidence(b, sid, y)
    ensures x == y
  {
    forall uid ensures uid in x.faults <==> uid in y.faults {
      assert Mentioned(a, sid, uid) <==> Mentioned(b, sid, uid);
    }
    TextIsTotal();
    AscendingIsUnique(x.faults, y.faults, TextBefore);
    forall uid | uid in x.faults ensures ShownToLand(a, sid, uid) <==> ShownToLand(b, sid, uid) {
      SameLand(a, b, sid, uid);
    }
    assert x.manifested == y.manifested;
    if x.manifested { SameLatest(a, b, sid, x.injectedAt, y.injectedAt); }
    SameLeaked(a, b, sid);
  }

  lemma SameLeaked(a: seq<Line>, b: seq<Line>, sid: string)
    requires SameLines(a, b, sid)
    ensures (exists l :: l in a && l.scenarioID == sid && l.event.ArenaLeaked?)
       <==> (exists l :: l in b && l.scenarioID == sid && l.event.ArenaLeaked?)
  {
  }

  /** One record against one fault makes its scenario unmanifested, whatever passes surround it. */
  lemma OneBadRecordSuffices(before: seq<Line>, bad: Line, after: seq<Line>, out: ScenarioFacts)
    requires About(bad, bad.scenarioID, bad.faultUID)
      && (Rejects(bad.event) || FailsToApply(bad.event) || Fails(bad.event))
    requires Evidence(before + [bad] + after, bad.scenarioID, out)
    ensures !out.manifested && out.injectedAt == NEVER && bad.faultUID in out.faults
  {
    var lines := before + [bad] + after;
    assert lines[|before|] == bad;
    assert bad in lines;
    assert Mentioned(lines, bad.scenarioID, bad.faultUID);
    assert bad.faultUID in out.faults;
    var how := if Rejects(bad.event) then Rejects else if FailsToApply(bad.event) then FailsToApply else Fails;
    assert Says(lines, bad.scenarioID, bad.faultUID, how);
  }

  // ----- Reading a log -----

  /** Lines that did not parse are None; one without an event or a scenario is passed over. */
  predicate Relevant(l: Option<Line>) {
    l.Some? && l.value.event != OtherEvent("") && l.value.scenarioID != ""
  }

  /** The lines read: those that parsed and name an event and a scenario. */
  function Kept(input: seq<Option<Line>>): (kept: seq<Line>)
    ensures forall l :: l in kept <==> Option.Some(l) in input && l.event != OtherEvent("") && l.scenarioID != ""
  {
    if input == [] then []
    else
      assert forall l :: l in input <==> l in input[..|input| - 1] || l == input[|input| - 1];
      Kept(input[..|input| - 1]) + if Relevant(input[|input| - 1]) then [input[|input| - 1].value] else []
  }

  /** Scenarios in the order their first line comes. */
  function ScenariosSeen(lines: seq<Line>): seq<string> {
    if lines == [] then []
    else
      var seen := ScenariosSeen(lines[..|lines| - 1]);
      if lines[|lines| - 1].scenarioID in seen then seen else seen + [lines[|lines| - 1].scenarioID]
  }

  lemma {:induction false} UnseenHasNoLines(lines: seq<Line>, sid: string)
    requires sid !in ScenariosSeen(lines)
    ensures AccumOf(lines, sid) == NO_LINES
  {
    if lines != [] { UnseenHasNoLines(lines[..|lines| - 1], sid); }
  }

  /** Where reading stands: the scenarios so far, in order, each with the fold of its lines. */
  ghost predicate ReadSoFar(lines: seq<Line>, order: seq<string>, byScenario: map<string, Accum>) {
    && order == ScenariosSeen(lines)
    && (forall sid :: sid in order <==> sid in byScenario)
    && (forall sid :: sid in byScenario ==> byScenario[sid] == AccumOf(lines, sid))
  }

  lemma AccumSnoc(lines: seq<Line>, l: Line, sid: string)
    ensures AccumOf(lines + [l], sid)
      == if l.scenarioID == sid then ApplyLine(AccumOf(lines, sid), l) else AccumOf(lines, sid)
    ensures ScenariosSeen(lines + [l])
      == ScenariosSeen(lines) + if l.scenarioID in ScenariosSeen(lines) then [] else [l.scenarioID]
  {
    assert (lines + [l])[..|lines|] == lines;
  }

  method ReadLine(ghost lines: seq<Line>, order: seq<string>, byScenario: map<string, Accum>, l: Line)
    returns (order': seq<string>, byScenario': map<string, Accum>)
    requires ReadSoFar(lines, order, byScenario)
    ensures ReadSoFar(lines + [l], order', byScenario')
  {
    var sid := l.scenarioID;
    order', byScenario' := order, byScenario;
    if sid !in byScenario' {
      UnseenHasNoLines(lines, sid);
      byScenario' := byScenario'[sid := NO_LINES];
      order' := order' + [sid];
    }
    AccumSnoc(lines, l, sid);
    byScenario' := byScenario'[sid := ApplyLine(byScenario'[sid], l)];
    forall s | s in byScenario' ensures byScenario'[s] == AccumOf(lines + [l], s) {
      AccumSnoc(lines, l, s);
    }
  }

  method ReadAudit(input: seq<Option<Line>>, readFails: bool) returns (out: Option<seq<ScenarioFacts>>)
    ensures out.None? <==> readFails
    ensures out.Some? ==> |out.value| == |ScenariosSeen(Kept(input))|
    ensures out.Some? ==> forall i :: 0 <= i < |out.value| ==>
      Evidence(Kept(input), ScenariosSeen(Kept(input))[i], out.value[i])
  {
    var order: seq<string> := [];
    var byScenario: map<string, Accum> := map[];
    for n := 0 to |input|
      invariant ReadSoFar(Kept(input[..n]), order, byScenario)
    {
      assert input[..n + 1][..n] == input[..n];
      if Relevant(input[n]) {
        order, byScenario := ReadLine(Kept(input[..n]), order, byScenario, input[n].value);
      } else {
        assert Kept(input[..n + 1]) == Kept(input[..n]);
      }
    }
    assert input[..|input|] == input;
    if readFails { return None; }
    var facts := Summaries(Kept(input), order, byScenario);
    return Option.Some(facts);
  }

  method Summaries(lines: seq<Line>, order: seq<string>, byScenario: map<string, Accum>)
      returns (out: seq<ScenarioFacts>)
    requires forall sid :: sid in order ==> sid in byScenario && byScenario[sid] == AccumOf(lines, sid)
    ensures |out| == |order| && forall i :: 0 <= i < |order| ==> Evidence(lines, order[i], out[i])
  {
    out := [];
    for i := 0 to |order|
      invariant |out| == i && forall j :: 0 <= j < i ==> Evidence(lines, order[j], out[j])
    {
      var facts := SummarizeFacts(order[i], byScenario[order[i]]);
      SummaryIsEvidence(lines, order[i], byScenario[order[i]], facts);
      out := out + [facts];
    }
  }

  // ----- Joining with the subject's side -----

  datatype RunRecord = RunRecord(scenarioID: string, report: Option<string>, subjectError: string, detectedAt: Time,
    clearedAt: Time)

  datatype Run = Run(facts: ScenarioFacts, record: RunRecord)

  /** A scenario pack, by scenario: whether it is a healthy control. */
  type Pack = map<string, bool>

  datatype Joined =
    | Runs(runs: seq<Run>)
    | NotInjected(scenarioID: string)
    | NotInPack(scenarioID: string)
    | NotReported(scenarios: seq<string>)

  function ByID(facts: seq<ScenarioFacts>): map<string, ScenarioFacts> {
    if facts == [] then map[] else ByID(facts[..|facts| - 1])[facts[|facts| - 1].scenarioID := facts[|facts| - 1]]
  }

  /** Nothing was meant to be injected for a control, so it has manifested by reaching the subject at all. */
  function Credited(f: ScenarioFacts, control: bool): ScenarioFacts {
    if control then f.(manifested := true, injectFailed := false) else f
  }

  ghost predicate NoRepeats(records: seq<RunRecord>) {
    forall i, j :: 0 <= i < j < |records| ==> records[i].scenarioID != records[j].scenarioID
  }

  /** The records joined so far, and the facts nobody has reported on. */
  ghost predicate JoinedSoFar(all: map<string, ScenarioFacts>, left: map<string, ScenarioFacts>, pack: Pack,
      records: seq<RunRecord>, runs: seq<Run>) {
    && NoRepeats(records)
    && |runs| == |records|
    && (forall i :: 0 <= i < |records| ==> JoinsUp(all, pack, records[i], runs[i]))
    && (forall sid :: sid in left <==> sid in all && !Reported(records, sid))
    && (forall sid :: sid in left ==> left[sid] == all[sid])
  }

  ghost predicate JoinsUp(all: map<string, ScenarioFacts>, pack: Pack, rec: RunRecord, run: Run) {
    && rec.scenarioID in all && rec.scenarioID in pack
    && run.record == rec
    && run.facts == (if pack[rec.scenarioID] then all[rec.scenarioID].(manifested := true, injectFailed := false)
                     else all[rec.scenarioID])
  }

  ghost predicate Reported(records: seq<RunRecord>, sid: string) {
    exists i :: 0 <= i < |records| && records[i].scenarioID == sid
  }

  /** The two sides pair off one to one, inside the scenario pack. */
  ghost predicate PairsOff(all: map<string, ScenarioFacts>, pack: Pack, records: seq<RunRecord>) {
    && NoRepeats(records)
    && (forall i :: 0 <= i < |records| ==> records[i].scenarioID in all && records[i].scenarioID in pack)
    && (forall sid :: sid in all ==> Reported(records, sid))
  }

  lemma JoinOne(all: map<string, ScenarioFacts>, left: map<string, ScenarioFacts>, pack: Pack,
      records: seq<RunRecord>, runs: seq<Run>, rec: RunRecord)
    requires JoinedSoFar(all, left, pack, records, runs) && rec.scenarioID in left && rec.scenarioID in pack
    ensures JoinedSoFar(all, left - {rec.scenarioID}, pack, records + [rec],
      runs + [Run(Credited(left[rec.scenarioID], pack[rec.scenarioID]), rec)])
  {
    var more, after := records + [rec], left - {rec.scenarioID};
    forall i | 0 <= i < |records| ensures records[i].scenarioID != rec.scenarioID {
      assert Reported(records, records[i].scenarioID);
    }
    forall sid ensures Reported(more, sid) <==> Reported(records, sid) || sid == rec.scenarioID {
      if Reported(records, sid) {
        var i :| 0 <= i < |records| && records[i].scenarioID == sid;
        assert more[i].scenarioID == sid;
      }
      assert more[|records|].scenarioID == rec.scenarioID;
    }
  }

  /** Everything before the record pairs off so far. */
  ghost predicate PairsUpTo(all: map<string, ScenarioFacts>, pack: Pack, records: seq<RunRecord>, i: nat) {
    && i <= |records| && NoRepeats(records[..i])
    && forall k :: 0 <= k < i ==> records[k].scenarioID in all && records[k].scenarioID in pack
  }

  /** Why a join fails at a record: the log has nothing for its scenario, or a record before it has taken that. */
  ghost predicate FailsAt(all: map<string, ScenarioFacts>, pack: Pack, records: seq<RunRecord>, i: nat, r: Joined) {
    && i < |records| && PairsUpTo(all, pack, records, i)
    && var sid := records[i].scenarioID;
       if sid !in all || Reported(records[..i], sid) then r == NotInjected(sid)
       else sid !in pack && r == NotInPack(sid)
  }

  lemma JoinedPairsUp(all: map<string, ScenarioFacts>, left: map<string, ScenarioFacts>, pack: Pack,
      records: seq<RunRecord>, i: nat, runs: seq<Run>)
    requires i <= |records| && JoinedSoFar(all, left, pack, records[..i], runs)
    ensures PairsUpTo(all, pack, records, i)
  {
    forall k | 0 <= k < i ensures records[k].scenarioID in all && records[k].scenarioID in pack {
      assert JoinsUp(all, pack, records[..i][k], runs[k]);
    }
  }

  method Join(pack: Pack, facts: seq<ScenarioFacts>, records: seq<RunRecord>) returns (r: Joined)
    ensures r.Runs? <==> PairsOff(ByID(facts), pack, records)
    ensures r.Runs? ==> |r.runs| == |records|
    ensures r.Runs? ==> forall i :: 0 <= i < |records| ==> JoinsUp(ByID(facts), pack, records[i], r.runs[i])
    ensures r.NotInjected? || r.NotInPack? ==> exists i: nat :: FailsAt(ByID(facts), pack, records, i, r)
    ensures r.NotReported? ==> PairsUpTo(ByID(facts), pack, records, |records|)
    ensures r.NotReported? ==> r.scenarios != [] && Ascending(r.scenarios, TextBefore)
    ensures r.NotReported? ==> forall sid :: sid in r.scenarios <==> sid in ByID(facts) && !Reported(records, sid)
  {
    var all := IndexFacts(facts);
    var left, runs := all, [];
    assert records[..0] == [];
    for i := 0 to |records|
      invariant JoinedSoFar(all, left, pack, records[..i], runs)
    {
      var rec := records[i];
      assert records[..i + 1] == records[..i] + [rec];
      JoinedPairsUp(all, left, pack, records, i, runs);
      if rec.scenarioID !in left {
        CannotPair(all, left, pack, records, runs, i);
        assert FailsAt(all, pack, records, i, NotInjected(rec.scenarioID));
        return NotInjected(rec.scenarioID);
      }
      if rec.scenarioID !in pack {
        assert FailsAt(all, pack, records, i, NotInPack(rec.scenarioID));
        return NotInPack(rec.scenarioID);
      }
      JoinOne(all, left, pack, records[..i], runs, rec);
      runs := runs + [Run(Credited(left[rec.scenarioID], pack[rec.scenarioID]), rec)];
      left := left - {rec.scenarioID};
    }
    assert records[..|records|] == records;
    JoinedPairsUp(all, left, pack, records, |records|, runs);
    if left != map[] {
      var missing := CollectSorted(left.Keys);
      LeftOver(all, left, pack, records, runs, missing);
      return NotReported(missing);
    }
    return Runs(runs);
  }

  method IndexFacts(facts: seq<ScenarioFacts>) returns (byID: map<string, ScenarioFacts>)
    ensures byID == ByID(facts)
  {
    byID := map[];
    for i := 0 to |facts|
      invariant byID == ByID(facts[..i])
    {
      assert facts[..i + 1][..i] == facts[..i];
      byID := byID[facts[i].scenarioID := facts[i]];
    }
    assert facts[..|facts|] == facts;
  }

  lemma CannotPair(all: map<string, ScenarioFacts>, left: map<string, ScenarioFacts>, pack: Pack,
      records: seq<RunRecord>, runs: seq<Run>, i: nat)
    requires i < |records| && JoinedSoFar(all, left, pack, records[..i], runs) && records[i].scenarioID !in left
    ensures !PairsOff(all, pack, records)
  {
    if records[i].scenarioID in all {
      var j :| 0 <= j < i && records[..i][j].scenarioID == records[i].scenarioID;
      assert records[j].scenarioID == records[i].scenarioID;
    }
  }

  lemma LeftOver(all: map<string, ScenarioFacts>, left: map<string, ScenarioFacts>, pack: Pack,
      records: seq<RunRecord>, runs: seq<Run>, missing: seq<string>)
    requires JoinedSoFar(all, left, pack, records, runs) && left != map[]
    requires forall sid :: sid in missing <==> sid in left
    ensures missing != [] && !PairsOff(all, pack, records)
  {
    var sid :| sid in left;
    assert sid in missing && sid in all && !Reported(records, sid);
  }
}
