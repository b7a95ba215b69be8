/** How often a step was refused lately: the loop's sliding window (pkg/loop/loop.go). */
module Refusals {
  import opened Vocabulary

  const REPEATED_REFUSAL_LIMIT := 3
  /** One hour in nanoseconds. */
  const REPEATED_REFUSAL_WINDOW: Time := 3_600_000_000_000

  datatype Outcome = Ran | Refused(reason: string)

  const BUDGET_EXCEEDED := "budget-exceeded"

  /** A budget refusal is about the moment, not about the step. */
  predicate WorthRemembering(o: Outcome) {
    o.Refused? && o.reason != BUDGET_EXCEEDED
  }

  type Log = map<string, seq<Time>>

  function TimesOf(log: Log, key: string): seq<Time> {
    if key in log then log[key] else []
  }

  ghost predicate OldestFirst(times: seq<Time>) {
    forall i, j :: 0 <= i < j < |times| ==> times[i] <= times[j]
  }

  ghost predicate NoneAfter(times: seq<Time>, now: Time) {
    forall i :: 0 <= i < |times| ==> times[i] <= now
  }

  /** Every step's refusals are in time order, none of them in the future. */
  ghost predicate OldestFirstUntil(log: Log, now: Time) {
    forall key :: OldestFirst(TimesOf(log, key)) && NoneAfter(TimesOf(log, key), now)
  }

  /** How many of the times lie at or after the cutoff, in any order. */
  ghost function CountSince(times: seq<Time>, cutoff: Time): nat {
    if times == [] then 0
    else CountSince(times[..|times| - 1], cutoff) + if times[|times| - 1] >= cutoff then 1 else 0
  }

  /** The refusals of a step inside the window that ends now. */
  ghost function InWindow(log: Log, key: string, now: Time): nat {
    CountSince(TimesOf(log, key), now - REPEATED_REFUSAL_WINDOW)
  }

  /** How many times at the front lie before the cutoff. */
  function Stale(times: seq<Time>, cutoff: Time): (n: nat)
    ensures n <= |times|
    ensures forall i :: 0 <= i < n ==> times[i] < cutoff
    ensures n < |times| ==> times[n] >= cutoff
  {
    if times != [] && times[0] < cutoff then 1 + Stale(times[1..], cutoff) else 0
  }

  /** How often a step was refused lately, as the loop counts it: what is left after the stale front. */
  function Counted(log: Log, key: string, now: Time): nat {
    if key == "" then 0
    else
      var times := TimesOf(log, key);
      |times| - Stale(times, now - REPEATED_REFUSAL_WINDOW)
  }

  /** What asking about a step leaves of the log: its times from the first one inside the window on. */
  function Pruned(log: Log, key: string, now: Time): Log {
    if key == "" then log
    else
      var times := TimesOf(log, key);
      var n := Stale(times, now - REPEATED_REFUSAL_WINDOW);
      if n == |times| then log - {key} else log[key := times[n..]]
  }

  function Noted(log: Log, key: string, outcome: Outcome, now: Time): Log {
    if key == "" then log
    else if outcome.Ran? then log - {key}
    else if !WorthRemembering(outcome) then log
    else log[key := TimesOf(log, key) + [now]]
  }

  lemma {:induction false} CountSplits(xs: seq<Time>, ys: seq<Time>, cutoff: Time)
    ensures CountSince(xs + ys, cutoff) == CountSince(xs, cutoff) + CountSince(ys, cutoff)
  {
    if ys == [] {
      assert xs + ys == xs;
    } else {
      CountSplits(xs, ys[..|ys| - 1], cutoff);
      assert (xs + ys)[..|xs + ys| - 1] == xs + ys[..|ys| - 1];
    }
  }

  lemma {:induction false} NoneSince(times: seq<Time>, cutoff: Time)
    requires forall i :: 0 <= i < |times| ==> times[i] < cutoff
    ensures CountSince(times, cutoff) == 0
  {
    if times != [] { NoneSince(times[..|times| - 1], cutoff); }
  }

  lemma {:induction false} AllSince(times: seq<Time>, cutoff: Time)
    requires forall i :: 0 <= i < |times| ==> times[i] >= cutoff
    ensures CountSince(times, cutoff) == |times|
  {
    if times != [] { AllSince(times[..|times| - 1], cutoff); }
  }

  /** In a log kept in time order, what is left after the stale front is exactly what lies in the window. */
  lemma StaleFrontIsExact(times: seq<Time>, cutoff: Time)
    requires OldestFirst(times)
    ensures CountSince(times, cutoff) == |times| - Stale(times, cutoff)
  {
    var n := Stale(times, cutoff);
    BackIsRecent(times, n, cutoff);
    assert times == times[..n] + times[n..];
    CountSplits(times[..n], times[n..], cutoff);
    NoneSince(times[..n], cutoff);
    AllSince(times[n..], cutoff);
  }

  lemma BackIsRecent(times: seq<Time>, n: nat, cutoff: Time)
    requires OldestFirst(times) && n <= |times| && (n < |times| ==> times[n] >= cutoff)
    ensures forall i :: 0 <= i < |times[n..]| ==> times[n..][i] >= cutoff
  {
  }

  /** In a log kept in time order the loop's count is the window's. */
  lemma CountedIsExact(log: Log, key: string, now: Time)
    requires OldestFirst(TimesOf(log, key))
    ensures Counted(log, key, now) == if key == "" then 0 else InWindow(log, key, now)
  {
    StaleFrontIsExact(TimesOf(log, key), now - REPEATED_REFUSAL_WINDOW);
  }

  /** A later cutoff never finds more. */
  lemma {:induction false} LaterFindsFewer(times: seq<Time>, cutoff: Time, later: Time)
    requires cutoff <= later
    ensures CountSince(times, later) <= CountSince(times, cutoff)
  {
    if times != [] { LaterFindsFewer(times[..|times| - 1], cutoff, later); }
  }

  lemma DroppingTheStale(times: seq<Time>, cutoff: Time, later: Time)
    requires cutoff <= later
    ensures CountSince(times[Stale(times, cutoff)..], later) == CountSince(times, later)
  {
    var n := Stale(times, cutoff);
    assert times == times[..n] + times[n..];
    CountSplits(times[..n], times[n..], later);
    NoneSince(times[..n], later);
  }

  /** Forgetting stale refusals changes no answer, now or later, for any step. */
  lemma PruningIsInvisible(log: Log, key: string, now: Time, other: string, later: Time)
    requires now <= later
    ensures InWindow(Pruned(log, key, now), other, later) == InWindow(log, other, later)
  {
    DroppingTheStale(TimesOf(log, key), now - REPEATED_REFUSAL_WINDOW, later - REPEATED_REFUSAL_WINDOW);
  }

  lemma PruningKeepsOrder(log: Log, key: string, now: Time)
    requires OldestFirstUntil(log, now)
    ensures OldestFirstUntil(Pruned(log, key, now), now)
  {
    forall k
      ensures OldestFirst(TimesOf(Pruned(log, key, now), k)) && NoneAfter(TimesOf(Pruned(log, key, now), k), now)
    {
      var n := PrunedTimes(log, key, now, k);
      BackInOrder(TimesOf(log, k), n, now);
    }
  }

  /** Pruning leaves the back of each step's times. */
  lemma PrunedTimes(log: Log, key: string, now: Time, k: string) returns (n: nat)
    ensures n <= |TimesOf(log, k)| && TimesOf(Pruned(log, key, now), k) == TimesOf(log, k)[n..]
  {
    n := if key != "" && k == key then Stale(TimesOf(log, key), now - REPEATED_REFUSAL_WINDOW) else 0;
  }

  lemma BackInOrder(times: seq<Time>, n: nat, now: Time)
    requires n <= |times| && OldestFirst(times) && NoneAfter(times, now)
    ensures OldestFirst(times[n..]) && NoneAfter(times[n..], now)
  {
  }

  lemma OneMore(times: seq<Time>, t: Time, cutoff: Time)
    ensures CountSince(times + [t], cutoff) == CountSince(times, cutoff) + if t >= cutoff then 1 else 0
  {
    assert (times + [t])[..|times|] == times;
  }

  /** A noted outcome adds at most one refusal, to its own step. */
  lemma NotingAddsOne(log: Log, key: string, outcome: Outcome, now: Time, other: string)
    ensures InWindow(Noted(log, key, outcome, now), other, now)
      <= InWindow(log, other, now) + if other == key then 1 else 0
    ensures key != "" && outcome.Refused? ==>
      InWindow(Noted(log, key, outcome, now), key, now)
        == InWindow(log, key, now) + if outcome.reason == "budget-exceeded" then 0 else 1
    ensures key != "" && outcome.Ran? ==> InWindow(Noted(log, key, outcome, now), key, now) == 0
  {
    OneMore(TimesOf(log, key), now, now - REPEATED_REFUSAL_WINDOW);
  }

  lemma NotingKeepsOrder(log: Log, key: string, outcome: Outcome, now: Time)
    requires OldestFirstUntil(log, now)
    ensures OldestFirstUntil(Noted(log, key, outcome, now), now)
  {
    var noted := Noted(log, key, outcome, now);
    forall k ensures OldestFirst(TimesOf(noted, k)) && NoneAfter(TimesOf(noted, k), now) {
      assert OldestFirst(TimesOf(log, k)) && NoneAfter(TimesOf(log, k), now);
    }
  }

  datatype RefusedFault = RefusedFault(key: string, at: Time, reason: string)

  /** The refusals that count, oldest first, from a history listed newest first. */
  function Seeded(log: Log, refused: seq<RefusedFault>): Log {
    if refused == [] then log
    else
      var later := Seeded(log, refused[1..]);
      var rf := refused[0];
      if rf.key == "" || rf.reason == BUDGET_EXCEEDED then later
      else later[rf.key := TimesOf(later, rf.key) + [rf.at]]
  }

  class RefusalLog {
    var refusals: Log

    constructor ()
      ensures refusals == map[]
    {
      refusals := map[];
    }

    /** How often the step was refused lately; in a log kept in time order, how often inside the window. */
    method RecentRefusals(key: string, now: Time) returns (n: nat)
      modifies this
      ensures refusals == Pruned(old(refusals), key, now) && n == Counted(old(refusals), key, now)
      ensures old(OldestFirst(TimesOf(refusals, key))) ==>
        n == if key == "" then 0 else InWindow(old(refusals), key, now)
    {
      if key == "" { return 0; }
      var cutoff := now - REPEATED_REFUSAL_WINDOW;
      var times := TimesOf(refusals, key);
      if OldestFirst(times) { CountedIsExact(refusals, key, now); }
      var i := 0;
      while i < |times| && times[i] < cutoff
        invariant i <= Stale(times, cutoff)
      {
        i := i + 1;
      }
      assert i == Stale(times, cutoff);
      if i == |times| {
        refusals := refusals - {key};
        return 0;
      }
      refusals := refusals[key := times[i..]];
      return |times| - i;
    }

    method NoteOutcome(key: string, outcome: Outcome, now: Time)
      modifies this
      ensures refusals == Noted(old(refusals), key, outcome, now)
    {
      if key == "" { return; }
      if outcome.Ran? {
        refusals := refusals - {key};
        return;
      }
      if !WorthRemembering(outcome) { return; }
      refusals := refusals[key := TimesOf(refusals, key) + [now]];
    }

    /** Counts a restarted executor's remembered refusals, listed newest first, against their steps. */
    method SeedRefusals(refused: seq<RefusedFault>)
      modifies this
      ensures refusals == Seeded(old(refusals), refused)
    {
      var i := |refused|;
      assert refused[i..] == [];
      while i > 0
        invariant 0 <= i <= |refused|
        invariant refusals == Seeded(old(refusals), refused[i..])
      {
        i := i - 1;
        var rf := refused[i];
        assert refused[i..][1..] == refused[i + 1..];
        if rf.key != "" && rf.reason != BUDGET_EXCEEDED {
          refusals := refusals[rf.key := TimesOf(refusals, rf.key) + [rf.at]];
        }
      }
      assert refused[0..] == refused;
    }
  }

  /** Refusals of a step that its history lists within the window. */
  ghost function Listed(refused: seq<RefusedFault>, key: string, cutoff: Time): nat {
    if refused == [] then 0
    else Listed(refused[1..], key, cutoff)
         + if refused[0].key == key && refused[0].reason != BUDGET_EXCEEDED && refused[0].at >= cutoff then 1 else 0
  }

  /** After a restart every step counts exactly what the history still lists against it. */
  lemma {:induction false} SeedingCountsTheHistory(refused: seq<RefusedFault>, key: string, now: Time)
    ensures key != "" ==>
      InWindow(Seeded(map[], refused), key, now) == Listed(refused, key, now - REPEATED_REFUSAL_WINDOW)
  {
    if refused != [] {
      SeedingCountsTheHistory(refused[1..], key, now);
      var later := Seeded(map[], refused[1..]);
      OneMore(TimesOf(later, refused[0].key), refused[0].at, now - REPEATED_REFUSAL_WINDOW);
    }
  }

  ghost predicate NewestFirstUntil(refused: seq<RefusedFault>, now: Time) {
    && (forall i, j :: 0 <= i < j < |refused| ==> refused[i].at >= refused[j].at)
    && (forall i :: 0 <= i < |refused| ==> refused[i].at <= now)
  }

  /** The log a restart seeds is in time order. */
  lemma {:induction false} SeedingKeepsOrder(refused: seq<RefusedFault>, now: Time)
    requires NewestFirstUntil(refused, now)
    ensures OldestFirstUntil(Seeded(map[], refused), now)
  {
    if refused != [] {
      SeedingKeepsOrder(refused[1..], refused[0].at);
      var seeded := Seeded(map[], refused);
      forall k ensures OldestFirst(TimesOf(seeded, k)) && NoneAfter(TimesOf(seeded, k), now) {
        var later := TimesOf(Seeded(map[], refused[1..]), k);
        assert OldestFirst(later) && NoneAfter(later, refused[0].at);
      }
    }
  }

  // ----- What a successful run forgives -----

  /** What the loop was told of one step: how a call went, and when. */
  datatype Notice = Notice(outcome: Outcome, at: Time)

  ghost function LogAfter(key: string, notices: seq<Notice>): Log {
    if notices == [] then map[]
    else
      var last := notices[|notices| - 1];
      Noted(LogAfter(key, notices[..|notices| - 1]), key, last.outcome, last.at)
  }

  predicate RefusedSince(n: Notice, cutoff: Time) {
    WorthRemembering(n.outcome) && n.at >= cutoff
  }

  /** All the refusals of the step since the cutoff. */
  ghost function RefusalsTold(notices: seq<Notice>, cutoff: Time): nat {
    if notices == [] then 0
    else RefusalsTold(notices[..|notices| - 1], cutoff) + if RefusedSince(notices[|notices| - 1], cutoff) then 1 else 0
  }

  lemma {:induction false} NoneTold(notices: seq<Notice>, cutoff: Time)
    ensures RefusalsTold(notices, cutoff) == 0 <==> forall i :: 0 <= i < |notices| ==> !RefusedSince(notices[i], cutoff)
  {
    if notices != [] { NoneTold(notices[..|notices| - 1], cutoff); }
  }

  /** A refusal since the cutoff was followed by a successful run of the step. */
  ghost predicate Forgiven(notices: seq<Notice>, cutoff: Time) {
    exists i, j | 0 <= i < j < |notices| :: RefusedSince(notices[i], cutoff) && notices[j].outcome.Ran?
  }

  /** How many: those told before the last run that succeeded. */
  ghost function ForgivenCount(notices: seq<Notice>, cutoff: Time): nat {
    if notices == [] then 0
    else
      var front, last := notices[..|notices| - 1], notices[|notices| - 1];
      if last.outcome.Ran? then RefusalsTold(front, cutoff) else ForgivenCount(front, cutoff)
  }

  /**
   * A running loop counts the refusals it was told of but those that a later successful run forgave, so all of them
   * exactly as long as no refusal in the window was followed by such a run. A restart counts the forgiven ones again.
   */
  lemma {:induction false} RestartForgetsForgiving(key: string, notices: seq<Notice>, now: Time)
    requires key != ""
    ensures
      var cutoff := now - REPEATED_REFUSAL_WINDOW;
      var counted := InWindow(LogAfter(key, notices), key, now);
      && counted + ForgivenCount(notices, cutoff) == RefusalsTold(notices, cutoff)
      && (counted == RefusalsTold(notices, cutoff) <==> !Forgiven(notices, cutoff))
  {
    var cutoff := now - REPEATED_REFUSAL_WINDOW;
    if notices != [] {
      var front, last := notices[..|notices| - 1], notices[|notices| - 1];
      RestartForgetsForgiving(key, front, now);
      OneMore(TimesOf(LogAfter(key, front), key), last.at, cutoff);
      NoneTold(front, cutoff);
      assert forall i :: 0 <= i < |front| ==> front[i] == notices[i];
      ForgivenSnoc(front, last, cutoff);
      assert notices == front + [last];
    }
  }

  lemma OneNotice(key: string, n: Notice, now: Time)
    requires key != "" && RefusedSince(n, now - REPEATED_REFUSAL_WINDOW)
    ensures InWindow(LogAfter(key, [n]), key, now) == 1 && !Forgiven([n], now - REPEATED_REFUSAL_WINDOW)
  {
    assert [n][..0] == [];
    OneMore([], n.at, now - REPEATED_REFUSAL_WINDOW);
  }

  lemma ForgivenSnoc(front: seq<Notice>, last: Notice, cutoff: Time)
    ensures Forgiven(front + [last], cutoff) <==>
      Forgiven(front, cutoff) || (last.outcome.Ran? && exists i :: 0 <= i < |front| && RefusedSince(front[i], cutoff))
  {
    var all := front + [last];
    assert forall i :: 0 <= i < |front| ==> all[i] == front[i];
    if Forgiven(all, cutoff) {
      var i, j :| 0 <= i < j < |all| && RefusedSince(all[i], cutoff) && all[j].outcome.Ran?;
      assert RefusedSince(front[i], cutoff);
    }
    if i :| 0 <= i < |front| && RefusedSince(front[i], cutoff) {
      assert last.outcome.Ran? ==> RefusedSince(all[i], cutoff) && all[|front|].outcome.Ran?;
    }
    if Forgiven(front, cutoff) {
      var i, j :| 0 <= i < j < |front| && RefusedSince(front[i], cutoff) && front[j].outcome.Ran?;
      assert RefusedSince(all[i], cutoff) && all[j].outcome.Ran?;
    }
  }
}
