/** The executor's booking of concurrency slots and namespace cooldowns
    (pkg/executor/executor.go: reserve, its release closure, recordApply). */
module Slots {
  import opened Vocabulary

  datatype Config = Config(maxConcurrentFaults: int, minCooldown: int)

  /** The three fields the executor's mutex guards. */
  datatype Slots = Slots(inFlight: int, inFlightNS: map<string, int>, lastApplyByNS: map<string, Time>)

  const NO_SLOTS := Slots(0, map[], map[])

  function Count(counts: map<string, int>, ns: string): int {
    if ns in counts then counts[ns] else 0
  }

  predicate HasRoom(cfg: Config, leased: nat, s: Slots) {
    cfg.maxConcurrentFaults > 0 ==> leased + s.inFlight < cfg.maxConcurrentFaults
  }

  /** No apply in flight against the namespace, and the last one at least a cooldown ago. */
  predicate Rested(cfg: Config, s: Slots, ns: string, now: Time) {
    && Count(s.inFlightNS, ns) <= 0
    && (ns in s.lastApplyByNS ==> now - s.lastApplyByNS[ns] >= cfg.minCooldown)
  }

  ghost predicate CanReserve(cfg: Config, leased: nat, s: Slots, namespaces: set<string>, now: Time) {
    && HasRoom(cfg, leased, s)
    && (cfg.minCooldown > 0 ==> forall ns :: ns in namespaces ==> Rested(cfg, s, ns, now))
  }

  ghost function Booked(s: Slots, namespaces: set<string>): Slots {
    s.(inFlight := s.inFlight + 1,
       inFlightNS := map ns | ns in s.inFlightNS.Keys + namespaces ::
                       Count(s.inFlightNS, ns) + if ns in namespaces then 1 else 0)
  }

  /** A namespace whose count reaches zero is dropped from the map. */
  ghost function HandedBack(s: Slots, namespaces: set<string>): Slots {
    s.(inFlight := s.inFlight - 1,
       inFlightNS := map ns | ns in s.inFlightNS && (ns in namespaces ==> s.inFlightNS[ns] - 1 > 0) ::
                       s.inFlightNS[ns] - if ns in namespaces then 1 else 0)
  }

  ghost function Stamped(s: Slots, namespaces: set<string>, now: Time): Slots {
    s.(lastApplyByNS := map ns | ns in s.lastApplyByNS.Keys + namespaces ::
                          if ns in namespaces then now else s.lastApplyByNS[ns])
  }

  ghost function Members(namespaces: seq<string>): set<string> {
    set ns | ns in namespaces
  }

  ghost predicate Distinct(namespaces: seq<string>) {
    forall i, j :: 0 <= i < j < |namespaces| ==> namespaces[i] != namespaces[j]
  }

  /** Booking and handing back is the identity wherever no count was zero or below. */
  lemma BookThenHandBack(s: Slots, namespaces: set<string>)
    requires forall ns :: ns in s.inFlightNS ==> s.inFlightNS[ns] > 0
    ensures HandedBack(Booked(s, namespaces), namespaces) == s
  {
    var back := HandedBack(Booked(s, namespaces), namespaces);
    assert back.inFlightNS.Keys == s.inFlightNS.Keys;
    assert back.inFlightNS == s.inFlightNS;
  }

  lemma BookOneMore(s: Slots, namespaces: seq<string>, i: nat)
    requires Distinct(namespaces) && i < |namespaces|
    ensures Booked(s, Members(namespaces[..i + 1])).inFlightNS ==
            (var counts := Booked(s, Members(namespaces[..i])).inFlightNS;
             counts[namespaces[i] := Count(counts, namespaces[i]) + 1])
  {
    assert Members(namespaces[..i + 1]) == Members(namespaces[..i]) + {namespaces[i]};
    assert namespaces[i] !in Members(namespaces[..i]);
  }

  /** What one admitted apply holds until it gives the booking back. */
  class Reservation {
    const namespaces: seq<string>
    var done: bool

    constructor (namespaces: seq<string>)
      ensures this.namespaces == namespaces && !done
    {
      this.namespaces := namespaces;
      done := false;
    }
  }

  class Executor {
    const cfg: Config
    var inFlight: int
    var inFlightNS: map<string, int>
    var lastApplyByNS: map<string, Time>

    ghost function State(): Slots
      reads this
    {
      Slots(inFlight, inFlightNS, lastApplyByNS)
    }

    constructor (cfg: Config)
      ensures this.cfg == cfg && State() == NO_SLOTS
    {
      this.cfg := cfg;
      inFlight, inFlightNS, lastApplyByNS := 0, map[], map[];
    }

    /** The cooldown half of the check: every namespace is looked at before any is booked. */
    method CooldownAllows(namespaces: seq<string>, now: Time) returns (ok: bool)
      ensures ok <==> (cfg.minCooldown > 0 ==> forall ns :: ns in Members(namespaces) ==> Rested(cfg, State(), ns, now))
    {
      if cfg.minCooldown <= 0 {
        return true;
      }
      for i := 0 to |namespaces|
        invariant forall k :: 0 <= k < i ==> Rested(cfg, State(), namespaces[k], now)
      {
        var ns := namespaces[i];
        assert ns in Members(namespaces);
        if Count(inFlightNS, ns) > 0 {
          return false;
        }
        if ns in lastApplyByNS && now - lastApplyByNS[ns] < cfg.minCooldown {
          return false;
        }
      }
      return true;
    }

    /** Either books every namespace, or refuses and leaves the executor as it was. */
    method Reserve(namespaces: seq<string>, leased: nat, now: Time) returns (slot: Option<Reservation>)
      requires Distinct(namespaces)
      modifies this
      ensures slot.Some? <==> CanReserve(cfg, leased, old(State()), Members(namespaces), now)
      ensures cfg.minCooldown <= 0 ==>
        (slot.Some? <==> cfg.maxConcurrentFaults <= 0 || leased + old(inFlight) < cfg.maxConcurrentFaults)
      ensures slot.None? ==> State() == old(State())
      ensures slot.Some? ==> State() == Booked(old(State()), Members(namespaces))
      ensures slot.Some? ==> fresh(slot.value) && !slot.value.done && slot.value.namespaces == namespaces
    {
      if cfg.maxConcurrentFaults > 0 && leased + inFlight >= cfg.maxConcurrentFaults {
        return None;
      }
      var rested := CooldownAllows(namespaces, now);
      if !rested {
        return None;
      }
      inFlight := inFlight + 1;
      ghost var was := old(State());
      assert inFlightNS == Booked(was, Members(namespaces[..0])).inFlightNS;
      for i := 0 to |namespaces|
        invariant inFlight == was.inFlight + 1 && lastApplyByNS == was.lastApplyByNS
        invariant inFlightNS == Booked(was, Members(namespaces[..i])).inFlightNS
      {
        BookOneMore(was, namespaces, i);
        inFlightNS := inFlightNS[namespaces[i] := Count(inFlightNS, namespaces[i]) + 1];
      }
      assert namespaces[..|namespaces|] == namespaces;
      var reservation := new Reservation(namespaces);
      slot := Some(reservation);
    }

    /** Gives the booking back once; a second call changes nothing. */
    method Release(slot: Reservation)
      requires Distinct(slot.namespaces)
      modifies this, slot
      ensures slot.done
      ensures old(slot.done) ==> State() == old(State())
      ensures !old(slot.done) ==> State() == HandedBack(old(State()), Members(slot.namespaces))
    {
      if slot.done {
        return;
      }
      slot.done := true;
      inFlight := inFlight - 1;
      var namespaces := slot.namespaces;
      for i := 0 to |namespaces|
        invariant slot.done && inFlight == old(inFlight) - 1 && lastApplyByNS == old(lastApplyByNS)
        invariant inFlightNS == HandedBack(old(State()), Members(namespaces[..i])).inFlightNS
      {
        var n := Count(inFlightNS, namespaces[i]) - 1;
        if n <= 0 {
          inFlightNS := inFlightNS - {namespaces[i]};
        } else {
          inFlightNS := inFlightNS[namespaces[i] := n];
        }
        assert Members(namespaces[..i + 1]) == Members(namespaces[..i]) + {namespaces[i]};
      }
      assert namespaces[..|namespaces|] == namespaces;
    }

    /** Starts the cooldown of every namespace the fault landed in. */
    method RecordApply(namespaces: seq<string>, now: Time)
      modifies this
      ensures State() == Stamped(old(State()), Members(namespaces), now)
    {
      for i := 0 to |namespaces|
        invariant inFlight == old(inFlight) && inFlightNS == old(inFlightNS)
        invariant lastApplyByNS == Stamped(old(State()), Members(namespaces[..i]), now).lastApplyByNS
      {
        lastApplyByNS := lastApplyByNS[namespaces[i] := now];
        assert Members(namespaces[..i + 1]) == Members(namespaces[..i]) + {namespaces[i]};
      }
      assert namespaces[..|namespaces|] == namespaces;
    }
  }
}
