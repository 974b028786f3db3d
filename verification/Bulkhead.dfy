/** The bulkhead in front of each connector provider: bounded concurrency, and a cooldown after repeated failures. */
module Bulkhead {
  import opened Common

  const MAX_COUNT: nat := 0xFFFF_FFFF

  /** The limits; construction raises both to at least one. */
  datatype Config = Config(maxInFlight: nat, threshold: nat, cooldown: nat)

  predicate ValidConfig(c: Config) { c.maxInFlight >= 1 && 1 <= c.threshold <= MAX_COUNT }

  function Configured(maxInFlight: nat, threshold: nat, cooldown: nat): (c: Config)
    ensures threshold <= MAX_COUNT ==> ValidConfig(c)
    ensures maxInFlight >= 1 ==> c.maxInFlight == maxInFlight
    ensures threshold >= 1 ==> c.threshold == threshold
    ensures (maxInFlight == 0 ==> c.maxInFlight == 1) && (threshold == 0 ==> c.threshold == 1) && c.cooldown == cooldown
  {
    Config(if maxInFlight < 1 then 1 else maxInFlight, if threshold < 1 then 1 else threshold, cooldown)
  }

  datatype State = State(inFlight: nat, failures: nat, coolUntil: Option<int>)

  const IDLE := State(0, 0, None)

  datatype Rejection = Busy(inFlight: nat, maxInFlight: nat) | CoolingDown

  // ---- One provider ----

  function Acquire(c: Config, s: State, now: int): Result<State, Rejection> {
    if s.coolUntil.Some? && s.coolUntil.value > now then Err(CoolingDown)
    else if s.inFlight >= c.maxInFlight then Err(Busy(s.inFlight, c.maxInFlight))
    else Ok(s.(inFlight := s.inFlight + 1))
  }

  function Succeed(s: State): State { s.(failures := 0, coolUntil := None) }

  function Fail(c: Config, s: State, now: int): State {
    var failures := if s.failures < MAX_COUNT then s.failures + 1 else MAX_COUNT;
    State(s.inFlight, failures, if failures >= c.threshold then Some(now + c.cooldown) else s.coolUntil)
  }

  function Release(s: State): State { s.(inFlight := if s.inFlight > 0 then s.inFlight - 1 else 0) }

  // ---- Histories ----

  /** What happened, newest last; the mutex makes every interleaving such a sequence. */
  datatype Event =
    | Acquired(provider: string)
    | Refused(provider: string)
    | Succeeded(provider: string)
    | Failed(provider: string, at: int)
    | Released(provider: string)

  /** Guards handed out and not yet dropped. */
  ghost function Live(h: seq<Event>, p: string): int {
    if h == [] then 0
    else
      var e := h[|h| - 1];
      Live(h[..|h| - 1], p) + if e == Acquired(p) then 1 else if e == Released(p) then -1 else 0
  }

  /** Failures since the last success. */
  ghost function Streak(h: seq<Event>, p: string): nat {
    if h == [] then 0
    else
      var e := h[|h| - 1];
      if e == Succeeded(p) then 0
      else Streak(h[..|h| - 1], p) + if e.Failed? && e.provider == p then 1 else 0
  }

  /** When the provider last failed. */
  ghost function LastFailure(h: seq<Event>, p: string): Option<int> {
    if h == [] then None
    else
      var e := h[|h| - 1];
      if e.Failed? && e.provider == p then Some(e.at) else LastFailure(h[..|h| - 1], p)
  }

  /** Too many failures in a row, the last of them too recent. */
  ghost predicate Cooling(c: Config, h: seq<Event>, p: string, now: int) {
    Streak(h, p) >= c.threshold && LastFailure(h, p).Some? && LastFailure(h, p).value + c.cooldown > now
  }

  /** The state that a history determines. */
  ghost predicate Reflects(c: Config, s: State, h: seq<Event>, p: string) {
    && s.inFlight == Live(h, p) && s.inFlight <= c.maxInFlight
    && s.failures == (if Streak(h, p) < MAX_COUNT then Streak(h, p) else MAX_COUNT)
    && s.coolUntil == (if Streak(h, p) >= c.threshold && LastFailure(h, p).Some?
                       then Some(LastFailure(h, p).value + c.cooldown) else None)
  }

  /** A guard is granted exactly when a place is free and the provider is not cooling down. */
  lemma AcquireExactly(c: Config, s: State, h: seq<Event>, p: string, now: int)
    requires Reflects(c, s, h, p)
    ensures Acquire(c, s, now).Ok? <==> Live(h, p) < c.maxInFlight && !Cooling(c, h, p, now)
    ensures Acquire(c, s, now) == Err(CoolingDown) <==> Cooling(c, h, p, now)
  {
  }

  lemma OthersUnmoved(c: Config, s: State, h: seq<Event>, e: Event, p: string)
    requires Reflects(c, s, h, p) && e.provider != p
    ensures Reflects(c, s, h + [e], p)
  {
    assert (h + [e])[..|h|] == h;
  }

  lemma AcquireReflects(c: Config, s: State, h: seq<Event>, p: string, now: int)
    requires Reflects(c, s, h, p)
    ensures match Acquire(c, s, now)
            case Ok(s') => Reflects(c, s', h + [Acquired(p)], p)
            case Err(_) => Reflects(c, s, h + [Refused(p)], p)
  {
    assert (h + [Acquired(p)])[..|h|] == h;
    assert (h + [Refused(p)])[..|h|] == h;
  }

  lemma SucceedReflects(c: Config, s: State, h: seq<Event>, p: string)
    requires ValidConfig(c) && Reflects(c, s, h, p)
    ensures Reflects(c, Succeed(s), h + [Succeeded(p)], p)
  {
    assert (h + [Succeeded(p)])[..|h|] == h;
  }

  lemma FailReflects(c: Config, s: State, h: seq<Event>, p: string, now: int)
    requires ValidConfig(c) && Reflects(c, s, h, p)
    ensures Reflects(c, Fail(c, s, now), h + [Failed(p, now)], p)
  {
    assert (h + [Failed(p, now)])[..|h|] == h;
  }

  /** A drop never finds the counter at zero. */
  lemma ReleaseReflects(c: Config, s: State, h: seq<Event>, p: string)
    requires Reflects(c, s, h, p) && Live(h, p) > 0
    ensures Reflects(c, Release(s), h + [Released(p)], p) && Release(s).inFlight == s.inFlight - 1
  {
    assert (h + [Released(p)])[..|h|] == h;
  }

  // ---- Every run ----

  datatype Call = TryAcquire(provider: string, now: int) | RecordSuccess(provider: string)
                | RecordFailure(provider: string, now: int) | DropGuard(provider: string)

  function At(states: map<string, State>, p: string): State { if p in states then states[p] else IDLE }

  function Perform(c: Config, states: map<string, State>, call: Call): (map<string, State>, Event) {
    var p := call.provider;
    match call
    case TryAcquire(_, now) =>
      (match Acquire(c, At(states, p), now)
       case Ok(s) => (states[p := s], Acquired(p))
       case Err(_) => (states[p := At(states, p)], Refused(p)))
    case RecordSuccess(_) => (states[p := Succeed(At(states, p))], Succeeded(p))
    case RecordFailure(_, now) => (states[p := Fail(c, At(states, p), now)], Failed(p, now))
    case DropGuard(_) => (if p in states then states[p := Release(states[p])] else states, Released(p))
  }

  ghost predicate AllReflect(c: Config, states: map<string, State>, h: seq<Event>) {
    forall p :: Reflects(c, At(states, p), h, p)
  }

  /** Only guards that are alive are dropped. */
  ghost predicate Possible(h: seq<Event>, call: Call) { call.DropGuard? ==> Live(h, call.provider) > 0 }

  lemma PerformReflects(c: Config, states: map<string, State>, h: seq<Event>, call: Call)
    requires ValidConfig(c) && AllReflect(c, states, h) && Possible(h, call)
    ensures AllReflect(c, Perform(c, states, call).0, h + [Perform(c, states, call).1])
  {
    var (states', e) := Perform(c, states, call);
    var q := call.provider;
    forall p ensures Reflects(c, At(states', p), h + [e], p) {
      assert Reflects(c, At(states, p), h, p);
      if p != q {
        OthersUnmoved(c, At(states, p), h, e, p);
      } else {
        OwnStep(c, states, h, call);
      }
    }
  }

  lemma OwnStep(c: Config, states: map<string, State>, h: seq<Event>, call: Call)
    requires ValidConfig(c) && Reflects(c, At(states, call.provider), h, call.provider) && Possible(h, call)
    ensures Reflects(c, At(Perform(c, states, call).0, call.provider), h + [Perform(c, states, call).1], call.provider)
  {
    var p := call.provider;
    var s := At(states, p);
    match call
    case TryAcquire(_, now) => AcquireReflects(c, s, h, p, now);
    case RecordSuccess(_) => SucceedReflects(c, s, h, p);
    case RecordFailure(_, now) => FailReflects(c, s, h, p, now);
    case DropGuard(_) => ReleaseReflects(c, s, h, p);
  }

  function Run(c: Config, states: map<string, State>, h: seq<Event>, calls: seq<Call>): (map<string, State>, seq<Event>)
    decreases |calls|
  {
    if calls == [] then (states, h)
    else
      var (states', e) := Perform(c, states, calls[0]);
      Run(c, states', h + [e], calls[1..])
  }

  ghost predicate PossibleRun(c: Config, states: map<string, State>, h: seq<Event>, calls: seq<Call>)
    decreases |calls|
  {
    calls == []
    || (Possible(h, calls[0])
        && PossibleRun(c, Perform(c, states, calls[0]).0, h + [Perform(c, states, calls[0]).1], calls[1..]))
  }

  /** After any calls in any order, every provider's state is what its history says: as many in flight as there are
      live guards and never more than the maximum, and a cooldown exactly after enough failures in a row. */
  lemma {:induction false} RunReflects(c: Config, states: map<string, State>, h: seq<Event>, calls: seq<Call>)
    requires ValidConfig(c) && AllReflect(c, states, h) && PossibleRun(c, states, h, calls)
    ensures AllReflect(c, Run(c, states, h, calls).0, Run(c, states, h, calls).1)
    decreases |calls|
  {
    if calls != [] {
      PerformReflects(c, states, h, calls[0]);
      RunReflects(c, Perform(c, states, calls[0]).0, h + [Perform(c, states, calls[0]).1], calls[1..]);
    }
  }

  // ---- The object ----

  class ConnectorBulkhead {
    const config: Config
    var providers: map<string, State>
    ghost var history: seq<Event>

    ghost predicate Valid()
      reads this
    {
      ValidConfig(config) && AllReflect(config, providers, history)
    }

    constructor (maxInFlight: nat, threshold: nat, cooldown: nat)
      requires threshold <= MAX_COUNT
      ensures Valid() && history == []
      ensures config.maxInFlight == (if maxInFlight == 0 then 1 else maxInFlight)
      ensures config.threshold == (if threshold == 0 then 1 else threshold) && config.cooldown == cooldown
    {
      config := Configured(maxInFlight, threshold, cooldown);
      providers, history := map[], [];
    }

    /** Four at a time, and thirty seconds of rest after three failures in a row; `second` is a second of the clock. */
    constructor ServiceGate(second: nat)
      ensures Valid() && history == []
      ensures config.maxInFlight == 4 && config.threshold == 3 && config.cooldown == 30 * second
    {
      config := Configured(4, 3, 30 * second);
      providers, history := map[], [];
    }

    method TryAcquire(p: string, now: int) returns (r: Result<string, Rejection>)
      requires Valid()
      modifies this
      ensures Valid()
      ensures r.Ok? <==> Live(old(history), p) < config.maxInFlight && !Cooling(config, old(history), p, now)
      ensures r == Err(CoolingDown) <==> Cooling(config, old(history), p, now)
      ensures r.Err? && r.error.Busy? ==> r.error == Busy(config.maxInFlight, config.maxInFlight)
      ensures history == old(history) + [if r.Ok? then Acquired(p) else Refused(p)]
    {
      PerformReflects(config, providers, history, Call.TryAcquire(p, now));
      AcquireExactly(config, At(providers, p), history, p, now);
      var s := At(providers, p);
      if s.coolUntil.Some? && s.coolUntil.value > now {
        providers := providers[p := s];
        history := history + [Refused(p)];
        return Err(CoolingDown);
      }
      if s.inFlight >= config.maxInFlight {
        providers := providers[p := s];
        history := history + [Refused(p)];
        return Err(Busy(s.inFlight, config.maxInFlight));
      }
      providers := providers[p := s.(inFlight := s.inFlight + 1)];
      history := history + [Acquired(p)];
      return Ok(p);
    }

    method RecordSuccess(p: string)
      requires Valid()
      modifies this
      ensures Valid() && history == old(history) + [Succeeded(p)]
    {
      PerformReflects(config, providers, history, Call.RecordSuccess(p));
      providers := providers[p := At(providers, p).(failures := 0, coolUntil := None)];
      history := history + [Succeeded(p)];
    }

    method RecordFailure(p: string, now: int)
      requires Valid()
      modifies this
      ensures Valid() && history == old(history) + [Failed(p, now)]
    {
      PerformReflects(config, providers, history, Call.RecordFailure(p, now));
      var s := At(providers, p);
      s := s.(failures := if s.failures < MAX_COUNT then s.failures + 1 else MAX_COUNT);
      if s.failures >= config.threshold {
        s := s.(coolUntil := Some(now + config.cooldown));
      }
      providers := providers[p := s];
      history := history + [Failed(p, now)];
    }

    method InFlight(p: string) returns (n: nat)
      requires Valid()
      ensures n == Live(history, p) <= config.maxInFlight
    {
      assert Reflects(config, At(providers, p), history, p);
      n := if p in providers then providers[p].inFlight else 0;
    }

    /** Dropping a guard, of which at least one is alive. */
    method Drop(p: string)
      requires Valid() && Live(history, p) > 0
      modifies this
      ensures Valid() && history == old(history) + [Released(p)]
    {
      PerformReflects(config, providers, history, DropGuard(p));
      if p in providers {
        providers := providers[p := Release(providers[p])];
      }
      history := history + [Released(p)];
    }
  }
}
