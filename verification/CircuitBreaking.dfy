/** CircuitBreaker of backend_engine.py against the history of calls made on it, and the auto branch of
    select_backend. */
module CircuitBreaking {
  import opened Values

  datatype CircuitState = Closed | Open | HalfOpen

  datatype Event =
    | Success(name: string)
    | Failure(name: string, time: real)
    | Check(name: string, time: real)
    | Reset(target: Option<string>)

  type History = seq<Event>

  ghost predicate Resets(e: Event, b: string) {
    e.Reset? && (e.target.None? || e.target.value == b)
  }

  /** Failures of b since its last success or reset. */
  ghost function FailuresSince(h: History, b: string): nat {
    if h == [] then 0
    else
      var e := h[|h| - 1];
      if Resets(e, b) || (e.Success? && e.name == b) then 0
      else FailuresSince(h[..|h| - 1], b) + (if e.Failure? && e.name == b then 1 else 0)
  }

  /** When b last failed, unless it was reset after that. */
  ghost function LastFailure(h: History, b: string): Option<real> {
    if h == [] then None
    else
      var e := h[|h| - 1];
      if Resets(e, b) then None
      else if e.Failure? && e.name == b then Some(e.time)
      else LastFailure(h[..|h| - 1], b)
  }

  /** The latest clock reading so far. */
  ghost function Clock(h: History): Option<real> {
    if h == [] then None
    else
      var e := h[|h| - 1];
      if e.Failure? || e.Check? then Some(e.time) else Clock(h[..|h| - 1])
  }

  ghost predicate NotBefore(h: History, now: real) {
    Clock(h).Some? ==> Clock(h).value <= now
  }

  /** Even a breaker told to tolerate nothing needs one failure to open. */
  function Limit(threshold: int): int {
    if threshold < 1 then 1 else threshold
  }

  ghost predicate Recovered(h: History, b: string, timeout: real, now: real) {
    LastFailure(h, b).Some? && now - LastFailure(h, b).value >= timeout
  }

  /** What availability means, over the calls alone. */
  ghost predicate Available(h: History, b: string, threshold: int, timeout: real, now: real) {
    FailuresSince(h, b) < Limit(threshold) || Recovered(h, b, timeout, now)
  }

  /** The stored state of one backend fits its history. */
  ghost predicate Fits(h: History, b: string, threshold: int, timeout: real, failures: nat, state: CircuitState,
                       last: Option<real>)
  {
    && failures == FailuresSince(h, b)
    && last == LastFailure(h, b)
    && (state.Closed? <==> failures < Limit(threshold))
    && (!state.Closed? ==> last.Some?)
    && (last.Some? ==> Clock(h).Some? && last.value <= Clock(h).value)
    && (state.HalfOpen? ==> Recovered(h, b, timeout, Clock(h).value))
  }

  /** What one more call does to the history's readings. */
  lemma Extended(h: History, e: Event, b: string)
    ensures FailuresSince(h + [e], b) ==
            if Resets(e, b) || (e.Success? && e.name == b) then 0
            else FailuresSince(h, b) + (if e.Failure? && e.name == b then 1 else 0)
    ensures LastFailure(h + [e], b) ==
            if Resets(e, b) then None else if e.Failure? && e.name == b then Some(e.time) else LastFailure(h, b)
    ensures Clock(h + [e]) == if e.Failure? || e.Check? then Some(e.time) else Clock(h)
  {
    assert (h + [e])[..|h|] == h;
  }

  class CircuitBreaker {
    const threshold: int
    const timeout: real
    var failures: map<string, nat>
    var states: map<string, CircuitState>
    var lastFailureTime: map<string, real>
    ghost var history: History

    ghost predicate Valid()
      reads this
    {
      forall b :: Fits(history, b, threshold, timeout, FailuresOf(b), StateOf(b), LastOf(b))
    }

    function FailuresOf(b: string): nat
      reads this
    {
      if b in failures then failures[b] else 0
    }

    function StateOf(b: string): CircuitState
      reads this
    {
      if b in states then states[b] else Closed
    }

    function LastOf(b: string): Option<real>
      reads this
    {
      if b in lastFailureTime then Some(lastFailureTime[b]) else None
    }

    constructor (threshold: int, timeout: real)
      ensures Valid() && history == [] && this.threshold == threshold && this.timeout == timeout
    {
      this.threshold, this.timeout := threshold, timeout;
      failures, states, lastFailureTime, history := map[], map[], map[], [];
    }

    method RecordSuccess(b: string)
      requires Valid()
      modifies this
      ensures Valid() && history == old(history) + [Success(b)]
    {
      hide FailuresSince, LastFailure, Clock;
      failures := failures[b := 0];
      states := states[b := Closed];
      history := history + [Success(b)];
      forall c
        ensures Fits(history, c, threshold, timeout, FailuresOf(c), StateOf(c), LastOf(c))
      {
        Extended(old(history), Success(b), c);
        assert old(Fits(history, c, threshold, timeout, FailuresOf(c), StateOf(c), LastOf(c)));
      }
    }

    method RecordFailure(b: string, now: real)
      requires Valid() && NotBefore(history, now)
      modifies this
      ensures Valid() && history == old(history) + [Failure(b, now)]
    {
      hide FailuresSince, LastFailure, Clock;
      failures := failures[b := FailuresOf(b) + 1];
      lastFailureTime := lastFailureTime[b := now];
      if failures[b] >= threshold {
        states := states[b := Open];
      }
      history := history + [Failure(b, now)];
      forall c
        ensures Fits(history, c, threshold, timeout, FailuresOf(c), StateOf(c), LastOf(c))
      {
        Extended(old(history), Failure(b, now), c);
        assert old(Fits(history, c, threshold, timeout, FailuresOf(c), StateOf(c), LastOf(c)));
      }
    }

    method IsAvailable(b: string, now: real) returns (available: bool)
      requires Valid() && NotBefore(history, now)
      modifies this`states, this`history
      ensures Valid() && history == old(history) + [Check(b, now)]
      ensures available <==> Available(old(history), b, threshold, timeout, now)
    {
      hide FailuresSince, LastFailure, Clock;
      assert Fits(history, b, threshold, timeout, FailuresOf(b), StateOf(b), LastOf(b));
      history := history + [Check(b, now)];
      available := true;
      if StateOf(b) == Open {
        var elapsed := now - (if b in lastFailureTime then lastFailureTime[b] else 0.0);
        if elapsed >= timeout {
          states := states[b := HalfOpen];
        } else {
          available := false;
        }
      }
      forall c
        ensures Fits(history, c, threshold, timeout, FailuresOf(c), StateOf(c), LastOf(c))
      {
        Extended(old(history), Check(b, now), c);
        assert old(Fits(history, c, threshold, timeout, FailuresOf(c), StateOf(c), LastOf(c)));
      }
    }

    method State(b: string, now: real) returns (current: CircuitState)
      requires Valid() && NotBefore(history, now)
      modifies this`states, this`history
      ensures Valid() && history == old(history) + [Check(b, now)]
      ensures current == if FailuresSince(old(history), b) < Limit(threshold) then Closed
                         else if Recovered(old(history), b, timeout, now) then HalfOpen else Open
    {
      hide FailuresSince, LastFailure, Clock;
      assert Fits(history, b, threshold, timeout, FailuresOf(b), StateOf(b), LastOf(b));
      history := history + [Check(b, now)];
      current := StateOf(b);
      if current == Open {
        var elapsed := now - (if b in lastFailureTime then lastFailureTime[b] else 0.0);
        if elapsed >= timeout {
          states := states[b := HalfOpen];
          current := HalfOpen;
        }
      }
      forall c
        ensures Fits(history, c, threshold, timeout, FailuresOf(c), StateOf(c), LastOf(c))
      {
        Extended(old(history), Check(b, now), c);
        assert old(Fits(history, c, threshold, timeout, FailuresOf(c), StateOf(c), LastOf(c)));
      }
    }

    method ResetBackend(target: Option<string>)
      requires Valid()
      modifies this
      ensures Valid() && history == old(history) + [Reset(target)]
    {
      hide FailuresSince, LastFailure, Clock;
      if target.Some? {
        failures := failures - {target.value};
        states := states - {target.value};
        lastFailureTime := lastFailureTime - {target.value};
      } else {
        failures, states, lastFailureTime := map[], map[], map[];
      }
      history := history + [Reset(target)];
      forall c
        ensures Fits(history, c, threshold, timeout, FailuresOf(c), StateOf(c), LastOf(c))
      {
        Extended(old(history), Reset(target), c);
        assert old(Fits(history, c, threshold, timeout, FailuresOf(c), StateOf(c), LastOf(c)));
      }
    }
  }

  // ---- Laws of the history ----

  ghost predicate About(e: Event, b: string) {
    if e.Reset? then Resets(e, b) else e.name == b
  }

  /** The calls that concern b. */
  ghost function Project(h: History, b: string): History {
    if h == [] then []
    else
      var rest := Project(h[..|h| - 1], b);
      if About(h[|h| - 1], b) then rest + [h[|h| - 1]] else rest
  }

  /** Calls about other backends do not matter. */
  lemma {:induction false} OthersDoNotMatter(h: History, b: string, threshold: int, timeout: real, now: real)
    ensures FailuresSince(Project(h, b), b) == FailuresSince(h, b) && LastFailure(Project(h, b), b) == LastFailure(h, b)
    ensures Available(Project(h, b), b, threshold, timeout, now) <==> Available(h, b, threshold, timeout, now)
  {
    if h != [] {
      var rest := h[..|h| - 1];
      OthersDoNotMatter(rest, b, threshold, timeout, now);
      if About(h[|h| - 1], b) {
        assert Project(h, b)[..|Project(h, b)| - 1] == Project(rest, b);
      }
    }
  }

  /** Nothing but a new failure takes an available backend away. */
  lemma OnlyFailureTrips(h: History, e: Event, b: string, threshold: int, timeout: real, now: real, later: real)
    requires now <= later
    requires Available(h, b, threshold, timeout, now) && !Available(h + [e], b, threshold, timeout, later)
    ensures e.Failure? && e.name == b
  {
    assert (h + [e])[..|h + [e]| - 1] == h;
  }

  /** A backend that fails `threshold` times in a row is taken out at once when the timeout is positive. */
  lemma {:induction false} ConsecutiveFailuresTrip(h: History, b: string, times: seq<real>, threshold: int,
                                                   timeout: real)
    requires timeout > 0.0 && |times| >= Limit(threshold)
    ensures var h' := h + seq(|times|, i requires 0 <= i < |times| => Failure(b, times[i]));
            FailuresSince(h', b) >= |times| && !Available(h', b, threshold, timeout, times[|times| - 1])
  {
    RunOfFailures(h, b, times);
  }

  /** Counted from a success, one or more failures leave the backend available exactly while they are fewer than the
      threshold, or once the timeout has passed since the last of them. */
  lemma AvailableUntilThreshold(h: History, b: string, times: seq<real>, threshold: int, timeout: real, now: real)
    requires times != []
    ensures var failed := seq(|times|, i requires 0 <= i < |times| => Failure(b, times[i]));
            Available(h + [Success(b)] + failed, b, threshold, timeout, now)
            <==> |times| < threshold || now - times[|times| - 1] >= timeout
  {
    hide FailuresSince, LastFailure;
    Extended(h, Success(b), b);
    RunOfFailures(h + [Success(b)], b, times);
  }

  /** A reset forgets failures, of one backend or of all; a backend never heard of is available. */
  lemma ResetForgets(h: History, b: string, other: string, threshold: int, timeout: real, now: real)
    ensures Available([], b, threshold, timeout, now)
    ensures Available(h + [Reset(None)], b, threshold, timeout, now)
    ensures Available(h + [Reset(Some(b))], b, threshold, timeout, now)
    ensures other != b ==>
              (Available(h + [Reset(Some(other))], b, threshold, timeout, now)
               <==> Available(h, b, threshold, timeout, now))
  {
    hide FailuresSince, LastFailure;
    Extended(h, Reset(None), b);
    Extended(h, Reset(Some(b)), b);
    Extended(h, Reset(Some(other)), b);
    assert FailuresSince([], b) == 0 by { NoFailures(b); }
  }

  lemma NoFailures(b: string)
    ensures FailuresSince([], b) == 0
  {}

  lemma {:induction false} RunOfFailures(h: History, b: string, times: seq<real>)
    ensures var h' := h + seq(|times|, i requires 0 <= i < |times| => Failure(b, times[i]));
            && FailuresSince(h', b) == FailuresSince(h, b) + |times|
            && LastFailure(h', b) == if times == [] then LastFailure(h, b) else Some(times[|times| - 1])
  {
    var h' := h + seq(|times|, i requires 0 <= i < |times| => Failure(b, times[i]));
    if times == [] {
      assert h' == h;
    } else {
      var n := |times| - 1;
      RunOfFailures(h, b, times[..n]);
      assert h'[..|h'| - 1] == h + seq(n, i requires 0 <= i < n => Failure(b, times[..n][i]));
    }
  }

  /** Half-open admits any number of calls: once the timeout has run out, checks at whatever times leave b available at
      every later time, however often it failed, until it fails again. */
  lemma {:induction false} AnyNumberOfProbes(h: History, checks: History, b: string, threshold: int, timeout: real,
                                             now: real, later: real)
    requires Recovered(h, b, timeout, now) && now <= later
    requires forall i :: 0 <= i < |checks| ==> checks[i].Check?
    ensures LastFailure(h + checks, b) == LastFailure(h, b) && FailuresSince(h + checks, b) == FailuresSince(h, b)
    ensures Available(h + checks, b, threshold, timeout, later)
  {
    if checks == [] {
      assert h + checks == h;
    } else {
      var init := checks[..|checks| - 1];
      AnyNumberOfProbes(h, init, b, threshold, timeout, now, later);
      Extended(h + init, checks[|checks| - 1], b);
      assert h + checks == h + init + [checks[|checks| - 1]];
    }
  }

  // ---- select_backend, hint "auto" ----

  const FALLBACK_CHAIN := ["polars", "duckdb", "pandas"]
  const AUTO_THRESHOLD := 100_000

  /** The first candidate that can be created and, when asked, passes its health probe. */
  function FirstUsable(names: seq<string>, creatable: set<string>, healthy: set<string>, probe: bool): Option<string> {
    if names == [] then None
    else if names[0] in creatable && (probe ==> names[0] in healthy) then Some(names[0])
    else FirstUsable(names[1..], creatable, healthy, probe)
  }

  /** The chain members available at `now`. */
  ghost function AvailableChain(h: History, names: seq<string>, threshold: int, timeout: real, now: real): seq<string> {
    if names == [] then []
    else
      var init, last := names[..|names| - 1], names[|names| - 1];
      var rest := AvailableChain(h, init, threshold, timeout, now);
      if Available(h, last, threshold, timeout, now) then rest + [last] else rest
  }

  /** Availability checks recorded at one instant do not change availability at that instant. */
  lemma {:induction false} ChecksAreQuiet(h: History, checks: History, b: string, threshold: int, timeout: real,
                                          now: real)
    requires forall i :: 0 <= i < |checks| ==> checks[i].Check? && checks[i].time == now
    ensures Available(h + checks, b, threshold, timeout, now) <==> Available(h, b, threshold, timeout, now)
    ensures NotBefore(h, now) ==> NotBefore(h + checks, now)
    ensures FailuresSince(h + checks, b) == FailuresSince(h, b) && LastFailure(h + checks, b) == LastFailure(h, b)
  {
    if checks == [] {
      assert h + checks == h;
    } else {
      ChecksAreQuiet(h, checks[..|checks| - 1], b, threshold, timeout, now);
      assert (h + checks)[..|h + checks| - 1] == h + checks[..|checks| - 1];
    }
  }

  function Chosen(chain: seq<string>, estimatedRows: int, creatable: set<string>, healthy: set<string>, probe: bool)
    : string
  {
    var candidates := if estimatedRows < AUTO_THRESHOLD || chain == [] then ["pandas"] else chain;
    var usable := FirstUsable(candidates, creatable, healthy, probe);
    if usable.Some? then usable.value else "pandas"
  }

  /** Below 100,000 rows the choice is pandas; from there on polars where it is available and usable, else duckdb where
      that is, else pandas. */
  lemma ChoiceMeaning(h: History, threshold: int, timeout: real, now: real, estimatedRows: int, creatable: set<string>,
                      healthy: set<string>, probe: bool)
    ensures var fit := (b: string) => Available(h, b, threshold, timeout, now) && b in creatable
                                      && (probe ==> b in healthy);
            Chosen(AvailableChain(h, FALLBACK_CHAIN, threshold, timeout, now), estimatedRows, creatable, healthy, probe)
            == if estimatedRows < 100_000 then "pandas" else if fit("polars") then "polars"
               else if fit("duckdb") then "duckdb" else "pandas"
  {
    hide Available, AvailableChain;
    ChainOrder(h, threshold, timeout, now);
    UsableFirst("pandas", [], creatable, healthy, probe);
    assert ["pandas"] + [] == ["pandas"];
    var up := (b: string) => Available(h, b, threshold, timeout, now);
    UsableOf(up("polars"), up("duckdb"), up("pandas"), creatable, healthy, probe);
  }

  lemma UsableOf(polars: bool, duckdb: bool, pandas: bool, creatable: set<string>, healthy: set<string>, probe: bool)
    ensures var fit := (b: string) => b in creatable && (probe ==> b in healthy);
            var names := (if polars then ["polars"] else []) + (if duckdb then ["duckdb"] else [])
                         + (if pandas then ["pandas"] else []);
            FirstUsable(names, creatable, healthy, probe) ==
            if polars && fit("polars") then Some("polars") else if duckdb && fit("duckdb") then Some("duckdb")
            else if pandas && fit("pandas") then Some("pandas") else None
  {
    var c := if pandas then ["pandas"] else [];
    var b := (if duckdb then ["duckdb"] else []) + c;
    UsableFirst("pandas", [], creatable, healthy, probe);
    UsableFirst("duckdb", c, creatable, healthy, probe);
    UsableFirst("polars", b, creatable, healthy, probe);
    assert ["pandas"] + [] == ["pandas"];
    assert (if polars then ["polars"] else []) + b ==
           (if polars then ["polars"] else []) + (if duckdb then ["duckdb"] else []) + c;
  }

  lemma UsableFirst(name: string, rest: seq<string>, creatable: set<string>, healthy: set<string>, probe: bool)
    ensures FirstUsable([name] + rest, creatable, healthy, probe) ==
            if name in creatable && (probe ==> name in healthy) then Some(name)
            else FirstUsable(rest, creatable, healthy, probe)
  {
    assert ([name] + rest)[1..] == rest;
  }

  /** The available chain names the backends in that order. */
  lemma ChainOrder(h: History, threshold: int, timeout: real, now: real)
    ensures var up := (b: string) => Available(h, b, threshold, timeout, now);
            AvailableChain(h, FALLBACK_CHAIN, threshold, timeout, now) ==
            (if up("polars") then ["polars"] else []) + (if up("duckdb") then ["duckdb"] else [])
            + (if up("pandas") then ["pandas"] else [])
  {
    hide Available;
    ChainLast(h, [], "polars", threshold, timeout, now);
    ChainLast(h, ["polars"], "duckdb", threshold, timeout, now);
    ChainLast(h, ["polars", "duckdb"], "pandas", threshold, timeout, now);
    assert [] + ["polars"] == ["polars"] && ["polars"] + ["duckdb"] == ["polars", "duckdb"];
    assert ["polars", "duckdb"] + ["pandas"] == FALLBACK_CHAIN;
  }

  lemma ChainLast(h: History, names: seq<string>, last: string, threshold: int, timeout: real, now: real)
    ensures AvailableChain(h, names + [last], threshold, timeout, now) ==
            AvailableChain(h, names, threshold, timeout, now)
            + (if Available(h, last, threshold, timeout, now) then [last] else [])
  {
    assert (names + [last])[..|names|] == names;
  }

  method SelectAuto(cb: CircuitBreaker, estimatedRows: int, creatable: set<string>, healthy: set<string>, probe: bool,
                    now: real)
    returns (name: string)
    requires cb.Valid() && NotBefore(cb.history, now)
    modifies cb
    ensures cb.Valid()
    ensures var chain := AvailableChain(old(cb.history), FALLBACK_CHAIN, cb.threshold, cb.timeout, now);
            name == Chosen(chain, estimatedRows, creatable, healthy, probe)
  {
    var candidates: seq<string>;
    ghost var h0 := cb.history;
    if estimatedRows < AUTO_THRESHOLD {
      candidates := ["pandas"];
    } else {
      candidates := CandidatesInChain(cb, now);
      if candidates == [] {
        candidates := ["pandas"];
      }
    }
    ghost var all := candidates;
    var i := 0;
    while i < |candidates|
      invariant 0 <= i <= |candidates|
      invariant cb.Valid() && NotBefore(cb.history, now)
      invariant FirstUsable(candidates, creatable, healthy, probe)
                == FirstUsable(candidates[i..], creatable, healthy, probe)
    {
      var candidate := candidates[i];
      i := i + 1;
      if candidate in creatable {
        if !probe {
          return candidate;
        }
        if candidate in healthy {
          cb.RecordSuccess(candidate);
          return candidate;
        }
        cb.RecordFailure(candidate, now);
        assert cb.history[..|cb.history| - 1] + [Failure(candidate, now)] == cb.history;
      }
    }
    return "pandas";
  }

  method CandidatesInChain(cb: CircuitBreaker, now: real) returns (names: seq<string>)
    requires cb.Valid() && NotBefore(cb.history, now)
    modifies cb`states, cb`history
    ensures cb.Valid() && NotBefore(cb.history, now)
    ensures names == AvailableChain(old(cb.history), FALLBACK_CHAIN, cb.threshold, cb.timeout, now)
  {
    names := [];
    ghost var checks: History := [];
    for i := 0 to |FALLBACK_CHAIN|
      invariant cb.Valid() && cb.history == old(cb.history) + checks
      invariant forall j :: 0 <= j < |checks| ==> checks[j].Check? && checks[j].time == now
      invariant names == AvailableChain(old(cb.history), FALLBACK_CHAIN[..i], cb.threshold, cb.timeout, now)
    {
      ChecksAreQuiet(old(cb.history), checks, FALLBACK_CHAIN[i], cb.threshold, cb.timeout, now);
      var available := cb.IsAvailable(FALLBACK_CHAIN[i], now);
      checks := checks + [Check(FALLBACK_CHAIN[i], now)];
      assert FALLBACK_CHAIN[..i + 1][..i] == FALLBACK_CHAIN[..i];
      if available {
        names := names + [FALLBACK_CHAIN[i]];
      }
    }
    assert FALLBACK_CHAIN[..|FALLBACK_CHAIN|] == FALLBACK_CHAIN;
    ChecksAreQuiet(old(cb.history), checks, "", cb.threshold, cb.timeout, now);
  }
}
