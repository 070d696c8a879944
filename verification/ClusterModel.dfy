/** LocalWorker, RoundRobinRouter and cluster_health of cluster.py: lock-delimited steps of any number of callers. */
module ClusterModel {
  import opened Values

  datatype WorkerStatus = Active | Draining | Unavailable

  // ---- One worker under interleaved calls ----

  /** Where a call of execute_query is: counted in, its outcome recorded, or counted out (recorded or not). */
  datatype Phase = Running | Recorded | Finished | Abandoned

  datatype Action =
    | Begin(call: nat)
    | Succeed(call: nat, latency: real)
    | Fail(call: nat)
    | Finish(call: nat)
    | Abandon(call: nat)  // an exception that is not an Exception: only the finally block runs

  datatype Worker = Worker(active: int, executed: int, errors: int, totalLatency: real, calls: map<nat, Phase>)

  const IDLE := Worker(0, 0, 0, 0.0, map[])

  ghost predicate Enabled(w: Worker, a: Action) {
    match a
    case Begin(c) => c !in w.calls
    case Succeed(c, l) => c in w.calls && w.calls[c] == Running && l >= 0.0
    case Fail(c) => c in w.calls && w.calls[c] == Running
    case Finish(c) => c in w.calls && w.calls[c] == Recorded
    case Abandon(c) => c in w.calls && w.calls[c] == Running
  }

  ghost function Apply(w: Worker, a: Action): Worker {
    match a
    case Begin(c) => w.(active := w.active + 1, calls := w.calls[c := Running])
    case Succeed(c, l) =>
      w.(executed := w.executed + 1, totalLatency := w.totalLatency + l, calls := w.calls[c := Recorded])
    case Fail(c) => w.(errors := w.errors + 1, calls := w.calls[c := Recorded])
    case Finish(c) => w.(active := w.active - 1, calls := w.calls[c := Finished])
    case Abandon(c) => w.(active := w.active - 1, calls := w.calls[c := Abandoned])
  }

  /** The worker, one locked region per method. `calls` only exists in the proof. */
  class LocalWorker {
    var activeQueries: int
    var queriesExecuted: int
    var errors: int
    var totalLatency: real
    ghost var calls: map<nat, Phase>

    ghost function State(): Worker
      reads this
    {
      Worker(activeQueries, queriesExecuted, errors, totalLatency, calls)
    }

    constructor ()
      ensures State() == IDLE
    {
      activeQueries, queriesExecuted, errors, totalLatency, calls := 0, 0, 0, 0.0, map[];
    }

    method BeginQuery(ghost call: nat)
      requires Enabled(State(), Begin(call))
      modifies this
      ensures State() == Apply(old(State()), Begin(call))
      ensures activeQueries == old(activeQueries) + 1
    {
      activeQueries := activeQueries + 1;
      calls := calls[call := Running];
    }

    method RecordSuccess(ghost call: nat, elapsed: real)
      requires Enabled(State(), Succeed(call, elapsed))
      modifies this
      ensures State() == Apply(old(State()), Succeed(call, elapsed))
      ensures queriesExecuted == old(queriesExecuted) + 1 && totalLatency == old(totalLatency) + elapsed
    {
      queriesExecuted := queriesExecuted + 1;
      totalLatency := totalLatency + elapsed;
      calls := calls[call := Recorded];
    }

    method RecordError(ghost call: nat)
      requires Enabled(State(), Fail(call))
      modifies this
      ensures State() == Apply(old(State()), Fail(call))
      ensures errors == old(errors) + 1 && totalLatency == old(totalLatency)
    {
      errors := errors + 1;
      calls := calls[call := Recorded];
    }

    /** The finally block. */
    method EndQuery(ghost call: nat)
      requires Enabled(State(), Finish(call)) || Enabled(State(), Abandon(call))
      modifies this
      ensures State() == Apply(old(State()), if old(calls)[call] == Recorded then Finish(call) else Abandon(call))
      ensures activeQueries == old(activeQueries) - 1
    {
      activeQueries := activeQueries - 1;
      calls := calls[call := if calls[call] == Recorded then Finished else Abandoned];
    }

    method HealthCheck() returns (h: Health)
      ensures h == HealthOf(State())
    {
      h := Health(Active, queriesExecuted, errors, activeQueries,
        if queriesExecuted > 0 then totalLatency / queriesExecuted as real else 0.0);
    }
  }

  ghost function InPhase(calls: map<nat, Phase>, phases: set<Phase>): (r: set<nat>)
    ensures r <= calls.Keys
  {
    set c | c in calls && calls[c] in phases
  }

  ghost predicate Counted(w: Worker) {
    && w.active == |InPhase(w.calls, {Running, Recorded})|
    && w.executed + w.errors == |InPhase(w.calls, {Recorded, Finished})|
    && w.executed >= 0 && w.errors >= 0 && w.totalLatency >= 0.0
    && (w.executed == 0 ==> w.totalLatency == 0.0)
  }

  /** How a move changes the number of calls in some phases. */
  lemma Moved(calls: map<nat, Phase>, c: nat, to: Phase, phases: set<Phase>)
    ensures |InPhase(calls[c := to], phases)| ==
            |InPhase(calls, phases)| + (if to in phases then 1 else 0)
            - (if c in calls && calls[c] in phases then 1 else 0)
  {
    var before, after := InPhase(calls, phases), InPhase(calls[c := to], phases);
    if to in phases {
      assert after == before + {c};
    } else {
      assert after == before - {c};
    }
  }

  lemma StepKeepsCounts(w: Worker, a: Action)
    requires Counted(w) && Enabled(w, a)
    ensures Counted(Apply(w, a))
  {
    hide InPhase;
    var to := Apply(w, a).calls[a.call];
    Moved(w.calls, a.call, to, {Running, Recorded});
    Moved(w.calls, a.call, to, {Recorded, Finished});
  }

  /** A schedule: every step taken when its caller is ready for it. */
  ghost predicate Schedule(actions: seq<Action>) {
    actions == [] || (Schedule(actions[..|actions| - 1])
                      && Enabled(After(actions[..|actions| - 1]), actions[|actions| - 1]))
  }

  ghost function After(actions: seq<Action>): Worker {
    if actions == [] then IDLE else Apply(After(actions[..|actions| - 1]), actions[|actions| - 1])
  }

  /** In every interleaving the counters count the calls in their phases. */
  lemma {:induction false} CountsAlwaysHold(actions: seq<Action>)
    requires Schedule(actions)
    ensures Counted(After(actions))
  {
    if actions == [] {
      assert InPhase(map[], {Running, Recorded}) == {};
      assert InPhase(map[], {Recorded, Finished}) == {};
    } else {
      CountsAlwaysHold(actions[..|actions| - 1]);
      StepKeepsCounts(After(actions[..|actions| - 1]), actions[|actions| - 1]);
    }
  }

  /** The positions in a run of the steps of some kind. */
  ghost function Steps(actions: seq<Action>, kind: Action -> bool): (r: set<nat>)
    ensures forall i :: i in r <==> 0 <= i < |actions| && kind(actions[i])
  {
    set i: nat | i < |actions| && kind(actions[i])
  }

  lemma OneMore(actions: seq<Action>, kind: Action -> bool)
    requires actions != []
    ensures |Steps(actions, kind)| ==
            |Steps(actions[..|actions| - 1], kind)| + (if kind(actions[|actions| - 1]) then 1 else 0)
  {
    var n := |actions| - 1;
    var before := Steps(actions[..n], kind);
    assert Steps(actions, kind) == if kind(actions[n]) then before + {n} else before;
  }

  /** The latencies of the queries that a run records as successful. */
  ghost function Latencies(actions: seq<Action>): (r: real)
    ensures actions == [] ==> r == 0.0
    ensures |actions| == 1 ==> r == if actions[0].Succeed? then actions[0].latency else 0.0
  {
    if actions == [] then 0.0
    else
      var last := actions[|actions| - 1];
      assert |actions| == 1 ==> actions[..|actions| - 1] == [];
      Latencies(actions[..|actions| - 1]) + if last.Succeed? then last.latency else 0.0
  }

  lemma {:induction false} LatenciesSplit(a: seq<Action>, b: seq<Action>)
    ensures Latencies(a + b) == Latencies(a) + Latencies(b)
  {
    if b == [] {
      assert a + b == a;
    } else {
      LatenciesSplit(a, b[..|b| - 1]);
      assert (a + b)[..|a + b| - 1] == a + b[..|b| - 1];
    }
  }

  /** After any run the counters are the numbers of outcomes so far, and the total is the sum of the latencies. */
  lemma {:induction false} CountersOfRun(actions: seq<Action>)
    ensures var w := After(actions);
            && w.totalLatency == Latencies(actions)
            && w.executed == |Steps(actions, (a: Action) => a.Succeed?)|
            && w.errors == |Steps(actions, (a: Action) => a.Fail?)|
            && w.active == |Steps(actions, (a: Action) => a.Begin?)|
                           - |Steps(actions, (a: Action) => a.Finish? || a.Abandon?)|
  {
    if actions != [] {
      var n := |actions| - 1;
      var before, last := actions[..n], actions[n];
      CountersOfRun(before);
      OneMore(actions, (a: Action) => a.Succeed?);
      OneMore(actions, (a: Action) => a.Fail?);
      OneMore(actions, (a: Action) => a.Begin?);
      OneMore(actions, (a: Action) => a.Finish? || a.Abandon?);
    }
  }

  /** When every call has ended nothing is active, and every call that was not abandoned was recorded once. */
  lemma QuietWorker(w: Worker)
    requires Counted(w)
    requires forall c :: c in w.calls ==> w.calls[c] == Finished || w.calls[c] == Abandoned
    ensures w.active == 0
    ensures w.executed + w.errors == |w.calls| - |InPhase(w.calls, {Abandoned})|
  {
    assert InPhase(w.calls, {Running, Recorded}) == {};
    var abandoned, recorded := InPhase(w.calls, {Abandoned}), InPhase(w.calls, {Recorded, Finished});
    assert recorded !! abandoned && recorded + abandoned == w.calls.Keys;
    DisjointSize(recorded, abandoned);
  }

  lemma DisjointSize(a: set<nat>, b: set<nat>)
    requires a !! b
    ensures |a + b| == |a| + |b|
  {}

  // ---- Aggregate health ----

  datatype Health = Health(status: WorkerStatus, executed: int, errors: int, active: int, avgLatency: real)

  function SumExecuted(hs: seq<Health>): int {
    if hs == [] then 0 else SumExecuted(hs[..|hs| - 1]) + hs[|hs| - 1].executed
  }

  function SumErrors(hs: seq<Health>): int {
    if hs == [] then 0 else SumErrors(hs[..|hs| - 1]) + hs[|hs| - 1].errors
  }

  function WeightedLatency(hs: seq<Health>): real {
    if hs == [] then 0.0 else WeightedLatency(hs[..|hs| - 1]) + hs[|hs| - 1].avgLatency * hs[|hs| - 1].executed as real
  }

  function WithStatus(hs: seq<Health>, status: WorkerStatus): nat {
    if hs == [] then 0
    else WithStatus(hs[..|hs| - 1], status) + if hs[|hs| - 1].status == status then 1 else 0
  }

  datatype ClusterHealth = ClusterHealth(totalWorkers: nat, activeWorkers: nat, unavailableWorkers: nat,
                                         totalQueries: int, totalErrors: int, errorRate: real, avgLatency: real,
                                         workerHealth: seq<Health>)

  /** Every worker is active, draining or unavailable. */
  lemma {:induction false} StatusesPartition(hs: seq<Health>)
    ensures WithStatus(hs, Active) + WithStatus(hs, Draining) + WithStatus(hs, Unavailable) == |hs|
  {
    if hs != [] {
      StatusesPartition(hs[..|hs| - 1]);
    }
  }

  /** The totals of two clusters together are their sums, and those of one worker its own. */
  lemma {:induction false} TotalsSplit(a: seq<Health>, b: seq<Health>, h: Health, status: WorkerStatus)
    ensures SumExecuted(a + b) == SumExecuted(a) + SumExecuted(b) && SumErrors(a + b) == SumErrors(a) + SumErrors(b)
    ensures WithStatus(a + b, status) == WithStatus(a, status) + WithStatus(b, status)
    ensures SumExecuted([h]) == h.executed && SumErrors([h]) == h.errors
    ensures WithStatus([h], status) == if h.status == status then 1 else 0
  {
    assert [h][..0] == [];
    if b == [] {
      assert a + b == a;
    } else {
      var n := |b| - 1;
      TotalsSplit(a, b[..n], h, status);
      assert (a + b)[..|a + b| - 1] == a + b[..n];
    }
  }

  method ClusterHealthOf(hs: seq<Health>) returns (r: ClusterHealth)
    ensures r.workerHealth == hs && r.totalWorkers == |hs|
    ensures r.activeWorkers == WithStatus(hs, Active) && r.unavailableWorkers == WithStatus(hs, Unavailable)
    ensures r.totalWorkers == r.activeWorkers + r.unavailableWorkers + WithStatus(hs, Draining)
    ensures r.totalQueries == SumExecuted(hs) && r.totalErrors == SumErrors(hs)
    ensures r.errorRate == if r.totalQueries + r.totalErrors > 0
                           then r.totalErrors as real / (r.totalQueries + r.totalErrors) as real else 0.0
    ensures r.avgLatency == if r.totalQueries > 0 then WeightedLatency(hs) / r.totalQueries as real else 0.0
  {
    var total, errs, weighted, active, unavailable := 0, 0, 0.0, 0, 0;
    for i := 0 to |hs|
      invariant total == SumExecuted(hs[..i]) && errs == SumErrors(hs[..i]) && weighted == WeightedLatency(hs[..i])
      invariant active == WithStatus(hs[..i], Active) && unavailable == WithStatus(hs[..i], Unavailable)
    {
      assert hs[..i + 1][..i] == hs[..i];
      total := total + hs[i].executed;
      errs := errs + hs[i].errors;
      weighted := weighted + hs[i].avgLatency * hs[i].executed as real;
      if hs[i].status == Active {
        active := active + 1;
      }
      if hs[i].status == Unavailable {
        unavailable := unavailable + 1;
      }
    }
    assert hs[..|hs|] == hs;
    StatusesPartition(hs);
    var ops := total + errs;
    r := ClusterHealth(|hs|, active, unavailable, total, errs, if ops > 0 then errs as real / ops as real else 0.0,
      if total > 0 then weighted / total as real else 0.0, hs);
  }

  ghost function HealthOf(w: Worker): Health {
    Health(Active, w.executed, w.errors, w.active, if w.executed > 0 then w.totalLatency / w.executed as real else 0.0)
  }

  ghost function TotalLatency(ws: seq<Worker>): real {
    if ws == [] then 0.0 else TotalLatency(ws[..|ws| - 1]) + ws[|ws| - 1].totalLatency
  }

  ghost function Healths(ws: seq<Worker>): (r: seq<Health>)
    ensures |r| == |ws| && forall i :: 0 <= i < |ws| ==> r[i] == HealthOf(ws[i])
  {
    seq(|ws|, i requires 0 <= i < |ws| => HealthOf(ws[i]))
  }

  ghost function Tagged(i: nat, calls: set<nat>): (r: set<(nat, nat)>)
    ensures forall p :: p in r <==> p.0 == i && p.1 in calls
  {
    set c | c in calls :: (i, c)
  }

  /** The calls of all workers that have been recorded, by worker and call. */
  ghost function RecordedCalls(ws: seq<Worker>): (r: set<(nat, nat)>)
    ensures forall p :: p in r <==>
              p.0 < |ws| && p.1 in ws[p.0].calls
              && (ws[p.0].calls[p.1] == Recorded || ws[p.0].calls[p.1] == Finished)
  {
    if ws == [] then {}
    else RecordedCalls(ws[..|ws| - 1]) + Tagged(|ws| - 1, InPhase(ws[|ws| - 1].calls, {Recorded, Finished}))
  }

  /** Executed queries and errors of the cluster together are the recorded calls of all its workers. */
  lemma {:induction false} ClusterCountsCalls(ws: seq<Worker>)
    requires forall i :: 0 <= i < |ws| ==> Counted(ws[i])
    ensures SumExecuted(Healths(ws)) + SumErrors(Healths(ws)) == |RecordedCalls(ws)|
  {
    hide Counted, Tagged, InPhase;
    if ws != [] {
      var n := |ws| - 1;
      ClusterCountsCalls(ws[..n]);
      assert Healths(ws)[..n] == Healths(ws[..n]);
      var last := InPhase(ws[n].calls, {Recorded, Finished});
      CountedIs(ws[n]);
      TaggedSize(n, last);
      assert RecordedCalls(ws[..n]) !! Tagged(n, last);
    }
  }

  lemma CountedIs(w: Worker)
    requires Counted(w)
    ensures w.executed + w.errors == |InPhase(w.calls, {Recorded, Finished})|
  {}

  lemma {:induction false} TaggedSize(i: nat, calls: set<nat>)
    ensures |Tagged(i, calls)| == |calls|
  {
    hide Tagged;
    if calls == {} {
      assert Tagged(i, calls) == {};
    } else {
      var x :| x in calls;
      TaggedSize(i, calls - {x});
      assert Tagged(i, calls) == Tagged(i, calls - {x}) + {(i, x)};
    }
  }

  /** Weighting the workers' averages by their query counts recovers the true total latency, idle workers included. */
  lemma {:induction false} WeightsRecoverLatency(ws: seq<Worker>)
    requires forall i :: 0 <= i < |ws| ==> Counted(ws[i])
    ensures WeightedLatency(Healths(ws)) == TotalLatency(ws)
  {
    if ws != [] {
      var n := |ws| - 1;
      WeightsRecoverLatency(ws[..n]);
      assert Healths(ws)[..n] == Healths(ws[..n]);
      var w := ws[n];
      if w.executed > 0 {
        assert w.totalLatency / w.executed as real * w.executed as real == w.totalLatency;
      }
    }
  }

  // ---- Round-robin routing ----

  class RoundRobinRouter {
    var counter: nat

    constructor ()
      ensures counter == 0
    {
      counter := 0;
    }

    method SelectWorker<W>(workers: seq<W>) returns (r: Res<W>)
      modifies this
      ensures workers == [] ==> r.Err? && counter == old(counter)
      ensures workers != [] ==> r == Ok(workers[old(counter) % |workers|]) && counter == old(counter) + 1
    {
      if workers == [] {
        return Err;
      }
      var idx := counter % |workers|;
      counter := counter + 1;
      return Ok(workers[idx]);
    }
  }

  /** How often worker i of k is chosen in n selections that start at counter value `start`. */
  ghost function Chosen(start: nat, n: nat, k: nat, i: nat): nat
    requires k > 0
  {
    if n == 0 then 0
    else
      var c := start + n - 1;
      Chosen(start, n - 1, k, i) + (if c % k == i then 1 else 0)
  }

  lemma NextQuotient(n: nat, k: nat)
    requires k > 0
    ensures (n + 1) / k == (if n % k == k - 1 then n / k + 1 else n / k)
    ensures (n + 1) % k == (if n % k == k - 1 then 0 else n % k + 1)
  {
    var q, r := n / k, n % k;
    assert n == q * k + r;
    if r == k - 1 {
      assert n + 1 == (q + 1) * k + 0;
      DivisionIsUnique(n + 1, k, q + 1, 0);
    } else {
      DivisionIsUnique(n + 1, k, q, r + 1);
    }
  }

  lemma DivisionIsUnique(n: int, k: nat, q: int, r: int)
    requires k > 0 && 0 <= r < k && n == q * k + r
    ensures n / k == q && n % k == r
  {
    var q', r' := n / k, n % k;
    assert (q - q') * k == r' - r;
    MultipleIsFar(q - q', k);
  }

  lemma MultipleIsFar(d: int, k: int)
    requires k > 0
    ensures d >= 1 ==> d * k >= k
    ensures d <= -1 ==> d * k <= -k
  {}

  /** From a fresh counter, n selections over k fixed workers. */
  lemma {:induction false} ChosenFromZero(n: nat, k: nat, i: nat)
    requires i < k
    ensures Chosen(0, n, k, i) == n / k + (if i < n % k then 1 else 0)
  {
    if n == 0 {
      DivisionIsUnique(0, k, 0, 0);
    } else {
      ChosenFromZero(n - 1, k, i);
      NextQuotient(n - 1, k);
    }
  }

  lemma {:induction false} ChosenSplits(a: nat, n: nat, k: nat, i: nat)
    requires k > 0
    ensures Chosen(0, a + n, k, i) == Chosen(0, a, k, i) + Chosen(a, n, k, i)
  {
    if n > 0 {
      ChosenSplits(a, n - 1, k, i);
      assert a + n - 1 == a + (n - 1);
    }
  }

  lemma SumQuotient(a: nat, n: nat, k: nat)
    requires k > 0
    ensures var carry := if a % k + n % k < k then 0 else 1;
            (a + n) / k == a / k + n / k + carry && (a + n) % k == a % k + n % k - carry * k
  {
    var qa, ra, qn, rn := a / k, a % k, n / k, n % k;
    var carry := if ra + rn < k then 0 else 1;
    assert a == qa * k + ra && n == qn * k + rn;
    Distribute(qa, qn, carry, k);
    DivisionIsUnique(a + n, k, qa + qn + carry, ra + rn - carry * k);
  }

  lemma Distribute(x: int, y: int, z: int, k: int)
    ensures (x + y + z) * k == x * k + y * k + z * k
  {}

  lemma RoundedUp(n: nat, k: nat)
    requires k > 0
    ensures (n + k - 1) / k == n / k + (if n % k == 0 then 0 else 1)
  {
    SumQuotient(n, k - 1, k);
    DivisionIsUnique(k - 1, k, 0, k - 1);
  }

  /** Any n consecutive selections give every worker n/k of them, rounded down or up. */
  lemma RoundRobinIsFair(start: nat, n: nat, k: nat, i: nat)
    requires i < k
    ensures n / k <= Chosen(start, n, k, i) <= (n + k - 1) / k
  {
    hide Chosen;
    ChosenSplits(start, n, k, i);
    ChosenFromZero(start, k, i);
    ChosenFromZero(start + n, k, i);
    SumQuotient(start, n, k);
    RoundedUp(n, k);
    RemainderRange(start, k);
    RemainderRange(n, k);
  }

  lemma RemainderRange(n: nat, k: nat)
    requires k > 0
    ensures 0 <= n % k < k
  {}
}
