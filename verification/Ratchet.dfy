/** check_ratchet of scripts/check_import_cycles.py: current components against the saved ones. */
module Ratchet {
  import opened ImportGraph
  import opened ImportCycles

  /** `scc_set <= baseline`. */
  predicate Within(scc: seq<Module>, saved: set<Module>) {
    forall x :: x in scc ==> x in saved
  }

  predicate Covered(scc: seq<Module>, baseline: seq<set<Module>>) {
    exists k :: 0 <= k < |baseline| && Within(scc, baseline[k])
  }

  /** The components no single baseline set covers, in report order. */
  function Violations(cycles: seq<seq<Module>>, baseline: seq<set<Module>>): seq<seq<Module>> {
    if cycles == [] then []
    else
      var rest := Violations(cycles[..|cycles| - 1], baseline);
      var last := cycles[|cycles| - 1];
      if Covered(last, baseline) then rest else rest + [last]
  }

  method CheckRatchet(cycles: seq<seq<Module>>, baseline: seq<set<Module>>) returns (violations: seq<seq<Module>>)
    ensures violations == Violations(cycles, baseline)
  {
    violations := [];
    for i := 0 to |cycles|
      invariant violations == Violations(cycles[..i], baseline)
    {
      assert cycles[..i + 1][..i] == cycles[..i];
      var covered := false;
      var k := 0;
      while k < |baseline| && !covered
        invariant 0 <= k <= |baseline|
        invariant covered ==> Covered(cycles[i], baseline)
        invariant !covered ==> forall j :: 0 <= j < k ==> !Within(cycles[i], baseline[j])
        decreases |baseline| - k, !covered
      {
        covered := Within(cycles[i], baseline[k]);
        k := k + 1;
      }
      if !covered {
        violations := violations + [cycles[i]];
      }
    }
    assert cycles[..|cycles|] == cycles;
  }

  lemma {:induction false} ViolationsExact(cycles: seq<seq<Module>>, baseline: seq<set<Module>>)
    ensures Violations(cycles, baseline) == [] <==> forall c :: c in cycles ==> Covered(c, baseline)
    ensures forall c :: c in Violations(cycles, baseline) <==> c in cycles && !Covered(c, baseline)
  {
    if cycles != [] {
      var init, last := cycles[..|cycles| - 1], cycles[|cycles| - 1];
      assert cycles == init + [last];
      ViolationsExact(init, baseline);
      if !Covered(last, baseline) {
        assert last in Violations(cycles, baseline);
        assert last in cycles;
      }
    }
  }

  /** Two modules sit together in one saved component. */
  ghost predicate Share(baseline: seq<set<Module>>, x: Module, y: Module) {
    exists k :: 0 <= k < |baseline| && x in baseline[k] && y in baseline[k]
  }

  ghost predicate CyclesShare(g: Graph, baseline: seq<set<Module>>) {
    forall x, y :: Mutual(g, x, y) && x != y ==> Share(baseline, x, y)
  }

  /** The modules in at least two of three sets. */
  function Majority(a: set<Module>, b: set<Module>, c: set<Module>): set<Module> {
    a * b + b * c + a * c
  }

  ghost predicate SavedTogether(baseline: seq<set<Module>>, s: set<Module>) {
    exists m :: 0 <= m < |baseline| && s <= baseline[m]
  }

  ghost predicate MajoritySaved(baseline: seq<set<Module>>, i: nat, j: nat, k: nat)
    requires i < |baseline| && j < |baseline| && k < |baseline|
  {
    SavedTogether(baseline, Majority(baseline[i], baseline[j], baseline[k]))
  }

  /** The majority of any three saved components lies inside a saved one. */
  ghost predicate Conformal(baseline: seq<set<Module>>) {
    forall i, j, k :: 0 <= i < |baseline| && 0 <= j < |baseline| && 0 <= k < |baseline| ==>
      MajoritySaved(baseline, i, j, k)
  }

  ghost predicate AllShare(xs: seq<Module>, baseline: seq<set<Module>>) {
    forall x, y :: x in xs && y in xs ==> Share(baseline, x, y)
  }

  /** All of xs, except perhaps the module at p, is in s. */
  ghost predicate HoldsBut(xs: seq<Module>, p: nat, s: set<Module>) {
    forall q :: 0 <= q < |xs| && q != p ==> xs[q] in s
  }

  /** Modules that share pairwise are saved together: drop each of the first three, cover the rest, take the
      majority. */
  lemma {:induction false} CoveredWhenShared(xs: seq<Module>, baseline: seq<set<Module>>)
    requires Conformal(baseline) && xs != [] && AllShare(xs, baseline)
    ensures Covered(xs, baseline)
    decreases |xs|
  {
    hide Conformal, Majority, HoldsBut;
    if |xs| <= 2 {
      assert Share(baseline, xs[0], xs[|xs| - 1]);
      var k :| 0 <= k < |baseline| && xs[0] in baseline[k] && xs[|xs| - 1] in baseline[k];
      assert Within(xs, baseline[k]);
    } else {
      var i := CoverWithout(xs, 0, baseline);
      var j := CoverWithout(xs, 1, baseline);
      var k := CoverWithout(xs, 2, baseline);
      MajorityCovers(xs, baseline, i, j, k);
    }
  }

  lemma CoverWithout(xs: seq<Module>, p: nat, baseline: seq<set<Module>>) returns (k: nat)
    requires Conformal(baseline) && p < |xs| && |xs| > 1 && AllShare(xs, baseline)
    ensures k < |baseline| && HoldsBut(xs, p, baseline[k])
    decreases |xs|, 0
  {
    hide Conformal, Share;
    var rest := xs[..p] + xs[p + 1..];
    CoveredWhenShared(rest, baseline);
    k :| 0 <= k < |baseline| && Within(rest, baseline[k]);
    forall q | 0 <= q < |xs| && q != p
      ensures xs[q] in baseline[k]
    {
      assert xs[q] == rest[if q < p then q else q - 1];
    }
  }

  lemma MajorityCovers(xs: seq<Module>, baseline: seq<set<Module>>, i: nat, j: nat, k: nat)
    requires Conformal(baseline) && i < |baseline| && j < |baseline| && k < |baseline| && |xs| > 2
    requires HoldsBut(xs, 0, baseline[i]) && HoldsBut(xs, 1, baseline[j]) && HoldsBut(xs, 2, baseline[k])
    ensures Covered(xs, baseline)
  {
    hide HoldsBut, Majority;
    assert MajoritySaved(baseline, i, j, k);
    var m :| 0 <= m < |baseline| && Majority(baseline[i], baseline[j], baseline[k]) <= baseline[m];
    MajorityHolds(xs, baseline[i], baseline[j], baseline[k]);
    assert Within(xs, baseline[m]);
  }

  lemma MajorityHolds(xs: seq<Module>, a: set<Module>, b: set<Module>, c: set<Module>)
    requires HoldsBut(xs, 0, a) && HoldsBut(xs, 1, b) && HoldsBut(xs, 2, c)
    ensures forall x :: x in xs ==> x in Majority(a, b, c)
  {
    forall x | x in xs
      ensures x in Majority(a, b, c)
    {
      var q :| 0 <= q < |xs| && xs[q] == x;
      assert q != 0 ==> x in a;
      assert q != 1 ==> x in b;
      assert q != 2 ==> x in c;
    }
  }

  lemma ComponentShares(g: Graph, scc: seq<Module>, baseline: seq<set<Module>>)
    requires |scc| > 1 && IsComponent(g, scc) && CyclesShare(g, baseline)
    ensures AllShare(scc, baseline)
  {
    hide Reaches, Mutual, Share;
    forall x, y | x in scc && y in scc
      ensures Share(baseline, x, y)
    {
      if x == y {
        var z := if scc[0] == x then scc[1] else scc[0];
        assert scc[0] != scc[1] && z in scc && z != x;
        SharesItself(baseline, x, z);
      }
    }
  }

  lemma SharesItself(baseline: seq<set<Module>>, x: Module, z: Module)
    requires Share(baseline, x, z)
    ensures Share(baseline, x, x)
  {}

  /** What silence of the ratchet means under a conformal baseline. */
  lemma ConformalIsEnough(g: Graph, cycles: seq<seq<Module>>, baseline: seq<set<Module>>)
    requires IsCycleReport(g, cycles) && Conformal(baseline)
    ensures Violations(cycles, baseline) == [] <==> CyclesShare(g, baseline)
  {
    hide Reaches, IsComponent, Covered, Conformal, AllShare;
    ViolationsExact(cycles, baseline);
    if CyclesShare(g, baseline) {
      forall c | c in cycles
        ensures Covered(c, baseline)
      {
        ComponentShares(g, c, baseline);
        CoveredWhenShared(c, baseline);
      }
    }
    if Violations(cycles, baseline) == [] {
      forall x, y | Mutual(g, x, y) && x != y
        ensures Share(baseline, x, y)
      {
        var i :| 0 <= i < |cycles| && x in cycles[i];
        assert Covered(cycles[i], baseline);
        CoveredMembersShare(g, cycles[i], baseline, x, y);
      }
    }
  }

  lemma CoveredMembersShare(g: Graph, scc: seq<Module>, baseline: seq<set<Module>>, x: Module, y: Module)
    requires IsComponent(g, scc) && Covered(scc, baseline) && x in scc && Mutual(g, x, y)
    ensures Share(baseline, x, y)
  {
    hide Reaches;
  }

  /** The graph in which every module of s imports all the others. */
  function Complete(s: set<Module>): Graph {
    map x | x in s :: s - {x}
  }

  lemma CompleteMutual(s: set<Module>, x: Module, y: Module)
    requires x in s
    ensures y in s <==> Mutual(Complete(s), x, y)
  {
    hide Reaches;
    var g := Complete(s);
    if y in s && y != x {
      ReachesImport(g, x, y);
      ReachesImport(g, y, x);
    }
    ReachesSelf(g, x);
    if Mutual(g, x, y) {
      ClosedKeepsReach(g, s, x, y);
    }
  }

  lemma {:induction false} Listed(s: set<Module>) returns (xs: seq<Module>)
    ensures Distinct(xs) && forall x :: x in xs <==> x in s
  {
    if s == {} {
      xs := [];
    } else {
      var x :| x in s;
      var rest := Listed(s - {x});
      xs := [x] + rest;
    }
  }

  /** A majority that no saved component contains has two members that differ, for each member is saved somewhere. */
  lemma LooseMajority(baseline: seq<set<Module>>, s: set<Module>, i: nat, j: nat, k: nat, xs: seq<Module>)
    requires i < |baseline| && j < |baseline| && k < |baseline| && s == Majority(baseline[i], baseline[j], baseline[k])
    requires !SavedTogether(baseline, s) && forall x :: x in xs <==> x in s
    ensures |xs| > 1 && AllShare(xs, baseline)
  {
    hide SavedTogether, Share;
    forall x, y | x in xs && y in xs
      ensures Share(baseline, x, y)
    {
      MajorityShares(baseline, i, j, k, x, y);
    }
    if |xs| <= 1 {
      FewAreTogether(baseline, s, i, xs);
    }
  }

  lemma MajorityShares(baseline: seq<set<Module>>, i: nat, j: nat, k: nat, x: Module, y: Module)
    requires i < |baseline| && j < |baseline| && k < |baseline|
    requires {x, y} <= Majority(baseline[i], baseline[j], baseline[k])
    ensures Share(baseline, x, y)
  {}

  lemma FewAreTogether(baseline: seq<set<Module>>, s: set<Module>, i: nat, xs: seq<Module>)
    requires i < |baseline| && |xs| <= 1 && AllShare(xs, baseline) && forall x :: x in xs <==> x in s
    ensures SavedTogether(baseline, s)
  {
    if xs == [] {
      assert s <= baseline[i];
    } else {
      assert Share(baseline, xs[0], xs[0]);
      var m :| 0 <= m < |baseline| && xs[0] in baseline[m] && xs[0] in baseline[m];
      assert s <= baseline[m];
    }
  }

  /** Without it, the complete graph on a loose majority is reported although all its pairs share. */
  lemma ConformalIsNeeded(baseline: seq<set<Module>>) returns (g: Graph, cycles: seq<seq<Module>>)
    requires !Conformal(baseline)
    ensures IsCycleReport(g, cycles) && CyclesShare(g, baseline) && Violations(cycles, baseline) != []
  {
    hide Reaches, Mutual, Majority, SavedTogether, Violations, Covered, Share, Complete;
    var i, j, k :| 0 <= i < |baseline| && 0 <= j < |baseline| && 0 <= k < |baseline|
                   && !MajoritySaved(baseline, i, j, k);
    var s := Majority(baseline[i], baseline[j], baseline[k]);
    var xs := Listed(s);
    LooseMajority(baseline, s, i, j, k, xs);
    g, cycles := Complete(s), [xs];
    CompleteReport(s, xs);
    forall x, y | Mutual(g, x, y) && x != y
      ensures Share(baseline, x, y)
    {
      CompleteKeys(s, x, y);
    }
    assert xs in cycles;
    ViolationsExact(cycles, baseline);
    NotTogether(baseline, s, xs);
  }

  lemma CompleteKeys(s: set<Module>, x: Module, y: Module)
    requires Mutual(Complete(s), x, y) && x != y
    ensures x in s && y in s
  {
    hide Mutual;
    MutualAreKeys(Complete(s), x, y);
  }

  lemma CompleteReport(s: set<Module>, xs: seq<Module>)
    requires |xs| > 1 && Distinct(xs) && forall x :: x in xs <==> x in s
    ensures IsCycleReport(Complete(s), [xs])
  {
    hide Mutual, Complete;
    forall x, y | x in xs
      ensures y in xs <==> Mutual(Complete(s), x, y)
    {
      CompleteMutual(s, x, y);
    }
    forall x, y | Mutual(Complete(s), x, y) && x != y
      ensures x in xs
    {
      CompleteKeys(s, x, y);
    }
    assert [xs][0] == xs;
  }

  lemma NotTogether(baseline: seq<set<Module>>, s: set<Module>, xs: seq<Module>)
    requires !SavedTogether(baseline, s) && forall x :: x in xs <==> x in s
    ensures !Covered(xs, baseline)
  {}

  /** Silence means, for every graph, that no cycle joins modules saved apart exactly when the baseline is conformal. */
  lemma RatchetMeaningIff(baseline: seq<set<Module>>)
    ensures (forall g, cycles :: IsCycleReport(g, cycles) ==>
               (Violations(cycles, baseline) == [] <==> CyclesShare(g, baseline)))
            <==> Conformal(baseline)
  {
    hide IsCycleReport, Violations, CyclesShare, Conformal;
    if Conformal(baseline) {
      forall g, cycles | IsCycleReport(g, cycles)
        ensures Violations(cycles, baseline) == [] <==> CyclesShare(g, baseline)
      {
        ConformalIsEnough(g, cycles, baseline);
      }
    } else {
      var g, cycles := ConformalIsNeeded(baseline);
    }
  }

  /** Any two saved components are disjoint or one contains the other. */
  ghost predicate Laminar(baseline: seq<set<Module>>) {
    forall j, k :: 0 <= j < k < |baseline| ==>
      baseline[j] !! baseline[k] || baseline[j] <= baseline[k] || baseline[k] <= baseline[j]
  }

  lemma LaminarIsConformal(baseline: seq<set<Module>>)
    requires Laminar(baseline)
    ensures Conformal(baseline)
  {
    forall i, j, k | 0 <= i < |baseline| && 0 <= j < |baseline| && 0 <= k < |baseline|
      ensures MajoritySaved(baseline, i, j, k)
    {
      var a, b, c := baseline[i], baseline[j], baseline[k];
      assert Nested(a, b) && Nested(b, c) && Nested(a, c);
      LaminarMajority(a, b, c);
    }
  }

  ghost predicate Nested(a: set<Module>, b: set<Module>) {
    a !! b || a <= b || b <= a
  }

  lemma LaminarMajority(a: set<Module>, b: set<Module>, c: set<Module>)
    requires Nested(a, b) && Nested(b, c) && Nested(a, c)
    ensures Majority(a, b, c) <= a || Majority(a, b, c) <= b || Majority(a, b, c) <= c
  {
    if a !! b && b !! c {
      assert Majority(a, b, c) <= a;
    } else if a <= b && c <= b {
      assert Majority(a, b, c) <= b;
    }
  }

  /** load_baseline of what write_baseline wrote: the sets of the reported components. */
  ghost function SavedReport(cycles: seq<seq<Module>>): (r: seq<set<Module>>)
    ensures |r| == |cycles| && forall k :: 0 <= k < |cycles| ==> r[k] == Elements(cycles[k])
  {
    seq(|cycles|, k requires 0 <= k < |cycles| => Elements(cycles[k]))
  }

  /** Against the baseline the script wrote for one graph, silence about another means exactly that its cycles join no
      modules that the first had on different cycles or on none. */
  lemma RatchetMeaning(g: Graph, saved: seq<seq<Module>>, h: Graph, cycles: seq<seq<Module>>)
    requires IsCycleReport(g, saved) && IsCycleReport(h, cycles)
    ensures Violations(cycles, SavedReport(saved)) == []
            <==> forall x, y :: Mutual(h, x, y) && x != y ==> Mutual(g, x, y)
  {
    hide Reaches, Mutual, Violations, Conformal, Share;
    var baseline := SavedReport(saved);
    LaminarIsConformal(baseline);
    RatchetMeaningIff(baseline);
    forall x, y | x != y
      ensures Share(baseline, x, y) <==> Mutual(g, x, y)
    {
      SharedInReport(g, saved, x, y);
    }
  }

  lemma SharedInReport(g: Graph, saved: seq<seq<Module>>, x: Module, y: Module)
    requires IsCycleReport(g, saved) && x != y
    ensures Share(SavedReport(saved), x, y) <==> Mutual(g, x, y)
  {
    hide Mutual;
    var baseline := SavedReport(saved);
    if Mutual(g, x, y) {
      var i :| 0 <= i < |saved| && x in saved[i];
      assert x in baseline[i] && y in baseline[i];
    }
    if Share(baseline, x, y) {
      var k :| 0 <= k < |baseline| && x in baseline[k] && y in baseline[k];
      assert x in saved[k] && y in saved[k];
    }
  }

  /** Removing imports from a passing graph keeps it passing, whatever the baseline. */
  lemma RemovingImportsKeepsPassing(g: Graph, h: Graph, cyclesG: seq<seq<Module>>, cyclesH: seq<seq<Module>>,
                                    baseline: seq<set<Module>>)
    requires IsCycleReport(g, cyclesG) && IsCycleReport(h, cyclesH) && Subgraph(g, h)
    requires Violations(cyclesH, baseline) == []
    ensures Violations(cyclesG, baseline) == []
  {
    hide Reaches, Covered;
    ViolationsExact(cyclesG, baseline);
    ViolationsExact(cyclesH, baseline);
    forall c | c in cyclesG
      ensures Covered(c, baseline)
    {
      assert c[0] in c && c[1] in c && c[0] != c[1];
      SubgraphMutual(g, h, c[0], c[1]);
      var i :| 0 <= i < |cyclesH| && c[0] in cyclesH[i];
      forall x | x in c
        ensures x in cyclesH[i]
      {
        SubgraphMutual(g, h, c[0], x);
      }
      CoveredSubset(c, cyclesH[i], baseline);
    }
  }

  lemma SubgraphMutual(g: Graph, h: Graph, x: Module, y: Module)
    requires Subgraph(g, h) && Mutual(g, x, y)
    ensures Mutual(h, x, y)
  {
    SubgraphReaches(g, h, x, y);
    SubgraphReaches(g, h, y, x);
  }

  lemma CoveredSubset(c: seq<Module>, d: seq<Module>, baseline: seq<set<Module>>)
    requires Covered(d, baseline) && forall x :: x in c ==> x in d
    ensures Covered(c, baseline)
  {
    var k :| 0 <= k < |baseline| && Within(d, baseline[k]);
    assert Within(c, baseline[k]);
  }

  /** A baseline that is not conformal, on its smallest graph: every pair of the triangle shares a set, yet it is
      reported. */
  lemma OverlapCounterexample(a: Module, b: Module, c: Module)
    requires a != b && b != c && a != c
    ensures var g: Graph := map[a := {b}, b := {c}, c := {a}];
            var baseline := [{a, b}, {b, c}, {a, c}];
            CyclesShare(g, baseline) && IsCycleReport(g, [[a, b, c]])
              && Violations([[a, b, c]], baseline) == [[a, b, c]]
  {
    hide Reaches, Mutual, Violations, Covered, Share;
    var g: Graph := map[a := {b}, b := {c}, c := {a}];
    var scc := [a, b, c];
    TriangleMutual(g, a, b, c);
    assert scc[0] == a && scc[1] == b && scc[2] == c;
    forall x, y | Mutual(g, x, y) && x != y
      ensures x in scc && y in scc && Share([{a, b}, {b, c}, {a, c}], x, y)
    {
      MutualAreKeys(g, x, y);
      PairsShare(a, b, c, x, y);
    }
    assert [scc][0] == scc;
    TriangleNotCovered(a, b, c);
  }

  lemma MutualAreKeys(g: Graph, x: Module, y: Module)
    requires Mutual(g, x, y) && x != y
    ensures x in g.Keys && y in g.Keys
  {
    CycleMembersAreKeys(g, x, y);
    CycleMembersAreKeys(g, y, x);
  }

  lemma PairsShare(a: Module, b: Module, c: Module, x: Module, y: Module)
    requires x != y && x in {a, b, c} && y in {a, b, c}
    ensures Share([{a, b}, {b, c}, {a, c}], x, y)
  {
    var baseline := [{a, b}, {b, c}, {a, c}];
    assert baseline[0] == {a, b} && baseline[1] == {b, c} && baseline[2] == {a, c};
  }

  lemma TriangleNotCovered(a: Module, b: Module, c: Module)
    requires a != b && b != c && a != c
    ensures Violations([[a, b, c]], [{a, b}, {b, c}, {a, c}]) == [[a, b, c]]
  {
    var scc, baseline := [a, b, c], [{a, b}, {b, c}, {a, c}];
    assert a in scc && b in scc && c in scc;
    assert !Covered(scc, baseline);
    assert [scc][..0] == [];
  }

  lemma TriangleMutual(g: Graph, a: Module, b: Module, c: Module)
    requires a != b && b != c && a != c
    requires g == map[a := {b}, b := {c}, c := {a}]
    ensures forall x, y :: x in [a, b, c] ==> (y in [a, b, c] <==> Mutual(g, x, y))
  {
    hide Reaches;
    ReachesSelf(g, a); ReachesSelf(g, b); ReachesSelf(g, c);
    ReachesImport(g, a, b); ReachesImport(g, b, c); ReachesImport(g, c, a);
    ReachesTransitive(g, a, b, c); ReachesTransitive(g, b, c, a); ReachesTransitive(g, c, a, b);
    forall x, y | x in [a, b, c] && Mutual(g, x, y)
      ensures y in [a, b, c]
    {
      ClosedKeepsReach(g, {a, b, c}, x, y);
    }
  }
}
