/** The search itself: strongconnect's shared variables as the fields of one object. */
module CycleSearch {
  import opened ImportGraph
  import opened ImportCycles
  import opened SortedNames

  /** Numbers and low links, once given to a finished or open call, are not touched by later calls. */
  ghost predicate Keeps(before: map<Module, nat>, after: map<Module, nat>) {
    forall x :: x in before ==> x in after && after[x] == before[x]
  }

  ghost predicate KeepsOthers(v: Module, before: map<Module, nat>, after: map<Module, nat>) {
    forall x :: x in before && x != v ==> x in after && after[x] == before[x]
  }

  /** The state in the middle of v's call: the imports not in `rest` have been looked at. */
  ghost predicate MidCall(g: Graph, v: Module, base: seq<Module>, rest: set<Module>, low: Module,
                          stack: seq<Module>, indices: map<Module, nat>, lowlinks: map<Module, nat>)
  {
    && |stack| > |base| && stack[..|base|] == base && stack[|base|] == v
    && v in indices && v in lowlinks
    && low in stack && low in indices && indices[low] == lowlinks[v] && Reaches(g, v, low)
    && lowlinks[v] <= indices[v]
    && rest <= Imports(g, v)
    && (forall w :: w in Imports(g, v) && w !in rest ==> w in indices)
    && (forall w :: w in Imports(g, v) && w !in rest && w in base ==> w in indices && lowlinks[v] <= indices[w])
    && LowBounds(g, lowlinks[v], stack[|base| + 1..], base, indices)
  }

  function Min(a: nat, b: nat): nat {
    if a <= b then a else b
  }

  /** What a finished call for w promises its caller about low links. */
  ghost predicate Returned(g: Graph, w: Module, low: Module, before: seq<Module>, stack: seq<Module>,
                           indices: map<Module, nat>, lowlinks: map<Module, nat>)
  {
    && w in indices && w in lowlinks
    && before <= stack
    && (forall x :: x in before ==> x in indices)
    && LowBounds(g, lowlinks[w], stack[|before|..], before, indices)
    && if stack == before then
         lowlinks[w] == indices[w]
       else
         low in before && low in indices && indices[low] == lowlinks[w] && Reaches(g, w, low)
  }

  /** Looking at an import whose call has just returned. */
  lemma AfterCall(g: Graph, v: Module, base: seq<Module>, rest: set<Module>, low: Module, w: Module, wLow: Module,
                  stack: seq<Module>, indices: map<Module, nat>, lowlinks: map<Module, nat>,
                  stack': seq<Module>, indices': map<Module, nat>, lowlinks': map<Module, nat>)
    requires MidCall(g, v, base, rest, low, stack, indices, lowlinks)
    requires w in rest && w !in indices && (forall x :: x in stack ==> x in indices)
    requires Keeps(indices, indices') && Keeps(lowlinks, lowlinks')
    requires Returned(g, w, wLow, stack, stack', indices', lowlinks')
    requires indices[v] <= indices'[w]
    ensures w in lowlinks' && v in lowlinks && v in lowlinks' && lowlinks'[v] == lowlinks[v]
    ensures MidCall(g, v, base, rest - {w}, if lowlinks'[w] < lowlinks'[v] then wLow else low, stack', indices',
                    lowlinks'[v := Min(lowlinks'[v], lowlinks'[w])])
  {
    hide Reaches;
    var n := |base| + 1;
    ReachesImport(g, v, w);
    if stack' != stack {
      ReachesTransitive(g, v, w, wLow);
    }
    assert stack'[..|base|] == base by { assert stack'[..|stack|] == stack; }
    assert stack'[|base|] == stack[|base|];
    assert forall x :: x in base ==> x in stack by { assert stack == stack[..|base|] + stack[|base|..]; }
    assert stack'[n..] == stack[n..] + stack'[|stack|..];
  }

  /** Looking at an import that was visited before. */
  lemma AfterLook(g: Graph, v: Module, base: seq<Module>, rest: set<Module>, low: Module, w: Module,
                  stack: seq<Module>, indices: map<Module, nat>, lowlinks: map<Module, nat>)
    requires MidCall(g, v, base, rest, low, stack, indices, lowlinks)
    requires w in rest && w in indices
    ensures w in stack ==>
              MidCall(g, v, base, rest - {w}, if indices[w] < lowlinks[v] then w else low, stack, indices,
                      lowlinks[v := Min(lowlinks[v], indices[w])])
    ensures w !in stack ==> MidCall(g, v, base, rest - {w}, low, stack, indices, lowlinks)
  {
    hide Reaches;
    ReachesImport(g, v, w);
    assert forall x :: x in base ==> x in stack by { assert stack == stack[..|base|] + stack[|base|..]; }
  }

  lemma EnterCall(g: Graph, v: Module, n: nat, base: seq<Module>, indices: map<Module, nat>, lowlinks: map<Module, nat>)
    requires v in indices && v in lowlinks && indices[v] == n && lowlinks[v] == n
    ensures MidCall(g, v, base, Imports(g, v), v, base + [v], indices, lowlinks)
  {
    ReachesSelf(g, v);
  }

  lemma RestIsImports(g: Graph, v: Module, base: seq<Module>, rest: set<Module>, low: Module,
                      stack: seq<Module>, indices: map<Module, nat>, lowlinks: map<Module, nat>)
    requires MidCall(g, v, base, rest, low, stack, indices, lowlinks)
    ensures rest <= Imports(g, v) && v in lowlinks && v in indices && low in indices
    ensures |stack| > |base| && stack[..|base|] == base && stack[|base|] == v
  {}

  lemma ImportIsInUniverse(g: Graph, v: Module, w: Module)
    requires w in Imports(g, v)
    ensures w in Universe(g)
  {}

  lemma OpenCallsReachImport(g: Graph, gray: set<Module>, v: Module, w: Module)
    requires forall x :: x in gray ==> Reaches(g, x, v)
    requires w in Imports(g, v)
    ensures forall x :: x in gray + {v} ==> Reaches(g, x, w)
  {
    hide Reaches;
    ReachesImport(g, v, w);
    forall x | x in gray + {v}
      ensures Reaches(g, x, w)
    {
      if x != v {
        ReachesTransitive(g, x, v, w);
      }
    }
  }

  lemma InvFacts(g: Graph, gray: set<Module>, counter: nat, stack: seq<Module>, indices: map<Module, nat>,
                 sccs: seq<seq<Module>>)
    requires Inv(g, gray, counter, stack, indices, sccs)
    ensures Numbered(counter, stack, indices) && Distinct(stack)
    ensures StackAnchored(g, gray, stack, indices)
    ensures forall x :: x in gray ==> x in stack
    ensures forall x :: x in stack ==> x in indices
    ensures forall x :: x in indices ==> indices[x] < counter
  {
    NumberedDistinct(counter, stack, indices);
  }

  lemma AnchorsSurvive(g: Graph, gray: set<Module>, stack: seq<Module>, before: map<Module, nat>,
                       after: map<Module, nat>)
    requires StackAnchored(g, gray, stack, before) && Keeps(before, after)
    ensures StackAnchored(g, gray, stack, after)
  {
    hide Anchored;
    forall y | y in stack
      ensures y in after && Anchored(g, gray, after, y)
    {
      var x := AnchorOf(g, gray, before, y);
      MakeAnchored(g, gray, after, y, x);
    }
  }

  /** All imports looked at and the low link still v's own number: time to pop. */
  lemma CallMayPop(g: Graph, gray: set<Module>, counter: nat, stack: seq<Module>, indices: map<Module, nat>,
                   sccs: seq<seq<Module>>, v: Module, base: seq<Module>, low: Module, lowlinks: map<Module, nat>)
    requires Inv(g, gray + {v}, counter, stack, indices, sccs)
    requires MidCall(g, v, base, {}, low, stack, indices, lowlinks)
    requires lowlinks[v] == indices[v]
    requires forall x :: x in gray ==> x in base
    ensures stack == base + stack[|base|..]
    ensures ReadyToPop(g, gray, counter, base, stack[|base|..], indices)
    ensures BlacksExplored(g, gray, base, indices)
    ensures indices.Keys <= Universe(g) && Reports(g, indices.Keys - Elements(stack), sccs)
  {
    hide Reaches, Anchored, Reports, StackReaches, StackAnchored, DoneClosed;
    var comp := stack[|base|..];
    assert stack == base + comp;
    assert comp[0] == v && comp == [v] + stack[|base| + 1..];
    BelowIsOlder(counter, base, comp, indices);
    forall x, y | x in comp && y in Imports(g, x)
      ensures y in indices
    {
      if x != v {
        assert x in stack;
        assert x !in gray;
      }
    }
    forall x, y | x in base && x !in gray && y in Imports(g, x)
      ensures y in indices
    {
      assert x in stack && x != v;
    }
  }

  lemma CallHasPopped(g: Graph, v: Module, base: seq<Module>, low: Module, indices: map<Module, nat>,
                      lowlinks: map<Module, nat>)
    requires v in indices && v in lowlinks && lowlinks[v] == indices[v]
    requires forall x :: x in base ==> x in indices
    ensures Returned(g, v, low, base, base, indices, lowlinks)
  {}

  /** All imports looked at and something older was reached: the call ends with v left on the stack. */
  lemma CallEndsOpen(g: Graph, gray: set<Module>, counter: nat, stack: seq<Module>, indices: map<Module, nat>,
                     sccs: seq<seq<Module>>, v: Module, base: seq<Module>, low: Module, lowlinks: map<Module, nat>)
    requires Inv(g, gray + {v}, counter, stack, indices, sccs)
    requires MidCall(g, v, base, {}, low, stack, indices, lowlinks)
    requires lowlinks[v] != indices[v]
    requires forall x :: x in gray ==> x in base
    requires StackAnchored(g, gray, base, indices)
    ensures Inv(g, gray, counter, stack, indices, sccs)
    ensures Returned(g, v, low, base, stack, indices, lowlinks)
  {
    hide Reaches, Anchored, Reports, StackReaches, DoneClosed, Inv;
    var comp := stack[|base|..];
    assert stack == base + comp;
    assert comp[0] == v && comp == [v] + stack[|base| + 1..];
    assert Numbered(counter, stack, indices) by { InvFacts(g, gray + {v}, counter, stack, indices, sccs); }
    BelowIsOlder(counter, base, comp, indices);
    assert low in base by { LowIsBelow(counter, base, comp, indices, low); }
    BlackenKeepsInv(g, gray, counter, stack, indices, sccs, v, low);
  }

  lemma LowIsBelow(counter: nat, base: seq<Module>, comp: seq<Module>, indices: map<Module, nat>, low: Module)
    requires Numbered(counter, base + comp, indices) && |comp| > 0
    requires low in base + comp && low in indices && comp[0] in indices && indices[low] < indices[comp[0]]
    ensures low in base
  {
    var stack := base + comp;
    assert stack[|base|] == comp[0];
    var i :| 0 <= i < |stack| && stack[i] == low;
    assert i < |base|;
    assert base[i] == low;
  }

  /** With no call open the stack is empty, so everything visited has been reported. */
  lemma FinishedReport(g: Graph, counter: nat, stack: seq<Module>, indices: map<Module, nat>, sccs: seq<seq<Module>>)
    requires Inv(g, {}, counter, stack, indices, sccs)
    requires g.Keys <= indices.Keys
    ensures IsCycleReport(g, sccs)
  {
    hide Reaches, IsComponent;
    if stack != [] {
      var x := AnchorOf(g, {}, indices, stack[0]);
    }
    assert stack == [];
    forall x, y | Mutual(g, x, y) && x != y
      ensures exists i :: 0 <= i < |sccs| && x in sccs[i]
    {
      CycleMembersAreKeys(g, x, y);
      assert x in indices.Keys - Elements(stack);
    }
  }

  class CycleFinder {
    const graph: Graph
    var indexCounter: nat
    var stack: seq<Module>
    var onStack: set<Module>
    var indices: map<Module, nat>
    var lowlinks: map<Module, nat>
    var sccs: seq<seq<Module>>

    constructor (graph: Graph)
      ensures this.graph == graph && Valid({})
      ensures stack == [] && indices == map[] && sccs == []
    {
      this.graph := graph;
      indexCounter, stack, onStack, indices, lowlinks, sccs := 0, [], {}, map[], map[], [];
    }

    ghost predicate Valid(gray: set<Module>)
      reads this
    {
      && Inv(graph, gray, indexCounter, stack, indices, sccs)
      && onStack == Elements(stack)
      && lowlinks.Keys == indices.Keys
      && SortedReport(sccs)
    }

    method Push(v: Module, ghost gray: set<Module>)
      requires Valid(gray)
      requires v !in indices && v in Universe(graph)
      requires forall x :: x in gray ==> Reaches(graph, x, v)
      modifies this
      ensures Valid(gray + {v})
      ensures stack == old(stack) + [v] && sccs == old(sccs)
      ensures indices == old(indices)[v := old(indexCounter)]
      ensures lowlinks == old(lowlinks)[v := old(indexCounter)]
      ensures indexCounter == old(indexCounter) + 1
    {
      hide Inv;
      PushKeepsInv(graph, gray, indexCounter, stack, indices, sccs, v);
      indices := indices[v := indexCounter];
      lowlinks := lowlinks[v := indexCounter];
      indexCounter := indexCounter + 1;
      stack := stack + [v];
      onStack := onStack + {v};
    }

    /** The `while True` loop: pops down to and including v. */
    method PopTo(v: Module, ghost base: seq<Module>) returns (scc: seq<Module>)
      requires |stack| > |base| && stack[..|base|] == base && stack[|base|] == v
      requires Distinct(stack) && onStack == Elements(stack)
      modifies this`stack, this`onStack
      ensures stack == base && onStack == Elements(stack)
      ensures PopOrder(old(stack)[|base|..], scc)
    {
      scc := [];
      ghost var comp := stack[|base|..];
      var w: Module;
      while true
        invariant |base| < |stack| <= |old(stack)|
        invariant stack == old(stack)[..|stack|]
        invariant onStack == Elements(stack)
        invariant |scc| == |old(stack)| - |stack|
        invariant forall i :: 0 <= i < |scc| ==> scc[i] == old(stack)[|old(stack)| - 1 - i]
        decreases |stack|
      {
        w := stack[|stack| - 1];
        ghost var was := stack;
        stack := stack[..|stack| - 1];
        assert was == stack + [w];
        assert Elements(stack) == Elements(was) - {w};
        onStack := onStack - {w};
        scc := scc + [w];
        if w == v {
          assert was[|base|] == v;
          break;
        }
      }
    }

    method StrongConnect(v: Module, ghost gray: set<Module>) returns (ghost low: Module)
      requires Valid(gray)
      requires v !in indices && v in Universe(graph)
      requires forall x :: x in gray ==> Reaches(graph, x, v)
      modifies this
      ensures Valid(gray)
      ensures Keeps(old(indices), indices) && Keeps(old(lowlinks), lowlinks)
      ensures Returned(graph, v, low, old(stack), stack, indices, lowlinks)
      ensures v in indices && indices[v] == old(indexCounter)
      decreases Universe(graph) - indices.Keys, 0
    {
      hide Inv, Reaches, MidCall, Returned, SortedReport;
      ghost var base := stack;
      InvFacts(graph, gray, indexCounter, stack, indices, sccs);
      Push(v, gray);
      assert v !in old(indices) && v in indices;
      low := ExploreImports(v, gray, base);
      AnchorsSurvive(graph, gray, base, old(indices), indices);
      CloseCall(v, gray, base, low);
    }

    /** The `for w in graph.get(v, set())` loop of v's call. */
    method ExploreImports(v: Module, ghost gray: set<Module>, ghost base: seq<Module>) returns (ghost low: Module)
      requires Valid(gray + {v})
      requires v in indices && v in lowlinks && indices[v] == lowlinks[v] && stack == base + [v]
      requires forall x :: x in gray ==> Reaches(graph, x, v)
      modifies this
      ensures Valid(gray + {v})
      ensures Keeps(old(indices), indices) && KeepsOthers(v, old(lowlinks), lowlinks)
      ensures MidCall(graph, v, base, {}, low, stack, indices, lowlinks)
      decreases Universe(graph) - indices.Keys, 1
    {
      hide Inv, Reaches, MidCall, Returned, Numbered, Distinct, StackAnchored, SortedReport;
      var rest := Imports(graph, v);
      low := v;
      EnterCall(graph, v, indices[v], base, indices, lowlinks);
      while rest != {}
        invariant Valid(gray + {v})
        invariant Keeps(old(indices), indices) && KeepsOthers(v, old(lowlinks), lowlinks)
        invariant MidCall(graph, v, base, rest, low, stack, indices, lowlinks)
      {
        var w :| w in rest;
        RestIsImports(graph, v, base, rest, low, stack, indices, lowlinks);
        InvFacts(graph, gray + {v}, indexCounter, stack, indices, sccs);
        if w !in indices {
          ImportIsInUniverse(graph, v, w);
          OpenCallsReachImport(graph, gray, v, w);
          ghost var stack0, indices0, lowlinks0 := stack, indices, lowlinks;
          ghost var wLow := StrongConnect(w, gray + {v});
          AfterCall(graph, v, base, rest, low, w, wLow, stack0, indices0, lowlinks0, stack, indices, lowlinks);
          low := if lowlinks[w] < lowlinks[v] then wLow else low;
          lowlinks := lowlinks[v := Min(lowlinks[v], lowlinks[w])];
        } else {
          AfterLook(graph, v, base, rest, low, w, stack, indices, lowlinks);
          if w in onStack {
            low := if indices[w] < lowlinks[v] then w else low;
            lowlinks := lowlinks[v := Min(lowlinks[v], indices[w])];
          }
        }
        rest := rest - {w};
      }
    }

    /** The end of v's call: pop the component v is the root of, or leave v on the stack. */
    method CloseCall(v: Module, ghost gray: set<Module>, ghost base: seq<Module>, ghost low: Module)
      requires Valid(gray + {v})
      requires MidCall(graph, v, base, {}, low, stack, indices, lowlinks)
      requires forall x :: x in gray ==> x in base
      requires StackAnchored(graph, gray, base, indices)
      modifies this`stack, this`onStack, this`sccs
      ensures Valid(gray)
      ensures Returned(graph, v, low, base, stack, indices, lowlinks)
    {
      hide Inv, Reaches, MidCall, Returned, StackAnchored, ReadyToPop, BlacksExplored, Reports, Sorted, IsComponent;
      InvFacts(graph, gray + {v}, indexCounter, stack, indices, sccs);
      RestIsImports(graph, v, base, {}, low, stack, indices, lowlinks);
      if lowlinks[v] == indices[v] {
        CallMayPop(graph, gray, indexCounter, stack, indices, sccs, v, base, low, lowlinks);
        ghost var comp := stack[|base|..];
        var popped := PopTo(v, base);
        PoppedIsComponent(graph, gray, indexCounter, base, comp, indices, popped);
        var scc := Sort(popped);
        SortedComponent(graph, popped, scc);
        PopKeepsInv(graph, gray, indexCounter, base, comp, indices, sccs, scc);
        CallHasPopped(graph, v, base, low, indices, lowlinks);
        if |scc| > 1 {
          sccs := sccs + [scc];
        }
      } else {
        CallEndsOpen(graph, gray, indexCounter, stack, indices, sccs, v, base, low, lowlinks);
      }
    }

    /** find_cycles_tarjan's outer loop. */
    method FindCycles() returns (report: seq<seq<Module>>)
      requires Valid({}) && stack == [] && indices == map[] && sccs == []
      modifies this
      ensures IsCycleReport(graph, report) && SortedReport(report)
    {
      hide Inv, Reaches, Returned, SortedReport, Sorted;
      var nodes := SortSet(graph.Keys);
      for k := 0 to |nodes|
        invariant Valid({})
        invariant forall j :: 0 <= j < k ==> nodes[j] in indices
      {
        if nodes[k] !in indices {
          assert nodes[k] in Elements(nodes);
          ghost var low := StrongConnect(nodes[k], {});
        }
      }
      forall x | x in graph.Keys
        ensures x in indices
      {
        assert x in Elements(nodes);
      }
      FinishedReport(graph, indexCounter, stack, indices, sccs);
      report := sccs;
    }
  }
}
