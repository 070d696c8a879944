/** find_cycles_tarjan of scripts/check_import_cycles.py, over its six shared variables. */
module ImportCycles {
  import opened ImportGraph

  ghost function Elements(s: seq<Module>): (r: set<Module>)
    ensures forall x :: x in r <==> x in s
  {
    set x | x in s
  }

  ghost predicate Distinct(s: seq<Module>) {
    forall i, j :: 0 <= i < j < |s| ==> s[i] != s[j]
  }

  /** s lists one whole strongly connected component, each member once. */
  ghost predicate IsComponent(g: Graph, s: seq<Module>) {
    && Distinct(s)
    && forall x, y :: x in s ==> (y in s <==> Mutual(g, x, y))
  }

  /** What a component report owes for the modules in `done`. */
  ghost predicate Reports(g: Graph, done: set<Module>, sccs: seq<seq<Module>>) {
    && (forall i :: 0 <= i < |sccs| ==> |sccs[i]| > 1 && IsComponent(g, sccs[i]) && Elements(sccs[i]) <= done)
    && (forall i, j :: 0 <= i < j < |sccs| ==> Elements(sccs[i]) !! Elements(sccs[j]))
    && (forall x, y :: x in done && Mutual(g, x, y) && x != y ==> exists i :: 0 <= i < |sccs| && x in sccs[i])
  }

  /** The final report: exactly the strongly connected components of more than one module. */
  ghost predicate IsCycleReport(g: Graph, sccs: seq<seq<Module>>) {
    && (forall i :: 0 <= i < |sccs| ==> |sccs[i]| > 1 && IsComponent(g, sccs[i]))
    && (forall i, j :: 0 <= i < j < |sccs| ==> Elements(sccs[i]) !! Elements(sccs[j]))
    && (forall x, y :: Mutual(g, x, y) && x != y ==> exists i :: 0 <= i < |sccs| && x in sccs[i])
  }

  /** The stack is in discovery order and every visited module has an earlier number. */
  ghost predicate Numbered(counter: nat, stack: seq<Module>, indices: map<Module, nat>) {
    && (forall x :: x in indices ==> indices[x] < counter)
    && (forall x :: x in stack ==> x in indices)
    && (forall i, j :: 0 <= i < j < |stack| ==> indices[stack[i]] < indices[stack[j]])
  }

  /** Modules popped off the stack are finished: nothing leads out of them. */
  ghost predicate DoneClosed(g: Graph, stack: seq<Module>, indices: map<Module, nat>) {
    forall x, y :: x in indices && x !in stack && y in Imports(g, x) ==> y in indices && y !in stack
  }

  /** Modules on the stack whose call has returned have only visited imports. */
  ghost predicate BlacksExplored(g: Graph, gray: set<Module>, stack: seq<Module>, indices: map<Module, nat>) {
    forall x, y :: x in stack && x !in gray && y in Imports(g, x) ==> y in indices
  }

  /** Earlier stack entries reach later ones. */
  ghost predicate StackReaches(g: Graph, stack: seq<Module>) {
    forall i, j :: 0 <= i <= j < |stack| ==> Reaches(g, stack[i], stack[j])
  }

  ghost predicate Anchor(g: Graph, gray: set<Module>, indices: map<Module, nat>, y: Module, x: Module)
    requires y in indices
  {
    x in gray && x in indices && indices[x] <= indices[y] && Reaches(g, y, x)
  }

  ghost predicate Anchored(g: Graph, gray: set<Module>, indices: map<Module, nat>, y: Module)
    requires y in indices
  {
    exists x :: Anchor(g, gray, indices, y, x)
  }

  /** Every stack entry leads back to an unfinished call at or below it. */
  ghost predicate StackAnchored(g: Graph, gray: set<Module>, stack: seq<Module>, indices: map<Module, nat>) {
    forall y :: y in stack ==> y in indices && Anchored(g, gray, indices, y)
  }

  lemma AnchorOf(g: Graph, gray: set<Module>, indices: map<Module, nat>, y: Module) returns (x: Module)
    requires y in indices && Anchored(g, gray, indices, y)
    ensures Anchor(g, gray, indices, y, x)
  {
    x :| Anchor(g, gray, indices, y, x);
  }

  lemma MakeAnchored(g: Graph, gray: set<Module>, indices: map<Module, nat>, y: Module, x: Module)
    requires y in indices && Anchor(g, gray, indices, y, x)
    ensures Anchored(g, gray, indices, y)
  {}

  /** What holds whenever no pop is under way; `gray` are the modules whose calls are still open. */
  ghost predicate Inv(g: Graph, gray: set<Module>, counter: nat, stack: seq<Module>, indices: map<Module, nat>,
                      sccs: seq<seq<Module>>)
  {
    && Numbered(counter, stack, indices)
    && (forall x :: x in gray ==> x in stack)
    && indices.Keys <= Universe(g)
    && DoneClosed(g, stack, indices)
    && BlacksExplored(g, gray, stack, indices)
    && StackReaches(g, stack)
    && StackAnchored(g, gray, stack, indices)
    && Reports(g, indices.Keys - Elements(stack), sccs)
  }

  lemma NumberedDistinct(counter: nat, stack: seq<Module>, indices: map<Module, nat>)
    requires Numbered(counter, stack, indices)
    ensures Distinct(stack)
  {}

  /** Pushing a new module that every open call reaches. */
  lemma PushKeepsInv(g: Graph, gray: set<Module>, counter: nat, stack: seq<Module>, indices: map<Module, nat>,
                     sccs: seq<seq<Module>>, v: Module)
    requires Inv(g, gray, counter, stack, indices, sccs)
    requires v !in indices && v in Universe(g)
    requires forall x :: x in gray ==> Reaches(g, x, v)
    ensures Inv(g, gray + {v}, counter + 1, stack + [v], indices[v := counter], sccs)
  {
    hide Reaches, Anchored, Reports;
    var stack', indices', gray' := stack + [v], indices[v := counter], gray + {v};
    ReachesSelf(g, v);
    MakeAnchored(g, gray', indices', v, v);
    forall y | y in stack
      ensures Reaches(g, y, v) && Anchored(g, gray', indices', y)
    {
      var x := AnchorOf(g, gray, indices, y);
      ReachesTransitive(g, y, x, v);
      MakeAnchored(g, gray', indices', y, x);
    }
    assert indices'.Keys - Elements(stack') == indices.Keys - Elements(stack);
  }

  /** No import leads from `above` back into `below` past the number `low`. */
  ghost predicate LowBounds(g: Graph, low: nat, above: seq<Module>, below: seq<Module>, indices: map<Module, nat>) {
    forall x, y :: x in above && y in Imports(g, x) && y in below && y in indices ==> low <= indices[y]
  }

  /** The call for v closes without popping: it reached something older. */
  lemma BlackenKeepsInv(g: Graph, gray: set<Module>, counter: nat, stack: seq<Module>, indices: map<Module, nat>,
                        sccs: seq<seq<Module>>, v: Module, y: Module)
    requires Inv(g, gray + {v}, counter, stack, indices, sccs)
    requires v in stack && v !in gray
    requires y in stack && indices[y] < indices[v] && Reaches(g, v, y) && Anchored(g, gray, indices, y)
    requires forall w :: w in Imports(g, v) ==> w in indices
    ensures Inv(g, gray, counter, stack, indices, sccs)
  {
    hide Reaches, Anchored, Reports;
    var a := AnchorOf(g, gray, indices, y);
    forall z | z in stack
      ensures Anchored(g, gray, indices, z)
    {
      var x := AnchorOf(g, gray + {v}, indices, z);
      if x == v {
        ReachesTransitive(g, z, v, y);
        ReachesTransitive(g, z, y, a);
        MakeAnchored(g, gray, indices, z, a);
      } else {
        MakeAnchored(g, gray, indices, z, x);
      }
    }
  }

  /** What is known when the call for v is about to pop: its number is its own low link. */
  ghost predicate ReadyToPop(g: Graph, gray: set<Module>, counter: nat, below: seq<Module>, comp: seq<Module>,
                             indices: map<Module, nat>)
  {
    var stack := below + comp;
    && |comp| > 0
    && Numbered(counter, stack, indices)
    && (forall x :: x in gray ==> x in below)
    && DoneClosed(g, stack, indices)
    && StackReaches(g, stack)
    && StackAnchored(g, gray + {comp[0]}, stack, indices)
    && (forall x, y :: x in comp && y in Imports(g, x) ==> y in indices)
    && LowBounds(g, indices[comp[0]], comp, below, indices)
  }

  lemma BelowIsOlder(counter: nat, below: seq<Module>, comp: seq<Module>, indices: map<Module, nat>)
    requires Numbered(counter, below + comp, indices)
    ensures forall x :: x in below || x in comp ==> x in indices
    ensures forall x, y :: x in below && y in comp ==> indices[x] < indices[y]
  {
    var stack := below + comp;
    assert forall x :: x in below || x in comp ==> x in stack;
    forall x, y | x in below && y in comp
      ensures indices[x] < indices[y]
    {
      var k :| 0 <= k < |below| && below[k] == x;
      var i :| 0 <= i < |comp| && comp[i] == y;
      assert stack[k] == x && stack[|below| + i] == y;
    }
  }

  lemma PopMembersAreMutual(g: Graph, gray: set<Module>, counter: nat, below: seq<Module>, comp: seq<Module>,
                            indices: map<Module, nat>, x: Module)
    requires ReadyToPop(g, gray, counter, below, comp, indices)
    requires x in comp
    ensures Mutual(g, comp[0], x)
  {
    hide Reaches, Anchored;
    var stack := below + comp;
    var i :| 0 <= i < |comp| && comp[i] == x;
    assert stack[|below|] == comp[0] && stack[|below| + i] == x;
    var a := AnchorOf(g, gray + {comp[0]}, indices, x);
    if a != comp[0] {
      var k :| 0 <= k < |below| && below[k] == a;
      assert stack[k] == a;
      ReachesTransitive(g, x, a, comp[0]);
    }
  }

  lemma PopSetIsClosed(g: Graph, gray: set<Module>, counter: nat, below: seq<Module>, comp: seq<Module>,
                       indices: map<Module, nat>, x: Module, y: Module)
    requires ReadyToPop(g, gray, counter, below, comp, indices)
    requires x in indices && x !in below && y in Imports(g, x)
    ensures y in indices && y !in below
  {
    hide Reaches, Anchored, StackReaches, StackAnchored;
    BelowIsOlder(counter, below, comp, indices);
  }

  lemma PopSetIsMaximal(g: Graph, gray: set<Module>, counter: nat, below: seq<Module>, comp: seq<Module>,
                        indices: map<Module, nat>, z: Module)
    requires ReadyToPop(g, gray, counter, below, comp, indices)
    requires Mutual(g, comp[0], z)
    ensures z in comp
  {
    hide Reaches, Anchored, StackReaches, StackAnchored;
    var stack := below + comp;
    var done := indices.Keys - Elements(stack);
    assert stack[|below|] == comp[0];
    assert comp[0] in stack;
    forall x, y | x in done + Elements(comp) && y in Imports(g, x)
      ensures y in done + Elements(comp)
    {
      BelowIsOlder(counter, below, comp, indices);
      PopSetIsClosed(g, gray, counter, below, comp, indices, x, y);
    }
    ClosedKeepsReach(g, done + Elements(comp), comp[0], z);
    if z in done {
      ClosedKeepsReach(g, done, z, comp[0]);
    }
  }

  /** v and everything above it on the stack is then one whole component. */
  lemma PopIsComponent(g: Graph, gray: set<Module>, counter: nat, below: seq<Module>, comp: seq<Module>,
                       indices: map<Module, nat>)
    requires ReadyToPop(g, gray, counter, below, comp, indices)
    ensures forall x, y :: x in comp ==> (y in comp <==> Mutual(g, x, y))
  {
    hide Reaches, Anchored, ReadyToPop;
    forall x, y | x in comp
      ensures y in comp <==> Mutual(g, x, y)
    {
      PopMembersAreMutual(g, gray, counter, below, comp, indices, x);
      if y in comp {
        PopMembersAreMutual(g, gray, counter, below, comp, indices, y);
        MutualTransitive(g, x, comp[0], y);
      }
      if Mutual(g, x, y) {
        MutualTransitive(g, comp[0], x, y);
        PopSetIsMaximal(g, gray, counter, below, comp, indices, y);
      }
    }
  }

  /** Reporting one more whole component, if it has more than one member. */
  lemma ReportComponent(g: Graph, done: set<Module>, sccs: seq<seq<Module>>, scc: seq<Module>)
    requires Reports(g, done, sccs)
    requires IsComponent(g, scc) && |scc| > 0 && Elements(scc) !! done
    ensures Reports(g, done + Elements(scc), if |scc| > 1 then sccs + [scc] else sccs)
  {
    hide Reaches;
    var sccs' := if |scc| > 1 then sccs + [scc] else sccs;
    var done' := done + Elements(scc);
    assert forall i :: 0 <= i < |sccs| ==> sccs'[i] == sccs[i];
    forall i, j | 0 <= i < j < |sccs'|
      ensures Elements(sccs'[i]) !! Elements(sccs'[j])
    {
      assert Elements(sccs[i]) <= done;
    }
    forall x, y | x in done' && Mutual(g, x, y) && x != y
      ensures exists i :: 0 <= i < |sccs'| && x in sccs'[i]
    {
      if x in scc {
        assert y in scc;
        assert |scc| > 1 by {
          var a :| 0 <= a < |scc| && scc[a] == x;
          var b :| 0 <= b < |scc| && scc[b] == y;
        }
        assert x in sccs'[|sccs|];
      } else {
        var i :| 0 <= i < |sccs| && x in sccs[i];
        assert x in sccs'[i];
      }
    }
  }

  /** The suffix in pop order. */
  ghost predicate PopOrder(comp: seq<Module>, scc: seq<Module>) {
    |scc| == |comp| && forall i :: 0 <= i < |comp| ==> scc[i] == comp[|comp| - 1 - i]
  }

  lemma PoppedIsComponent(g: Graph, gray: set<Module>, counter: nat, below: seq<Module>, comp: seq<Module>,
                          indices: map<Module, nat>, scc: seq<Module>)
    requires ReadyToPop(g, gray, counter, below, comp, indices)
    requires PopOrder(comp, scc)
    ensures Elements(scc) == Elements(comp) && IsComponent(g, scc)
  {
    hide Reaches, Anchored, StackReaches, StackAnchored, DoneClosed, LowBounds;
    PopIsComponent(g, gray, counter, below, comp, indices);
    var stack := below + comp;
    assert forall i :: 0 <= i < |comp| ==> stack[|below| + i] == comp[i];
    assert Distinct(scc);
    forall x
      ensures x in scc <==> x in comp
    {
      if x in comp {
        var i :| 0 <= i < |comp| && comp[i] == x;
        assert scc[|comp| - 1 - i] == x;
      }
    }
  }

  /** Popping a component, reported in whatever order, keeps the invariant. */
  lemma PopKeepsInv(g: Graph, gray: set<Module>, counter: nat, below: seq<Module>, comp: seq<Module>,
                    indices: map<Module, nat>, sccs: seq<seq<Module>>, scc: seq<Module>)
    requires ReadyToPop(g, gray, counter, below, comp, indices)
    requires Elements(scc) == Elements(comp) && IsComponent(g, scc) && |scc| > 0
    requires indices.Keys <= Universe(g)
    requires BlacksExplored(g, gray, below, indices)
    requires StackAnchored(g, gray, below, indices)
    requires Reports(g, indices.Keys - Elements(below + comp), sccs)
    ensures Inv(g, gray, counter, below, indices, if |scc| > 1 then sccs + [scc] else sccs)
  {
    hide Reaches, Anchored, Reports, IsComponent, BlacksExplored, LowBounds, StackAnchored;
    var stack := below + comp;
    ReportComponent(g, indices.Keys - Elements(stack), sccs, scc);
    BelowIsOlder(counter, below, comp, indices);
    assert indices.Keys - Elements(stack) + Elements(scc) == indices.Keys - Elements(below);
    assert forall i :: 0 <= i < |below| ==> stack[i] == below[i];
    forall x, y | x in indices && x !in below && y in Imports(g, x)
      ensures y in indices && y !in below
    {
      PopSetIsClosed(g, gray, counter, below, comp, indices, x, y);
    }
  }
}
