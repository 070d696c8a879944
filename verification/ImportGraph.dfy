/** The import graph that scripts/check_import_cycles.py builds, and reachability in it. */
module ImportGraph {

  /** A dotted module name. */
  datatype Module = Module(name: string)

  /** Module -> modules it imports. */
  type Graph = map<Module, set<Module>>

  /** `graph.get(v, set())`. */
  function Imports(g: Graph, v: Module): set<Module> {
    if v in g then g[v] else {}
  }

  /** Every module that occurs in the graph, as importer or as import. */
  ghost function Universe(g: Graph): set<Module> {
    g.Keys + set x, y | x in g.Keys && y in g[x] :: y
  }

  ghost predicate IsPath(g: Graph, x: Module, p: seq<Module>, y: Module) {
    && |p| > 0 && p[0] == x && p[|p| - 1] == y
    && forall i :: 0 <= i < |p| - 1 ==> p[i + 1] in Imports(g, p[i])
  }

  /** y can be reached from x by following zero or more imports. */
  ghost predicate Reaches(g: Graph, x: Module, y: Module) {
    exists p :: IsPath(g, x, p, y)
  }

  /** x and y lie on a common import cycle (or are equal). */
  ghost predicate Mutual(g: Graph, x: Module, y: Module) {
    Reaches(g, x, y) && Reaches(g, y, x)
  }

  ghost predicate Closed(g: Graph, s: set<Module>) {
    forall x, y :: x in s && y in Imports(g, x) ==> y in s
  }

  lemma ReachesSelf(g: Graph, x: Module)
    ensures Reaches(g, x, x)
  {
    assert IsPath(g, x, [x], x);
  }

  lemma ReachesImport(g: Graph, x: Module, y: Module)
    requires y in Imports(g, x)
    ensures Reaches(g, x, y)
  {
    assert IsPath(g, x, [x, y], y);
  }

  lemma ReachesTransitive(g: Graph, x: Module, y: Module, z: Module)
    requires Reaches(g, x, y) && Reaches(g, y, z)
    ensures Reaches(g, x, z)
  {
    var p :| IsPath(g, x, p, y);
    var q :| IsPath(g, y, q, z);
    var r := p + q[1..];
    forall i | 0 <= i < |r| - 1
      ensures r[i + 1] in Imports(g, r[i])
    {
      if i >= |p| - 1 {
        assert r[i] == q[i - (|p| - 1)] && r[i + 1] == q[i + 1 - (|p| - 1)];
      }
    }
    assert IsPath(g, x, r, z);
  }

  lemma ClosedKeepsReach(g: Graph, s: set<Module>, x: Module, y: Module)
    requires Closed(g, s) && x in s && Reaches(g, x, y)
    ensures y in s
  {
    var p :| IsPath(g, x, p, y);
    var i := 0;
    while i < |p| - 1
      invariant 0 <= i <= |p| - 1
      invariant p[i] in s
    {
      i := i + 1;
    }
  }

  lemma MutualTransitive(g: Graph, x: Module, y: Module, z: Module)
    requires Mutual(g, x, y) && Mutual(g, y, z)
    ensures Mutual(g, x, z)
  {
    ReachesTransitive(g, x, y, z);
    ReachesTransitive(g, z, y, x);
  }

  /** Every import of g is an import of h. */
  ghost predicate Subgraph(g: Graph, h: Graph) {
    forall x, y :: y in Imports(g, x) ==> y in Imports(h, x)
  }

  lemma SubgraphReaches(g: Graph, h: Graph, x: Module, y: Module)
    requires Subgraph(g, h) && Reaches(g, x, y)
    ensures Reaches(h, x, y)
  {
    var p :| IsPath(g, x, p, y);
    assert IsPath(h, x, p, y);
  }

  /** Two different modules on one cycle both import something, so both are keys. */
  lemma CycleMembersAreKeys(g: Graph, x: Module, y: Module)
    requires Mutual(g, x, y) && x != y
    ensures x in g.Keys
  {
    var p :| IsPath(g, x, p, y);
    assert p[1] in Imports(g, p[0]);
  }
}
