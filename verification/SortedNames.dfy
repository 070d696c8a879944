/** Python's `sorted` on module names. */
module SortedNames {
  import opened Values
  import opened ImportGraph
  import opened ImportCycles

  /** a.name < b.name, character by character. */
  predicate Before(a: Module, b: Module) {
    StringLess(a.name, b.name)
  }

  /** Each name before all later ones, so none twice. */
  ghost predicate Sorted(s: seq<Module>) {
    forall i, j :: 0 <= i < j < |s| ==> Before(s[i], s[j])
  }

  /** Every reported component lists its modules in order. */
  ghost predicate SortedReport(report: seq<seq<Module>>) {
    forall i :: 0 <= i < |report| ==> Sorted(report[i])
  }

  lemma {:induction false} StringLessTransitive(s: string, t: string, u: string)
    requires StringLess(s, t) && StringLess(t, u)
    ensures StringLess(s, u)
  {
    if s != "" && s[0] == t[0] == u[0] {
      StringLessTransitive(s[1..], t[1..], u[1..]);
    }
  }

  lemma {:induction false} StringLessTotal(s: string, t: string)
    ensures s == t || StringLess(s, t) || StringLess(t, s)
  {
    if s != "" && t != "" && s[0] == t[0] {
      StringLessTotal(s[1..], t[1..]);
      assert s == [s[0]] + s[1..] && t == [t[0]] + t[1..];
    }
  }

  lemma BeforeTransitive(a: Module, b: Module, c: Module)
    requires Before(a, b) && Before(b, c)
    ensures Before(a, c)
  {
    StringLessTransitive(a.name, b.name, c.name);
  }

  lemma BeforeTotal(a: Module, b: Module)
    ensures a == b || Before(a, b) || Before(b, a)
  {
    StringLessTotal(a.name, b.name);
    assert a == Module(a.name) && b == Module(b.name);
  }

  /** The sorted list with one more name in its place. */
  method Insert(s: seq<Module>, x: Module) returns (r: seq<Module>)
    requires Sorted(s) && x !in s
    ensures Sorted(r) && Elements(r) == Elements(s) + {x} && |r| == |s| + 1
  {
    hide Before;
    var i := 0;
    while i < |s| && Before(s[i], x)
      invariant 0 <= i <= |s| && forall j :: 0 <= j < i ==> Before(s[j], x)
    {
      i := i + 1;
    }
    forall j | i <= j < |s|
      ensures Before(x, s[j])
    {
      BeforeTotal(x, s[i]);
      if j > i {
        BeforeTransitive(x, s[i], s[j]);
      }
    }
    r := s[..i] + [x] + s[i..];
    InsertedElements(s, i, x);
  }

  lemma InsertedElements(s: seq<Module>, i: nat, x: Module)
    requires i <= |s|
    ensures Elements(s[..i] + [x] + s[i..]) == Elements(s) + {x}
  {
    assert s == s[..i] + s[i..];
  }

  /** sorted(s), for a list without repetitions. */
  method Sort(s: seq<Module>) returns (r: seq<Module>)
    requires Distinct(s)
    ensures Sorted(r) && Elements(r) == Elements(s) && |r| == |s|
  {
    hide Sorted;
    r := Nothing();
    for k := 0 to |s|
      invariant Sorted(r) && Elements(r) == Elements(s[..k]) && |r| == k
    {
      assert s[..k + 1] == s[..k] + [s[k]];
      assert s[k] !in s[..k];
      assert s[k] !in Elements(r);
      r := Insert(r, s[k]);
    }
    assert s[..|s|] == s;
  }

  method Nothing() returns (r: seq<Module>)
    ensures r == [] && Sorted(r)
  {
    r := [];
  }

  /** sorted(graph): the modules that import something. */
  method SortSet(modules: set<Module>) returns (r: seq<Module>)
    ensures Sorted(r) && Elements(r) == modules
  {
    hide Sorted;
    r := Nothing();
    var rest := modules;
    while rest != {}
      invariant rest <= modules && Sorted(r) && Elements(r) == modules - rest
    {
      var x :| x in rest;
      assert x !in Elements(r);
      r := Insert(r, x);
      rest := rest - {x};
    }
  }

  lemma SortedIsDistinct(s: seq<Module>)
    requires Sorted(s)
    ensures Distinct(s)
  {
    forall i, j | 0 <= i < j < |s|
      ensures s[i] != s[j]
    {
      BeforeIsStrict(s[i].name);
    }
  }

  lemma {:induction false} BeforeIsStrict(s: string)
    ensures !StringLess(s, s)
  {
    if s != "" {
      BeforeIsStrict(s[1..]);
    }
  }

  /** Sorting a component keeps it a component. */
  lemma SortedComponent(g: Graph, scc: seq<Module>, sorted: seq<Module>)
    requires IsComponent(g, scc) && Sorted(sorted) && Elements(sorted) == Elements(scc)
    ensures IsComponent(g, sorted)
  {
    hide Mutual, Sorted;
    SortedIsDistinct(sorted);
    forall x
      ensures x in sorted <==> x in scc
    {
      assert x in Elements(sorted) <==> x in Elements(scc);
    }
  }
}
