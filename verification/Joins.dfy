/** join and left_join of binding_frame.py: four routes to one bag of rows. */
module Joins {
  import opened Values

  type Row = map<string, Value>

  /** A data frame as far as joins care: its column names and its rows. */
  datatype Table = Table(cols: set<string>, rows: seq<Row>) {
    ghost predicate Valid() {
      forall i :: 0 <= i < |rows| ==> rows[i].Keys == cols
    }
  }

  const SUFFIX := "_right"

  predicate EndsInSuffix(c: string) {
    |c| >= |SUFFIX| && c[|c| - |SUFFIX|..] == SUFFIX
  }

  /** The names a join keeps: those that do not look like a collision suffix. */
  function PlainNames(cols: set<string>): (r: set<string>)
    ensures forall c :: c in r <==> c in cols && !EndsInSuffix(c)
  {
    set c | c in cols && !EndsInSuffix(c)
  }

  // ---- Row operations ----

  /** Drops the redundant right key and every suffixed column. */
  function CleanCols(cols: set<string>, leftCol: string, rightCol: string): set<string> {
    set c | c in cols && !(leftCol != rightCol && c == rightCol) && !EndsInSuffix(c)
  }

  function Restrict(r: Row, cols: set<string>): (out: Row)
    ensures out.Keys == r.Keys * cols && forall c :: c in out ==> out[c] == r[c]
  {
    map c | c in r && c in cols :: r[c]
  }

  function RenameRow(r: Row, from: string, to: string): (out: Row)
    requires from == to || to !in r
    ensures from in r ==> out == (r - {from})[to := r[from]]
    ensures from !in r ==> out == r
  {
    if from in r then (r - {from})[to := r[from]] else r
  }

  /** Appends the suffix to the names in `clash`. */
  function SuffixRow(r: Row, clash: set<string>): (out: Row) {
    (map c | c in r && c !in clash :: r[c]) + Suffixed(r, clash)
  }

  /** c is the name a clashing column is given. */
  predicate IsCopy(c: string, clash: set<string>) {
    EndsInSuffix(c) && Unsuffix(c) in clash
  }

  /** A name that is not a suffixed copy survives suffixing exactly when it does not clash. */
  lemma SuffixRowAt(r: Row, clash: set<string>, c: string)
    requires !IsCopy(c, clash)
    ensures var out := SuffixRow(r, clash);
            (c in out <==> c in r && c !in clash) && (c in out ==> out[c] == r[c])
  {
    hide EndsInSuffix;
    assert c !in Suffixed(r, clash);
  }

  function Unsuffix(c: string): string
    requires EndsInSuffix(c)
  {
    c[..|c| - |SUFFIX|]
  }

  function Suffixed(r: Row, clash: set<string>): (out: Row)
    ensures forall c :: c in out <==> EndsInSuffix(c) && Unsuffix(c) in r && Unsuffix(c) in clash
    ensures forall c :: c in out ==> out[c] == r[Unsuffix(c)]
  {
    var names := set c | c in r && c in clash :: c + SUFFIX;
    forall c
      ensures c in names <==> EndsInSuffix(c) && Unsuffix(c) in r && Unsuffix(c) in clash
    {
      if EndsInSuffix(c) {
        assert c == Unsuffix(c) + SUFFIX;
      }
      if c in names {
        var d :| d in r && d in clash && c == d + SUFFIX;
        assert c[|c| - |SUFFIX|..] == SUFFIX && Unsuffix(c) == d;
      }
    }
    map c | c in names :: r[Unsuffix(c)]
  }

  /** The combined row of a matching pair: all of the left row and what the right row adds, names that end in the suffix
      apart. */
  function Combine(l: Row, r: Row, rightCol: string): (out: Row)
    ensures out.Keys == PlainNames(l.Keys + (r.Keys - {rightCol}))
    ensures forall c :: c in out ==> out[c] == if c in l then l[c] else r[c]
  {
    map c | c in PlainNames(l.Keys + (r.Keys - {rightCol})) :: if c in l then l[c] else r[c]
  }

  // ---- Matching pairs, in the two nesting orders ----

  /** `nullsMatch` tells engines that join null keys with each other from engines that do not. */
  predicate KeysMatch(l: Row, r: Row, lc: string, rc: string, nullsMatch: bool) {
    lc in l && rc in r && l[lc] == r[rc] && (nullsMatch || !l[lc].Null?)
  }

  function PairsOf(l: Row, rs: seq<Row>, lc: string, rc: string, nm: bool): seq<(Row, Row)> {
    if rs == [] then []
    else
      var rest := PairsOf(l, rs[..|rs| - 1], lc, rc, nm);
      if KeysMatch(l, rs[|rs| - 1], lc, rc, nm) then rest + [(l, rs[|rs| - 1])] else rest
  }

  /** Left-major order. */
  function Pairs(ls: seq<Row>, rs: seq<Row>, lc: string, rc: string, nm: bool): seq<(Row, Row)> {
    if ls == [] then [] else Pairs(ls[..|ls| - 1], rs, lc, rc, nm) + PairsOf(ls[|ls| - 1], rs, lc, rc, nm)
  }

  function PairsTo(ls: seq<Row>, r: Row, lc: string, rc: string, nm: bool): seq<(Row, Row)> {
    if ls == [] then []
    else
      var rest := PairsTo(ls[..|ls| - 1], r, lc, rc, nm);
      if KeysMatch(ls[|ls| - 1], r, lc, rc, nm) then rest + [(ls[|ls| - 1], r)] else rest
  }

  /** Right-major order: what a join with the sides swapped enumerates. */
  function SwappedPairs(ls: seq<Row>, rs: seq<Row>, lc: string, rc: string, nm: bool): seq<(Row, Row)> {
    if rs == [] then [] else SwappedPairs(ls, rs[..|rs| - 1], lc, rc, nm) + PairsTo(ls, rs[|rs| - 1], lc, rc, nm)
  }

  lemma {:induction false} SwappedPeel(ls: seq<Row>, rs: seq<Row>, lc: string, rc: string, nm: bool)
    requires ls != []
    ensures multiset(SwappedPairs(ls, rs, lc, rc, nm)) ==
            multiset(SwappedPairs(ls[..|ls| - 1], rs, lc, rc, nm)) + multiset(PairsOf(ls[|ls| - 1], rs, lc, rc, nm))
  {
    if rs != [] {
      SwappedPeel(ls, rs[..|rs| - 1], lc, rc, nm);
    }
  }

  lemma {:induction false} SwappedNone(rs: seq<Row>, lc: string, rc: string, nm: bool)
    ensures SwappedPairs([], rs, lc, rc, nm) == []
  {
    if rs != [] {
      SwappedNone(rs[..|rs| - 1], lc, rc, nm);
    }
  }

  /** Either nesting order enumerates every matching pair equally often. */
  lemma {:induction false} SwapKeepsBag(ls: seq<Row>, rs: seq<Row>, lc: string, rc: string, nm: bool)
    ensures multiset(SwappedPairs(ls, rs, lc, rc, nm)) == multiset(Pairs(ls, rs, lc, rc, nm))
  {
    if ls == [] {
      SwappedNone(rs, lc, rc, nm);
    } else {
      SwappedPeel(ls, rs, lc, rc, nm);
      SwapKeepsBag(ls[..|ls| - 1], rs, lc, rc, nm);
    }
  }

  function Flip(ps: seq<(Row, Row)>): (r: seq<(Row, Row)>)
    ensures |r| == |ps| && forall i :: 0 <= i < |ps| ==> r[i] == (ps[i].1, ps[i].0)
  {
    seq(|ps|, i requires 0 <= i < |ps| => (ps[i].1, ps[i].0))
  }

  lemma {:induction false} FlipOf(ls: seq<Row>, r: Row, lc: string, rc: string, nm: bool)
    ensures Flip(PairsOf(r, ls, rc, lc, nm)) == PairsTo(ls, r, lc, rc, nm)
  {
    if ls != [] {
      FlipOf(ls[..|ls| - 1], r, lc, rc, nm);
    }
  }

  /** Joining with the operands exchanged is the right-major order. */
  lemma {:induction false} FlipPairs(ls: seq<Row>, rs: seq<Row>, lc: string, rc: string, nm: bool)
    ensures Flip(Pairs(rs, ls, rc, lc, nm)) == SwappedPairs(ls, rs, lc, rc, nm)
  {
    if rs != [] {
      FlipPairs(ls, rs[..|rs| - 1], lc, rc, nm);
      FlipOf(ls, rs[|rs| - 1], lc, rc, nm);
    }
  }

  // ---- Bags under a map ----

  function MapPairs(g: (Row, Row) -> Row, ps: seq<(Row, Row)>): (r: seq<Row>)
    ensures |r| == |ps| && forall i :: 0 <= i < |ps| ==> r[i] == g(ps[i].0, ps[i].1)
  {
    seq(|ps|, i requires 0 <= i < |ps| => g(ps[i].0, ps[i].1))
  }

  lemma BagWithout<S>(b: seq<S>, k: nat)
    requires k < |b|
    ensures multiset(b) == multiset(b[..k] + b[k + 1..]) + multiset{b[k]}
    ensures multiset(b[..k] + b[k + 1..]) == multiset(b) - multiset{b[k]}
  {
    assert b == b[..k] + [b[k]] + b[k + 1..];
  }

  lemma MappedBagWithout<S, T>(g: S -> T, b: seq<S>, k: nat)
    requires k < |b|
    ensures multiset(MapSeq(g, b)) == multiset(MapSeq(g, b[..k] + b[k + 1..])) + multiset{g(b[k])}
  {
    var m := MapSeq(g, b);
    BagWithout(m, k);
    assert MapSeq(g, b[..k] + b[k + 1..]) == m[..k] + m[k + 1..];
  }

  lemma PositionOf<S>(x: S, a: seq<S>, b: seq<S>) returns (k: nat)
    requires x in a && multiset(a) == multiset(b)
    ensures k < |b| && b[k] == x
  {
    assert x in multiset(b);
    k :| 0 <= k < |b| && b[k] == x;
  }

  lemma {:induction false} MapSeqKeepsBag<S, T>(g: S -> T, a: seq<S>, b: seq<S>)
    requires multiset(a) == multiset(b)
    ensures multiset(MapSeq(g, a)) == multiset(MapSeq(g, b))
  {
    hide MapSeq;
    if a == [] {
      assert |multiset(b)| == |b|;
    } else {
      var n := |a| - 1;
      var k := PositionOf(a[n], a, b);
      BagWithout(a, n);
      BagWithout(b, k);
      MapSeqKeepsBag(g, a[..n] + a[n + 1..], b[..k] + b[k + 1..]);
      MappedBagWithout(g, a, n);
      MappedBagWithout(g, b, k);
    }
  }

  /** Equal bags of pairs map to equal bags of rows. */
  lemma MapKeepsBag(g: (Row, Row) -> Row, a: seq<(Row, Row)>, b: seq<(Row, Row)>)
    requires multiset(a) == multiset(b)
    ensures multiset(MapPairs(g, a)) == multiset(MapPairs(g, b))
  {
    var g' := (p: (Row, Row)) => g(p.0, p.1);
    MapSeqKeepsBag(g', a, b);
    assert MapPairs(g, a) == MapSeq(g', a) && MapPairs(g, b) == MapSeq(g', b);
  }

  lemma FlipKeepsBag(a: seq<(Row, Row)>, b: seq<(Row, Row)>)
    requires multiset(a) == multiset(b)
    ensures multiset(Flip(a)) == multiset(Flip(b))
  {
    var flip := (p: (Row, Row)) => (p.1, p.0);
    MapSeqKeepsBag(flip, a, b);
    assert Flip(a) == MapSeq(flip, a) && Flip(b) == MapSeq(flip, b);
  }

  // ---- The engines ----

  /** The engine's join of two row lists: every matching pair once, in an order nothing may rely on. */
  method EngineJoin(ls: seq<Row>, rs: seq<Row>, lc: string, rc: string, nm: bool) returns (ps: seq<(Row, Row)>)
    ensures multiset(ps) == multiset(Pairs(ls, rs, lc, rc, nm))
  {
    ps := Pairs(ls, rs, lc, rc, nm);
  }

  /** Names both sides have apart from the join key. */
  function Clashes(left: set<string>, right: set<string>, lc: string, rc: string): set<string> {
    left * right - (if lc == rc then {lc} else {})
  }

  /** What join demands of the names: keys not otherwise shared, and the suffixed name of a clashing column not taken
      already. */
  ghost predicate NamesFit(left: Table, right: Table, lc: string, rc: string) {
    && left.Valid() && right.Valid() && lc in left.cols && rc in right.cols
    && (lc != rc ==> rc !in left.cols && lc !in right.cols)
    && forall c :: c in left.cols + right.cols ==> !IsCopy(c, Clashes(left.cols, right.cols, lc, rc))
  }

  /** The merged row before cleanup; suffixed copies of the right row's clashing values are in it. */
  function MergedRow(l: Row, r: Row, clash: set<string>): Row {
    SuffixRow(r, clash) + l
  }

  function Cleaned(m: Row, lc: string, rc: string): Row {
    Restrict(m, CleanCols(m.Keys, lc, rc))
  }

  lemma CleanedAt(m: Row, lc: string, rc: string, c: string)
    ensures c in Cleaned(m, lc, rc) <==> c in m && !EndsInSuffix(c) && !(lc != rc && c == rc)
    ensures c in Cleaned(m, lc, rc) ==> Cleaned(m, lc, rc)[c] == m[c]
  {
    hide EndsInSuffix;
  }

  /** Cleanup leaves exactly the combined row: every suffixed name and the redundant key are gone. */
  lemma CleanedIsCombined(left: Table, right: Table, lc: string, rc: string, l: Row, r: Row)
    requires NamesFit(left, right, lc, rc)
    requires l.Keys == left.cols && r.Keys == right.cols
    ensures Cleaned(MergedRow(l, r, Clashes(left.cols, right.cols, lc, rc)), lc, rc) == Combine(l, r, rc)
  {
    hide EndsInSuffix, SuffixRow, Cleaned;
    var clash := Clashes(left.cols, right.cols, lc, rc);
    var m := MergedRow(l, r, clash);
    var got, want := Cleaned(m, lc, rc), Combine(l, r, rc);
    forall c
      ensures c in got <==> c in want
      ensures c in want ==> got[c] == want[c]
    {
      CleanedAt(m, lc, rc, c);
      if !EndsInSuffix(c) {
        SuffixRowAt(r, clash, c);
      }
    }
    assert got == want;
  }

  /** Whatever the names: the pandas merge keeps every variable exactly when none ends in the suffix and the right key
      is not a variable of the left frame as well. */
  lemma ColumnsKeptIff(l: Row, r: Row, lc: string, rc: string)
    requires lc in l && rc in r
    ensures Cleaned(MergedRow(l, r, Clashes(l.Keys, r.Keys, lc, rc)), lc, rc).Keys == l.Keys + (r.Keys - {rc})
            <==> (forall c :: c in l.Keys + (r.Keys - {rc}) ==> !EndsInSuffix(c)) && (lc == rc || rc !in l)
  {
    hide EndsInSuffix, SuffixRow, Cleaned;
    var clash := Clashes(l.Keys, r.Keys, lc, rc);
    var m := MergedRow(l, r, clash);
    var got, want := Cleaned(m, lc, rc), l.Keys + (r.Keys - {rc});
    forall c
      ensures c in got <==> c in want && !EndsInSuffix(c) && !(lc != rc && c == rc)
    {
      CleanedAt(m, lc, rc, c);
      if !EndsInSuffix(c) {
        SuffixRowAt(r, clash, c);
      }
    }
    if c :| c in want && (EndsInSuffix(c) || (lc != rc && c == rc)) {
      assert c !in got.Keys;
    } else {
      assert got.Keys == want;
    }
  }

  // ---- Renaming the right key first, as _backend_merge does ----

  function MapBoth(h: Row -> Row, k: Row -> Row, ps: seq<(Row, Row)>): (r: seq<(Row, Row)>)
    ensures |r| == |ps| && forall i :: 0 <= i < |ps| ==> r[i] == (h(ps[i].0), k(ps[i].1))
  {
    seq(|ps|, i requires 0 <= i < |ps| => (h(ps[i].0), k(ps[i].1)))
  }

  /** h and k carry the key of every row over to its new name. */
  ghost predicate CarriesKey(h: Row -> Row, rs: seq<Row>, from: string, to: string) {
    forall i :: 0 <= i < |rs| ==> from in rs[i] && to in h(rs[i]) && h(rs[i])[to] == rs[i][from]
  }

  lemma {:induction false} PairsOfMapped(h: Row -> Row, k: Row -> Row, l: Row, rs: seq<Row>, lc: string, rc: string,
                                         lc': string, rc': string, nm: bool)
    requires CarriesKey(h, [l], lc, lc') && CarriesKey(k, rs, rc, rc')
    ensures PairsOf(h(l), MapSeq(k, rs), lc', rc', nm) == MapBoth(h, k, PairsOf(l, rs, lc, rc, nm))
  {
    assert [l][0] == l;
    if rs != [] {
      var init := rs[..|rs| - 1];
      assert MapSeq(k, rs)[..|rs| - 1] == MapSeq(k, init);
      PairsOfMapped(h, k, l, init, lc, rc, lc', rc', nm);
    }
  }

  /** Renaming before the join pairs the same rows. */
  lemma {:induction false} PairsMapped(h: Row -> Row, k: Row -> Row, ls: seq<Row>, rs: seq<Row>, lc: string, rc: string,
                                       lc': string, rc': string, nm: bool)
    requires CarriesKey(h, ls, lc, lc') && CarriesKey(k, rs, rc, rc')
    ensures Pairs(MapSeq(h, ls), MapSeq(k, rs), lc', rc', nm) == MapBoth(h, k, Pairs(ls, rs, lc, rc, nm))
  {
    if ls != [] {
      var init, l := ls[..|ls| - 1], ls[|ls| - 1];
      assert MapSeq(h, ls)[..|ls| - 1] == MapSeq(h, init);
      PairsMapped(h, k, init, rs, lc, rc, lc', rc', nm);
      assert [l][0] == l;
      PairsOfMapped(h, k, l, rs, lc, rc, lc', rc', nm);
    }
  }

  // ---- BindingFrame.join ----

  function JoinCols(left: Table, right: Table, rc: string): set<string> {
    PlainNames(left.cols + (right.cols - {rc}))
  }

  /** A row with the given names and no values: the header of a table, sent through the same operations as its rows. */
  function NullRow(cols: set<string>): (r: Row)
    ensures r.Keys == cols && forall c :: c in r ==> r[c] == Null
  {
    map c | c in cols :: Null
  }

  /** Each matching pair once, the left value winning on name clashes. */
  function JoinRows(left: Table, right: Table, lc: string, rc: string, nm: bool): seq<Row> {
    MapPairs((l: Row, r: Row) => Combine(l, r, rc), Pairs(left.rows, right.rows, lc, rc, nm))
  }

  lemma {:induction false} PairsAreRows(ls: seq<Row>, rs: seq<Row>, lc: string, rc: string, nm: bool)
    ensures forall p :: p in Pairs(ls, rs, lc, rc, nm) ==> p.0 in ls && p.1 in rs && KeysMatch(p.0, p.1, lc, rc, nm)
  {
    if ls != [] {
      PairsAreRows(ls[..|ls| - 1], rs, lc, rc, nm);
      PairsOfAreRows(ls[|ls| - 1], rs, lc, rc, nm);
    }
  }

  lemma {:induction false} PairsOfAreRows(l: Row, rs: seq<Row>, lc: string, rc: string, nm: bool)
    ensures forall p :: p in PairsOf(l, rs, lc, rc, nm) ==> p.0 == l && p.1 in rs && KeysMatch(l, p.1, lc, rc, nm)
  {
    if rs != [] {
      PairsOfAreRows(l, rs[..|rs| - 1], lc, rc, nm);
    }
  }

  /** g and Combine agree on every pair of rows of the two tables that match. */
  ghost predicate MergesLikeCombine(g: (Row, Row) -> Row, left: Table, right: Table, lc: string, rc: string) {
    forall l: Row, r: Row :: l.Keys == left.cols && r.Keys == right.cols && lc in l && rc in r && l[lc] == r[rc]
      ==> g(l, r) == Combine(l, r, rc)
  }

  /** Any order of the matching pairs, merged by any function that merges like Combine, is the join. */
  lemma JoinBag(left: Table, right: Table, lc: string, rc: string, nm: bool, ps: seq<(Row, Row)>, g: (Row, Row) -> Row)
    requires left.Valid() && right.Valid() && MergesLikeCombine(g, left, right, lc, rc)
    requires multiset(ps) == multiset(Pairs(left.rows, right.rows, lc, rc, nm))
    ensures multiset(MapPairs(g, ps)) == multiset(JoinRows(left, right, lc, rc, nm))
  {
    hide Pairs;
    var all := Pairs(left.rows, right.rows, lc, rc, nm);
    var combine := (l: Row, r: Row) => Combine(l, r, rc);
    PairsAreRows(left.rows, right.rows, lc, rc, nm);
    forall i | 0 <= i < |ps|
      ensures g(ps[i].0, ps[i].1) == Combine(ps[i].0, ps[i].1, rc)
    {
      assert ps[i] in multiset(ps);
      assert ps[i] in all;
    }
    assert MapPairs(g, ps) == MapPairs(combine, ps);
    MapKeepsBag(combine, ps, all);
  }

  /** The pandas routes: the merge suffixes clashing right names, whichever side is the build side. */
  function PandasMerged(clash: set<string>, lc: string, rc: string): (Row, Row) -> Row {
    (l: Row, r: Row) => Cleaned(MergedRow(l, r, clash), lc, rc)
  }

  lemma PandasMergesLikeCombine(left: Table, right: Table, lc: string, rc: string)
    requires NamesFit(left, right, lc, rc)
    ensures MergesLikeCombine(PandasMerged(Clashes(left.cols, right.cols, lc, rc), lc, rc), left, right, lc, rc)
  {
    hide Cleaned, MergedRow, Combine;
    forall l: Row, r: Row | l.Keys == left.cols && r.Keys == right.cols && lc in l && rc in r && l[lc] == r[rc]
      ensures Cleaned(MergedRow(l, r, Clashes(left.cols, right.cols, lc, rc)), lc, rc) == Combine(l, r, rc)
    {
      CleanedIsCombined(left, right, lc, rc, l, r);
    }
  }

  /** Names both sides have once the right key carries the left key's name. */
  function RenamedClashes(left: set<string>, right: set<string>, lc: string, rc: string): set<string> {
    (left - {lc}) * ((right - {rc} + {lc}) - {lc})
  }

  /** The backend route: rename the right key, suffix the clashing names, join on one name, clean up. */
  function BackendRight(left: Table, right: Table, lc: string, rc: string): Row -> Row {
    (r: Row) => SuffixRow(if lc != rc && lc in r then r else RenameRow(r, rc, lc),
                          RenamedClashes(left.cols, right.cols, lc, rc))
  }

  /** The three readings of the clashing names are one set, and neither key is a suffixed copy. */
  lemma OneSetOfClashes(left: Table, right: Table, lc: string, rc: string)
    requires NamesFit(left, right, lc, rc)
    ensures var clash := Clashes(left.cols, right.cols, lc, rc);
            && RenamedClashes(left.cols, right.cols, lc, rc) == clash == RenamedClashes(right.cols, left.cols, rc, lc)
            && lc !in clash && rc !in clash && !IsCopy(lc, clash) && !IsCopy(rc, clash)
  {
    hide IsCopy;
  }

  /** One cell of the backend's merged row. */
  lemma BackendCell(left: Table, right: Table, lc: string, rc: string, l: Row, r: Row, c: string)
    requires NamesFit(left, right, lc, rc) && l.Keys == left.cols && r.Keys == right.cols
    requires !EndsInSuffix(c)
    ensures var m := BackendRight(left, right, lc, rc)(r) + l;
            && (c in m && !(lc != rc && c == rc) <==> c in l || (c in r && c != rc))
            && (c in m && !(lc != rc && c == rc) ==> m[c] == if c in l then l[c] else r[c])
  {
    hide EndsInSuffix, SuffixRow;
    var r1 := RenameRow(r, rc, lc);
    OneSetOfClashes(left, right, lc, rc);
    SuffixRowAt(r1, RenamedClashes(left.cols, right.cols, lc, rc), c);
    assert c in r1 <==> c == lc || (c in r && c != rc);
  }

  lemma BackendRowIsCombined(left: Table, right: Table, lc: string, rc: string, l: Row, r: Row)
    requires NamesFit(left, right, lc, rc)
    requires l.Keys == left.cols && r.Keys == right.cols
    ensures Cleaned(BackendRight(left, right, lc, rc)(r) + l, lc, rc) == Combine(l, r, rc)
  {
    hide EndsInSuffix, SuffixRow, BackendRight, Cleaned;
    var m := BackendRight(left, right, lc, rc)(r) + l;
    var got, want := Cleaned(m, lc, rc), Combine(l, r, rc);
    forall c
      ensures c in got <==> c in want
      ensures c in want ==> got[c] == want[c]
    {
      CleanedAt(m, lc, rc, c);
      if !EndsInSuffix(c) {
        BackendCell(left, right, lc, rc, l, r, c);
      }
    }
    assert got == want;
  }

  lemma BackendName(left: Table, right: Table, l: Row, r: Row, lc: string, rc: string, c: string)
    requires l.Keys == left.cols && r.Keys == right.cols && lc in l && rc in r && !EndsInSuffix(c)
    ensures var m := BackendRight(left, right, lc, rc)(r) + l;
            c in m && !(lc != rc && c == rc) <==> c in l.Keys + (r.Keys - {rc}) && !(lc != rc && c == rc)
  {
    hide EndsInSuffix, SuffixRow;
    var r1 := if lc != rc && lc in r then r else RenameRow(r, rc, lc);
    SuffixRowAt(r1, RenamedClashes(left.cols, right.cols, lc, rc), c);
  }

  /** The backend merge keeps every variable under the same condition, whatever the names. */
  lemma BackendColumnsKeptIff(left: Table, right: Table, l: Row, r: Row, lc: string, rc: string)
    requires l.Keys == left.cols && r.Keys == right.cols && lc in l && rc in r
    ensures Cleaned(BackendRight(left, right, lc, rc)(r) + l, lc, rc).Keys == l.Keys + (r.Keys - {rc})
            <==> (forall c :: c in l.Keys + (r.Keys - {rc}) ==> !EndsInSuffix(c)) && (lc == rc || rc !in l)
  {
    hide EndsInSuffix, SuffixRow, Cleaned, BackendRight;
    var m := BackendRight(left, right, lc, rc)(r) + l;
    var got, want := Cleaned(m, lc, rc).Keys, l.Keys + (r.Keys - {rc});
    forall c
      ensures c in got <==> c in want && !EndsInSuffix(c) && !(lc != rc && c == rc)
    {
      CleanedAt(m, lc, rc, c);
      if !EndsInSuffix(c) {
        BackendName(left, right, l, r, lc, rc, c);
      }
    }
    if c :| c in want && (EndsInSuffix(c) || (lc != rc && c == rc)) {
      assert c !in got;
    } else {
      assert got == want;
    }
  }

  /** The swapped backend route: the right frame is the build side and takes the suffixes, the left frame is renamed. */
  function SwappedRight(left: Table, right: Table, lc: string, rc: string): Row -> Row {
    (r: Row) => SuffixRow(r, RenamedClashes(right.cols, left.cols, rc, lc))
  }

  function SwappedLeft(lc: string, rc: string): Row -> Row {
    (l: Row) => if lc != rc && rc in l then l else RenameRow(l, lc, rc)
  }

  /** The merged row, its key renamed back to the caller's variable when that name is free. */
  function SwappedMerged(build: Row, probe: Row, lc: string, rc: string): Row {
    var m := build + probe;
    if lc != rc && lc !in m && rc in m then RenameRow(m, rc, lc) else m
  }

  lemma SwappedCell(left: Table, right: Table, lc: string, rc: string, l: Row, r: Row, c: string)
    requires NamesFit(left, right, lc, rc) && l.Keys == left.cols && r.Keys == right.cols
    requires !EndsInSuffix(c)
    ensures var m := SwappedMerged(SwappedRight(left, right, lc, rc)(r), SwappedLeft(lc, rc)(l), lc, rc);
            && (c in m && !(lc != rc && c == rc) <==> c in l || (c in r && c != rc))
            && (c in m && !(lc != rc && c == rc) ==> m[c] == if c in l then l[c] else r[c])
  {
    hide EndsInSuffix, SuffixRow;
    var clash := RenamedClashes(right.cols, left.cols, rc, lc);
    OneSetOfClashes(left, right, lc, rc);
    SuffixRowAt(r, clash, c);
    SuffixRowAt(r, clash, lc);
    SuffixRowAt(r, clash, rc);
    var l1 := RenameRow(l, lc, rc);
    assert c in l1 <==> c == rc || (c in l && c != lc);
    assert lc != rc ==> lc !in l1;
  }

  lemma SwappedRowIsCombined(left: Table, right: Table, lc: string, rc: string, l: Row, r: Row)
    requires NamesFit(left, right, lc, rc)
    requires l.Keys == left.cols && r.Keys == right.cols
    ensures var build, probe := SwappedRight(left, right, lc, rc)(r), SwappedLeft(lc, rc)(l);
            Cleaned(SwappedMerged(build, probe, lc, rc), lc, rc) == Combine(l, r, rc)
  {
    hide EndsInSuffix, SuffixRow, SwappedRight, SwappedLeft, SwappedMerged, Cleaned;
    var m := SwappedMerged(SwappedRight(left, right, lc, rc)(r), SwappedLeft(lc, rc)(l), lc, rc);
    var got, want := Cleaned(m, lc, rc), Combine(l, r, rc);
    forall c
      ensures c in got <==> c in want
      ensures c in want ==> got[c] == want[c]
    {
      CleanedAt(m, lc, rc, c);
      if !EndsInSuffix(c) {
        SwappedCell(left, right, lc, rc, l, r, c);
      }
    }
    assert got == want;
  }

  // ---- The matching pairs by position ----

  /** Left row i and right row j hold the same key, not null unless the engine joins null keys. */
  ghost predicate Meet(ls: seq<Row>, rs: seq<Row>, lc: string, rc: string, nm: bool, i: nat, j: nat) {
    && i < |ls| && j < |rs| && lc in ls[i] && rc in rs[j]
    && ls[i][lc] == rs[j][rc] && (nm || ls[i][lc] != Null)
  }

  /** All the positions that meet, each once. */
  ghost predicate AllMeeting(at: seq<(nat, nat)>, ls: seq<Row>, rs: seq<Row>, lc: string, rc: string, nm: bool) {
    && (forall a, b :: 0 <= a < b < |at| ==> at[a] != at[b])
    && (forall i: nat, j: nat :: (i, j) in at <==> Meet(ls, rs, lc, rc, nm, i, j))
  }

  ghost predicate InRange(at: seq<(nat, nat)>, ls: seq<Row>, rs: seq<Row>) {
    forall k :: 0 <= k < |at| ==> at[k].0 < |ls| && at[k].1 < |rs|
  }

  /** The joined rows at those positions: all of the left row and what the right row adds under other names, apart from
      names that end in the suffix. */
  ghost function RowsAt(at: seq<(nat, nat)>, ls: seq<Row>, rs: seq<Row>, rc: string): (out: seq<Row>)
    requires InRange(at, ls, rs)
    ensures |out| == |at|
    ensures forall k, c :: 0 <= k < |at| ==>
              (c in out[k] <==> (c in ls[at[k].0] || (c in rs[at[k].1] && c != rc)) && !EndsInSuffix(c))
    ensures forall k, c :: 0 <= k < |at| && c in out[k] && c in ls[at[k].0] ==> out[k][c] == ls[at[k].0][c]
    ensures forall k, c :: 0 <= k < |at| && c in out[k] && c !in ls[at[k].0] ==>
              c in rs[at[k].1] && out[k][c] == rs[at[k].1][c]
  {
    seq(|at|, k requires 0 <= k < |at| => Combine(ls[at[k].0], rs[at[k].1], rc))
  }

  lemma SuffixMeaning(c: string)
    ensures EndsInSuffix(c) <==> exists d: string :: c == d + "_right"
  {
    if EndsInSuffix(c) {
      assert c == Unsuffix(c) + "_right";
    }
  }

  lemma {:induction false} PairsOfAt(ls: seq<Row>, i: nat, rs: seq<Row>, lc: string, rc: string, nm: bool)
    returns (js: seq<nat>)
    requires i < |ls|
    ensures forall a, b :: 0 <= a < b < |js| ==> js[a] < js[b]
    ensures forall j: nat :: j in js <==> Meet(ls, rs, lc, rc, nm, i, j)
    ensures |PairsOf(ls[i], rs, lc, rc, nm)| == |js|
    ensures forall k :: 0 <= k < |js| ==> js[k] < |rs| && PairsOf(ls[i], rs, lc, rc, nm)[k] == (ls[i], rs[js[k]])
  {
    if rs == [] {
      js := [];
    } else {
      var n := |rs| - 1;
      js := PairsOfAt(ls, i, rs[..n], lc, rc, nm);
      assert forall j: nat :: j < n ==> (Meet(ls, rs[..n], lc, rc, nm, i, j) <==> Meet(ls, rs, lc, rc, nm, i, j));
      assert forall k :: 0 <= k < |js| ==> js[k] in js;
      if KeysMatch(ls[i], rs[n], lc, rc, nm) {
        js := js + [n];
      }
    }
  }

  /** The enumerated pairs are the rows at exactly the meeting positions. */
  lemma {:induction false} PairsAt(ls: seq<Row>, rs: seq<Row>, lc: string, rc: string, nm: bool)
    returns (at: seq<(nat, nat)>)
    ensures AllMeeting(at, ls, rs, lc, rc, nm) && InRange(at, ls, rs)
    ensures |Pairs(ls, rs, lc, rc, nm)| == |at|
    ensures forall k :: 0 <= k < |at| ==> Pairs(ls, rs, lc, rc, nm)[k] == (ls[at[k].0], rs[at[k].1])
  {
    hide PairsOf, Meet;
    if ls == [] {
      at := [];
      forall i: nat, j: nat
        ensures !Meet(ls, rs, lc, rc, nm, i, j)
      {
        MeetRange(ls, rs, lc, rc, nm, i, j);
      }
    } else {
      var n := |ls| - 1;
      var before := PairsAt(ls[..n], rs, lc, rc, nm);
      var js := PairsOfAt(ls, n, rs, lc, rc, nm);
      at := before + seq(|js|, k requires 0 <= k < |js| => (n, js[k]));
      PositionsSplit(ls, rs, lc, rc, nm, before, js, at);
    }
  }

  lemma MeetRange(ls: seq<Row>, rs: seq<Row>, lc: string, rc: string, nm: bool, i: nat, j: nat)
    ensures Meet(ls, rs, lc, rc, nm, i, j) ==> i < |ls| && j < |rs|
    ensures i < |ls| - 1 ==> (Meet(ls, rs, lc, rc, nm, i, j) <==> Meet(ls[..|ls| - 1], rs, lc, rc, nm, i, j))
  {}

  lemma PositionsSplit(ls: seq<Row>, rs: seq<Row>, lc: string, rc: string, nm: bool, before: seq<(nat, nat)>,
                       js: seq<nat>, at: seq<(nat, nat)>)
    requires ls != [] && AllMeeting(before, ls[..|ls| - 1], rs, lc, rc, nm)
    requires forall a, b :: 0 <= a < b < |js| ==> js[a] < js[b]
    requires forall j: nat :: j in js <==> Meet(ls, rs, lc, rc, nm, |ls| - 1, j)
    requires at == before + seq(|js|, k requires 0 <= k < |js| => (|ls| - 1, js[k]))
    ensures AllMeeting(at, ls, rs, lc, rc, nm)
  {
    hide Meet;
    var n := |ls| - 1;
    forall k | 0 <= k < |before|
      ensures before[k].0 < n
    {
      var (i, j) := before[k];
      assert (i, j) in before;
      MeetRange(ls[..n], rs, lc, rc, nm, i, j);
    }
    forall i: nat, j: nat
      ensures (i, j) in at <==> Meet(ls, rs, lc, rc, nm, i, j)
    {
      MeetRange(ls, rs, lc, rc, nm, i, j);
      if Meet(ls, rs, lc, rc, nm, i, j) {
        if i < n {
          assert (i, j) in before;
        } else {
          assert i == n && j in js;
          var k :| 0 <= k < |js| && js[k] == j;
          assert at[|before| + k] == (n, j);
        }
      }
      if (i, j) in at {
        var k :| 0 <= k < |at| && at[k] == (i, j);
        if k < |before| {
          assert (i, j) in before;
          MeetRange(ls[..n], rs, lc, rc, nm, i, j);
        } else {
          assert js[k - |before|] == j;
          assert j in js;
        }
      }
    }
  }

  /** The join's rows, one for every two rows that meet. */
  lemma JoinRowsAt(left: Table, right: Table, lc: string, rc: string, nm: bool) returns (at: seq<(nat, nat)>)
    ensures AllMeeting(at, left.rows, right.rows, lc, rc, nm) && InRange(at, left.rows, right.rows)
    ensures JoinRows(left, right, lc, rc, nm) == RowsAt(at, left.rows, right.rows, rc)
  {
    hide Pairs, AllMeeting, Combine;
    at := PairsAt(left.rows, right.rows, lc, rc, nm);
  }

  // ---- The four routes ----

  method PandasJoin(left: Table, right: Table, lc: string, rc: string, swapped: bool)
    returns (cols: set<string>, rows: seq<Row>)
    requires NamesFit(left, right, lc, rc)
    ensures cols == JoinCols(left, right, rc) && multiset(rows) == multiset(JoinRows(left, right, lc, rc, true))
  {
    hide Pairs, Cleaned, MergedRow, JoinRows;
    var ps: seq<(Row, Row)>;
    if swapped {
      var flipped := EngineJoin(right.rows, left.rows, rc, lc, true);
      ps := Flip(flipped);
      FlipKeepsBag(flipped, Pairs(right.rows, left.rows, rc, lc, true));
      FlipPairs(left.rows, right.rows, lc, rc, true);
      SwapKeepsBag(left.rows, right.rows, lc, rc, true);
    } else {
      ps := EngineJoin(left.rows, right.rows, lc, rc, true);
    }
    var merge := PandasMerged(Clashes(left.cols, right.cols, lc, rc), lc, rc);
    cols := merge(NullRow(left.cols), NullRow(right.cols)).Keys;
    rows := MapPairs(merge, ps);
    PandasMergesLikeCombine(left, right, lc, rc);
    JoinBag(left, right, lc, rc, true, ps, merge);
  }

  method BackendJoin(left: Table, right: Table, lc: string, rc: string, nm: bool)
    returns (cols: set<string>, rows: seq<Row>)
    requires NamesFit(left, right, lc, rc)
    ensures cols == JoinCols(left, right, rc) && multiset(rows) == multiset(JoinRows(left, right, lc, rc, nm))
  {
    hide Pairs, Cleaned, BackendRight, MapPairs, JoinRows;
    var k := BackendRight(left, right, lc, rc);
    var id := (l: Row) => l;
    var renamed := MapSeq(k, right.rows);
    var ps := EngineJoin(MapSeq(id, left.rows), renamed, lc, lc, nm);
    var merge := (l: Row, r': Row) => Cleaned(r' + l, lc, rc);
    cols := merge(id(NullRow(left.cols)), k(NullRow(right.cols))).Keys;
    BackendRowIsCombined(left, right, lc, rc, NullRow(left.cols), NullRow(right.cols));
    rows := MapPairs(merge, ps);
    forall i | 0 <= i < |right.rows|
      ensures rc in right.rows[i] && lc in k(right.rows[i]) && k(right.rows[i])[lc] == right.rows[i][rc]
    {
      BackendKey(left, right, lc, rc, right.rows[i]);
    }
    PairsMapped(id, k, left.rows, right.rows, lc, rc, lc, lc, nm);
    var all := Pairs(left.rows, right.rows, lc, rc, nm);
    MapKeepsBag(merge, ps, MapBoth(id, k, all));
    forall p | p in all
      ensures merge(id(p.0), k(p.1)) == Combine(p.0, p.1, rc)
    {
      PairsAreRows(left.rows, right.rows, lc, rc, nm);
      BackendRowIsCombined(left, right, lc, rc, p.0, p.1);
    }
    MapTwice(merge, id, k, all, rc);
    JoinRowsOf(left, right, lc, rc, nm);
  }

  lemma BackendKey(left: Table, right: Table, lc: string, rc: string, r: Row)
    requires NamesFit(left, right, lc, rc) && r.Keys == right.cols
    ensures lc in BackendRight(left, right, lc, rc)(r) && BackendRight(left, right, lc, rc)(r)[lc] == r[rc]
  {
    hide EndsInSuffix, SuffixRow, IsCopy;
    OneSetOfClashes(left, right, lc, rc);
    SuffixRowAt(RenameRow(r, rc, lc), RenamedClashes(left.cols, right.cols, lc, rc), lc);
  }

  lemma MapTwice(merge: (Row, Row) -> Row, h: Row -> Row, k: Row -> Row, ps: seq<(Row, Row)>, rc: string)
    requires forall p :: p in ps ==> merge(h(p.0), k(p.1)) == Combine(p.0, p.1, rc)
    ensures MapPairs(merge, MapBoth(h, k, ps)) == MapPairs((l: Row, r: Row) => Combine(l, r, rc), ps)
  {
    hide Combine;
  }

  lemma JoinRowsOf(left: Table, right: Table, lc: string, rc: string, nm: bool)
    ensures JoinRows(left, right, lc, rc, nm) ==
            MapPairs((l: Row, r: Row) => Combine(l, r, rc), Pairs(left.rows, right.rows, lc, rc, nm))
  {}

  method BackendSwappedJoin(left: Table, right: Table, lc: string, rc: string, nm: bool)
    returns (cols: set<string>, rows: seq<Row>)
    requires NamesFit(left, right, lc, rc)
    ensures cols == JoinCols(left, right, rc) && multiset(rows) == multiset(JoinRows(left, right, lc, rc, nm))
  {
    hide Pairs, Cleaned, SwappedRight, SwappedLeft, SwappedMerged, MapPairs, JoinRows;
    var k, h := SwappedRight(left, right, lc, rc), SwappedLeft(lc, rc);
    var flipped := EngineJoin(MapSeq(k, right.rows), MapSeq(h, left.rows), rc, rc, nm);
    var ps := Flip(flipped);
    var merge := (probe: Row, build: Row) => Cleaned(SwappedMerged(build, probe, lc, rc), lc, rc);
    cols := merge(h(NullRow(left.cols)), k(NullRow(right.cols))).Keys;
    SwappedRowIsCombined(left, right, lc, rc, NullRow(left.cols), NullRow(right.cols));
    rows := MapPairs(merge, ps);
    var all := Pairs(left.rows, right.rows, lc, rc, nm);
    SwappedPairsBag(left, right, lc, rc, nm, flipped);
    MapKeepsBag(merge, ps, MapBoth(h, k, all));
    forall p | p in all
      ensures merge(h(p.0), k(p.1)) == Combine(p.0, p.1, rc)
    {
      PairsAreRows(left.rows, right.rows, lc, rc, nm);
      SwappedRowIsCombined(left, right, lc, rc, p.0, p.1);
    }
    MapTwice(merge, h, k, all, rc);
    JoinRowsOf(left, right, lc, rc, nm);
  }

  lemma SwappedPairsBag(left: Table, right: Table, lc: string, rc: string, nm: bool, flipped: seq<(Row, Row)>)
    requires NamesFit(left, right, lc, rc)
    requires var k, h := SwappedRight(left, right, lc, rc), SwappedLeft(lc, rc);
             multiset(flipped) == multiset(Pairs(MapSeq(k, right.rows), MapSeq(h, left.rows), rc, rc, nm))
    ensures var k, h := SwappedRight(left, right, lc, rc), SwappedLeft(lc, rc);
            multiset(Flip(flipped)) == multiset(MapBoth(h, k, Pairs(left.rows, right.rows, lc, rc, nm)))
  {
    hide Pairs, SwappedRight, SwappedLeft, SwappedPairs;
    var k, h := SwappedRight(left, right, lc, rc), SwappedLeft(lc, rc);
    var kr, hl := MapSeq(k, right.rows), MapSeq(h, left.rows);
    FlipKeepsBag(flipped, Pairs(kr, hl, rc, rc, nm));
    FlipPairs(hl, kr, rc, rc, nm);
    SwapKeepsBag(hl, kr, rc, rc, nm);
    SwappedKeys(left, right, lc, rc);
    PairsMapped(h, k, left.rows, right.rows, lc, rc, rc, rc, nm);
  }

  lemma SwappedKeys(left: Table, right: Table, lc: string, rc: string)
    requires NamesFit(left, right, lc, rc)
    ensures CarriesKey(SwappedRight(left, right, lc, rc), right.rows, rc, rc)
    ensures CarriesKey(SwappedLeft(lc, rc), left.rows, lc, rc)
  {
    hide EndsInSuffix, SuffixRow, IsCopy;
    OneSetOfClashes(left, right, lc, rc);
    forall i | 0 <= i < |right.rows|
      ensures var k := SwappedRight(left, right, lc, rc);
              rc in k(right.rows[i]) && k(right.rows[i])[rc] == right.rows[i][rc]
    {
      SuffixRowAt(right.rows[i], RenamedClashes(right.cols, left.cols, rc, lc), rc);
    }
  }

  /** BindingFrame.join: a broadcast join of a smaller left frame swaps the build side. */
  method Join(left: Table, right: Table, lc: string, rc: string, broadcast: bool, backend: bool, nullsMatch: bool)
    returns (r: Res<Table>, ghost at: seq<(nat, nat)>)
    requires left.Valid() && right.Valid()
    requires lc in left.cols && rc in right.cols ==> NamesFit(left, right, lc, rc)
    ensures r.Err? <==> lc !in left.cols || rc !in right.cols
    ensures r.Ok? ==> r.value.cols == JoinCols(left, right, rc)
    ensures r.Ok? ==> forall c :: c in r.value.cols <==>
              (c in left.cols || (c in right.cols && c != rc)) && !EndsInSuffix(c)
    ensures r.Ok? ==>
              multiset(r.value.rows)
              == multiset(JoinRows(left, right, lc, rc, if backend then nullsMatch else true))
    ensures r.Ok? ==>
              && AllMeeting(at, left.rows, right.rows, lc, rc, if backend then nullsMatch else true)
              && InRange(at, left.rows, right.rows)
              && multiset(r.value.rows) == multiset(RowsAt(at, left.rows, right.rows, rc))
  {
    hide JoinRows, NamesFit, AllMeeting, RowsAt;
    at := [];
    if lc !in left.cols || rc !in right.cols {
      return Err, at;
    }
    var swapped := broadcast && |right.rows| > |left.rows|;
    var cols, rows;
    if backend {
      if swapped {
        cols, rows := BackendSwappedJoin(left, right, lc, rc, nullsMatch);
      } else {
        cols, rows := BackendJoin(left, right, lc, rc, nullsMatch);
      }
    } else {
      cols, rows := PandasJoin(left, right, lc, rc, swapped);
    }
    r := Ok(Table(cols, rows));
    at := JoinRowsAt(left, right, lc, rc, if backend then nullsMatch else true);
  }

  // ---- What the bag of rows is ----

  /** Rows that have the key column, and a null in it. */
  function NullRows(rows: seq<Row>, c: string): nat {
    if rows == [] then 0
    else
      var last := rows[|rows| - 1];
      NullRows(rows[..|rows| - 1], c) + if c in last && last[c].Null? then 1 else 0
  }

  lemma {:induction false} NullPairsOf(l: Row, rs: seq<Row>, lc: string, rc: string)
    ensures multiset(PairsOf(l, rs, lc, rc, false)) <= multiset(PairsOf(l, rs, lc, rc, true))
    ensures |PairsOf(l, rs, lc, rc, true)| ==
            |PairsOf(l, rs, lc, rc, false)| + if lc in l && l[lc].Null? then NullRows(rs, rc) else 0
  {
    if rs != [] {
      NullPairsOf(l, rs[..|rs| - 1], lc, rc);
    }
  }

  lemma Successor(n: nat, k: nat)
    ensures (n + 1) * k == n * k + k
  {}

  /** An engine that joins null keys finds every pair of null-key rows more than one that does not. */
  lemma {:induction false} NullPairs(ls: seq<Row>, rs: seq<Row>, lc: string, rc: string)
    ensures |Pairs(ls, rs, lc, rc, true)| == |Pairs(ls, rs, lc, rc, false)| + NullRows(ls, lc) * NullRows(rs, rc)
  {
    hide PairsOf;
    var k := NullRows(rs, rc);
    if ls == [] {
      assert NullRows(ls, lc) * k == 0;
    } else {
      var n := |ls| - 1;
      NullPairs(ls[..n], rs, lc, rc);
      NullPairsOf(ls[n], rs, lc, rc);
      Successor(NullRows(ls[..n], lc), k);
    }
  }

  lemma {:induction false} SamePairsOf(l: Row, rs: seq<Row>, lc: string, rc: string)
    requires NullRows(rs, rc) == 0 || !(lc in l && l[lc].Null?)
    ensures PairsOf(l, rs, lc, rc, true) == PairsOf(l, rs, lc, rc, false)
  {
    if rs != [] {
      SamePairsOf(l, rs[..|rs| - 1], lc, rc);
    }
  }

  lemma {:induction false} SamePairs(ls: seq<Row>, rs: seq<Row>, lc: string, rc: string)
    requires NullRows(ls, lc) == 0 || NullRows(rs, rc) == 0
    ensures Pairs(ls, rs, lc, rc, true) == Pairs(ls, rs, lc, rc, false)
  {
    hide PairsOf;
    if ls != [] {
      SamePairs(ls[..|ls| - 1], rs, lc, rc);
      SamePairsOf(ls[|ls| - 1], rs, lc, rc);
    }
  }

  /** Engines that join null keys and engines that do not agree exactly when one of the two key columns has no nulls. */
  lemma EnginesAgreeIff(ls: seq<Row>, rs: seq<Row>, lc: string, rc: string)
    ensures multiset(Pairs(ls, rs, lc, rc, true)) == multiset(Pairs(ls, rs, lc, rc, false))
            <==> NullRows(ls, lc) == 0 || NullRows(rs, rc) == 0
  {
    hide Pairs, NullRows;
    if NullRows(ls, lc) == 0 || NullRows(rs, rc) == 0 {
      SamePairs(ls, rs, lc, rc);
    } else {
      NullPairs(ls, rs, lc, rc);
      var a, b := Pairs(ls, rs, lc, rc, true), Pairs(ls, rs, lc, rc, false);
      assert |multiset(a)| == |a| && |multiset(b)| == |b|;
    }
  }

  // ---- left_join ----

  /** A left row without a partner: the right frame's new columns are null. */
  function Padded(l: Row, rightCols: set<string>, rc: string): (out: Row)
    ensures out.Keys == PlainNames(l.Keys + (rightCols - {rc}))
    ensures forall c :: c in out ==> out[c] == if c in l then l[c] else Null
  {
    map c | c in PlainNames(l.Keys + (rightCols - {rc})) :: if c in l then l[c] else Null
  }

  function LeftOne(l: Row, right: Table, lc: string, rc: string, nm: bool): seq<Row> {
    var ps := PairsOf(l, right.rows, lc, rc, nm);
    if ps == [] then [Padded(l, right.cols, rc)] else MapPairs((l: Row, r: Row) => Combine(l, r, rc), ps)
  }

  function LeftJoinRows(ls: seq<Row>, right: Table, lc: string, rc: string, nm: bool): seq<Row> {
    if ls == [] then []
    else LeftJoinRows(ls[..|ls| - 1], right, lc, rc, nm) + LeftOne(ls[|ls| - 1], right, lc, rc, nm)
  }

  /** The left rows no right row matches. */
  function Unmatched(ls: seq<Row>, right: Table, lc: string, rc: string, nm: bool): seq<Row> {
    if ls == [] then []
    else
      var rest, l := Unmatched(ls[..|ls| - 1], right, lc, rc, nm), ls[|ls| - 1];
      if PairsOf(l, right.rows, lc, rc, nm) == [] then rest + [Padded(l, right.cols, rc)] else rest
  }

  /** The inner join grows by the last left row's pairs. */
  lemma JoinRowsLast(left: Table, right: Table, ls: seq<Row>, lc: string, rc: string, nm: bool)
    requires ls != []
    ensures JoinRows(Table(left.cols, ls), right, lc, rc, nm) ==
            JoinRows(Table(left.cols, ls[..|ls| - 1]), right, lc, rc, nm)
            + MapPairs((l: Row, r: Row) => Combine(l, r, rc), PairsOf(ls[|ls| - 1], right.rows, lc, rc, nm))
  {
    hide PairsOf;
    var combine := (l: Row, r: Row) => Combine(l, r, rc);
    var a, b := Pairs(ls[..|ls| - 1], right.rows, lc, rc, nm), PairsOf(ls[|ls| - 1], right.rows, lc, rc, nm);
    assert Pairs(ls, right.rows, lc, rc, nm) == a + b;
    assert MapPairs(combine, a + b) == MapPairs(combine, a) + MapPairs(combine, b);
  }

  /** A left join is the inner join plus every unmatched left row once, padded with nulls. */
  lemma {:induction false} LeftJoinIsInnerPlusUnmatched(left: Table, right: Table, ls: seq<Row>, lc: string, rc: string,
                                                        nm: bool)
    ensures multiset(LeftJoinRows(ls, right, lc, rc, nm)) ==
            multiset(JoinRows(Table(left.cols, ls), right, lc, rc, nm)) + multiset(Unmatched(ls, right, lc, rc, nm))
  {
    hide PairsOf, JoinRows, Padded, Combine;
    if ls != [] {
      LeftJoinIsInnerPlusUnmatched(left, right, ls[..|ls| - 1], lc, rc, nm);
      JoinRowsLast(left, right, ls, lc, rc, nm);
    } else {
      NoLeftRows(left, right, lc, rc, nm);
    }
  }

  lemma NoLeftRows(left: Table, right: Table, lc: string, rc: string, nm: bool)
    ensures JoinRows(Table(left.cols, []), right, lc, rc, nm) == []
  {}

  /** What of a row survives a join. */
  function Plain(r: Row): Row {
    Restrict(r, PlainNames(r.Keys))
  }

  /** Some row has all that survives of l. */
  ghost predicate Keeps(rows: seq<Row>, l: Row) {
    exists k :: 0 <= k < |rows| && Restrict(rows[k], l.Keys) == Plain(l)
  }

  lemma KeepsInConcat(a: seq<Row>, b: seq<Row>, l: Row)
    requires Keeps(a, l) || Keeps(b, l)
    ensures Keeps(a + b, l)
  {
    hide Plain, Restrict;
    if Keeps(a, l) {
      var k :| 0 <= k < |a| && Restrict(a[k], l.Keys) == Plain(l);
      assert (a + b)[k] == a[k];
    } else {
      var k :| 0 <= k < |b| && Restrict(b[k], l.Keys) == Plain(l);
      assert (a + b)[|a| + k] == b[k];
    }
  }

  /** No left row is lost: every one is the left part of some result row. */
  lemma {:induction false} LeftJoinKeepsLeftRows(ls: seq<Row>, right: Table, lc: string, rc: string, nm: bool, i: nat)
    requires i < |ls|
    ensures Keeps(LeftJoinRows(ls, right, lc, rc, nm), ls[i])
    decreases |ls|
  {
    hide LeftOne, Keeps;
    var n := |ls| - 1;
    if i < n {
      LeftJoinKeepsLeftRows(ls[..n], right, lc, rc, nm, i);
      assert ls[..n][i] == ls[i];
    } else {
      LeftOneKeeps(ls[n], right, lc, rc, nm);
    }
    KeepsInConcat(LeftJoinRows(ls[..n], right, lc, rc, nm), LeftOne(ls[n], right, lc, rc, nm), ls[i]);
  }

  lemma LeftOneKeeps(l: Row, right: Table, lc: string, rc: string, nm: bool)
    ensures Keeps(LeftOne(l, right, lc, rc, nm), l)
  {
    hide PlainNames, PairsOf;
    PairsOfAreRows(l, right.rows, lc, rc, nm);
    var ps, one := PairsOf(l, right.rows, lc, rc, nm), LeftOne(l, right, lc, rc, nm);
    assert |one| > 0;
    if ps != [] {
      assert ps[0] in ps;
    }
    assert Restrict(one[0], l.Keys) == Plain(l) by {
      forall c
        ensures c in Restrict(one[0], l.Keys) <==> c in Plain(l)
        ensures c in Plain(l) ==> Restrict(one[0], l.Keys)[c] == Plain(l)[c]
      {}
    }
  }

  /** The left rows the engine finds no partner for. */
  function Lonely(ls: seq<Row>, rs: seq<Row>, lc: string, rc: string, nm: bool): seq<Row> {
    if ls == [] then []
    else
      var rest, l := Lonely(ls[..|ls| - 1], rs, lc, rc, nm), ls[|ls| - 1];
      if PairsOf(l, rs, lc, rc, nm) == [] then rest + [l] else rest
  }

  /** The rest of an engine's left join, again in no particular order. */
  method EngineLonely(ls: seq<Row>, rs: seq<Row>, lc: string, rc: string, nm: bool) returns (lonely: seq<Row>)
    ensures multiset(lonely) == multiset(Lonely(ls, rs, lc, rc, nm))
  {
    lonely := Lonely(ls, rs, lc, rc, nm);
  }

  lemma {:induction false} UnmatchedIsPaddedLonely(ls: seq<Row>, right: Table, lc: string, rc: string, nm: bool)
    ensures Unmatched(ls, right, lc, rc, nm) ==
            MapSeq((l: Row) => Padded(l, right.cols, rc), Lonely(ls, right.rows, lc, rc, nm))
  {
    hide PairsOf, Padded;
    if ls != [] {
      UnmatchedIsPaddedLonely(ls[..|ls| - 1], right, lc, rc, nm);
    }
  }

  lemma {:induction false} LonelyAreRows(ls: seq<Row>, rs: seq<Row>, lc: string, rc: string, nm: bool)
    ensures forall l :: l in Lonely(ls, rs, lc, rc, nm) ==> l in ls
  {
    if ls != [] {
      LonelyAreRows(ls[..|ls| - 1], rs, lc, rc, nm);
    }
  }

  lemma {:induction false} LonelyMapped(k: Row -> Row, ls: seq<Row>, rs: seq<Row>, lc: string, rc: string, rc': string,
                                        nm: bool)
    requires CarriesKey(k, rs, rc, rc') && forall i :: 0 <= i < |ls| ==> lc in ls[i]
    ensures Lonely(ls, MapSeq(k, rs), lc, rc', nm) == Lonely(ls, rs, lc, rc, nm)
  {
    if ls != [] {
      var id, l := (x: Row) => x, ls[|ls| - 1];
      LonelyMapped(k, ls[..|ls| - 1], rs, lc, rc, rc', nm);
      assert [l][0] == l;
      PairsOfMapped(id, k, l, rs, lc, rc, lc, rc', nm);
    }
  }

  lemma PaddedIsCombined(l: Row, rightCols: set<string>, rc: string)
    ensures Combine(l, NullRow(rightCols), rc) == Padded(l, rightCols, rc)
  {
    hide PlainNames;
  }

  ghost predicate Alone(ls: seq<Row>, rs: seq<Row>, lc: string, rc: string, nm: bool, i: nat) {
    forall j: nat :: !Meet(ls, rs, lc, rc, nm, i, j)
  }

  /** The positions of the left rows that meet no right row, in order. */
  ghost predicate AllAlone(alone: seq<nat>, ls: seq<Row>, rs: seq<Row>, lc: string, rc: string, nm: bool) {
    && (forall a, b :: 0 <= a < b < |alone| ==> alone[a] < alone[b])
    && (forall k :: 0 <= k < |alone| ==> alone[k] < |ls|)
    && (forall i: nat :: i in alone <==> i < |ls| && Alone(ls, rs, lc, rc, nm, i))
  }

  /** Left rows with nulls under the names the right frame adds. */
  ghost function PaddedAt(alone: seq<nat>, ls: seq<Row>, rightCols: set<string>, rc: string): (out: seq<Row>)
    requires forall k :: 0 <= k < |alone| ==> alone[k] < |ls|
    ensures |out| == |alone|
    ensures forall k, c :: 0 <= k < |alone| ==>
              (c in out[k] <==> (c in ls[alone[k]] || (c in rightCols && c != rc)) && !EndsInSuffix(c))
    ensures forall k, c :: 0 <= k < |alone| && c in out[k] ==>
              out[k][c] == if c in ls[alone[k]] then ls[alone[k]][c] else Null
  {
    seq(|alone|, k requires 0 <= k < |alone| => Padded(ls[alone[k]], rightCols, rc))
  }

  lemma {:induction false} UnmatchedAt(ls: seq<Row>, right: Table, lc: string, rc: string, nm: bool)
    returns (alone: seq<nat>)
    ensures AllAlone(alone, ls, right.rows, lc, rc, nm)
    ensures Unmatched(ls, right, lc, rc, nm) == PaddedAt(alone, ls, right.cols, rc)
  {
    hide PairsOf, Padded, Meet, AllAlone;
    if ls == [] {
      alone := [];
      NobodyAlone(ls, right.rows, lc, rc, nm);
    } else {
      var n := |ls| - 1;
      var before := UnmatchedAt(ls[..n], right, lc, rc, nm);
      var js := PairsOfAt(ls, n, right.rows, lc, rc, nm);
      assert js != [] ==> js[0] in js;
      alone := if js == [] then before + [n] else before;
      OneMoreRow(ls, right.rows, lc, rc, nm, before, js == []);
      AloneRange(ls[..n], right.rows, lc, rc, nm, before);
    }
  }

  lemma NobodyAlone(ls: seq<Row>, rs: seq<Row>, lc: string, rc: string, nm: bool)
    requires ls == []
    ensures AllAlone([], ls, rs, lc, rc, nm)
  {}

  lemma AloneRange(ls: seq<Row>, rs: seq<Row>, lc: string, rc: string, nm: bool, alone: seq<nat>)
    requires AllAlone(alone, ls, rs, lc, rc, nm)
    ensures forall k :: 0 <= k < |alone| ==> alone[k] < |ls|
  {}

  lemma OneMoreRow(ls: seq<Row>, rs: seq<Row>, lc: string, rc: string, nm: bool, before: seq<nat>, lonely: bool)
    requires ls != [] && AllAlone(before, ls[..|ls| - 1], rs, lc, rc, nm)
    requires lonely <==> Alone(ls, rs, lc, rc, nm, |ls| - 1)
    ensures AllAlone(if lonely then before + [|ls| - 1] else before, ls, rs, lc, rc, nm)
  {
    hide Alone;
    forall i: nat | i < |ls| - 1
      ensures Alone(ls, rs, lc, rc, nm, i) <==> Alone(ls[..|ls| - 1], rs, lc, rc, nm, i)
    {
      AloneInPrefix(ls, rs, lc, rc, nm, i);
    }
  }

  lemma AloneInPrefix(ls: seq<Row>, rs: seq<Row>, lc: string, rc: string, nm: bool, i: nat)
    requires i < |ls| - 1
    ensures Alone(ls, rs, lc, rc, nm, i) <==> Alone(ls[..|ls| - 1], rs, lc, rc, nm, i)
  {
    var init := ls[..|ls| - 1];
    assert ls[i] == init[i];
    if Alone(ls, rs, lc, rc, nm, i) {
      forall j: nat
        ensures !Meet(init, rs, lc, rc, nm, i, j)
      {
        assert !Meet(ls, rs, lc, rc, nm, i, j);
      }
    } else {
      var j: nat :| Meet(ls, rs, lc, rc, nm, i, j);
      assert Meet(init, rs, lc, rc, nm, i, j);
    }
  }

  /** BindingFrame.left_join. */
  method LeftJoin(left: Table, right: Table, lc: string, rc: string, backend: bool, nullsMatch: bool)
    returns (r: Res<Table>, ghost at: seq<(nat, nat)>, ghost alone: seq<nat>)
    requires left.Valid() && right.Valid()
    requires lc in left.cols && rc in right.cols ==> NamesFit(left, right, lc, rc)
    ensures r.Err? <==> lc !in left.cols || rc !in right.cols
    ensures r.Ok? ==> r.value.cols == JoinCols(left, right, rc)
    ensures r.Ok? ==> forall c :: c in r.value.cols <==>
              (c in left.cols || (c in right.cols && c != rc)) && !EndsInSuffix(c)
    ensures r.Ok? ==> multiset(r.value.rows) ==
                      multiset(LeftJoinRows(left.rows, right, lc, rc, if backend then nullsMatch else true))
    ensures r.Ok? ==>
              var nm := if backend then nullsMatch else true;
              && AllMeeting(at, left.rows, right.rows, lc, rc, nm) && InRange(at, left.rows, right.rows)
              && AllAlone(alone, left.rows, right.rows, lc, rc, nm)
              && multiset(r.value.rows) == multiset(RowsAt(at, left.rows, right.rows, rc))
                                           + multiset(PaddedAt(alone, left.rows, right.cols, rc))
  {
    hide JoinRows, Lonely, LeftJoinRows, Unmatched, Cleaned, MergedRow, BackendRight, MapSeq, NamesFit, AllMeeting,
         AllAlone, RowsAt, PaddedAt;
    at, alone := [], [];
    if lc !in left.cols || rc !in right.cols {
      return Err, at, alone;
    }
    var nm := if backend then nullsMatch else true;
    var cols, matched, padded;
    if backend {
      cols, matched := BackendJoin(left, right, lc, rc, nm);
      padded := BackendUnmatched(left, right, lc, rc, nm);
    } else {
      cols, matched := PandasJoin(left, right, lc, rc, false);
      padded := PandasUnmatched(left, right, lc, rc);
    }
    r := Ok(Table(cols, matched + padded));
    assert Table(left.cols, left.rows) == left;
    LeftJoinIsInnerPlusUnmatched(left, right, left.rows, lc, rc, nm);
    at := JoinRowsAt(left, right, lc, rc, nm);
    alone := UnmatchedAt(left.rows, right, lc, rc, nm);
  }

  /** The unmatched rows of the pandas merge: nulls in the right frame's columns, suffixed where they clash. */
  method PandasUnmatched(left: Table, right: Table, lc: string, rc: string) returns (padded: seq<Row>)
    requires NamesFit(left, right, lc, rc)
    ensures multiset(padded) == multiset(Unmatched(left.rows, right, lc, rc, true))
  {
    hide Cleaned, MergedRow, Lonely, Unmatched, Combine;
    var lonely := EngineLonely(left.rows, right.rows, lc, rc, true);
    var clash := Clashes(left.cols, right.cols, lc, rc);
    var pad := (l: Row) => Cleaned(MergedRow(l, NullRow(right.cols), clash), lc, rc);
    forall l: Row | l.Keys == left.cols
      ensures pad(l) == Combine(l, NullRow(right.cols), rc)
    {
      CleanedIsCombined(left, right, lc, rc, l, NullRow(right.cols));
    }
    padded := MapSeq(pad, lonely);
    PadAll(left, right, lc, rc, true, lonely, pad);
  }

  /** The unmatched rows of the backend's merge: nulls in the right frame's renamed and suffixed columns. */
  method BackendUnmatched(left: Table, right: Table, lc: string, rc: string, nm: bool) returns (padded: seq<Row>)
    requires NamesFit(left, right, lc, rc)
    ensures multiset(padded) == multiset(Unmatched(left.rows, right, lc, rc, nm))
  {
    hide Cleaned, BackendRight, Lonely, Unmatched, Combine;
    var k := BackendRight(left, right, lc, rc);
    var lonely := EngineLonely(left.rows, MapSeq(k, right.rows), lc, lc, nm);
    forall i | 0 <= i < |right.rows|
      ensures rc in right.rows[i] && lc in k(right.rows[i]) && k(right.rows[i])[lc] == right.rows[i][rc]
    {
      BackendKey(left, right, lc, rc, right.rows[i]);
    }
    LonelyMapped(k, left.rows, right.rows, lc, rc, lc, nm);
    var pad := (l: Row) => Cleaned(k(NullRow(right.cols)) + l, lc, rc);
    forall l: Row | l.Keys == left.cols
      ensures pad(l) == Combine(l, NullRow(right.cols), rc)
    {
      BackendRowIsCombined(left, right, lc, rc, l, NullRow(right.cols));
    }
    padded := MapSeq(pad, lonely);
    PadAll(left, right, lc, rc, nm, lonely, pad);
  }

  lemma PadAll(left: Table, right: Table, lc: string, rc: string, nm: bool, lonely: seq<Row>, pad: Row -> Row)
    requires NamesFit(left, right, lc, rc)
    requires multiset(lonely) == multiset(Lonely(left.rows, right.rows, lc, rc, nm))
    requires forall l: Row :: l.Keys == left.cols ==> pad(l) == Combine(l, NullRow(right.cols), rc)
    ensures multiset(MapSeq(pad, lonely)) == multiset(Unmatched(left.rows, right, lc, rc, nm))
  {
    hide Lonely, Unmatched, Padded, Combine, IsCopy;
    var all := Lonely(left.rows, right.rows, lc, rc, nm);
    var want := (l: Row) => Padded(l, right.cols, rc);
    LonelyAreRows(left.rows, right.rows, lc, rc, nm);
    forall i | 0 <= i < |lonely|
      ensures pad(lonely[i]) == want(lonely[i])
    {
      assert lonely[i] in multiset(lonely);
      assert lonely[i] in all;
      PaddedIsCombined(lonely[i], right.cols, rc);
    }
    assert MapSeq(pad, lonely) == MapSeq(want, lonely);
    MapSeqKeepsBag(want, lonely, all);
    UnmatchedIsPaddedLonely(left.rows, right, lc, rc, nm);
  }

  // ---- Type registries ----

  /** The merged registry. */
  function MergedRegistry(left: map<string, string>, right: map<string, string>): (r: map<string, string>)
    ensures r == left + right
  {
    if left == map[] then right else if right == map[] then left else left + right
  }

  /** Where both frames have a variable, its value comes from the left row but its type from the right frame. */
  lemma LeftValueRightType(l: Row, r: Row, lt: map<string, string>, rt: map<string, string>, rc: string, v: string)
    requires v in l && v in r && v in lt && v in rt && !EndsInSuffix(v)
    ensures v in Combine(l, r, rc) && Combine(l, r, rc)[v] == l[v]
    ensures v in MergedRegistry(lt, rt) && MergedRegistry(lt, rt)[v] == rt[v]
  {}

}
