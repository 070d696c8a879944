# Verified model of pycypher and nmetl

Dafny 4.11 models of the algorithmic core of the repository, each tied to a simple specification and proved to agree with it
for every input, every run or every reachable state. `dafny verify dfyconfig.toml` checks the project.

| cluster | modules | fast or stateful form | specification it is proved against |
|---|---|---|---|
| import cycles | ImportGraph, ImportCycles, SortedNames, CycleSearch, Ratchet | Tarjan's search over a shared stack, index map and low links; the ratchet check | maximal sets of mutually reachable modules |
| query expressions | Values, RowSemantics, Exploding, ColumnSpec, ColumnEvaluator, QueryLaws, BoolChains, RowMeaning | one pass per column, exploding and regrouping, reversed CASE, interchanged REDUCE loops | an interpreter of one row |
| binding frames | Joins, PropertyStores, PropertyFrames, WriteBack, Clauses | swapped and backend joins, cached, batched and multi-type lookups, batched write-back, UNWIND, UNION | bags of matching pairs, shadow-first lookup per row, one property at a time, per-row lists, left-to-right reading |
| aggregation | Aggregates, Grouping, GroupedAggregation, AggregateMeaning | one accumulator pass over all groups | filter each group, aggregate it alone |
| arithmetic | Arithmetic, Dates | integers through binary64; month clamping, whole-day timedeltas | truncated division; calendar ordinals |
| state machines | CircuitBreaking, PreviewCaching, PipelineBuilding, PipelineHeap, ClusterModel | mutable objects | call histories, runs, one timeline with a cursor, schedules of locked steps |
| selectivity | Histogram | overlap sums over bins | a cumulative distribution |

Objects whose methods update fields are classes whose methods are specified by a function of their old state; loops that
update columns are methods with invariants; expression code is functions. An error of any kind is the one value `Err`.
Each specification function is in turn pinned down on plain values, maps and positions: what a join pairs, a property read returns,
a comprehension keeps, an aggregate is (`Joins.PairsAt`, `PropertyStores.ReferenceReads`, `RowMeaning`, `AggregateMeaning`).
Scalar functions and arithmetic inside query expressions, standard deviation and arithmetic between aggregates are parameters;
so are clock readings, which must not decrease.

Where code, documentation or naive expectation differ, the code is modelled; theorems that pin the difference down are named:

- The import ratchet compares whole components with single baseline sets. Read pair by pair it is right for every graph exactly
  under a conformal baseline, which the one it writes itself is (`Ratchet.RatchetMeaningIff`, `Ratchet.RatchetMeaning`,
  `Ratchet.OverlapCounterexample`).
- Division and remainder are exact only for dividends below 2^53 (`Arithmetic.ExactBound`, `Arithmetic.FailsAtBound`).
- `date + u - u` loses a day unless `u` is whole days, because a date moves by the timedelta's floored day count; month arithmetic
  alone is invertible and additive only without clamping, while days may cross months whose lengths make up for it
  (`Dates.DateRoundTripIff`, `Dates.DateRoundTripWithMonthsIff`, `Dates.ClampUndone`, `Dates.MonthsRoundTripIff`,
  `Dates.MonthsAdditiveIff`).
  Any operator other than `+` between a date or duration and a duration subtracts, and nanoseconds are ignored by dates.
- A grouped plain `sum` over text concatenates where the ungrouped one fails, and on a frame without rows the fast path still resolves
  names that the fallback never looks at (`GroupedAggregation.OnePassIsPerGroup`).
- A null group key gives aggregates without a skeleton row (`GroupedAggregation.SkeletonAlignsIff`).
- `mutate_batch` with two or more properties lets a null update keep the old value where `mutate` erases it
  (`WriteBack.BatchIsSequenceIff`).
- A UNION chain is deduplicated as a whole even if plain UNIONs are followed by ALL, and a plain UNION fails on rows that hold a
  list (`Clauses.UnionIff`); UNWIND drops null elements.
- List comprehension bodies cannot see outer variables, quantifier bodies can (`QueryLaws.ComprehensionReadsOnlyItsList`,
  `QueryLaws.QuantifierMeaning`).
- The null-coercing boolean chain is not the Kleene chain: XOR takes null for false, and integer columns combine bitwise
  (`BoolChains.ChainAgreesIff`, `BoolChains.TruthValueChains`, `BoolChains.IntegerChains`).
- The pandas and the backend merge drop variables ending in `_right` and a left variable named like the right key, and joins
  register the right frame's type for a clash whose left values survive (`Joins.ColumnsKeptIff`,
  `Joins.BackendColumnsKeptIff`, `Joins.LeftValueRightType`); engines differ on null keys (`Joins.EnginesAgreeIff`).
- The circuit breaker's half-open state admits any number of calls, though its documentation speaks of one probe
  (`CircuitBreaking.AnyNumberOfProbes`); a threshold below one acts as one; and automatic selection
  ends in pandas where its documentation announces a RuntimeError.
- An edit whose payload fails validation has already been recorded (`PipelineBuilding.FailedEditIff`).
- A preview cache without capacity fails on put.

## Model

| member | source | states |
|---|---|---|
| CycleSearch.CycleFinder.FindCycles | scripts/check_import_cycles.py:118-156 | for every finite import graph the search ends and its report is exactly the strongly connected components of more than one module, each with its names in sorted order: each report mutually reachable and maximal, reports disjoint, none missed |
| CycleSearch.CycleFinder.StrongConnect | scripts/check_import_cycles.py:127-149 | a call on an unvisited module ends (unindexed modules decrease), keeps the search invariant, leaves the part of the stack below it alone, and leaves a low link that is the number of a module it can reach on the stack |
| CycleSearch.CycleFinder.ExploreImports | scripts/check_import_cycles.py:134-139 | after the loop every import has been visited and no import of anything pushed meanwhile leads back below the low link |
| CycleSearch.CycleFinder.CloseCall | scripts/check_import_cycles.py:141-150 | the call ends either with v and all above it reported as one component, or with v left on the stack anchored to an older open call |
| CycleSearch.CycleFinder.PopTo | scripts/check_import_cycles.py:143-148 | the pop loop removes exactly the stack from v upwards and returns it top first |
| CycleSearch.CycleFinder.Push | scripts/check_import_cycles.py:128-132 | numbering and pushing a module every open call reaches keeps the invariant |
| CycleSearch.AfterCall | scripts/check_import_cycles.py:135-137 | taking the minimum with a finished call's low link keeps what is known in the middle of a call |
| CycleSearch.AfterLook | scripts/check_import_cycles.py:138-139 | taking the minimum with a stacked import's number keeps what is known in the middle of a call |
| CycleSearch.FinishedReport | scripts/check_import_cycles.py:152-156 | with no call open the stack is empty, so every visited module's component has been reported |
| ImportCycles.PushKeepsInv | scripts/check_import_cycles.py:128-132 | pushing keeps stack order, reachability along the stack and anchoring to open calls |
| ImportCycles.BlackenKeepsInv | scripts/check_import_cycles.py:134-141 | a call that reached something older can close without popping |
| ImportCycles.PopIsComponent | scripts/check_import_cycles.py:141-150 | a module whose low link is its own number and everything above it on the stack form one whole strongly connected component |
| ImportCycles.PopKeepsInv | scripts/check_import_cycles.py:141-150 | popping that component keeps the invariant: nothing leads out of what has been popped |
| ImportCycles.ReportComponent | scripts/check_import_cycles.py:149-150 | appending a whole component, if it has more than one member, keeps the report exact for the modules done so far |
| ImportGraph.CycleMembersAreKeys | scripts/check_import_cycles.py:134-156 | two different modules on one cycle both import something, so iterating the keys misses no cycle |
| SortedNames.Sort | scripts/check_import_cycles.py:149-150 | the names of a component, each before all later ones, none lost and none twice |
| SortedNames.SortSet | scripts/check_import_cycles.py:152-154 | the same for the modules the search starts from |
| SortedNames.SortedComponent | scripts/check_import_cycles.py:149-150 | sorting a component leaves it the same component |
| Ratchet.CheckRatchet | scripts/check_import_cycles.py:186-201 | returns exactly the components no single baseline set contains, in report order |
| Ratchet.RatchetMeaningIff | scripts/check_import_cycles.py:186-201 | for a given baseline, no violation means for every graph that each two distinct mutually reachable modules share a baseline set exactly when the baseline is conformal: the modules in at least two of any three baseline sets lie in one baseline set |
| Ratchet.CoveredWhenShared | scripts/check_import_cycles.py:186-201 | under a conformal baseline, modules that share baseline sets pairwise all lie in one baseline set |
| Ratchet.ConformalIsNeeded | scripts/check_import_cycles.py:186-201 | without it there is a graph that is reported although all pairs on its cycles share |
| Ratchet.LaminarIsConformal | scripts/check_import_cycles.py:186-201 | baseline sets that are pairwise disjoint or nested are conformal |
| Ratchet.RatchetMeaning | scripts/check_import_cycles.py:159-201 | against the baseline written from one graph's report, no violation for another graph exactly when every two modules on one of its cycles were on one cycle before |
| Ratchet.ViolationsExact | scripts/check_import_cycles.py:186-201 | a component is reported as a violation exactly when no baseline set contains all of it |
| Ratchet.RemovingImportsKeepsPassing | scripts/check_import_cycles.py:186-201 | removing import edges from a passing graph never creates a violation, whatever the baseline |
| Ratchet.OverlapCounterexample | scripts/check_import_cycles.py:186-201 | the three pairs of a triangle, the smallest baseline that is not conformal, leave the triangle reported although every pair shares a set |
| ColumnEvaluator.Evaluate | packages/pycypher/src/pycypher/binding_evaluator.py:491-660 | for every expression of the modelled language and every frame, evaluating column by column gives exactly the values (or the failure) of interpreting each row alone |
| ColumnEvaluator.EvaluateBinary | packages/pycypher/src/pycypher/comparison_evaluator.py:99-157 | comparison and index lookup over whole columns equal the per-row operation, null operands giving null |
| ColumnEvaluator.EvaluateUnary | packages/pycypher/src/pycypher/comparison_evaluator.py:159-191 | null checks and NOT over whole columns equal the per-row operation |
| ColumnEvaluator.EvaluateListLiteral | packages/pycypher/src/pycypher/binding_evaluator.py:543-561 | zipping element columns gives each row the list of its own elements |
| ColumnEvaluator.EvaluateApply | packages/pycypher/src/pycypher/binding_evaluator.py:599-604 | argument columns evaluated in order and handed on row by row, given that the scalar function itself treats each row alone (it is a parameter) |
| ColumnEvaluator.EvaluateBoolChain | packages/pycypher/src/pycypher/boolean_evaluator.py:154-281 | the left fold of whole columns by AND, OR or XOR equals the Kleene fold of each row |
| ColumnEvaluator.EvaluateSlicing | packages/pycypher/src/pycypher/collection_evaluator.py:246-316 | slicing columns equals Python slicing of each row's own value by its own bounds |
| Values.ParseMeaning | packages/pycypher/src/pycypher/collection_evaluator.py:291-296 | a text bound or index is read as int reads it: blanks around it, one sign, digits with single underscores between them, and nothing else |
| Values.ParsesDigit | packages/pycypher/src/pycypher/collection_evaluator.py:291-296 | a digit alone reads as its value, and a digit put after a number, with or without an underscore, makes it ten times the number plus the digit |
| ColumnEvaluator.EvaluateCase | packages/pycypher/src/pycypher/comparison_evaluator.py:242-314 | overwriting the result column from the last WHEN to the first equals taking the first matching WHEN in each row |
| ColumnEvaluator.EvaluateWhen | packages/pycypher/src/pycypher/comparison_evaluator.py:293-314 | one WHEN over the frame gives the rows it matches and its result column, or some row fails |
| ColumnEvaluator.EvaluateListComprehension | packages/pycypher/src/pycypher/collection_evaluator.py:358-425 | exploding all rows into one flat frame, filtering, mapping and regrouping gives each row exactly its own filtered and mapped list in order, null and empty lists giving the empty list |
| ColumnEvaluator.FilterFlat | packages/pycypher/src/pycypher/collection_evaluator.py:371-395 | WHERE evaluated once over all elements keeps exactly each row's own survivors, in order |
| ColumnEvaluator.MapFlat | packages/pycypher/src/pycypher/collection_evaluator.py:397-418 | mapping all survivors at once maps each row's survivors |
| ColumnEvaluator.EvaluateQuantifier | packages/pycypher/src/pycypher/collection_evaluator.py:501-618 | ANY, ALL, NONE and SINGLE over the exploded frame give each row its own verdict, null and empty lists giving false, true, true, false |
| ColumnEvaluator.MatchesPerRow | packages/pycypher/src/pycypher/collection_evaluator.py:531-574 | one predicate evaluation over the exploded frame, regrouped, is each row's own predicate values |
| ColumnEvaluator.Verdicts | packages/pycypher/src/pycypher/collection_evaluator.py:576-618 | counting true predicate values per row decides the verdict; null values count as non-matches |
| ColumnEvaluator.EvaluateReduce | packages/pycypher/src/pycypher/collection_evaluator.py:651-727 | stepping all rows together with shrinking active sets gives every row the left fold of its own list from its own initial value |
| ColumnEvaluator.ReduceStep | packages/pycypher/src/pycypher/collection_evaluator.py:684-724 | one step advances exactly the rows that still have an element, by the body on their own accumulator and element |
| ColumnEvaluator.Scatter | packages/pycypher/src/pycypher/collection_evaluator.py:722-724 | new accumulators go back to the active rows and to no others |
| Exploding.Regroup | packages/pycypher/src/pycypher/collection_evaluator.py:420-425 | appending each flat value to the list of its row number rebuilds the original groups |
| Exploding.PickOfFlat | packages/pycypher/src/pycypher/collection_evaluator.py:358-382 | flattening with row numbers and picking one row number gives that row's group back in order |
| Exploding.EachFlat | packages/pycypher/src/pycypher/collection_evaluator.py:371-418 | evaluating a flattened frame is evaluating every group and concatenating |
| Exploding.SelectFlat | packages/pycypher/src/pycypher/collection_evaluator.py:382-395 | selecting from the flat column, and from its row numbers, selects inside every group |
| QueryLaws.AndMeaning | packages/pycypher/src/pycypher/boolean_evaluator.py:40-61 | AND of any number of operands: a false decides, else a null, else true, in whatever order they come |
| QueryLaws.OrMeaning | packages/pycypher/src/pycypher/boolean_evaluator.py:64-82 | OR of any number of operands: a true decides, else a null, else false |
| QueryLaws.XorMeaning | packages/pycypher/src/pycypher/boolean_evaluator.py:85-98 | XOR of any number of operands: one null makes it null, otherwise the parity of the true ones |
| QueryLaws.DeMorgan | packages/pycypher/src/pycypher/boolean_evaluator.py:40-113 | negating an AND chain of any length is the OR of the negations, in three-valued logic |
| BoolChains.EvaluateBoolChain | packages/pycypher/src/pycypher/boolean_evaluator.py:283-350 | the column fold with nulls filled in gives every row its own chain and fails exactly when some row does; integer columns combine bitwise |
| BoolChains.ChainAgreesIff | packages/pycypher/src/pycypher/boolean_evaluator.py:283-350 | it raises exactly on text or lists among two or more operands; otherwise it keeps the rows the Kleene chain keeps exactly when it has a single operand, or is an OR, or an AND with a false operand or whose operands share a set bit as far as they combine bitwise and are odd after that, or an XOR whose settled bits have the parity of its true operands |
| BoolChains.BitwiseAt | packages/pycypher/src/pycypher/boolean_evaluator.py:119-123 | each bit of the two's complement result is the operator on the operands' bits, for integers of any size and sign |
| BoolChains.OrChain | packages/pycypher/src/pycypher/boolean_evaluator.py:119-123 | an OR chain of booleans, nulls and integers keeps a row exactly when some operand is true |
| BoolChains.AndChain | packages/pycypher/src/pycypher/boolean_evaluator.py:119-123 | an AND chain keeps it exactly when the operands combined bitwise share a set bit and the others are odd |
| BoolChains.XorChain | packages/pycypher/src/pycypher/boolean_evaluator.py:119-123 | an XOR chain keeps it by the bits set in an odd number of the operands up to the last that settles them, and by the parity of the true operands after that |
| BoolChains.TruthValueChains | packages/pycypher/src/pycypher/boolean_evaluator.py:283-338 | over booleans and nulls AND and OR always agree with the Kleene chain, XOR exactly with a single operand, no null, or an even number of true operands |
| BoolChains.IntegerChains | packages/pycypher/src/pycypher/boolean_evaluator.py:283-338 | over integer columns AND agrees exactly when some operand is zero or all share a set bit, XOR exactly when some bit is set in an odd number of operands just if an odd number is not zero |
| BoolChains.IntegerExamples | packages/pycypher/src/pycypher/boolean_evaluator.py:283-338 | 1 AND 2 is 0 and 1 XOR 3 is 2, where the Kleene chains give true and false |
| QueryLaws.FirstMatchWins | packages/pycypher/src/pycypher/comparison_evaluator.py:293-314 | a CASE row is the result of its first matching WHEN, or of ELSE when none matches |
| QueryLaws.VerdictMeaning | packages/pycypher/src/pycypher/collection_evaluator.py:576-602 | the counted verdicts mean: some, every, no, exactly one element satisfies the predicate |
| QueryLaws.FilterCommutes | packages/pycypher/src/pycypher/binding_frame.py:1499-1562 | evaluating an expression after a filter equals filtering the evaluated column |
| QueryLaws.FilterRows | packages/pycypher/src/pycypher/binding_frame.py:1499-1562 | the filtered frame's rows are exactly the rows where the mask is true, in order |
| QueryLaws.SelectAt | packages/pycypher/src/pycypher/binding_frame.py:1538-1562 | boolean selection keeps the k-th true position as its k-th entry |
| QueryLaws.ComprehensionReadsOnlyItsList | packages/pycypher/src/pycypher/collection_evaluator.py:358-425 | the value of any list comprehension depends on the row only through its list: two rows with the same list value get the same result |
| QueryLaws.ComprehensionHidesOuter | packages/pycypher/src/pycypher/collection_evaluator.py:371-395 | so a WHERE that names a variable of the row fails exactly when the list has an element |
| QueryLaws.QuantifierMeaning | packages/pycypher/src/pycypher/collection_evaluator.py:531-602 | any quantifier is true exactly when some, every, no, exactly one element satisfies its predicate in the row itself with the loop variable bound on top |
| QueryLaws.QuantifierSeesOuter | packages/pycypher/src/pycypher/collection_evaluator.py:537-559 | so ALL over a variable of the row is that variable's truth, or the list is empty |
| RowMeaning.ComprehensionMeaning | packages/pycypher/src/pycypher/collection_evaluator.py:358-425 | a comprehension keeps, in order, exactly the elements on which the WHERE, seeing only the loop variable, is true, and maps each of them alone; it fails exactly when the WHERE fails on some element or the map on a kept one |
| RowMeaning.ReduceMeaning | packages/pycypher/src/pycypher/collection_evaluator.py:651-727 | REDUCE is the last of a chain of accumulators, one step of the body per element with the element shadowing the accumulator and both the row; it fails exactly where a step does |
| RowMeaning.QuantifierFailsIff | packages/pycypher/src/pycypher/collection_evaluator.py:531-559 | a quantifier fails exactly when its predicate does on some element |
| RowMeaning.CaseMeaning | packages/pycypher/src/pycypher/comparison_evaluator.py:242-314 | CASE is the result of the first WHEN whose value equals the discriminant, or whose condition is true, else the ELSE value, else null |
| RowMeaning.CaseFailsIff | packages/pycypher/src/pycypher/comparison_evaluator.py:242-314 | it fails exactly when one of its parts fails or a searched condition is neither boolean nor null |
| RowMeaning.ChainMeaning | packages/pycypher/src/pycypher/boolean_evaluator.py:154-281 | a boolean chain over operand values: none gives the identity, one itself, more the three-valued AND, OR or parity |
| RowMeaning.OperandsMeaning | packages/pycypher/src/pycypher/binding_evaluator.py:543-604 | a list literal holds its elements' values and a call gets its arguments' values; either fails with an operand |
| RowMeaning.SameValueMeaning | packages/pycypher/src/pycypher/comparison_evaluator.py:99-157 | values are equal exactly when they are the same with true written as 1, at any depth |
| RowMeaning.NumbersCompare | packages/pycypher/src/pycypher/comparison_evaluator.py:99-157 | the six comparisons of numbers are those of integers |
| RowMeaning.StringLessMeaning | packages/pycypher/src/pycypher/comparison_evaluator.py:99-157 | a text is less exactly when at the first difference it ends or has the smaller character |
| RowMeaning.ListLessMeaning | packages/pycypher/src/pycypher/comparison_evaluator.py:99-157 | lists compare by their first differing elements, a proper prefix being less |
| RowMeaning.ComparisonLaws | packages/pycypher/src/pycypher/comparison_evaluator.py:99-157 | null compares to null; greater is the converse of less, or-equal its closure by equality |
| RowMeaning.IndexMeaning | packages/pycypher/src/pycypher/binding_evaluator.py:612-639 | an index counts from zero, or from the end when negative; beyond both ends there is null |
| RowMeaning.SliceMeaning | packages/pycypher/src/pycypher/collection_evaluator.py:291-309 | a slice is the contiguous run of exactly those elements that lie from the one bound on and before the other, negative bounds counting from the end |
| RowMeaning.ScopeMeaning | packages/pycypher/src/pycypher/binding_evaluator.py:491-660 | on a frame without rows an expression resolves exactly when the names outside the bodies of its comprehensions, quantifiers and REDUCE are there |
| Joins.Join | packages/pycypher/src/pycypher/binding_frame.py:1633-1780 | whichever route is taken (pandas or backend, ordinary or with the build side swapped) the result has the same columns, computed by that route on the header, and the same bag of rows: one for every two positions whose keys are equal (and not null unless the engine joins nulls), the left value winning on name clashes, every name that ends in the collision suffix gone |
| Joins.PandasJoin | packages/pycypher/src/pycypher/binding_frame.py:1727-1755 | the pandas merge with its suffixes, cleaned up, has the join's columns and rows, from either build side |
| Joins.BackendJoin | packages/pycypher/src/pycypher/binding_frame.py:192-245 | renaming the right key, suffixing clashes, merging on one name and cleaning up gives the join's columns and rows |
| Joins.BackendSwappedJoin | packages/pycypher/src/pycypher/binding_frame.py:1703-1726 | the swapped backend merge, its key renamed back, gives the join's columns and rows |
| Joins.LeftJoin | packages/pycypher/src/pycypher/binding_frame.py:1782-1865 | by either route the left join is one row for every two positions that meet plus every left row that meets none, with nulls in the columns the right frame adds |
| Joins.BackendUnmatched | packages/pycypher/src/pycypher/binding_frame.py:192-245 | padding with the renamed and suffixed null columns of the backend gives the same unmatched rows as padding with the pandas columns |
| Joins.PairsAt | packages/pycypher/src/pycypher/binding_frame.py:1727-1753 | the matching pairs are the rows at exactly the positions whose keys are equal (and not null unless the engine joins nulls), each once |
| Joins.JoinRowsAt | packages/pycypher/src/pycypher/binding_frame.py:1727-1780 | every route's rows are the combined rows at exactly those positions |
| Joins.UnmatchedAt | packages/pycypher/src/pycypher/binding_frame.py:1824-1843 | the padded rows are those of exactly the left rows that meet no right row, in order |
| Joins.SwapKeepsBag | packages/pycypher/src/pycypher/binding_frame.py:1703-1753 | enumerating the matching pairs from either side gives the same bag |
| Joins.CleanedIsCombined | packages/pycypher/src/pycypher/binding_frame.py:1569-1631 | cleanup of a merged row leaves exactly the left row plus what the right row adds, names that end in the suffix apart |
| Joins.ColumnsKeptIff | packages/pycypher/src/pycypher/binding_frame.py:1569-1631 | whatever the names, the pandas join keeps every variable exactly when none ends in the collision suffix and the right key is not a variable of the left frame as well |
| Joins.BackendColumnsKeptIff | packages/pycypher/src/pycypher/binding_frame.py:192-245 | the backend merge keeps every variable under that same condition |
| Joins.BackendRowIsCombined | packages/pycypher/src/pycypher/binding_frame.py:192-245 | the backend's renamed, suffixed and cleaned row is that same row |
| Joins.SwappedRowIsCombined | packages/pycypher/src/pycypher/binding_frame.py:1703-1726 | so is the swapped backend's, although there the left values carry the suffix-free names |
| Joins.LeftJoinIsInnerPlusUnmatched | packages/pycypher/src/pycypher/binding_frame.py:1824-1843 | a left join has exactly the inner join's rows and the unmatched left rows padded with nulls, as bags |
| Joins.LeftJoinKeepsLeftRows | packages/pycypher/src/pycypher/binding_frame.py:1824-1843 | no left row is lost: every one is, in its surviving columns, the left part of some result row |
| Joins.EnginesAgreeIff | packages/pycypher/src/pycypher/binding_frame.py:192-245 | engines that join null keys with each other and engines that do not find the same pairs exactly when one of the two key columns has no nulls |
| Joins.NullPairs | packages/pycypher/src/pycypher/binding_frame.py:192-245 | they differ by one pair for every null-key row of the one frame and of the other |
| Joins.LeftValueRightType | packages/pycypher/src/pycypher/binding_frame.py:1756-1763 | a variable of both frames gets the left row's value but the right frame's type |
| PropertyFrames.Frame.GetProperty | packages/pycypher/src/pycypher/binding_frame.py:845-1044 | cached or not, typed, inferred or multi-type, the returned column holds for each row the cell that the uncommitted table, else the stored one, has for its id, null where there is none; every cached column stays fresh |
| PropertyFrames.Frame.GetPropertiesBatch | packages/pycypher/src/pycypher/binding_frame.py:1139-1341 | fetching properties in one batch equals looking each one up singly, whatever part was cached before, so every column holds those cells |
| PropertyFrames.Frame.BatchColumns | packages/pycypher/src/pycypher/binding_frame.py:1221-1341 | the one-table batch path returns and caches exactly the single lookups |
| PropertyFrames.Frame.SingleLookups | packages/pycypher/src/pycypher/binding_frame.py:1207-1219 | the fallback returns the cached columns and one lookup per uncached name |
| PropertyFrames.Frame.Filter | packages/pycypher/src/pycypher/binding_frame.py:1538-1562 | the kept rows, with every cached column cut down so that it is still a fresh lookup of the new frame's ids |
| PropertyFrames.Frame.DispatchWrite | packages/pycypher/src/pycypher/clause_executor.py:369-400 | after SET, REMOVE or DELETE no column cached before the write is left |
| PropertyFrames.Execute | packages/pycypher/src/pycypher/clause_executor.py:369-400 | one clause (read, batched read, WHERE, write) keeps every cached column of the current frame equal to a fresh lookup |
| PropertyFrames.RunClauses | packages/pycypher/src/pycypher/clause_executor.py:481-596 | so does every run of such clauses |
| PropertyFrames.MultiTypeLookup | packages/pycypher/src/pycypher/binding_frame.py:1367-1450 | skipping irrelevant tables, taking only needed ids and stopping early gives each row the cell of the one uncommitted-or-stored table that has it, null if none has |
| PropertyFrames.ScanTable | packages/pycypher/src/pycypher/binding_frame.py:1405-1445 | one table keeps: what is resolved is resolved as the full scan would, what is still needed is in no table so far |
| PropertyFrames.InferEntityType | packages/pycypher/src/pycypher/binding_frame.py:1452-1497 | the first entity type whose table contains all the non-null ids, or none |
| PropertyFrames.InferredLookup | packages/pycypher/src/pycypher/binding_frame.py:1452-1497 | with unique ids the inferred table answers as the full scan does |
| PropertyFrames.SelectReference | packages/pycypher/src/pycypher/binding_frame.py:1538-1562 | cutting a looked-up column down to the kept rows is looking up the kept rows |
| PropertyFrames.Context.IndexedTable | packages/pycypher/src/pycypher/binding_frame.py:581-622 | the cached lookup returns the table that shadow-before-canonical precedence names |
| PropertyStores.ScanFinds | packages/pycypher/src/pycypher/binding_frame.py:1405-1445 | with unique ids the scan returns the value of the one table that holds the id, wherever it stands in the order |
| PropertyStores.ScanMisses | packages/pycypher/src/pycypher/binding_frame.py:1405-1445 | an id no table holds scans to null |
| PropertyStores.TypeMapIsExact | packages/pycypher/src/pycypher/binding_frame.py:1343-1365 | with unique ids the id-to-type map sends an id to a type exactly when that type's canonical table holds it |
| PropertyStores.ReferenceReads | packages/pycypher/src/pycypher/binding_frame.py:581-622 | on the stored maps: a typed read gives the cell of the uncommitted table of its type, else of the stored one; an untyped read the cell of whichever table has it; null exactly where there is no cell |
| PropertyStores.ReadAfterWrite | packages/pycypher/src/pycypher/binding_frame.py:581-622 | after a write a type with an uncommitted table reads that table, any other its stored one |
| PropertyFrames.InferMeaning | packages/pycypher/src/pycypher/binding_frame.py:1452-1497 | inference answers with the first type whose table has all the ids, and not at all without ids or such a type |
| WriteBack.ShadowTable.Mutate | packages/pycypher/src/pycypher/binding_frame.py:2147-2193 | matched table rows take the update of their id's last frame row, the others keep their value (null in a new column); the name is registered once |
| WriteBack.ShadowTable.MutateBatch | packages/pycypher/src/pycypher/binding_frame.py:2287-2346 | the merged pass over several properties leaves the table, row order and registrations of the batch specification, a single property going through mutate |
| WriteBack.KeepLast | packages/pycypher/src/pycypher/binding_frame.py:2290-2297 | dropping duplicates keeps exactly the last frame row of every id, in order |
| WriteBack.MutateMeaning | packages/pycypher/src/pycypher/binding_frame.py:2147-2193 | field by field: every matched row holds the value of the last frame row with its id, the others their old value or null, the column and its name are there once, nothing else changes |
| WriteBack.BatchMeaning | packages/pycypher/src/pycypher/binding_frame.py:2287-2346 | each property's column holds those values too, but that a null update leaves an existing value |
| WriteBack.MergeColumn | packages/pycypher/src/pycypher/binding_frame.py:2304-2310 | the left merge gives each table row the update of its id's last frame row, null where there is none |
| WriteBack.LastRowWins | packages/pycypher/src/pycypher/binding_frame.py:2149-2152 | the update an id gets is the value of its last frame row |
| WriteBack.BatchIsSequenceIff | packages/pycypher/src/pycypher/binding_frame.py:2205-2346 | mutate_batch equals writing one property after the other exactly when there is a single property, which it hands to mutate, or no null update falls on an existing non-null value |
| WriteBack.ColumnsAreSequenceIff | packages/pycypher/src/pycypher/binding_frame.py:2287-2346 | its column pass alone does so exactly when no null erases a value |
| WriteBack.BatchKeepsSchema | packages/pycypher/src/pycypher/binding_frame.py:2287-2346 | whatever the values, both orders of work leave the same rows, columns, column order and registrations |
| WriteBack.OtherColumnsKept | packages/pycypher/src/pycypher/binding_frame.py:2147-2193 | columns that are not written are untouched by either |
| WriteBack.ColumnsAgreeIff | packages/pycypher/src/pycypher/binding_frame.py:2287-2346 | for one property the two routes agree exactly when no null erases a value |
| Clauses.Unwind | packages/pycypher/src/pycypher/clause_executor.py:160-223 | every row becomes one row per non-null element of its own list, rows and elements in order; a list over the limit, or a failing row, fails the clause |
| Clauses.Explode | packages/pycypher/src/pycypher/clause_executor.py:207-209 | exploding gives the flattening of the cells with their row numbers |
| Clauses.PickDropNa | packages/pycypher/src/pycypher/clause_executor.py:207-210 | dropping null rows from the flat column drops the nulls from each row's own part |
| Clauses.UnwoundMeaning | packages/pycypher/src/pycypher/clause_executor.py:207-210 | a list unwinds to its elements that are not null, in order, any other value to itself, null to nothing |
| Clauses.PickMeaning | packages/pycypher/src/pycypher/clause_executor.py:207-210 | the elements of one row are the values at the positions with its row number, in order |
| Clauses.ExecuteUnion | packages/pycypher/src/pycypher/clause_executor.py:619-652 | the concatenation of all parts, deduplicated as a whole as soon as one UNION is not ALL, which fails when some row holds a list |
| Clauses.UnionIff | packages/pycypher/src/pycypher/clause_executor.py:633-645 | this is the left-to-right meaning of the chain exactly when every UNION is ALL, or no row holds a list and the rows of the parts after the last plain UNION are pairwise different and occur in none of the parts before |
| Clauses.TailAppended | packages/pycypher/src/pycypher/clause_executor.py:633-645 | read left to right, the parts after the last plain UNION are only appended to the distinct rows of those before |
| Clauses.LastPlainUnion | packages/pycypher/src/pycypher/clause_executor.py:642-645 | a chain whose last operator is a plain UNION has its left-to-right meaning when no row holds a list, and fails otherwise |
| Clauses.SameDistinct | packages/pycypher/src/pycypher/clause_executor.py:642-645 | both readings have the same distinct rows, first occurrences first |
| Clauses.ConcatMeaning | packages/pycypher/src/pycypher/clause_executor.py:633-640 | the parts are concatenated whole and in order |
| Clauses.HashableMeaning | packages/pycypher/src/pycypher/clause_executor.py:642-645 | the rows that can be deduplicated are those without a list in any cell |
| Arithmetic.CypherDiv | packages/pycypher/src/pycypher/arithmetic_evaluator.py:50-93 | null exactly for a null operand or a zero divisor; otherwise the truncated binary64 quotient, of the sign of division and within half a unit before truncation, which for dividends below 2^53 is exact integer division toward zero |
| Arithmetic.CypherMod | packages/pycypher/src/pycypher/arithmetic_evaluator.py:96-142 | null exactly for a null operand or a zero divisor; otherwise the fmod of the converted operands, with the dividend's sign, which for dividends below 2^53 is the exact remainder toward zero |
| Arithmetic.QuotientIsNearest | packages/pycypher/src/pycypher/arithmetic_evaluator.py:71-81 | the modelled float quotient has 53 significant bits and is within half a unit in the last place (IEEE 754-2019, section 4.3.1) |
| Arithmetic.RoundedThenTruncated | packages/pycypher/src/pycypher/arithmetic_evaluator.py:71-81 | rounding a quotient of a dividend below 2^53 never reaches the next integer |
| Arithmetic.ExactBelow | packages/pycypher/src/pycypher/arithmetic_evaluator.py:65-81 | division and remainder through binary64 are exact for every dividend below 2^53 and every non-zero divisor |
| Arithmetic.ExactBound | packages/pycypher/src/pycypher/arithmetic_evaluator.py:65-81 | 2^53 is the exact bound: all 64-bit operands with dividends below n are handled exactly if and only if n is at most 2^53 |
| Arithmetic.FailsAtBound | packages/pycypher/src/pycypher/arithmetic_evaluator.py:65-81 | 2^53 divided by 2^53 + 1 comes out as 1 with remainder 0 |
| Arithmetic.DivModLaw | packages/pycypher/src/pycypher/arithmetic_evaluator.py:96-142 | a = q * b + r with the quotient and remainder the two functions return, r smaller than the divisor and with the dividend's sign |
| Arithmetic.TruncDivUnique | packages/pycypher/src/pycypher/arithmetic_evaluator.py:96-142 | those laws admit no other quotient and remainder |
| Arithmetic.FloatDivMeaning | packages/pycypher/src/pycypher/arithmetic_evaluator.py:65-81 | for operands of any size the quotient has the sign of division and is the integer part of a 53-bit number within half a unit of the quotient of the operands' floats |
| Arithmetic.FloatModMeaning | packages/pycypher/src/pycypher/arithmetic_evaluator.py:96-142 | for operands of any size the remainder has the dividend's sign and is that of dividing the operands' floats |
| Arithmetic.FromIntIsFloat | packages/pycypher/src/pycypher/arithmetic_evaluator.py:65-67 | the float of an integer is the integer below 2^53 and otherwise a 53-bit number within half a unit of it |
| Dates.AddMonthsMeaning | packages/pycypher/src/pycypher/arithmetic_evaluator.py:282-300 | the month index moves by exactly the duration's months, the result is a valid date, and the day changes only to the last day of a shorter month |
| Dates.MonthsRoundTripIff | packages/pycypher/src/pycypher/arithmetic_evaluator.py:282-300 | adding and taking away the same months returns the date exactly when its day exists in the month between |
| Dates.MonthsAdditiveIff | packages/pycypher/src/pycypher/arithmetic_evaluator.py:282-300 | two month steps equal one exactly when the month between is long enough for the day or for the final month's last day |
| Dates.AddDaysOrdinal | packages/pycypher/src/pycypher/arithmetic_evaluator.py:299-308 | moving day by day moves the ordinal by exactly that many days and stays a valid date |
| Dates.OrdinalIdentifies | packages/pycypher/src/pycypher/arithmetic_evaluator.py:299-308 | no two dates share an ordinal |
| Dates.DateRoundTripIff | packages/pycypher/src/pycypher/arithmetic_evaluator.py:299-308 | date + u - u, for a duration u without months, is the date exactly when u is a whole number of days |
| Dates.DateRoundTripWithMonthsIff | packages/pycypher/src/pycypher/arithmetic_evaluator.py:282-308 | date + u - u for any duration is the date exactly when the way back stays in range and the months its days cross on the way back are longer than those crossed on the way out by the days lost to clamping and, unless the time is whole days, to rounding |
| Dates.WithinMonthReturnIff | packages/pycypher/src/pycypher/arithmetic_evaluator.py:282-308 | when the days cross no month end: exactly when the time is whole days and both months are long enough for the day they are given |
| Dates.ClampUndone | packages/pycypher/src/pycypher/arithmetic_evaluator.py:282-308 | 31 January 2023 plus one month and five days is 5 March, which leads back to 31 January although February clamped |
| Dates.MonthSpanIs | packages/pycypher/src/pycypher/arithmetic_evaluator.py:282-300 | the sum of month lengths that the condition speaks of is a difference of ordinals |
| Dates.DateTimeRoundTrip | packages/pycypher/src/pycypher/arithmetic_evaluator.py:310-336 | datetime + u - u is the datetime for every duration without months |
| Dates.DateTimeRoundTripWithMonthsIff | packages/pycypher/src/pycypher/arithmetic_evaluator.py:310-336 | for a datetime and any duration the same condition without the rounding |
| Dates.DurationRoundTrip | packages/pycypher/src/pycypher/arithmetic_evaluator.py:380-388 | u + v - v is u and addition commutes, for durations taken through the dispatch on operand kinds |
| Dates.DateDifference | packages/pycypher/src/pycypher/arithmetic_evaluator.py:353-356 | e + (d - e) is d for any two dates |
| Dates.DateTimeDifference | packages/pycypher/src/pycypher/arithmetic_evaluator.py:374-378 | e + (d - e) is d for any two datetimes, to the microsecond |
| Dates.DeltaMicros | packages/pycypher/src/pycypher/arithmetic_evaluator.py:275-280 | turning a time difference into a duration loses nothing |
| Dates.DurationUnits | packages/pycypher/src/pycypher/arithmetic_evaluator.py:282-308 | a year is twelve months, a week seven days, down to the microsecond; months and time do not mix and nanoseconds count for nothing |
| Dates.ApplyFailsIff | packages/pycypher/src/pycypher/arithmetic_evaluator.py:282-308 | adding a duration fails exactly when the month step or the day step after it leaves years 1 to 9999 |
| Dates.DispatchMeaning | packages/pycypher/src/pycypher/arithmetic_evaluator.py:338-400 | null spreads, + takes a duration on either side, anything else subtracts it from the left, dates and datetimes only differ among themselves, all other kinds fail |
| Dates.CalendarOrigin | packages/pycypher/src/pycypher/arithmetic_evaluator.py:282-300 | ordinals count from 1 January of year 1 |
| GroupedAggregation.AggregateItems | packages/pycypher/src/pycypher/aggregation_planner.py:247-375 | plain projection, one row over the whole frame, or one row per distinct key in first-seen order, each aggregate computed over that key's own rows |
| GroupedAggregation.EvaluateGrouped | packages/pycypher/src/pycypher/aggregation_evaluator.py:396-530 | one pass over the frame gives every group the value (or the failure) of aggregating the frame filtered to that group, a text sum apart |
| GroupedAggregation.EvaluatePerGroup | packages/pycypher/src/pycypher/aggregation_planner.py:343-372 | the fallback, groups in any order, puts every group's own aggregate into that group's row |
| GroupedAggregation.OnePassIsPerGroup | packages/pycypher/src/pycypher/aggregation_planner.py:295-375 | fast path and fallback agree, failures included, exactly when the argument's names resolve (a question only on a frame without rows) and either the fast path fails or no group takes the sum of nothing but text or nothing but lists; when the fast path fails on resolved names so does the fallback |
| GroupedAggregation.CountsSumToFrame | packages/pycypher/src/pycypher/aggregation_evaluator.py:427-434 | the group counts add up to the number of rows of the frame |
| AggregateMeaning.GroupCellMeaning | packages/pycypher/src/pycypher/aggregation_planner.py:295-375 | in the grouped table, group g's cell of an aggregate over integers is the count, sum, mean, least, greatest or deviation of the non-null cells of exactly the rows whose key is g's, under DISTINCT of the first of each value |
| AggregateMeaning.CountStarMeaning | packages/pycypher/src/pycypher/aggregation_planner.py:295-375 | count(*) of a group is the number of its rows |
| AggregateMeaning.EveryRowInOneGroup | packages/pycypher/src/pycypher/aggregation_planner.py:328-341 | every row of the frame is in exactly one group of the table |
| AggregateMeaning.GroupedTableFailsIff | packages/pycypher/src/pycypher/aggregation_planner.py:247-375 | once the grouping items evaluate, the table fails exactly when a key holds a list or an aggregate item has no column |
| AggregateMeaning.IntegerItemsSucceed | packages/pycypher/src/pycypher/aggregation_planner.py:295-375 | count(*) and the aggregates of integer columns always have one |
| AggregateMeaning.WholeCellMeaning | packages/pycypher/src/pycypher/aggregation_planner.py:262-290 | without grouping items the one row holds each aggregate over all rows |
| AggregateMeaning.PlainTablesMeaning | packages/pycypher/src/pycypher/aggregation_planner.py:247-290 | without aggregates the table holds the items' columns; either plain table fails exactly when one of its items does |
| AggregateMeaning.AliasesMeaning | packages/pycypher/src/pycypher/aggregation_planner.py:247-375 | columns are named by the grouping items' aliases and then the aggregates' |
| GroupedAggregation.AllNull | packages/pycypher/src/pycypher/aggregation_evaluator.py:32-92 | over nothing but nulls count is 0 and every other null-ignoring aggregate is null, grouped or not |
| GroupedAggregation.TextSumExample | packages/pycypher/src/pycypher/aggregation_evaluator.py:32-50 | the sum of two texts fails ungrouped and concatenates grouped |
| Aggregates.ConcatenatingSum | packages/pycypher/src/pycypher/aggregation_evaluator.py:32-50 | the grouped plain sum of text, or of lists, puts them one after the other, skips nulls, and fails on a mixture |
| GroupedAggregation.SkeletonAlignsIff | packages/pycypher/src/pycypher/aggregation_planner.py:328-341 | the skeleton has as many rows as there are aggregated values exactly when no group key contains a null |
| GroupedAggregation.GroupColumn | packages/pycypher/src/pycypher/aggregation_planner.py:352-372 | evaluating an argument on a group's frame is picking the group's rows from the evaluated column |
| GroupedAggregation.FailingGroup | packages/pycypher/src/pycypher/aggregation_evaluator.py:467-468 | if evaluating the argument fails on the frame, it fails on some group's frame |
| GroupedAggregation.WriteMatching | packages/pycypher/src/pycypher/aggregation_planner.py:357-372 | writing where the keys match writes exactly one row |
| Grouping.Factorize | packages/pycypher/src/pycypher/aggregation_planner.py:328-336 | one pass numbers the rows' groups and lists the distinct keys in first-seen order |
| Grouping.DistinctKeysMeaning | packages/pycypher/src/pycypher/aggregation_planner.py:328-336 | every key has exactly one group, groups are pairwise different, and their first rows come in increasing order |
| Grouping.SameKeyMeaning | packages/pycypher/src/pycypher/aggregation_planner.py:357-368 | two keys are one group exactly when all their values compare equal (true and 1 included) |
| Grouping.GroupedFold | packages/pycypher/src/pycypher/aggregation_evaluator.py:396-530 | after one pass over the rows every group's accumulator is the fold of that group's own values in order |
| Grouping.GroupedColumn | packages/pycypher/src/pycypher/aggregation_evaluator.py:436-530 | counting, summing, averaging, extrema or gathering in one pass gives each group's aggregate of its own values |
| Grouping.EvaluateAggregation | packages/pycypher/src/pycypher/aggregation_evaluator.py:226-394 | one item over all rows of a frame, arithmetic around aggregates included |
| Aggregates.GroupedValueIff | packages/pycypher/src/pycypher/aggregation_evaluator.py:516-527 | a group's native aggregate equals the ungrouped handler exactly unless it is a plain sum over text or lists |
| AggregateMeaning.AggregateMeaning | packages/pycypher/src/pycypher/aggregation_evaluator.py:32-92 | every null-ignoring aggregate of integers and nulls, grouped or not: the count, the sum, the mean whose product with the count is the sum, a least or greatest member, over exactly the cells that are not null and, under DISTINCT, first with their value |
| AggregateMeaning.CountMeaning | packages/pycypher/src/pycypher/aggregation_evaluator.py:32-92 | values of any kind are counted where they are not null; DISTINCT refuses lists |
| AggregateMeaning.CollectMeaning | packages/pycypher/src/pycypher/aggregation_evaluator.py:32-92 | collect keeps every cell, under DISTINCT the first with each value, nulls included |
| AggregateMeaning.TextExtremes | packages/pycypher/src/pycypher/aggregation_evaluator.py:67-92 | the minimum (maximum) of texts is one of them that none comes before (after) |
| AggregateMeaning.WrappedMeaning | packages/pycypher/src/pycypher/aggregation_evaluator.py:226-394 | arithmetic around aggregates: dividing by null, zero, false or something empty gives null, else the arithmetic of the two values |
| Aggregates.DedupeDropNa | packages/pycypher/src/pycypher/aggregation_evaluator.py:454-460 | counting unique non-null values is counting the non-null values after removing duplicates |
| Aggregates.SumFold | packages/pycypher/src/pycypher/aggregation_evaluator.py:518-523 | the running sum of the non-null values, with their count, is min_count=1 summation |
| Aggregates.BestFold | packages/pycypher/src/pycypher/aggregation_evaluator.py:524-526 | the running minimum or maximum is that of the non-null values |
| CircuitBreaking.CircuitBreaker.IsAvailable | packages/pycypher/src/pycypher/backend_engine.py:529-544 | after any call history with a non-decreasing clock, available exactly when fewer failures than the threshold occurred since the last success or reset, or the recovery timeout has passed since the last failure |
| CircuitBreaking.CircuitBreaker.RecordFailure | packages/pycypher/src/pycypher/backend_engine.py:517-527 | keeps the stored counters, states and times fitted to the history |
| CircuitBreaking.CircuitBreaker.RecordSuccess | packages/pycypher/src/pycypher/backend_engine.py:512-515 | keeps them fitted, the backend's failures starting over |
| CircuitBreaking.CircuitBreaker.State | packages/pycypher/src/pycypher/backend_engine.py:546-568 | the reported state is the one the history determines |
| CircuitBreaking.CircuitBreaker.ResetBackend | packages/pycypher/src/pycypher/backend_engine.py:570-587 | forgets one backend, or all, and nothing else |
| CircuitBreaking.OthersDoNotMatter | packages/pycypher/src/pycypher/backend_engine.py:512-587 | availability depends only on the calls about that backend |
| CircuitBreaking.OnlyFailureTrips | packages/pycypher/src/pycypher/backend_engine.py:512-587 | nothing but a new failure of that backend takes an available backend away |
| CircuitBreaking.ConsecutiveFailuresTrip | packages/pycypher/src/pycypher/backend_engine.py:517-527 | threshold failures in a row make the backend unavailable at once when the timeout is positive |
| CircuitBreaking.AnyNumberOfProbes | packages/pycypher/src/pycypher/backend_engine.py:529-568 | once the timeout has run out, any number of checks, by any callers and at any times, leaves the backend available at every later time |
| CircuitBreaking.AvailableUntilThreshold | packages/pycypher/src/pycypher/backend_engine.py:512-544 | counted from a success, failures leave the backend available exactly while they are fewer than the threshold, or once the timeout has passed since the last |
| CircuitBreaking.ResetForgets | packages/pycypher/src/pycypher/backend_engine.py:570-587 | a reset of the backend, or of all, makes it available; one of another backend changes nothing |
| CircuitBreaking.SelectAuto | packages/pycypher/src/pycypher/backend_engine.py:1063-1087 | the first creatable (and, when probed, healthy) backend of the chain members available in the history, pandas when there is none |
| CircuitBreaking.CandidatesInChain | packages/pycypher/src/pycypher/backend_engine.py:1068-1070 | checking the chain in order yields exactly the members the history makes available; the checks do not disturb one another |
| CircuitBreaking.ChoiceMeaning | packages/pycypher/src/pycypher/backend_engine.py:1063-1087 | below 100,000 rows pandas; from there on polars where it is available and usable, else duckdb, else pandas |
| PreviewCaching.PreviewCache.Get | packages/nmetl/src/nmetl/data_preview.py:96-102 | a hit returns the stored value and makes its key most recent; a miss only counts |
| PreviewCaching.PreviewCache.Put | packages/nmetl/src/nmetl/data_preview.py:104-115 | stores under the key as most recent, evicting the least recent key of a full cache; with no capacity it fails |
| PreviewCaching.HitIsLastPut | packages/nmetl/src/nmetl/data_preview.py:96-115 | after any run, what a key holds is the value last put under it |
| PreviewCaching.InclusionOverRuns | packages/nmetl/src/nmetl/data_preview.py:90-115 | with capacities 1 <= m <= n on the same run, the smaller cache's keys are among the larger's in the same recency order with the same values, and the larger never has fewer hits |
| PreviewCaching.PutKeepsIncluded | packages/nmetl/src/nmetl/data_preview.py:104-115 | one put, evicting in neither, either or both caches, keeps that inclusion |
| PreviewCaching.RecentIsHeld | packages/nmetl/src/nmetl/data_preview.py:96-115 | while fewer other keys than the capacity are used after a put, in any run, its key stays held |
| PreviewCaching.PutMeaning | packages/nmetl/src/nmetl/data_preview.py:104-115 | a put makes its key the most recent with the new value; all other keys keep value and order, but that a new key in a full cache costs the least recent one |
| PreviewCaching.GetMeaning | packages/nmetl/src/nmetl/data_preview.py:96-102 | a get changes no value, makes a held key the most recent and counts one hit or one miss |
| PreviewCaching.HitsAndMisses | packages/nmetl/src/nmetl/data_preview.py:96-102 | over any run hits and misses add up to the gets |
| PipelineHeap.PipelineBuilder.Apply | packages/nmetl/src/nmetl/pipeline_builder.py:155-440 | succeeds exactly when the id guard passes and the payload is valid; a rejected edit leaves no trace; any other records a deep copy of the configuration before it, clears the redo history and edits the live object in place; no stored copy is the live object |
| PipelineHeap.PipelineBuilder.Guard | packages/nmetl/src/nmetl/pipeline_builder.py:143-440 | the scans of ids reject exactly the edits whose id guard fails, and find the first entry an update or removal names |
| PipelineHeap.PipelineBuilder.EditInPlace | packages/nmetl/src/nmetl/pipeline_builder.py:155-440 | changing the lists at the scanned position is the edit's effect on the configuration; an invalid payload changes nothing |
| PipelineHeap.PipelineBuilder.Undo | packages/nmetl/src/nmetl/pipeline_builder.py:453-471 | moves the state to the recorded configuration by a fresh copy, keeping the undone one for redo, and never aliases a stored copy |
| PipelineHeap.PipelineBuilder.Redo | packages/nmetl/src/nmetl/pipeline_builder.py:473-491 | the mirror image of undo |
| PipelineHeap.PipelineBuilder.Restore | packages/nmetl/src/nmetl/pipeline_builder.py:523-531 | records the current configuration, then makes a copy of the snapshot current |
| PipelineHeap.PipelineBuilder.Snapshot | packages/nmetl/src/nmetl/pipeline_builder.py:495-497 | a fresh copy equal to the current configuration |
| PipelineHeap.PipelineBuilder.MarkClean | packages/nmetl/src/nmetl/pipeline_builder.py:121-126 | the save point becomes a copy of the current configuration |
| PipelineHeap.PipelineBuilder.RecordOperation | packages/nmetl/src/nmetl/pipeline_builder.py:128-137 | pushes a deep copy and empties the redo stack |
| PipelineBuilding.UndoMovesCursor | packages/nmetl/src/nmetl/pipeline_builder.py:453-471 | past, current and future configurations form one timeline, which undo leaves as it is: only the cursor moves back |
| PipelineBuilding.RedoMovesCursor | packages/nmetl/src/nmetl/pipeline_builder.py:473-491 | redo leaves the timeline as it is and moves the cursor forward |
| PipelineBuilding.EditTruncatesFuture | packages/nmetl/src/nmetl/pipeline_builder.py:128-137 | a recorded edit cuts the timeline behind the cursor and appends its result |
| PipelineBuilding.RestoreTruncatesFuture | packages/nmetl/src/nmetl/pipeline_builder.py:523-531 | a restore does the same with the snapshot |
| PipelineBuilding.UndosThenRedos | packages/nmetl/src/nmetl/pipeline_builder.py:453-491 | k undos followed by k redos restore configuration, undo stack and redo stack |
| PipelineBuilding.RunsKeepTimeline | packages/nmetl/src/nmetl/pipeline_builder.py:121-141 | after every run the timeline starts at the initial configuration, each entry follows from the one before it by the operation between them, and a clean builder equals its save point |
| PipelineBuilding.EditUniqueIdsIff | packages/nmetl/src/nmetl/pipeline_builder.py:143-440 | an edit keeps all source ids and query ids distinct exactly when the id it brings in is free, updates that rename included |
| PipelineBuilding.EditKeepsUniqueIds | packages/nmetl/src/nmetl/pipeline_builder.py:143-440 | in particular edits whose payload keeps the id they were called with keep them distinct |
| PipelineBuilding.AddThenRemove | packages/nmetl/src/nmetl/pipeline_builder.py:155-440 | adding a new entity source, relationship source, query or output and removing it again restores the configuration |
| PipelineBuilding.FailedEditIff | packages/nmetl/src/nmetl/pipeline_builder.py:128-440 | an edit that fails (id guard or payload) leaves the builder as it was exactly when the id guard stopped it; past the guard it clears the redo history and adds a copy of the current configuration to the timeline |
| PipelineBuilding.RefusedIff | packages/nmetl/src/nmetl/pipeline_builder.py:143-440 | an edit is refused before anything is recorded exactly when its id guard fails |
| PipelineBuilding.InvalidMeaning | packages/nmetl/src/nmetl/pipeline_builder.py:155-440 | a payload fails validation exactly where an edit that needs one comes without a valid one |
| ClusterModel.CountsAlwaysHold | packages/pycypher/src/pycypher/cluster.py:351-382 | in every interleaving of any number of callers, active queries are the calls between first and last step, and executed plus errors are the calls past the recording step |
| ClusterModel.CountersOfRun | packages/pycypher/src/pycypher/cluster.py:351-382 | after every schedule the counters are the numbers of successful and failed outcomes in it, active queries the calls begun less those ended, and the total latency the sum of the successful ones |
| ClusterModel.StepKeepsCounts | packages/pycypher/src/pycypher/cluster.py:351-382 | each lock-delimited step keeps those counts |
| ClusterModel.LocalWorker.BeginQuery | packages/pycypher/src/pycypher/cluster.py:351-352 | the first locked step counts the caller in |
| ClusterModel.LocalWorker.RecordSuccess | packages/pycypher/src/pycypher/cluster.py:358-361 | a successful caller is recorded with its latency |
| ClusterModel.LocalWorker.RecordError | packages/pycypher/src/pycypher/cluster.py:366-367 | a failed caller is recorded as an error |
| ClusterModel.QuietWorker | packages/pycypher/src/pycypher/cluster.py:351-382 | when every call has ended nothing is active and every call that was not abandoned was recorded once |
| ClusterModel.LocalWorker.EndQuery | packages/pycypher/src/pycypher/cluster.py:379-382 | the finally step counts the caller out, recorded or not |
| ClusterModel.LocalWorker.HealthCheck | packages/pycypher/src/pycypher/cluster.py:384-408 | the health of the worker's state: its counters and the average latency per executed query, of which the cluster's weighted latency is the sum |
| ClusterModel.ClusterHealthOf | packages/pycypher/src/pycypher/cluster.py:498-540 | totals are the sums over the workers, active and unavailable workers are counted (the rest is draining), the error rate is errors over all operations, the latency weighted by executed queries |
| ClusterModel.WeightsRecoverLatency | packages/pycypher/src/pycypher/cluster.py:498-540 | weighting the workers' averages by their query counts recovers the true total latency, idle workers included |
| ClusterModel.ClusterCountsCalls | packages/pycypher/src/pycypher/cluster.py:498-540 | executed queries and errors of the cluster together are the recorded calls of all its workers |
| ClusterModel.TotalsSplit | packages/pycypher/src/pycypher/cluster.py:498-540 | the totals of two clusters together are their sums |
| ClusterModel.RoundRobinRouter.SelectWorker | packages/pycypher/src/pycypher/cluster.py:225-249 | the worker at the counter modulo the number of workers, the counter advancing; no workers is an error that leaves it alone |
| ClusterModel.RoundRobinIsFair | packages/pycypher/src/pycypher/cluster.py:225-249 | of any n consecutive selections over k fixed workers each gets n/k rounded down or up |
| Histogram.HistogramSelectivity | packages/pycypher/src/pycypher/cardinality_estimator.py:174-211 | for any edges, the bin-by-bin overlap sum is the difference of the cumulative row distribution at both ends, over the total, bins without width counting for nothing; without rows the default |
| Histogram.ContributionIs | packages/pycypher/src/pycypher/cardinality_estimator.py:192-209 | one bin's overlap is what lies below the upper end but not below the lower |
| Histogram.ShareIsMeasure | packages/pycypher/src/pycypher/cardinality_estimator.py:174-211 | for any edges and at least one row the estimate is in [0, 1], additive when a range is split at any point, and grows with the range; on a range around all edges it is 1 exactly when no rows are in bins without width |
| Histogram.RangeSelectivity | packages/pycypher/src/pycypher/cardinality_estimator.py:135-172 | defaults, clipping, histogram or uniform estimate, null correction and one-row floor, against the distribution |
| Histogram.SelectivityRange | packages/pycypher/src/pycypher/cardinality_estimator.py:135-172 | the selectivity of any range is positive and at most 1 |
| Histogram.SelectivityGrows | packages/pycypher/src/pycypher/cardinality_estimator.py:135-172 | widening a range, an absent bound being widest, never lowers its selectivity |
| Histogram.WholeSpan | packages/pycypher/src/pycypher/cardinality_estimator.py:135-172 | without bounds a histogram over the column's span leaves just the non-null share |
| Histogram.EvenSpread | packages/pycypher/src/pycypher/cardinality_estimator.py:167-169 | without a histogram the share is 1 on the span, additive, the same for ranges of one width anywhere, and one half up to the middle |
| Histogram.SelectivityMeaning | packages/pycypher/src/pycypher/cardinality_estimator.py:135-172 | 0.33 where nothing is known, one row's share for an empty range, else the non-null share of the range cut to the extrema, and at least one row's |
| Histogram.FloorMeaning | packages/pycypher/src/pycypher/cardinality_estimator.py:165-172 | one row's share times the row count is one |
| Histogram.EdgesMeaning | packages/pycypher/src/pycypher/cardinality_estimator.py:402-403 | the computed edges increase strictly from the minimum to the maximum |
| Histogram.FoldKeepsTotal | packages/pycypher/src/pycypher/cardinality_estimator.py:412-423 | folding the map's first two bins gives one count per bin and keeps the row total |
| Histogram.SqlHistogram | packages/pycypher/src/pycypher/cardinality_estimator.py:370-423 | the histogram built from the database's half-open bins is valid, spans the column and holds every sampled value exactly once |

## Left out

- CycleSearch.CycleFinder.ExploreImports: the imports of one module are visited in an arbitrary order, as a set has none, so the order of the reports is left open.
- CycleSearch.CycleFinder.StrongConnect: does not model Python's recursion limit.
- Ratchet.RatchetMeaning: does not model the baseline file's text; module names hold no comma and no line break.
- BoolChains.EvaluateBoolChain: operand columns are given, with whether they are stored as integers; a column of floats, which the operators refuse, is not modelled.
- ColumnEvaluator.EvaluateApply: the scalar function is a parameter that maps one row's arguments to one value; functions that read a whole column are not modelled.
- ColumnEvaluator.Evaluate: does not model property lookup inside expressions, parameters, label and string predicates, maps and projections, pattern comprehensions, EXISTS, and which of several errors is raised first; null is one value (no NaN beside None) and each column has one kind, so no decision depends on sampling a column.
- ColumnEvaluator.EvaluateSlicing: does not model text bounds with digits or blanks outside ASCII, or with more digits than Python converts.
- ColumnEvaluator.EvaluateBinary: does not model such text as an index either.
- PropertyFrames.Frame.GetProperty: does not model relations that DuckDB reads lazily, relationship identifiers coerced to another type, or property access on map values; registered variables only need a type, others need ids that are unique across entity tables.
- PropertyFrames.RunClauses: does not model FOREACH, MERGE and CREATE, which do not clear the cache; a write is any change of the shadow tables that keeps ids unique, since the mutation engine is not part of this model.
- PropertyFrames.Context.IndexedTable: does not model an entity type whose name starts with the relationship prefix of the cache keys.
- Joins.Join: requires join columns that are not otherwise shared, and that the suffixed name of a clashing column is not taken already (where engines variously refuse, duplicate or rename); row order is left open.
- Joins.LeftJoin: requires the same of its columns and leaves row order open.
- WriteBack.BatchIsSequenceIff: property names are distinct, as keys of a dictionary are.
- WriteBack.ShadowTable.Mutate: does not model the conversion of a column's dtype when a value does not fit it.
- Clauses.ExecuteUnion: does not model the transaction around the parts, and takes all parts to have the same columns.
- GroupedAggregation.AggregateItems: requires group keys without nulls; with a null key pandas refuses the columns of different length, or drops the group when only fallback items are left. It does not model batched property projection, percentiles (whose parameter is read from the first row) or aggregates nested deeper than one arithmetic operator.
- Grouping.EvaluateAggregation: does not model text that parses as a number in a sum.
- Arithmetic.CypherDiv: does not model the cast of a quotient of exactly 2^63 back to 64 bits, nor integer columns that pandas stores as floats because of nulls, which are divided as floats.
- Arithmetic.CypherMod: does not model integer columns stored as floats either.
- Powers and float division: floating-point results that are not truncated.
- Dates.AddMonthsMeaning: does not model parsing and printing of ISO strings, time zones, or durations with fractional components.
- CircuitBreaking.SelectAuto: a health probe's outcome is a parameter; explicit backend hints and instrumentation are wrappers around the same steps.
- PipelineHeap.PipelineBuilder.Apply: payload validation is a parameter (present or absent), and callers of get_config that change the returned live object are not modelled.
- ClusterModel.CountsAlwaysHold: the query execution between the locked regions is not modelled, only its outcome.
- Histogram.RangeSelectivity: real arithmetic; rounding of edges and sums is not modelled, and the database's histogram function is taken at its documented half-open bins.
- Aggregation detection in expression trees: recognising which items aggregate is a plain syntax walk.
- Command line, REPL, health server, audit log, configuration loading, output formatting, parsing, printing, concrete backends and logging.
