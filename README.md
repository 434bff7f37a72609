# CSP solver core, modelled in Dafny

This project models the core of a small constraint-satisfaction solver for
zebra-style logic puzzles, together with its step tracer and its answer
formatter. The model covers:

- **The solver** (`src/csp/solver_core.py`):
  - `solve` prunes the declared domains with the unary constraints and AC-3, then runs a recursive backtracking search.
  - The search picks variables by minimum remaining values (MRV), tries values in sorted order, and prunes after each assignment with forward checking and AC-3.
- **The tracer** (`src/utils/trace.py`): an append-only step log with a running counter, its per-kind summary, and the process-wide tracer.
- **The formatter** (`run.py`): it turns a solution over variables named `House_<n>_<attribute>` into a header and one row per house.

The problem itself is abstract. Variables have names and finite sets of
values, and a constraint has a scope and a predicate. The built-in
`all_diff` and `equals` kinds are given, and any other predicate comes with
its own scope. Neighbours and "the constraints between two variables" are
derived from the scopes. `src/csp/model.py` in the repository is a
placeholder that raises `NotImplementedError`; the abstract problem in
`csp.dfy` stands in for it.

Files:

| file | module | models |
|---|---|---|
| `wrappers.dfy` | `Wrappers` | `Option`, `Result` |
| `strings.dfy` | `Strings` | Python's `str` order, `sorted`/`min` on strings, `str(int)`, `int(str)`, `split(sep, 1)` |
| `ints.dfy` | `Ints` | `min` and `sorted` on sets of integers |
| `csp.dfy` | `CspModel` | the abstract problem and the mutable domain dictionary (`DomainTable`) |
| `trace.dfy` | `Trace` | `TraceStep`, `Tracer`, the module-level tracer (`TraceRegistry`) |
| `solver.dfy` | `SolverCore` | unary pruning, `_revise`/`_has_support`, AC-3, forward checking |
| `search.dfy` | `Search` | MRV choice, value order, `_is_value_consistent`, `_backtrack`, `solve` |
| `grid.dfy` | `Grid` | `_ordered_attributes`, `reformat_to_grid`, `format_solution` |

How the code is modelled:

- **Domains.** The source mutates its domain dictionary in place, so it is a class (`DomainTable`) with one `map` field.
  - The pruning methods take it under `modifies`.
  - Each is proved equal to a pure specification function (`UnaryPass`, `Revised`, `ForwardPass`), and the lemmas state what those functions mean.
- **Copies.** Each `copy_domains` is a fresh `DomainTable`. `Backtrack` has only the tracer in its frame, so the caller's domains provably never change.
- **The tracer.** It is a class whose `log_*` methods append exactly one step when enabled and nothing when disabled. Every step records the counter value, and `Valid` keeps the steps numbered 1, 2, 3, ….
- **The global tracer.** The module-level `_global_tracer` is the field of an explicit `TraceRegistry` object.

## Model

| member | source | states |
|---|---|---|
| Search.Solve | src/csp/solver_core.py:13-26 | the result is `{}` when unary pruning of the declared domains fails, and `{}` when the initial AC-3 fails, i.e. when the declared domains have no stable sub-state that empties no non-empty domain; a non-empty result is a complete assignment of exactly the declared variables under which every constraint holds, and every value comes from its variable's declared domain; the registry then holds a tracer |
| Search.Preprocess | src/csp/solver_core.py:18-23 | unary pruning then AC-3 with nothing assigned only shrinks the domains; it fails when unary pruning fails, and succeeds exactly when the input has a stable sub-state that empties no non-empty domain; on success the domains are stable (arc consistent, nothing more for unary pruning to remove), no domain was newly emptied, and every stable sub-state of the input is kept |
| Search.Backtrack | src/csp/solver_core.py:29-70 | a result is a solution that extends the given assignment and draws every new value from the given domains; the tracer only grows; while tracing is enabled, the last step logged is `solution_found` on success and `backtrack` when a variable was left unassigned and no value worked; the caller's domain table is not modified |
| Search.TryValue | src/csp/solver_core.py:43-67 | one trial `var = value`: a result is a solution extending the assignment with `var = value`, drawing new values from the caller's domains, and (while tracing is enabled) the last step logged is `solution_found` |
| Search.Narrow | src/csp/solver_core.py:59-63 | forward checking then AC-3 only shrink the trial's domains; it succeeds exactly when forward checking succeeds and what it leaves has a stable sub-state that empties no non-empty domain; success leaves the domains stable with no domain newly emptied |
| Search.DrawnFromCopy | src/csp/solver_core.py:56-57 | values found below a trial on a narrowed copy of the domains lie in the caller's domains, and the result extends the caller's assignment |
| Search.FullLength | src/csp/solver_core.py:33 | when the assignment holds only declared variables, `len(assignment) == len(variable_names)` means every declared variable is assigned |
| Search.SelectUnassignedVariable | src/csp/solver_core.py:73-78 | `None` exactly when every declared variable is assigned; otherwise the choice is a declared, unassigned variable |
| Search.SelectIsMrv | src/csp/solver_core.py:73-78 | the choice is the unique unassigned variable with the fewest remaining values, ties broken by the smaller name |
| Search.MinByMrvIsLeast | src/csp/solver_core.py:78 | no element comes before `min(..., key=(len(domains[v]), v))` in that key order |
| Search.MrvOrder | src/csp/solver_core.py:78 | the key `(len(domains[v]), v)` orders names strictly and totally |
| Search.Unassigned | src/csp/solver_core.py:74 | the list holds exactly the declared variables not in the assignment |
| Search.OrderDomainValues | src/csp/solver_core.py:81-83 | the values of the domain, each once, in strictly ascending string order |
| Search.IsValueConsistent | src/csp/solver_core.py:86-92 | true exactly when every constraint whose scope mentions the variable holds after adding `variable = value` |
| SolverCore.ForwardCheck | src/csp/solver_core.py:95-123 | the verdict and the new domains are those of `ForwardPass`; one `forward_check` step is logged exactly when the check succeeds after removing some neighbour value, otherwise the tracer is unchanged |
| SolverCore.PruneNeighbors | src/csp/solver_core.py:107-120 | the neighbour loop computes `Sweep` over the neighbours; the count of removed values is zero exactly when nothing changed |
| SolverCore.ForwardPassShape | src/csp/solver_core.py:104-120 | forward checking keeps the keys and only shrinks domains below what unary pruning left; non-neighbours keep exactly the unary-pruned domain |
| SolverCore.ForwardPassKeeps | src/csp/solver_core.py:108-118 | after a successful check, a neighbour keeps exactly those unary-pruned values that agree with the assigned value on every constraint between the two |
| SolverCore.ForwardPassVerdict | src/csp/solver_core.py:104-120 | forward checking succeeds exactly when unary pruning succeeds and every neighbour of the assigned variable keeps a value; success empties no domain that was non-empty; failure leaves some declared variable without values |
| SolverCore.AC3 | src/csp/solver_core.py:126-153 | domains only shrink and every stable sub-state of the input is kept, on success and on failure; it succeeds exactly when the input has a stable sub-state that empties no non-empty domain, and then leaves the domains stable with no domain newly emptied; failure means unary pruning failed or some domain non-empty after unary pruning was emptied; stable input passes unchanged; one `ac3` step is logged exactly when it succeeds on a problem with an arc |
| SolverCore.Propagate | src/csp/solver_core.py:139-150 | the queue loop ends arc consistent on success with no domain newly emptied; failure means some domain non-empty at the start was emptied; every arc-consistent sub-state is kept; `arcs_processed` is positive exactly when the initial queue was non-empty, `variables_affected` never exceeds it and is zero exactly when no domain changed |
| SolverCore.ProcessArc | src/csp/solver_core.py:141-150 | one pop-and-revise round shrinks the state and keeps every arc-consistent sub-state; a change lowers the total domain size, no change shortens the queue (so the loop ends); on success every arc not on the new queue is consistent and no domain was newly emptied; failure means a domain that was non-empty has just been emptied |
| SolverCore.InitialArcs | src/csp/solver_core.py:134-137 | the initial queue holds exactly the arcs `(x, y)` with `y` a neighbour of the declared variable `x` |
| SolverCore.PushArcs | src/csp/solver_core.py:136-137 | the queue grows by exactly the arcs from `x` to each neighbour |
| SolverCore.Requeue | src/csp/solver_core.py:148-150 | the queue grows by exactly the arcs `(xk, xi)` for the neighbours `xk` other than `xj` |
| SolverCore.QueueInvariantStep | src/csp/solver_core.py:141-150 | after one revision and the requeueing, every arc not on the queue is consistent |
| SolverCore.ArcAfterRevise | src/csp/solver_core.py:144-150 | revising `xi` against `xj` keeps every other consistent arc consistent, except arcs into `xi` from other variables when `xi` lost values |
| SolverCore.RevisedConsistent | src/csp/solver_core.py:156-167 | after revising `xi` against `xj`, every value of `xi` has a support in `xj` |
| SolverCore.RevisedWhenConsistent | src/csp/solver_core.py:163-167 | revising an arc that is already consistent removes nothing |
| SolverCore.ReviseKeepsSubStates | src/csp/solver_core.py:163-166 | revision never removes a value that belongs to an arc-consistent sub-state |
| SolverCore.ReviseKeepsAllSubStates | src/csp/solver_core.py:156-167 | revising an arc keeps every arc-consistent sub-state of the state it starts from |
| SolverCore.ReviseShrinks | src/csp/solver_core.py:163-167 | revision yields a sub-state, and strictly lowers the total domain size when it changes anything (AC-3 terminates) |
| SolverCore.Revise | src/csp/solver_core.py:156-167 | only the entry of `xi` changes and only by losing values; the result is true exactly when something was removed, and for `xi != xj` what is left is exactly the values with a support in `xj` |
| SolverCore.ReviseKeepsSupported | src/csp/solver_core.py:163-166 | a value with a support in `xj` is never removed |
| SolverCore.DropUnsupported | src/csp/solver_core.py:163-167 | the removal loop of `_revise` only removes values of `xi`, reports whether it removed any, and for `xi != xj` leaves exactly the supported values |
| SolverCore.DropIfUnsupported | src/csp/solver_core.py:164-166 | a value is removed exactly when no value of `xj` supports it |
| SolverCore.HasSupport | src/csp/solver_core.py:170-186 | true exactly when some value of `xj` makes every given constraint hold on the trial assignment |
| SolverCore.SupportsSymmetric | src/csp/solver_core.py:180-185 | support of `v` by `w` across an arc is support of `w` by `v` across the reverse arc |
| SolverCore.EnforceUnary | src/csp/solver_core.py:189-205 | the verdict and the pruned domains are exactly those of `UnaryPass` |
| SolverCore.UnaryPassMeaning | src/csp/solver_core.py:189-205 | unary pruning keeps exactly the values that pass every unary constraint of their variable; it fails exactly when some constrained variable has no such value, and leaves other domains alone |
| SolverCore.UnaryConstraints | src/csp/solver_core.py:192-194 | the list keeps only constraints whose scope is that one variable, is empty exactly when the problem has none, and all of it holds exactly when every such constraint of the problem holds |
| SolverCore.PruneDomain | src/csp/solver_core.py:198-202 | the removal loop leaves exactly the values the filter keeps, changes no other entry, and counts the removed values |
| SolverCore.StableBelowUnary | src/csp/solver_core.py:131-132 | a stable sub-state of the input lies inside what unary pruning leaves |
| SolverCore.PrunedStable | src/csp/solver_core.py:126-153 | arc-consistent domains inside the unary-pruned ones, empty only where pruning emptied them, are stable |
| SolverCore.UnaryNoWipeout | src/csp/solver_core.py:196-204 | successful unary pruning empties no domain that was non-empty |
| SolverCore.UnaryFailNoStable | src/csp/solver_core.py:131-132 | when unary pruning fails, no sub-state of the domains is stable, so AC-3 rightly fails |
| SolverCore.CoreAfterUnary | src/csp/solver_core.py:131-132 | successful unary pruning neither creates nor loses a stable sub-state that empties no non-empty domain |
| SolverCore.AC3Outcome | src/csp/solver_core.py:131-153 | a queue loop that started from the unary-pruned domains and kept their arc-consistent sub-states keeps every stable sub-state of the input; it succeeds exactly when the input has a stable sub-state that empties no non-empty domain |
| SolverCore.SweepShape | src/csp/solver_core.py:191-204 | a pruning sweep leaves untouched every variable it does not visit, and leaves each visited one either as it was or filtered |
| SolverCore.SweepOutcome | src/csp/solver_core.py:191-204 | a sweep succeeds exactly when no visited variable's filtered domain is empty, and then filters each visited variable |
| SolverCore.SweepFixed | src/csp/solver_core.py:191-204 | a sweep over domains the filter already accepts changes nothing |
| SolverCore.TotalSizeShrinks | src/csp/solver_core.py:163-167 | shrinking domains never raises the total size, and strictly shrinking one lowers it |
| CspModel.AllDiffMeaning | tests/test_csp_core.py:38-46 | `all_diff` holds exactly when no two assigned scope variables share a value |
| CspModel.BuiltinVacuous | src/csp/model.py:17-20 | a built-in constraint none of whose variables is assigned holds |
| CspModel.Select | src/csp/solver_core.py:192-194 | the comprehension keeps exactly the picked constraints, and all of them hold exactly when every picked constraint of the list does |
| CspModel.Linking | src/csp/solver_core.py:109 | `constraints_between(x, y)` keeps only constraints mentioning both `x` and `y`, is empty exactly when no constraint mentions both, and all of it holds exactly when every constraint mentioning both holds |
| CspModel.Neighbors | src/csp/solver_core.py:108 | the neighbours of `v` are exactly the other declared variables sharing a constraint with `v` |
| CspModel.NeighborsSymmetric | src/csp/solver_core.py:148-150 | `w` is a neighbour of `v` exactly when `v` is a neighbour of `w` |
| CspModel.DeclaredDomains | src/csp/solver_core.py:19 | `copy_domains()` has an entry for exactly the declared names |
| CspModel.DeclaredDomainOf | src/csp/solver_core.py:19 | a variable's entry is its declared domain unless a later variable reuses the name |
| CspModel.DomainTable.constructor | src/csp/solver_core.py:56 | a copy holds the same domains in a fresh object |
| Trace.Tracer.constructor | src/utils/trace.py:30-34 | a new tracer has no steps, counter 0, and the given enabled flag |
| Trace.Tracer.LogAssign | src/utils/trace.py:40-53 | when enabled, exactly one `assign` step numbered by the incremented counter is appended; when disabled, nothing changes |
| Trace.Tracer.LogBacktrack | src/utils/trace.py:55-66 | as above for a `backtrack` step with its variable and reason |
| Trace.Tracer.LogConstraintCheck | src/utils/trace.py:68-80 | as above for a `constraint_check` step |
| Trace.Tracer.LogDomainReduction | src/utils/trace.py:82-94 | as above for a `domain_reduced` step |
| Trace.Tracer.LogAc3Run | src/utils/trace.py:96-106 | as above for an `ac3` step whose reason spells out the two counts |
| Trace.Tracer.LogForwardCheck | src/utils/trace.py:108-119 | as above for a `forward_check` step whose reason spells out the pruned count |
| Trace.Tracer.LogSolutionFound | src/utils/trace.py:121-131 | as above for a `solution_found` step |
| Trace.Tracer.Summary | src/utils/trace.py:162-174 | the total is the number of steps; each tag is counted once with its exact number of steps, and the tags come in the order of their first occurrence in the steps (`FirstTagged`); every logged tag appears; the counts add up to the total; the assign and backtrack numbers are the counts of those tags |
| Trace.FirstTaggedLeast | src/utils/trace.py:165-166 | no step before the first `tag` step is tagged `tag` |
| Trace.FirstTaggedSnoc | src/utils/trace.py:165-166 | appending a step moves no tag's first occurrence, and a tag first seen at the new step occurs there first |
| Trace.CountedIsSeen | src/utils/trace.py:165-166 | a tag with a positive count occurs among the steps |
| Trace.OrderStep | src/utils/trace.py:165-166 | one counting step keeps the tags in first-seen order |
| Trace.CountPrefixStep | src/utils/trace.py:165-166 | counting one more step keeps the tally exact and in first-seen order |
| Trace.TallyStep | src/utils/trace.py:165-166 | one counting step keeps the tally exact for the steps seen so far |
| Trace.TallyNew | src/utils/trace.py:166 | a first occurrence appends its tag with count 1 |
| Trace.TallyBump | src/utils/trace.py:166 | a repeated tag has its count raised by one in place |
| Trace.CountTaggedSnoc | src/utils/trace.py:172-173 | appending a step raises the count of its own tag by one and no other |
| Trace.TraceRegistry.constructor | src/utils/trace.py:178 | the process starts without a tracer |
| Trace.TraceRegistry.GetTracer | src/utils/trace.py:181-186 | returns the stored tracer, or stores and returns a new enabled, empty one |
| Trace.TraceRegistry.ResetTracer | src/utils/trace.py:189-192 | forgets the stored tracer |
| Trace.TraceRegistry.EnableTracing | src/utils/trace.py:195-197 | sets the flag of the (possibly new) tracer, keeping its steps |
| Strings.SortStrings | run.py:25 | `sorted` on a set of strings: each element once, strictly ascending |
| Strings.AscendingUnique | run.py:25 | any strictly ascending arrangement of a set is `sorted`'s |
| Strings.Least | src/csp/solver_core.py:83 | the least string of a non-empty set under Python's order |
| Strings.LeastUnique | src/csp/solver_core.py:83 | the least string is unique |
| Strings.LexLessTotal | src/csp/solver_core.py:78 | Python's string order is total |
| Strings.LexLessTransitive | src/csp/solver_core.py:78 | Python's string order is transitive |
| Strings.LexLessIrreflexive | src/csp/solver_core.py:78 | Python's string order is irreflexive |
| Strings.IntToStringRoundTrip | run.py:37-47 | `int(str(n)) == n` |
| Strings.SplitFirst | run.py:36 | `None` exactly when the separator is absent; otherwise the text is the head, the separator, then the rest, and the head has no separator |
| Strings.SplitFirstJoin | run.py:36 | splitting `l + sep + r` with no separator in `l` gives back `l` and `r` |
| Ints.SortInts | run.py:40 | `sorted` on a set of integers: each element once, strictly ascending |
| Ints.Smallest | run.py:40 | the least element of a non-empty set |
| Grid.PresentPriority | run.py:26 | the priority attributes kept are exactly those present |
| Grid.PresentPriorityRanked | run.py:24-26 | the present priority attributes come in the order Name, Color, Pet, each once |
| Grid.PresentRanked | run.py:26 | filtering a rank-ordered list keeps it rank-ordered |
| Grid.OrderedAttributes | run.py:19-26 | every attribute exactly once |
| Grid.OrderedAttributesLayout | run.py:19-26 | first the present priority attributes in priority order, then the others in ascending order |
| Grid.ParseHouseKey | run.py:34-37 | a parsed key is `House_` + a house part with no underscore that `int` reads as the house number + `_` + the attribute |
| Grid.HouseKeyRoundTrip | run.py:36-49 | the key `House_{h}_{attr}` built for a cell parses back into `h` and `attr` |
| Grid.HouseKeyPrefix | run.py:49 | a key built for a cell starts with `House_` |
| Grid.CollectKeys | run.py:30-38 | the key loop fails exactly on a malformed `House_` key; otherwise it collects exactly the house numbers and attributes of the `House_` keys |
| Grid.BuildRow | run.py:47-51 | the row is the house number, then for each attribute the value of its key or `___` |
| Grid.RowFor | run.py:47-51 | a row is one cell longer than the attribute list, starts with the house number, and holds each attribute's cell in order |
| Grid.Rows | run.py:44-51 | one row per house, in order |
| Grid.ReformatToGrid | run.py:29-53 | the result is `GridFor(solution)`, or `None` where the source raises `ValueError` |
| Grid.GridShape | run.py:40-53 | the header is `House` followed by exactly the collected attributes; every row is as long as the header; rows carry the house numbers in strictly ascending order, one per house |
| Grid.GridParts | run.py:43-53 | the grid is the header `House` + ordered attributes and the rows of the sorted houses |
| Grid.GridCells | run.py:46-51 | the cell of house `i` and attribute `j` is the value of `House_<h>_<attr>`, or `___` when the solution lacks it |
| Grid.GridShowsValue | run.py:29-53 | every value stored under a cell key appears in the grid, in its house's row under its attribute's column |
| Grid.NonHouseKeysIgnored | run.py:33-35 | solutions that agree on their `House_` keys give the same grid |
| Grid.SameHouseKeys | run.py:33-38 | key sets that agree on `House_` keys give the same houses, attributes and well-formedness |
| Grid.SameRow | run.py:48-50 | solutions that agree on `House_` keys give the same row |
| Grid.FormatSolution | run.py:69-83 | an empty solution takes the template's header and rows (missing parts empty), or an empty grid without a template; any other solution is reformatted |

## Left out

- **Timestamps.** `TraceStep.timestamp`, the tracer's start time, `_get_timestamp` and `elapsed_time_seconds` in `summary` depend on the clock and are not modelled. The `domains_state` field is never set by the code and is left out.
- **Output and command line.** `Tracer.to_csv`, `write_results_csv`, argument parsing, puzzle loading and `_coerce_jsonable` do file or JSON I/O and are left out. A template passed to `FormatSolution` is already a header and rows.
- **`tracer or get_tracer()`.** This fallback in `_backtrack`, `_forward_check` and `_ac3` is not modelled: the solver always passes its tracer down, and the model does so explicitly.
- **Values are strings.** So the `str(v)` sort key of `_order_domain_values` is the value itself. Solutions and templates hold strings, not arbitrary JSON values.
- **`int()` parsing.** `int()` on non-ASCII Unicode digits, and the underscores `int` allows between digits, are not modelled. A house part never holds an underscore, because the key is split at underscores.
- **`ValueError`.** Where `reformat_to_grid` raises `ValueError` (a `House_` key without a second underscore, or with a house part `int` rejects), the model returns `None`.
- **`src/csp/model.py`.** It is a placeholder whose methods raise `NotImplementedError`. The abstract problem of `csp.dfy` replaces it:
  - a closed set of constraint kinds, where `Custom` carries any predicate with its scope;
  - neighbours that exclude the variable itself.
  Constraint predicates that raise are not modelled.
- **SolverCore.Revise.** Its exact result (`Revised`) is stated only for `xi != xj`. AC-3 never revises a variable against itself, because a variable is not its own neighbour.
- SolverCore.AC3: the queue is taken from the front and extended at the back, as the source's `deque` is, but the contracts speak only of which arcs are on the queue.
  - The `variables_affected` and `arcs_processed` values in the logged `ac3` step are computed as in the source. `SolverCore.Propagate` states only that `arcs_processed` is positive exactly when the initial queue is non-empty, that `variables_affected` never exceeds it, and that `variables_affected` is zero exactly when no domain changed.
  - The exact values, and the domains left behind on failure, depend on the revision order, which no contract states.
- **SolverCore.ForwardCheck.** The number logged as `domains_pruned` is computed as in the source. The contract states only that it is non-zero exactly when some neighbour value was removed, not that it equals the number removed.
- **Search.Backtrack.** Only soundness is proved: a returned assignment is a solution. Completeness, meaning "no solution exists when it returns `None`", is not proved.
- **Search.Solve.** It states soundness only, as `Search.Backtrack` does.
- **Concurrency.** The module-level tracer is shared state; concurrent use is not modelled.
