/**
 * The search half of the solver: minimum-remaining-values variable choice,
 * sorted value order, the per-value consistency test, the recursive
 * backtracking search and the `solve` entry point.
 */
module Search {
  import opened Wrappers
  import opened Strings
  import opened CspModel
  import opened Trace
  import opened SolverCore

  // ---------------------------------------------------------------------
  // Variable choice (minimum remaining values)
  // ---------------------------------------------------------------------

  /** The MRV key `(len(domains[v]), v)` of `x` is smaller than that of `y`. */
  predicate MrvBefore(d: Domains, x: Name, y: Name)
    requires x in d && y in d
  {
    |d[x]| < |d[y]| || (|d[x]| == |d[y]| && LexLess(x, y))
  }

  /** The MRV key order is a strict total order on names. */
  lemma MrvOrder(d: Domains, x: Name, y: Name, z: Name)
    requires x in d && y in d && z in d
    ensures !MrvBefore(d, x, x)
    ensures MrvBefore(d, x, y) && MrvBefore(d, y, z) ==> MrvBefore(d, x, z)
    ensures x == y || MrvBefore(d, x, y) || MrvBefore(d, y, x)
  {
    LexLessIrreflexive(x);
    LexLessTotal(x, y);
    if MrvBefore(d, x, y) && MrvBefore(d, y, z) && |d[x]| == |d[y]| == |d[z]| {
      LexLessTransitive(x, y, z);
    }
  }

  /** `[v for v in names if v not in assignment]`, in declaration order. */
  function Unassigned(names: seq<Name>, a: Assignment): (r: seq<Name>)
    ensures forall v :: v in r <==> v in names && v !in a
  {
    if names == [] then []
    else
      var init := Unassigned(names[..|names| - 1], a);
      assert forall v :: v in names <==> v in names[..|names| - 1] || v == names[|names| - 1];
      if names[|names| - 1] in a then init else init + [names[|names| - 1]]
  }

  /** Python's `min(vs, key=...)`: the first element whose key no later element beats. */
  function MinByMrv(vs: seq<Name>, d: Domains): (m: Name)
    requires vs != [] && forall v :: v in vs ==> v in d
    ensures m in vs
  {
    if |vs| == 1 then vs[0]
    else
      var m := MinByMrv(vs[..|vs| - 1], d);
      if MrvBefore(d, vs[|vs| - 1], m) then vs[|vs| - 1] else m
  }

  /** No element of `vs` has a smaller MRV key than `MinByMrv(vs, d)`. */
  lemma {:induction false} MinByMrvIsLeast(vs: seq<Name>, d: Domains)
    requires vs != [] && forall v :: v in vs ==> v in d
    ensures forall v :: v in vs ==> !MrvBefore(d, v, MinByMrv(vs, d))
  {
    var m := MinByMrv(vs, d);
    if |vs| == 1 {
      MrvOrder(d, m, m, m);
    } else {
      var init, last := vs[..|vs| - 1], vs[|vs| - 1];
      MinByMrvIsLeast(init, d);
      var m' := MinByMrv(init, d);
      forall v | v in vs
        ensures !MrvBefore(d, v, m)
      {
        MrvOrder(d, v, last, m');
        MrvOrder(d, v, m', m');
        if v != last {
          assert v in init;
        }
      }
    }
  }

  /** At most one element of a collection has no element before it in MRV order. */
  lemma MrvLeastUnique(vs: seq<Name>, d: Domains, m: Name, n: Name)
    requires forall v :: v in vs ==> v in d
    requires m in vs && n in vs
    requires forall v :: v in vs ==> !MrvBefore(d, v, m)
    requires forall v :: v in vs ==> !MrvBefore(d, v, n)
    ensures m == n
  {
    MrvOrder(d, m, n, n);
  }

  /** `_select_unassigned_variable(csp, assignment, domains)` */
  function SelectUnassignedVariable(csp: Csp, a: Assignment, d: Domains): (r: Option<Name>)
    requires Covers(csp, d)
    ensures r.None? <==> forall v :: v in VariableNames(csp) ==> v in a
    ensures r.Some? ==> r.value in VariableNames(csp) && r.value !in a
  {
    var unassigned := Unassigned(VariableNames(csp), a);
    if unassigned == [] then None else Some(MinByMrv(unassigned, d))
  }

  /** `m` is unassigned and no unassigned variable comes before it in MRV order. */
  predicate IsMrvChoice(csp: Csp, a: Assignment, d: Domains, m: Name)
    requires Covers(csp, d)
  {
    m in VariableNames(csp) && m !in a &&
    forall v :: v in VariableNames(csp) && v !in a ==> !MrvBefore(d, v, m)
  }

  /**
   * The chosen variable is the unique unassigned one with the fewest
   * remaining values, ties broken by the smaller name.
   */
  lemma SelectIsMrv(csp: Csp, a: Assignment, d: Domains)
    requires Covers(csp, d) && SelectUnassignedVariable(csp, a, d).Some?
    ensures IsMrvChoice(csp, a, d, SelectUnassignedVariable(csp, a, d).value)
    ensures forall m :: IsMrvChoice(csp, a, d, m) ==> m == SelectUnassignedVariable(csp, a, d).value
  {
    var unassigned := Unassigned(VariableNames(csp), a);
    MinByMrvIsLeast(unassigned, d);
    forall m | IsMrvChoice(csp, a, d, m)
      ensures m == SelectUnassignedVariable(csp, a, d).value
    {
      MrvLeastUnique(unassigned, d, m, MinByMrv(unassigned, d));
    }
  }

  // ---------------------------------------------------------------------
  // Value order and the per-value test
  // ---------------------------------------------------------------------

  /** `_order_domain_values(variable, domains)`: the domain, sorted by `str(v)`, each value once. */
  function OrderDomainValues(variable: Name, d: Domains): (r: seq<Value>)
    requires variable in d
    ensures |r| == |d[variable]|
    ensures forall x :: x in r <==> x in d[variable]
    ensures forall i, j :: 0 <= i < j < |r| ==> LexLess(r[i], r[j]) && r[i] != r[j]
  {
    var r := SortStrings(d[variable]);
    forall i, j | 0 <= i < j < |r|
      ensures r[i] != r[j]
    {
      LexLessIrreflexive(r[i]);
    }
    r
  }

  /**
   * `_is_value_consistent(csp, variable, value, assignment)`: every
   * constraint mentioning `variable` holds once `variable = value` is added.
   */
  method IsValueConsistent(csp: Csp, variable: Name, value: Value, a: Assignment) returns (b: bool)
    ensures b <==> AllSatisfied(ConstraintsFor(csp, variable), a[variable := value])
    ensures b <==> forall i :: 0 <= i < |csp.constraints| && variable in Scope(csp.constraints[i]) ==>
                     IsSatisfied(csp.constraints[i], a[variable := value])
  {
    var trial := a[variable := value];
    var cs := ConstraintsFor(csp, variable);
    for k := 0 to |cs|
      invariant forall i :: 0 <= i < k ==> IsSatisfied(cs[i], trial)
    {
      if !IsSatisfied(cs[k], trial) {
        return false;
      }
    }
    return true;
  }

  // ---------------------------------------------------------------------
  // Backtracking search
  // ---------------------------------------------------------------------

  /** The declared variables `a` leaves unassigned. */
  ghost function Remaining(csp: Csp, a: Assignment): set<Name>
  {
    set n | n in VariableNames(csp) && n !in a
  }

  /** `r` agrees with `a` on every variable `a` assigns. */
  predicate Extends(r: Assignment, a: Assignment)
  {
    forall n :: n in a ==> n in r && r[n] == a[n]
  }

  lemma {:induction false} DistinctBound(names: seq<Name>)
    ensures |set n | n in names| <= |names|
  {
    if names != [] {
      DistinctBound(names[1..]);
      assert (set n | n in names) == (set n | n in names[1..]) + {names[0]};
    }
  }

  /**
   * The completeness test of `_backtrack`, `len(assignment) ==
   * len(csp.variable_names)`, for an assignment of declared variables only:
   * when it holds, every declared variable is assigned.
   */
  lemma FullLength(csp: Csp, a: Assignment)
    requires forall n :: n in a ==> n in VariableNames(csp)
    requires |a| == |VariableNames(csp)|
    ensures forall n :: n in VariableNames(csp) <==> n in a
  {
    var names := VariableNames(csp);
    var all := set n | n in names;
    DistinctBound(names);
    assert a.Keys <= all;
    assert |a.Keys| == |a|;
    SubsetCard(a.Keys, all);
  }

  /** While tracing is enabled, the last step logged is tagged `tag`. */
  predicate LastTagged(tracer: Tracer, tag: string)
    reads tracer
  {
    tracer.enabled ==> |tracer.steps| > 0 && tracer.steps[|tracer.steps| - 1].actionType == tag
  }

  /**
   * `_backtrack(csp, assignment, domains, tracer)`. The caller's domains are
   * never changed (only the tracer is in the frame): each trial value works
   * on a fresh copy. A result is a complete consistent assignment that
   * extends `a` and draws every new value from `table`.
   */
  method Backtrack(csp: Csp, a: Assignment, table: DomainTable, tracer: Tracer) returns (r: Option<Assignment>)
    requires Covers(csp, table.doms) && tracer.Valid()
    requires forall n :: n in a ==> n in VariableNames(csp)
    modifies tracer
    decreases Remaining(csp, a), 1
    ensures tracer.Valid() && tracer.Grew()
    ensures r.Some? ==> IsSolution(csp, r.value) && Extends(r.value, a)
    ensures r.Some? ==> forall n :: n in r.value && n !in a ==> n in table.doms && r.value[n] in table.doms[n]
    ensures r.Some? ==> LastTagged(tracer, "solution_found")
    ensures r.None? && (exists n :: n in VariableNames(csp) && n !in a) ==> LastTagged(tracer, "backtrack")
  {
    if |a| == |VariableNames(csp)| {
      FullLength(csp, a);
      if IsConsistent(csp, a) {
        tracer.LogSolutionFound(|a|);
        return Some(a);
      }
      return None;
    }
    var choice := SelectUnassignedVariable(csp, a, table.doms);
    if choice.None? {
      return None;
    }
    var v := choice.value;
    var values := OrderDomainValues(v, table.doms);
    for i := 0 to |values|
      invariant tracer.Valid() && tracer.Grew()
    {
      r := TryValue(csp, a, table, v, values[i], tracer);
      if r.Some? {
        return;
      }
    }
    tracer.LogBacktrack(v, "No valid values");
    r := None;
  }

  /**
   * One round of the value loop of `_backtrack`: test `v = value`, log the
   * assignment, prune a fresh copy of the domains with forward checking and
   * AC-3, and search on from there.
   */
  method TryValue(csp: Csp, a: Assignment, table: DomainTable, v: Name, value: Value, tracer: Tracer)
    returns (r: Option<Assignment>)
    requires Covers(csp, table.doms) && tracer.Valid()
    requires forall n :: n in a ==> n in VariableNames(csp)
    requires v in VariableNames(csp) && v !in a && value in table.doms[v]
    modifies tracer
    decreases Remaining(csp, a), 0
    ensures tracer.Valid() && tracer.Grew()
    ensures r.Some? ==> IsSolution(csp, r.value) && Extends(r.value, a) && v in r.value && r.value[v] == value
    ensures r.Some? ==> forall n :: n in r.value && n !in a ==> n in table.doms && r.value[n] in table.doms[n]
    ensures r.Some? ==> LastTagged(tracer, "solution_found")
  {
    var consistent := IsValueConsistent(csp, v, value, a);
    if !consistent {
      return None;
    }
    var local := a[v := value];
    tracer.LogAssign(v, value, |table.doms[v]|, |local|);
    assert tracer.Grew();
    var localTable := new DomainTable(table.doms[v := {value}]);
    ghost var start := localTable.doms;
    var ok := Narrow(csp, v, localTable, local, tracer);
    assert tracer.Grew();
    if !ok {
      return None;
    }
    assert Remaining(csp, local) < Remaining(csp, a) by {
      assert v in Remaining(csp, a) && v !in Remaining(csp, local);
    }
    assert SubState(localTable.doms, start);
    r := Backtrack(csp, local, localTable, tracer);
    assert tracer.Grew();
    if r.Some? {
      DrawnFromCopy(r.value, a, v, value, table.doms, localTable.doms);
    }
  }

  /**
   * The pruning step of a trial in `_backtrack`: forward checking after the
   * assignment of `v`, then AC-3. Either way the domains only shrink; the
   * trial goes on exactly when forward checking succeeds and what it leaves
   * has a stable core, and then no domain that had values is left empty.
   */
  method Narrow(csp: Csp, v: Name, table: DomainTable, a: Assignment, tracer: Tracer) returns (ok: bool)
    requires Covers(csp, table.doms) && v in a && tracer.Valid()
    modifies table, tracer
    ensures SubState(table.doms, old(table.doms))
    ensures ok ==> Stable(csp, table.doms, a) && NoNewWipeout(table.doms, old(table.doms))
    ensures ok <==> ForwardPass(csp, v, old(table.doms), a).0 &&
                    HasStableCore(csp, ForwardPass(csp, v, old(table.doms), a).1, a)
    ensures tracer.Valid() && tracer.Grew()
  {
    ForwardPassShape(csp, v, table.doms, a);
    ForwardPassVerdict(csp, v, table.doms, a);
    ok := ForwardCheck(csp, v, table, a, tracer);
    if !ok {
      return;
    }
    ok := AC3(csp, table, a, tracer);
  }

  /**
   * Values found below a trial `v = value` come from the caller's domains:
   * the trial's own table is the caller's with `v` narrowed to `{value}`,
   * pruned further.
   */
  lemma DrawnFromCopy(r: Assignment, a: Assignment, v: Name, value: Value, d: Domains, e: Domains)
    requires v in d && value in d[v] && v !in a
    requires Extends(r, a[v := value])
    requires forall n :: n in r && n !in a[v := value] ==> n in e && r[n] in e[n]
    requires SubState(e, d[v := {value}])
    ensures forall n :: n in r && n !in a ==> n in d && r[n] in d[n]
    ensures Extends(r, a) && v in r && r[v] == value
  {
    forall n | n in r && n !in a
      ensures n in d && r[n] in d[n]
    {
      if n != v {
        assert r[n] in e[n] && e[n] <= d[n];
      }
    }
  }

  /**
   * `solve(csp)`: prune with the unary constraints and AC-3 on the declared
   * domains, then search; the empty assignment stands for "no solution".
   * The tracer is the registry's, created on first use.
   */
  method Solve(csp: Csp, registry: TraceRegistry) returns (r: Assignment)
    requires registry.Valid()
    modifies registry, registry.global
    ensures registry.Valid() && registry.global != null
    ensures r != map[] ==> IsSolution(csp, r)
    ensures forall n :: n in r ==> n in DeclaredDomains(csp.variables) && r[n] in DeclaredDomains(csp.variables)[n]
    ensures !UnaryPass(csp, DeclaredDomains(csp.variables), map[]).0 ==> r == map[]
    ensures !HasStableCore(csp, DeclaredDomains(csp.variables), map[]) ==> r == map[]
  {
    var tracer := registry.GetTracer();
    var table := new DomainTable(DeclaredDomains(csp.variables));
    var ok := Preprocess(csp, table, tracer);
    if !ok {
      return map[];
    }
    ghost var pruned := table.doms;
    var result := Backtrack(csp, map[], table, tracer);
    if result.None? {
      return map[];
    }
    r := result.value;
    forall n | n in r
      ensures n in DeclaredDomains(csp.variables) && r[n] in DeclaredDomains(csp.variables)[n]
    {
      assert r[n] in pruned[n];
    }
  }

  /**
   * The pruning `solve` does before searching: the unary constraints, then
   * AC-3 with nothing assigned. The domains only shrink and keep every
   * stable sub-state; it fails when unary pruning does, and in general
   * exactly when the declared domains have no stable core; on success the
   * domains are stable and no domain that had values is empty.
   */
  method Preprocess(csp: Csp, table: DomainTable, tracer: Tracer) returns (ok: bool)
    requires Covers(csp, table.doms) && tracer.Valid()
    modifies table, tracer
    ensures SubState(table.doms, old(table.doms))
    ensures ok ==> Stable(csp, table.doms, map[]) && NoNewWipeout(table.doms, old(table.doms))
    ensures forall e :: SubState(e, old(table.doms)) && Stable(csp, e, map[]) ==> SubState(e, table.doms)
    ensures ok <==> HasStableCore(csp, old(table.doms), map[])
    ensures !UnaryPass(csp, old(table.doms), map[]).0 ==> !ok
    ensures tracer.Valid()
  {
    UnaryPassMeaning(csp, table.doms, map[]);
    ok := EnforceUnary(csp, table, map[]);
    if !ok {
      UnaryFailNoStable(csp, old(table.doms), map[]);
      return;
    }
    UnaryNoWipeout(csp, old(table.doms), map[]);
    CoreAfterUnary(csp, old(table.doms), map[]);
    forall e | SubState(e, old(table.doms)) && Stable(csp, e, map[])
      ensures SubState(e, table.doms)
    {
      StableBelowUnary(csp, old(table.doms), e, map[]);
    }
    ghost var u := table.doms;
    ok := AC3(csp, table, map[], tracer);
    assert forall e :: SubState(e, u) && Stable(csp, e, map[]) ==> SubState(e, table.doms);
  }
}
