/**
 * The backtracking solver: minimum-remaining-values variable choice,
 * deterministic value order, unary pruning, forward checking and AC-3,
 * all working on a `DomainTable` that is pruned in place.
 */
module SolverCore {
  import opened Wrappers
  import opened Strings
  import opened CspModel
  import opened Trace

  // ---------------------------------------------------------------------
  // Pruning sweeps: the shape shared by unary pruning and forward checking
  // ---------------------------------------------------------------------

  /** The values of `dom` that `keep` accepts for variable `v`. */
  function Kept(dom: set<Value>, v: Name, keep: (Name, Value) -> bool): set<Value>
  {
    set x | x in dom && keep(v, x)
  }

  /**
   * Visit `vs` in order; for each variable `active` picks, keep only the
   * values `keep` accepts and stop with `false` as soon as such a domain
   * is empty.
   */
  function Sweep(vs: seq<Name>, d: Domains, active: Name -> bool, keep: (Name, Value) -> bool): (r: (bool, Domains))
    requires forall n :: n in vs ==> n in d
    ensures r.1.Keys == d.Keys
  {
    if vs == [] then (true, d)
    else if !active(vs[0]) then Sweep(vs[1..], d, active, keep)
    else
      var kept := Kept(d[vs[0]], vs[0], keep);
      if kept == {} then (false, d[vs[0] := kept])
      else Sweep(vs[1..], d[vs[0] := kept], active, keep)
  }

  lemma KeptIdempotent(dom: set<Value>, v: Name, keep: (Name, Value) -> bool)
    ensures Kept(Kept(dom, v, keep), v, keep) == Kept(dom, v, keep)
  {
  }

  /** A sweep keeps the keys and replaces a domain only by its kept part. */
  lemma {:induction false} SweepShape(vs: seq<Name>, d: Domains, active: Name -> bool, keep: (Name, Value) -> bool)
    requires forall n :: n in vs ==> n in d
    ensures forall n :: n in d && (n !in vs || !active(n)) ==> Sweep(vs, d, active, keep).1[n] == d[n]
    ensures forall n :: n in d ==>
              (Sweep(vs, d, active, keep).1[n] == d[n] || Sweep(vs, d, active, keep).1[n] == Kept(d[n], n, keep))
  {
    if vs != [] && active(vs[0]) {
      var v := vs[0];
      var d1 := d[v := Kept(d[v], v, keep)];
      if Kept(d[v], v, keep) != {} {
        SweepShape(vs[1..], d1, active, keep);
        KeptIdempotent(d[v], v, keep);
      }
    } else if vs != [] {
      SweepShape(vs[1..], d, active, keep);
    }
  }

  /**
   * A sweep succeeds exactly when every picked domain keeps a value; then
   * each picked domain is replaced by its kept part, and on failure some
   * picked domain is left empty.
   */
  lemma {:induction false} SweepOutcome(vs: seq<Name>, d: Domains, active: Name -> bool, keep: (Name, Value) -> bool)
    requires forall n :: n in vs ==> n in d
    ensures Sweep(vs, d, active, keep).0 <==> forall n :: n in vs && active(n) ==> Kept(d[n], n, keep) != {}
    ensures Sweep(vs, d, active, keep).0 ==>
              forall n :: n in vs && active(n) ==> Sweep(vs, d, active, keep).1[n] == Kept(d[n], n, keep)
    ensures !Sweep(vs, d, active, keep).0 ==>
              exists n :: n in vs && active(n) && Sweep(vs, d, active, keep).1[n] == {}
  {
    if vs == [] {
    } else if !active(vs[0]) {
      SweepOutcome(vs[1..], d, active, keep);
      assert forall n :: n in vs && n != vs[0] ==> n in vs[1..];
    } else {
      var v := vs[0];
      var d1 := d[v := Kept(d[v], v, keep)];
      KeptIdempotent(d[v], v, keep);
      if Kept(d[v], v, keep) != {} {
        SweepOutcome(vs[1..], d1, active, keep);
        SweepShape(vs[1..], d1, active, keep);
        assert forall n :: n in vs && n != v ==> n in vs[1..];
        assert forall n :: n in d ==> Kept(d1[n], n, keep) == Kept(d[n], n, keep);
      }
    }
  }

  /** A sweep over domains that are already pruned and non-empty changes nothing. */
  lemma {:induction false} SweepFixed(vs: seq<Name>, d: Domains, active: Name -> bool, keep: (Name, Value) -> bool)
    requires forall n :: n in vs ==> n in d
    requires forall n :: n in vs && active(n) ==> d[n] != {} && Kept(d[n], n, keep) == d[n]
    ensures Sweep(vs, d, active, keep) == (true, d)
  {
    if vs != [] {
      if active(vs[0]) {
        assert d[vs[0] := Kept(d[vs[0]], vs[0], keep)] == d;
      }
      SweepFixed(vs[1..], d, active, keep);
    }
  }

  lemma KeptStep(dom: set<Value>, todo: set<Value>, x: Value, v: Name, keep: (Name, Value) -> bool)
    requires x in todo && todo <= dom
    ensures Kept(dom - (todo - {x}), v, keep) + (todo - {x}) ==
            (Kept(dom - todo, v, keep) + todo) - (if keep(v, x) then {} else {x})
  {
  }

  /**
   * The inner loop of `_enforce_unary_constraints` and `_forward_check`:
   * remove from the domain of `v`, one by one, the values `keep` rejects.
   */
  method PruneDomain(table: DomainTable, v: Name, keep: (Name, Value) -> bool) returns (removed: nat)
    requires v in table.doms
    modifies table
    ensures table.doms == old(table.doms)[v := Kept(old(table.doms)[v], v, keep)]
    ensures removed == |old(table.doms)[v]| - |table.doms[v]|
  {
    ghost var d0 := table.doms;
    var dom := table.doms[v];
    var todo, cur := dom, dom;
    removed := 0;
    while todo != {}
      invariant todo <= dom
      invariant table.doms == d0[v := cur]
      invariant cur == Kept(dom - todo, v, keep) + todo
      invariant removed == |dom| - |cur|
      decreases |todo|
    {
      var x :| x in todo;
      KeptStep(dom, todo, x, v, keep);
      if !keep(v, x) {
        assert x in cur;
        UpdateTwice(d0, v, cur, cur - {x});
        cur := cur - {x};
        table.doms := table.doms[v := cur];
        removed := removed + 1;
      }
      todo := todo - {x};
    }
    assert dom - todo == dom;
  }

  // ---------------------------------------------------------------------
  // Unary pruning
  // ---------------------------------------------------------------------

  /** A constraint whose scope is exactly `[v]`. */
  predicate UnaryOn(c: Constraint, v: Name)
  {
    |Scope(c)| == 1 && Scope(c)[0] == v
  }

  /** The unary constraints on `v`: those of `constraints_for(v)` with a one-element scope. */
  function UnaryConstraints(csp: Csp, v: Name): (r: seq<Constraint>)
    ensures forall k :: 0 <= k < |r| ==> UnaryOn(r[k], v)
    ensures |r| == 0 <==> forall i :: 0 <= i < |csp.constraints| ==> !UnaryOn(csp.constraints[i], v)
    ensures forall a :: AllSatisfied(r, a) <==>
              forall i :: 0 <= i < |csp.constraints| && UnaryOn(csp.constraints[i], v) ==> IsSatisfied(csp.constraints[i], a)
  {
    Select(csp.constraints, c => UnaryOn(c, v))
  }

  function UnaryActive(csp: Csp): Name -> bool
  {
    v => |UnaryConstraints(csp, v)| > 0
  }

  /** `x` for `v` passes every unary constraint on `v`, the rest of `a` kept. */
  function UnaryKeep(csp: Csp, a: Assignment): (Name, Value) -> bool
  {
    (v, x) => AllSatisfied(UnaryConstraints(csp, v), a[v := x])
  }

  /** What `_enforce_unary_constraints` computes: its verdict and the pruned domains. */
  function UnaryPass(csp: Csp, d: Domains, a: Assignment): (bool, Domains)
    requires Covers(csp, d)
  {
    Sweep(VariableNames(csp), d, UnaryActive(csp), UnaryKeep(csp, a))
  }

  /**
   * Unary pruning removes exactly the values that fail a unary constraint of
   * their variable, and fails exactly when that leaves a constrained
   * variable without values; other domains are untouched.
   */
  lemma UnaryPassMeaning(csp: Csp, d: Domains, a: Assignment)
    requires Covers(csp, d)
    ensures UnaryPass(csp, d, a).1.Keys == d.Keys
    ensures forall n :: n in d ==> UnaryPass(csp, d, a).1[n] <= d[n]
    ensures forall n :: n in d && (n !in VariableNames(csp) || |UnaryConstraints(csp, n)| == 0) ==>
              UnaryPass(csp, d, a).1[n] == d[n]
    ensures UnaryPass(csp, d, a).0 <==>
              forall n :: n in VariableNames(csp) && |UnaryConstraints(csp, n)| > 0 ==>
                exists x :: x in d[n] && AllSatisfied(UnaryConstraints(csp, n), a[n := x])
    ensures UnaryPass(csp, d, a).0 ==>
              forall n, x :: n in VariableNames(csp) && |UnaryConstraints(csp, n)| > 0 ==>
                (x in UnaryPass(csp, d, a).1[n] <==> x in d[n] && AllSatisfied(UnaryConstraints(csp, n), a[n := x]))
    ensures !UnaryPass(csp, d, a).0 ==>
              exists n :: n in VariableNames(csp) && |UnaryConstraints(csp, n)| > 0 && UnaryPass(csp, d, a).1[n] == {}
  {
    var names, active, keep := VariableNames(csp), UnaryActive(csp), UnaryKeep(csp, a);
    SweepShape(names, d, active, keep);
    SweepOutcome(names, d, active, keep);
    forall n | n in names && active(n)
      ensures Kept(d[n], n, keep) != {} <==> exists x :: x in d[n] && AllSatisfied(UnaryConstraints(csp, n), a[n := x])
    {
      if x :| x in d[n] && AllSatisfied(UnaryConstraints(csp, n), a[n := x]) {
        assert x in Kept(d[n], n, keep);
      }
    }
  }

  /** `_enforce_unary_constraints(csp, domains, assignment)`, pruning `table` in place. */
  method EnforceUnary(csp: Csp, table: DomainTable, a: Assignment) returns (ok: bool)
    requires Covers(csp, table.doms)
    modifies table
    ensures (ok, table.doms) == UnaryPass(csp, old(table.doms), a)
  {
    var names := VariableNames(csp);
    ghost var active := UnaryActive(csp);
    var keep := UnaryKeep(csp, a);
    for i := 0 to |names|
      invariant forall n :: n in names ==> n in table.doms
      invariant Sweep(names[i..], table.doms, active, keep) == UnaryPass(csp, old(table.doms), a)
    {
      assert names[i..][1..] == names[i + 1..];
      var v := names[i];
      var unary := UnaryConstraints(csp, v);
      if |unary| == 0 {
        continue;
      }
      var _ := PruneDomain(table, v, keep);
      if table.doms[v] == {} {
        return false;
      }
    }
    return true;
  }

  // ---------------------------------------------------------------------
  // Arc revision
  // ---------------------------------------------------------------------

  /** Value `w` of `xj` supports value `v` of `xi`: all of `cs` hold on the trial assignment. */
  predicate Supports(cs: seq<Constraint>, xi: Name, v: Value, xj: Name, w: Value, a: Assignment)
  {
    AllSatisfied(cs, a[xi := v][xj := w])
  }

  /** Some value of `dj` supports value `v` of `xi`. */
  predicate Supported(cs: seq<Constraint>, xi: Name, v: Value, xj: Name, dj: set<Value>, a: Assignment)
  {
    exists w :: w in dj && Supports(cs, xi, v, xj, w, a)
  }

  /** The values of `dom` for `xi` that some value of `dj` supports. */
  function SupportedValues(cs: seq<Constraint>, xi: Name, dom: set<Value>, xj: Name, dj: set<Value>, a: Assignment): set<Value>
  {
    set v | v in dom && Supported(cs, xi, v, xj, dj, a)
  }

  /** What `_revise` leaves in the domain of `xi`: the values supported by the domain of `xj`. */
  function Revised(csp: Csp, xi: Name, xj: Name, d: Domains, a: Assignment): set<Value>
    requires xi in d && xj in d
  {
    var cs := ConstraintsBetween(csp, xi, xj);
    if |cs| == 0 then d[xi] else SupportedValues(cs, xi, d[xi], xj, d[xj], a)
  }

  lemma UpdateTwice(d: Domains, n: Name, s: set<Value>, t: set<Value>)
    ensures d[n := s][n := t] == d[n := t]
  {
  }

  /** `_has_support`: look through the domain of `xj` for a value supporting `value` of `xi`. */
  method HasSupport(xi: Name, value: Value, xj: Name, table: DomainTable, a: Assignment, constraints: seq<Constraint>)
    returns (found: bool)
    requires xj in table.doms
    ensures found <==> Supported(constraints, xi, value, xj, table.doms[xj], a)
  {
    var todo := table.doms[xj];
    while todo != {}
      invariant todo <= table.doms[xj]
      invariant forall w :: w in table.doms[xj] - todo ==> !Supports(constraints, xi, value, xj, w, a)
      decreases |todo|
    {
      var w :| w in todo;
      var trial := a[xi := value][xj := w];
      if AllSatisfied(constraints, trial) {
        return true;
      }
      todo := todo - {w};
    }
    return false;
  }

  /** One step of `_revise`: drop `v` from the domain of `xi` when nothing in `xj` supports it. */
  method DropIfUnsupported(xi: Name, v: Value, xj: Name, table: DomainTable, a: Assignment, related: seq<Constraint>)
    returns (dropped: bool)
    requires xi in table.doms && xj in table.doms
    modifies table
    ensures dropped <==> !Supported(related, xi, v, xj, old(table.doms)[xj], a)
    ensures dropped ==> table.doms == old(table.doms)[xi := old(table.doms)[xi] - {v}]
    ensures !dropped ==> table.doms == old(table.doms)
  {
    var supported := HasSupport(xi, v, xj, table, a, related);
    dropped := !supported;
    if dropped {
      table.doms := table.doms[xi := table.doms[xi] - {v}];
    }
  }

  /** Set bookkeeping for one step of the `_revise` loop. */
  lemma DropStep(dom: set<Value>, todo: set<Value>, cur: set<Value>, gone: set<Value>, supported: set<Value>,
                 v: Value, dropped: bool, exact: bool)
    requires v in todo && todo <= cur && gone <= dom && cur == dom - gone
    requires exact ==> cur == supported * (dom - todo) + todo && (dropped <==> v !in supported)
    ensures var cur', gone' := (if dropped then cur - {v} else cur), (if dropped then gone + {v} else gone);
            && todo - {v} <= cur' && gone' <= dom && cur' == dom - gone'
            && (exact ==> cur' == supported * (dom - (todo - {v})) + (todo - {v}))
  {
  }

  /** The loop of `_revise`: drop, one by one, the values of `xi` that `related` leaves unsupported. */
  method DropUnsupported(xi: Name, xj: Name, table: DomainTable, a: Assignment, related: seq<Constraint>)
    returns (revised: bool)
    requires xi in table.doms && xj in table.doms
    modifies table
    ensures xi in table.doms && table.doms == old(table.doms)[xi := table.doms[xi]]
    ensures table.doms[xi] <= old(table.doms)[xi]
    ensures revised <==> table.doms[xi] != old(table.doms)[xi]
    ensures xi != xj ==> table.doms[xi] == SupportedValues(related, xi, old(table.doms)[xi], xj, old(table.doms)[xj], a)
  {
    revised := false;
    ghost var d0 := table.doms;
    var dom := table.doms[xi];
    assert d0[xi := dom] == d0;
    var todo := dom;
    ghost var cur, gone: set<Value> := dom, {};
    ghost var supported := SupportedValues(related, xi, dom, xj, d0[xj], a);
    while todo != {}
      invariant table.doms == d0[xi := cur]
      invariant todo <= cur && gone <= dom && cur == dom - gone
      invariant revised <==> gone != {}
      invariant xi != xj ==> cur == supported * (dom - todo) + todo
      decreases |todo|
    {
      var v :| v in todo;
      assert v in supported <==> Supported(related, xi, v, xj, d0[xj], a);
      var dropped := DropIfUnsupported(xi, v, xj, table, a, related);
      DropStep(dom, todo, cur, gone, supported, v, dropped, xi != xj);
      if dropped {
        UpdateTwice(d0, xi, cur, cur - {v});
        cur, gone := cur - {v}, gone + {v};
        revised := true;
      }
      todo := todo - {v};
    }
    assert supported * (dom - todo) == supported;
    if revised {
      ghost var u :| u in gone;
      assert u !in cur;
    }
  }

  /**
   * `_revise(csp, xi, xj, domains, assignment)`: drop from the domain of `xi`
   * the values no value of `xj` supports; report whether any was dropped.
   * Only the entry of `xi` changes, and only by losing values.
   */
  method Revise(csp: Csp, xi: Name, xj: Name, table: DomainTable, a: Assignment) returns (revised: bool)
    requires xi in table.doms && xj in table.doms
    modifies table
    ensures xi in table.doms && table.doms == old(table.doms)[xi := table.doms[xi]]
    ensures table.doms[xi] <= old(table.doms)[xi]
    ensures revised <==> table.doms[xi] != old(table.doms)[xi]
    ensures xi != xj ==> table.doms[xi] == Revised(csp, xi, xj, old(table.doms), a)
  {
    var related := ConstraintsBetween(csp, xi, xj);
    if |related| == 0 {
      assert table.doms[xi := table.doms[xi]] == table.doms;
      return false;
    }
    revised := DropUnsupported(xi, xj, table, a, related);
  }

  /** Revision never drops a value that some value of `xj` supports. */
  lemma ReviseKeepsSupported(csp: Csp, xi: Name, xj: Name, d: Domains, a: Assignment, v: Value)
    requires xi in d && xj in d
    requires v in d[xi] && Supported(ConstraintsBetween(csp, xi, xj), xi, v, xj, d[xj], a)
    ensures v in Revised(csp, xi, xj, d, a)
  {
  }

  // ---------------------------------------------------------------------
  // AC-3
  // ---------------------------------------------------------------------

  /** An arc of the queue: a declared variable and one of its neighbours. */
  predicate IsArc(csp: Csp, x: Name, y: Name)
  {
    x in VariableNames(csp) && y in Neighbors(csp, x)
  }

  ghost predicate HasArcs(csp: Csp)
  {
    exists x, y :: IsArc(csp, x, y)
  }

  /** Every value of `x` has a supporting value of `y`. */
  predicate ArcConsistentAt(csp: Csp, x: Name, y: Name, d: Domains, a: Assignment)
    requires x in d && y in d
  {
    forall v :: v in d[x] ==> Supported(ConstraintsBetween(csp, x, y), x, v, y, d[y], a)
  }

  ghost predicate ArcConsistent(csp: Csp, d: Domains, a: Assignment)
  {
    forall x, y :: IsArc(csp, x, y) ==> x in d && y in d && ArcConsistentAt(csp, x, y, d, a)
  }

  /** Domains AC-3 leaves untouched: unary pruning removes nothing and every arc is consistent. */
  ghost predicate Stable(csp: Csp, d: Domains, a: Assignment)
  {
    Covers(csp, d) && UnaryPass(csp, d, a) == (true, d) && ArcConsistent(csp, d, a)
  }

  /** `e` has the same variables as `d` and no more values. */
  predicate SubState(e: Domains, d: Domains)
  {
    e.Keys == d.Keys && forall n :: n in d ==> e[n] <= d[n]
  }

  /** No domain of `e` is empty unless it already was in `d`. */
  predicate NoNewWipeout(e: Domains, d: Domains)
  {
    forall n :: n in e && n in d && e[n] == {} ==> d[n] == {}
  }

  /**
   * Some stable sub-state of `d` empties no domain that `d` leaves
   * non-empty: exactly the inputs on which AC-3 succeeds.
   */
  ghost predicate HasStableCore(csp: Csp, d: Domains, a: Assignment)
  {
    exists e :: SubState(e, d) && Stable(csp, e, a) && NoNewWipeout(e, d)
  }

  /** The number of values left, summed over `ns`. */
  function TotalSize(d: Domains, ns: seq<Name>): nat
    requires forall n :: n in ns ==> n in d
  {
    if ns == [] then 0 else |d[ns[0]]| + TotalSize(d, ns[1..])
  }

  lemma SubsetCard(s: set<Value>, t: set<Value>)
    requires s <= t
    ensures |s| <= |t|
    ensures s != t ==> |s| < |t|
  {
    if s != t {
      assert !(t <= s);
      var x :| x in t && x !in s;
      assert s <= t - {x};
      SubsetCard(s, t - {x});
    }
  }

  /** Shrinking domains never raises the total, and strictly shrinking one of `ns` lowers it. */
  lemma {:induction false} TotalSizeShrinks(d: Domains, e: Domains, ns: seq<Name>)
    requires forall n :: n in ns ==> n in d && n in e && e[n] <= d[n]
    ensures TotalSize(e, ns) <= TotalSize(d, ns)
    ensures (exists n :: n in ns && e[n] != d[n]) ==> TotalSize(e, ns) < TotalSize(d, ns)
  {
    if ns != [] {
      SubsetCard(e[ns[0]], d[ns[0]]);
      TotalSizeShrinks(d, e, ns[1..]);
      assert forall n :: n in ns && n != ns[0] ==> n in ns[1..];
    }
  }

  lemma ArcsAreLinked(csp: Csp, x: Name, y: Name)
    requires IsArc(csp, x, y)
    ensures x != y && y in VariableNames(csp) && |ConstraintsBetween(csp, x, y)| > 0
  {
    var i :| 0 <= i < |csp.constraints| && Links(csp.constraints[i], x, y);
  }

  lemma ArcsReverse(csp: Csp, x: Name, y: Name)
    requires IsArc(csp, x, y)
    ensures IsArc(csp, y, x)
  {
    NeighborsSymmetric(csp, x, y);
  }

  /** Support is symmetric: the constraints between two variables are the same either way round. */
  lemma SupportsSymmetric(csp: Csp, x: Name, v: Value, y: Name, w: Value, a: Assignment)
    requires x != y
    ensures Supports(ConstraintsBetween(csp, x, y), x, v, y, w, a) <==> Supports(ConstraintsBetween(csp, y, x), y, w, x, v, a)
  {
    var t := a[x := v][y := w];
    assert a[y := w][x := v] == t;
    assert SatisfiedWhereLinked(csp.constraints, x, y, t) <==> SatisfiedWhereLinked(csp.constraints, y, x, t);
  }

  /** After revising `xi` against `xj`, that arc is consistent. */
  lemma RevisedConsistent(csp: Csp, d: Domains, a: Assignment, xi: Name, xj: Name)
    requires Covers(csp, d) && IsArc(csp, xi, xj)
    ensures ArcConsistentAt(csp, xi, xj, d[xi := Revised(csp, xi, xj, d, a)], a)
  {
    ArcsAreLinked(csp, xi, xj);
  }

  /** Revising an arc that is already consistent removes nothing. */
  lemma RevisedWhenConsistent(csp: Csp, d: Domains, a: Assignment, xi: Name, xj: Name)
    requires xi in d && xj in d && ArcConsistentAt(csp, xi, xj, d, a)
    ensures Revised(csp, xi, xj, d, a) == d[xi]
  {
  }

  /**
   * Revising `xi` against `xj` keeps every other consistent arc consistent,
   * except arcs into `xi` from variables other than `xj` when `xi` lost values
   * (those go back on the queue).
   */
  lemma ArcAfterRevise(csp: Csp, d: Domains, a: Assignment, xi: Name, xj: Name, x: Name, y: Name)
    requires Covers(csp, d) && IsArc(csp, xi, xj) && IsArc(csp, x, y)
    requires ArcConsistentAt(csp, x, y, d, a)
    requires y == xi && Revised(csp, xi, xj, d, a) != d[xi] ==> x == xj
    ensures ArcConsistentAt(csp, x, y, d[xi := Revised(csp, xi, xj, d, a)], a)
  {
    ArcsAreLinked(csp, xi, xj);
    ArcsAreLinked(csp, x, y);
    var r := Revised(csp, xi, xj, d, a);
    var d' := d[xi := r];
    if y == xi && r != d[xi] {
      forall v | v in d'[x]
        ensures Supported(ConstraintsBetween(csp, x, y), x, v, y, d'[y], a)
      {
        var w :| w in d[xi] && Supports(ConstraintsBetween(csp, xj, xi), xj, v, xi, w, a);
        SupportsSymmetric(csp, xi, w, xj, v, a);
        assert w in r;
      }
    }
  }

  /** What AC-3 keeps true of its queue: it holds only arcs, and every arc not on it is consistent. */
  ghost predicate QueueInvariant(csp: Csp, d: Domains, a: Assignment, queue: seq<(Name, Name)>)
  {
    && (forall p :: p in queue ==> IsArc(csp, p.0, p.1))
    && (forall x, y :: IsArc(csp, x, y) && (x, y) !in queue ==> x in d && y in d && ArcConsistentAt(csp, x, y, d, a))
  }

  /**
   * The AC-3 queue invariant survives one step: after the head `(xi, xj)` is
   * popped and revised, and the arcs into `xi` from its other neighbours are
   * queued again if `xi` lost values, every arc off the queue is consistent.
   */
  lemma QueueInvariantStep(csp: Csp, d: Domains, a: Assignment, xi: Name, xj: Name,
                           rest: seq<(Name, Name)>, queue: seq<(Name, Name)>)
    requires Covers(csp, d) && QueueInvariant(csp, d, a, [(xi, xj)] + rest)
    requires forall p :: p in rest ==> p in queue
    requires forall p :: p in queue ==> p in rest || (p.1 == xi && p.0 in Neighbors(csp, xi))
    requires Revised(csp, xi, xj, d, a) != d[xi] ==>
               forall x :: x in Neighbors(csp, xi) && x != xj ==> (x, xi) in queue
    ensures QueueInvariant(csp, d[xi := Revised(csp, xi, xj, d, a)], a, queue)
  {
    assert (xi, xj) in [(xi, xj)] + rest;
    forall p | p in queue
      ensures IsArc(csp, p.0, p.1)
    {
      if p !in rest {
        ArcsReverse(csp, xi, p.0);
      }
    }
    forall x, y | IsArc(csp, x, y) && (x, y) !in queue
      ensures ArcConsistentAt(csp, x, y, d[xi := Revised(csp, xi, xj, d, a)], a)
    {
      if x == xi && y == xj {
        RevisedConsistent(csp, d, a, xi, xj);
      } else {
        assert (x, y) !in [(xi, xj)] + rest;
        if y == xi {
          ArcsReverse(csp, x, y);
        }
        ArcAfterRevise(csp, d, a, xi, xj, x, y);
      }
    }
  }

  /**
   * Revision never removes a value that belongs to an arc-consistent
   * sub-state: AC-3 keeps every such sub-state.
   */
  lemma ReviseKeepsSubStates(csp: Csp, d: Domains, a: Assignment, xi: Name, xj: Name, e: Domains)
    requires Covers(csp, d) && IsArc(csp, xi, xj)
    requires SubState(e, d) && ArcConsistent(csp, e, a)
    ensures SubState(e, d[xi := Revised(csp, xi, xj, d, a)])
  {
    ArcsAreLinked(csp, xi, xj);
    forall v | v in e[xi]
      ensures v in Revised(csp, xi, xj, d, a)
    {
      assert ArcConsistentAt(csp, xi, xj, e, a);
      var w :| w in e[xj] && Supports(ConstraintsBetween(csp, xi, xj), xi, v, xj, w, a);
      assert w in d[xj];
    }
  }

  /** Every arc-consistent sub-state of `d0` is a sub-state of `d`. */
  ghost predicate KeepsSubStates(csp: Csp, d0: Domains, d: Domains, a: Assignment)
  {
    forall e :: SubState(e, d0) && ArcConsistent(csp, e, a) ==> SubState(e, d)
  }

  /** Revising an arc shrinks the state, and lowers its total size when it changes anything. */
  lemma ReviseShrinks(csp: Csp, d: Domains, a: Assignment, xi: Name, xj: Name)
    requires Covers(csp, d) && xi in VariableNames(csp) && xj in d
    ensures SubState(d[xi := Revised(csp, xi, xj, d, a)], d)
    ensures d[xi := Revised(csp, xi, xj, d, a)] != d ==>
              TotalSize(d[xi := Revised(csp, xi, xj, d, a)], VariableNames(csp)) < TotalSize(d, VariableNames(csp))
  {
    var d' := d[xi := Revised(csp, xi, xj, d, a)];
    if d' != d {
      assert d'[xi] != d[xi];
    }
    TotalSizeShrinks(d, d', VariableNames(csp));
  }

  /** Revising an arc keeps every arc-consistent sub-state of the state it starts from. */
  lemma ReviseKeepsAllSubStates(csp: Csp, d: Domains, a: Assignment, xi: Name, xj: Name)
    requires Covers(csp, d) && IsArc(csp, xi, xj)
    ensures KeepsSubStates(csp, d, d[xi := Revised(csp, xi, xj, d, a)], a)
  {
    forall e | SubState(e, d) && ArcConsistent(csp, e, a)
      ensures SubState(e, d[xi := Revised(csp, xi, xj, d, a)])
    {
      ReviseKeepsSubStates(csp, d, a, xi, xj, e);
    }
  }

  /** A stable sub-state lies inside what unary pruning leaves. */
  lemma StableBelowUnary(csp: Csp, d: Domains, e: Domains, a: Assignment)
    requires Covers(csp, d) && SubState(e, d) && Stable(csp, e, a) && UnaryPass(csp, d, a).0
    ensures SubState(e, UnaryPass(csp, d, a).1)
  {
    var names, active, keep := VariableNames(csp), UnaryActive(csp), UnaryKeep(csp, a);
    SweepShape(names, d, active, keep);
    SweepOutcome(names, d, active, keep);
    SweepOutcome(names, e, active, keep);
  }

  /** Domains inside the unary-pruned ones, non-empty where pruning left values, and arc consistent are stable. */
  lemma PrunedStable(csp: Csp, d: Domains, e: Domains, a: Assignment)
    requires Covers(csp, d) && UnaryPass(csp, d, a).0
    requires SubState(e, UnaryPass(csp, d, a).1)
    requires forall n :: n in e && e[n] == {} ==> UnaryPass(csp, d, a).1[n] == {}
    requires ArcConsistent(csp, e, a)
    ensures Stable(csp, e, a)
  {
    var names, active, keep := VariableNames(csp), UnaryActive(csp), UnaryKeep(csp, a);
    SweepOutcome(names, d, active, keep);
    KeptIdempotent({}, "", keep);
    forall n | n in names && active(n)
      ensures e[n] != {} && Kept(e[n], n, keep) == e[n]
    {
      assert Kept(d[n], n, keep) != {};
    }
    SweepFixed(names, e, active, keep);
  }

  /** Unary pruning that succeeds empties no domain that had values. */
  lemma UnaryNoWipeout(csp: Csp, d: Domains, a: Assignment)
    requires Covers(csp, d) && UnaryPass(csp, d, a).0
    ensures NoNewWipeout(UnaryPass(csp, d, a).1, d)
  {
    var names, active, keep := VariableNames(csp), UnaryActive(csp), UnaryKeep(csp, a);
    SweepShape(names, d, active, keep);
    SweepOutcome(names, d, active, keep);
  }

  /** When unary pruning fails on `d`, no sub-state of `d` is stable, so none is a stable core. */
  lemma UnaryFailNoStable(csp: Csp, d: Domains, a: Assignment)
    requires Covers(csp, d) && !UnaryPass(csp, d, a).0
    ensures forall e :: SubState(e, d) ==> !Stable(csp, e, a)
    ensures !HasStableCore(csp, d, a)
  {
    var names, active, keep := VariableNames(csp), UnaryActive(csp), UnaryKeep(csp, a);
    SweepOutcome(names, d, active, keep);
    var n :| n in names && active(n) && Kept(d[n], n, keep) == {};
    forall e | SubState(e, d)
      ensures !Stable(csp, e, a)
    {
      SweepOutcome(names, e, active, keep);
      assert Kept(e[n], n, keep) <= Kept(d[n], n, keep);
    }
  }

  /** Unary pruning that succeeds keeps exactly the stable cores: `d` has one exactly when the pruned domains do. */
  lemma CoreAfterUnary(csp: Csp, d: Domains, a: Assignment)
    requires Covers(csp, d) && UnaryPass(csp, d, a).0
    ensures HasStableCore(csp, UnaryPass(csp, d, a).1, a) <==> HasStableCore(csp, d, a)
  {
    var u := UnaryPass(csp, d, a).1;
    UnaryPassMeaning(csp, d, a);
    UnaryNoWipeout(csp, d, a);
    if HasStableCore(csp, u, a) {
      var e :| SubState(e, u) && Stable(csp, e, a) && NoNewWipeout(e, u);
      assert SubState(e, d) && NoNewWipeout(e, d);
    }
    if HasStableCore(csp, d, a) {
      var e :| SubState(e, d) && Stable(csp, e, a) && NoNewWipeout(e, d);
      StableBelowUnary(csp, d, e, a);
      assert SubState(e, u) && NoNewWipeout(e, u);
    }
  }

  /**
   * What the queue loop of `_ac3` leaves, read against the domains before
   * unary pruning: success yields stable domains with no new wipe-out,
   * either way every stable sub-state survives, and success happens
   * exactly when a stable core exists.
   */
  lemma AC3Outcome(csp: Csp, d: Domains, f: Domains, a: Assignment, ok: bool)
    requires Covers(csp, d) && UnaryPass(csp, d, a).0
    requires SubState(f, UnaryPass(csp, d, a).1) && KeepsSubStates(csp, UnaryPass(csp, d, a).1, f, a)
    requires ok ==> ArcConsistent(csp, f, a) && NoNewWipeout(f, UnaryPass(csp, d, a).1)
    requires !ok ==> exists n :: n in VariableNames(csp) && f[n] == {} && UnaryPass(csp, d, a).1[n] != {}
    ensures SubState(f, d)
    ensures ok ==> Stable(csp, f, a) && NoNewWipeout(f, d)
    ensures forall e :: SubState(e, d) && Stable(csp, e, a) ==> SubState(e, f)
    ensures ok <==> HasStableCore(csp, d, a)
  {
    var u := UnaryPass(csp, d, a).1;
    UnaryPassMeaning(csp, d, a);
    UnaryNoWipeout(csp, d, a);
    forall e | SubState(e, d) && Stable(csp, e, a)
      ensures SubState(e, f)
    {
      StableBelowUnary(csp, d, e, a);
    }
    if ok {
      PrunedStable(csp, d, f, a);
      assert SubState(f, d) && Stable(csp, f, a) && NoNewWipeout(f, d);
    } else {
      var n :| n in VariableNames(csp) && f[n] == {} && u[n] != {};
      forall e | SubState(e, d) && Stable(csp, e, a)
        ensures !NoNewWipeout(e, d)
      {
        assert e[n] <= f[n] && u[n] <= d[n];
      }
    }
  }

  /** Append the arcs from `x` to each of `ys`, in order. */
  method PushArcs(queue: seq<(Name, Name)>, x: Name, ys: seq<Name>) returns (q: seq<(Name, Name)>)
    ensures forall p :: p in q <==> p in queue || (p.0 == x && p.1 in ys)
  {
    q := queue;
    for j := 0 to |ys|
      invariant forall p :: p in q <==> p in queue || (p.0 == x && p.1 in ys[..j])
    {
      assert ys[..j + 1] == ys[..j] + [ys[j]];
      q := q + [(x, ys[j])];
    }
    assert ys[..|ys|] == ys;
  }

  /** Queue `(x, xi)` for every `x` of `xs` other than `xj`, in order. */
  method Requeue(queue: seq<(Name, Name)>, xs: seq<Name>, xi: Name, xj: Name) returns (q: seq<(Name, Name)>)
    ensures forall p :: p in q <==> p in queue || (p.0 in xs && p.0 != xj && p.1 == xi)
  {
    q := queue;
    for k := 0 to |xs|
      invariant forall p :: p in q <==> p in queue || (p.0 in xs[..k] && p.0 != xj && p.1 == xi)
    {
      assert xs[..k + 1] == xs[..k] + [xs[k]];
      if xs[k] != xj {
        q := q + [(xs[k], xi)];
      }
    }
    assert xs[..|xs|] == xs;
  }

  /** Every arc of the problem, grouped by variable in declaration order (the initial AC-3 queue). */
  method InitialArcs(csp: Csp) returns (queue: seq<(Name, Name)>)
    ensures forall p :: p in queue ==> IsArc(csp, p.0, p.1)
    ensures forall x, y :: IsArc(csp, x, y) ==> (x, y) in queue
  {
    var names := VariableNames(csp);
    queue := [];
    for i := 0 to |names|
      invariant forall p :: p in queue ==> IsArc(csp, p.0, p.1)
      invariant forall x, y :: IsArc(csp, x, y) && x in names[..i] ==> (x, y) in queue
    {
      assert names[..i + 1] == names[..i] + [names[i]];
      queue := PushArcs(queue, names[i], Neighbors(csp, names[i]));
    }
    assert names[..|names|] == names;
  }

  /** Keeping every arc-consistent sub-state carries over from one round of AC-3 to the next. */
  lemma KeepsSubStatesTransitive(csp: Csp, d0: Domains, d1: Domains, d2: Domains, a: Assignment)
    requires KeepsSubStates(csp, d0, d1, a) && KeepsSubStates(csp, d1, d2, a)
    ensures KeepsSubStates(csp, d0, d2, a)
  {
  }

  /**
   * One round of the AC-3 loop: pop the first arc, revise it, and on a
   * change either stop on a wiped-out domain or queue the arcs into `xi`.
   */
  method ProcessArc(csp: Csp, table: DomainTable, a: Assignment, queue: seq<(Name, Name)>)
    returns (ok: bool, changed: bool, rest: seq<(Name, Name)>)
    requires Covers(csp, table.doms) && queue != [] && QueueInvariant(csp, table.doms, a, queue)
    modifies table
    ensures SubState(table.doms, old(table.doms))
    ensures changed <==> table.doms != old(table.doms)
    ensures changed ==> TotalSize(table.doms, VariableNames(csp)) < TotalSize(old(table.doms), VariableNames(csp))
    ensures !changed ==> |rest| < |queue|
    ensures ok ==> QueueInvariant(csp, table.doms, a, rest)
    ensures ok ==> NoNewWipeout(table.doms, old(table.doms))
    ensures !ok ==> changed && exists n :: n in VariableNames(csp) && table.doms[n] == {} && old(table.doms)[n] != {}
    ensures KeepsSubStates(csp, old(table.doms), table.doms, a)
    ensures ArcConsistent(csp, old(table.doms), a) ==> !changed
  {
    var names := VariableNames(csp);
    var xi, xj := queue[0].0, queue[0].1;
    assert queue[0] in queue && queue == [(xi, xj)] + queue[1..];
    ArcsAreLinked(csp, xi, xj);
    rest := queue[1..];
    changed := Revise(csp, xi, xj, table, a);
    ghost var before := old(table.doms);
    assert table.doms == before[xi := Revised(csp, xi, xj, before, a)];
    ReviseShrinks(csp, before, a, xi, xj);
    ReviseKeepsAllSubStates(csp, before, a, xi, xj);
    if ArcConsistent(csp, before, a) {
      RevisedWhenConsistent(csp, before, a, xi, xj);
    }
    ok := true;
    if changed {
      assert xi in names && table.doms[xi] != before[xi];
      if table.doms[xi] == {} {
        return false, changed, rest;
      }
      rest := Requeue(rest, Neighbors(csp, xi), xi, xj);
    } else {
      assert table.doms == before;
    }
    QueueInvariantStep(csp, before, a, xi, xj, queue[1..], rest);
  }

  /**
   * The AC-3 work loop over an explicit queue of arcs, taken from the front
   * and appended at the back; `processed` counts the arcs taken from the
   * queue and `affected` the revisions that removed something. It stops
   * as soon as a revision empties a domain.
   */
  method Propagate(csp: Csp, table: DomainTable, a: Assignment, queue0: seq<(Name, Name)>)
    returns (ok: bool, processed: nat, affected: nat)
    requires Covers(csp, table.doms) && QueueInvariant(csp, table.doms, a, queue0)
    modifies table
    ensures SubState(table.doms, old(table.doms))
    ensures ok ==> ArcConsistent(csp, table.doms, a)
    ensures ok ==> NoNewWipeout(table.doms, old(table.doms))
    ensures !ok ==> exists n :: n in VariableNames(csp) && table.doms[n] == {} && old(table.doms)[n] != {}
    ensures KeepsSubStates(csp, old(table.doms), table.doms, a)
    ensures ArcConsistent(csp, old(table.doms), a) ==> ok && table.doms == old(table.doms)
    ensures processed > 0 <==> queue0 != []
    ensures affected <= processed
    ensures affected == 0 <==> table.doms == old(table.doms)
  {
    var queue := queue0;
    processed, affected := 0, 0;
    while queue != []
      invariant SubState(table.doms, old(table.doms))
      invariant NoNewWipeout(table.doms, old(table.doms))
      invariant QueueInvariant(csp, table.doms, a, queue)
      invariant queue0 != [] <==> processed > 0 || queue != []
      invariant KeepsSubStates(csp, old(table.doms), table.doms, a)
      invariant ArcConsistent(csp, old(table.doms), a) ==> table.doms == old(table.doms)
      invariant affected <= processed
      invariant affected == 0 ==> table.doms == old(table.doms)
      invariant affected > 0 ==> TotalSize(table.doms, VariableNames(csp)) < TotalSize(old(table.doms), VariableNames(csp))
      decreases TotalSize(table.doms, VariableNames(csp)), |queue|
    {
      ghost var before := table.doms;
      var step, changed;
      step, changed, queue := ProcessArc(csp, table, a, queue);
      processed := processed + 1;
      KeepsSubStatesTransitive(csp, old(table.doms), before, table.doms, a);
      if changed {
        affected := affected + 1;
      }
      if !step {
        return false, processed, affected;
      }
    }
    ok := true;
  }

  /**
   * `_ac3(csp, domains, assignment, tracer)`: unary pruning, then revise
   * arcs from a queue until none is left or a domain empties. Domains only
   * shrink and keep every stable sub-state of the input. It succeeds
   * exactly when the input has a stable core, and then leaves stable
   * domains without a newly emptied one; a failure names a domain that
   * unary pruning left non-empty and revision emptied, unless unary pruning
   * itself failed. One `ac3` step is logged exactly when it succeeds on a
   * problem with at least one arc.
   */
  method AC3(csp: Csp, table: DomainTable, a: Assignment, tracer: Tracer) returns (ok: bool)
    requires Covers(csp, table.doms)
    requires tracer.Valid()
    modifies table, tracer
    ensures SubState(table.doms, old(table.doms))
    ensures ok ==> Stable(csp, table.doms, a) && NoNewWipeout(table.doms, old(table.doms))
    ensures forall e :: SubState(e, old(table.doms)) && Stable(csp, e, a) ==> SubState(e, table.doms)
    ensures ok <==> HasStableCore(csp, old(table.doms), a)
    ensures !ok ==> (!UnaryPass(csp, old(table.doms), a).0 ||
                     exists n :: n in VariableNames(csp) && table.doms[n] == {} && UnaryPass(csp, old(table.doms), a).1[n] != {})
    ensures Stable(csp, old(table.doms), a) ==> ok && table.doms == old(table.doms)
    ensures tracer.Valid()
    ensures ok && HasArcs(csp) ==> tracer.Appended("ac3")
    ensures !(ok && HasArcs(csp)) ==> tracer.Unchanged()
  {
    ok := EnforceUnary(csp, table, a);
    UnaryPassMeaning(csp, old(table.doms), a);
    if !ok {
      UnaryFailNoStable(csp, old(table.doms), a);
      return;
    }
    var queue := InitialArcs(csp);
    assert QueueInvariant(csp, table.doms, a, queue);
    if HasArcs(csp) {
      ghost var x, y :| IsArc(csp, x, y);
      assert (x, y) in queue;
    }
    if queue != [] {
      assert queue[0] in queue;
    }
    var processed, affected;
    ok, processed, affected := Propagate(csp, table, a, queue);
    AC3Outcome(csp, old(table.doms), table.doms, a, ok);
    if ok && processed > 0 {
      tracer.LogAc3Run(affected, processed);
    }
  }

  // ---------------------------------------------------------------------
  // Forward checking
  // ---------------------------------------------------------------------

  /** The neighbours `_forward_check` prunes: those sharing a constraint with `variable`. */
  function FcActive(csp: Csp, variable: Name): Name -> bool
  {
    nb => |ConstraintsBetween(csp, variable, nb)| > 0
  }

  /** `x` for `nb` agrees with `variable = value` on every constraint between the two. */
  function FcKeep(csp: Csp, variable: Name, value: Value, a: Assignment): (Name, Value) -> bool
  {
    (nb, x) => AllSatisfied(ConstraintsBetween(csp, variable, nb), a[nb := x][variable := value])
  }

  /**
   * What `_forward_check` computes after `variable` has been assigned in
   * `a`: unary pruning, then a sweep over the neighbours of `variable`.
   */
  function ForwardPass(csp: Csp, variable: Name, d: Domains, a: Assignment): (bool, Domains)
    requires Covers(csp, d) && variable in a
  {
    var u := UnaryPass(csp, d, a);
    if !u.0 then u
    else Sweep(Neighbors(csp, variable), u.1, FcActive(csp, variable), FcKeep(csp, variable, a[variable], a))
  }

  /**
   * Forward checking only shrinks domains: unary pruning first, then the
   * neighbours of `variable`; every other domain is as unary pruning left it.
   */
  lemma ForwardPassShape(csp: Csp, variable: Name, d: Domains, a: Assignment)
    requires Covers(csp, d) && variable in a
    ensures ForwardPass(csp, variable, d, a).1.Keys == d.Keys
    ensures forall n :: n in d ==> ForwardPass(csp, variable, d, a).1[n] <= UnaryPass(csp, d, a).1[n] <= d[n]
    ensures forall n :: n in d && n !in Neighbors(csp, variable) ==>
              ForwardPass(csp, variable, d, a).1[n] == UnaryPass(csp, d, a).1[n]
  {
    UnaryPassMeaning(csp, d, a);
    var u := UnaryPass(csp, d, a);
    if u.0 {
      SweepShape(Neighbors(csp, variable), u.1, FcActive(csp, variable), FcKeep(csp, variable, a[variable], a));
    }
  }

  /**
   * After a successful forward check, a neighbour keeps exactly the values
   * (left by unary pruning) that agree with `variable = a[variable]` on
   * every constraint between the two.
   */
  lemma ForwardPassKeeps(csp: Csp, variable: Name, d: Domains, a: Assignment)
    requires Covers(csp, d) && variable in a
    ensures ForwardPass(csp, variable, d, a).0 ==>
              forall n, x :: n in Neighbors(csp, variable) ==>
                (x in ForwardPass(csp, variable, d, a).1[n] <==>
                   x in UnaryPass(csp, d, a).1[n] &&
                   AllSatisfied(ConstraintsBetween(csp, variable, n), a[n := x][variable := a[variable]]))
  {
    var u, r := UnaryPass(csp, d, a), ForwardPass(csp, variable, d, a);
    if r.0 {
      var nbs, active, keep := Neighbors(csp, variable), FcActive(csp, variable), FcKeep(csp, variable, a[variable], a);
      assert r == Sweep(nbs, u.1, active, keep);
      SweepShape(nbs, u.1, active, keep);
      SweepOutcome(nbs, u.1, active, keep);
      forall n, x | n in nbs
        ensures x in r.1[n] <==> x in u.1[n] && keep(n, x)
      {
        assert r.1[n] == Kept(u.1[n], n, keep);
      }
    }
  }

  /**
   * Forward checking succeeds exactly when unary pruning does and every
   * neighbour of `variable` keeps a value; success empties no domain that
   * had values, and a failure leaves some variable without values.
   */
  lemma ForwardPassVerdict(csp: Csp, variable: Name, d: Domains, a: Assignment)
    requires Covers(csp, d) && variable in a
    ensures ForwardPass(csp, variable, d, a).1.Keys == d.Keys
    ensures ForwardPass(csp, variable, d, a).0 <==>
              UnaryPass(csp, d, a).0 &&
              forall n :: n in Neighbors(csp, variable) ==> ForwardPass(csp, variable, d, a).1[n] != {}
    ensures ForwardPass(csp, variable, d, a).0 ==> NoNewWipeout(ForwardPass(csp, variable, d, a).1, d)
    ensures !ForwardPass(csp, variable, d, a).0 ==>
              exists n :: n in VariableNames(csp) && ForwardPass(csp, variable, d, a).1[n] == {}
  {
    var u := UnaryPass(csp, d, a);
    UnaryPassMeaning(csp, d, a);
    ForwardPassShape(csp, variable, d, a);
    if u.0 {
      var nbs, active, keep := Neighbors(csp, variable), FcActive(csp, variable), FcKeep(csp, variable, a[variable], a);
      SweepOutcome(nbs, u.1, active, keep);
      forall n | n in nbs
        ensures active(n)
      {
        var i :| 0 <= i < |csp.constraints| && Links(csp.constraints[i], variable, n);
      }
      UnaryNoWipeout(csp, d, a);
    }
  }

  /**
   * The neighbour loop of `_forward_check`: prune each active variable of
   * `vs` in turn, stopping at the first emptied domain; `pruned` counts the
   * values removed.
   */
  method PruneNeighbors(table: DomainTable, vs: seq<Name>, active: Name -> bool, keep: (Name, Value) -> bool)
    returns (ok: bool, pruned: nat)
    requires forall n :: n in vs ==> n in table.doms
    modifies table
    ensures (ok, table.doms) == Sweep(vs, old(table.doms), active, keep)
    ensures pruned == 0 <==> table.doms == old(table.doms)
  {
    pruned := 0;
    for i := 0 to |vs|
      invariant table.doms.Keys == old(table.doms).Keys
      invariant Sweep(vs[i..], table.doms, active, keep) == Sweep(vs, old(table.doms), active, keep)
      invariant SubState(table.doms, old(table.doms))
      invariant pruned == 0 <==> table.doms == old(table.doms)
    {
      assert vs[i..][1..] == vs[i + 1..];
      var nb := vs[i];
      if !active(nb) {
        continue;
      }
      ghost var before := table.doms;
      var removed := PruneDomain(table, nb, keep);
      SubsetCard(table.doms[nb], before[nb]);
      if removed > 0 {
        assert nb in old(table.doms) && before[nb] <= old(table.doms)[nb];
        SubsetCard(before[nb], old(table.doms)[nb]);
        assert table.doms[nb] != old(table.doms)[nb];
      } else {
        assert table.doms == before;
      }
      pruned := pruned + removed;
      if table.doms[nb] == {} {
        return false, pruned;
      }
    }
    ok := true;
  }

  /**
   * `_forward_check(csp, variable, assignment, domains, tracer)`, pruning
   * `table` in place; one `forward_check` step is logged exactly when it
   * succeeds after removing some neighbour value.
   */
  method ForwardCheck(csp: Csp, variable: Name, table: DomainTable, a: Assignment, tracer: Tracer) returns (ok: bool)
    requires Covers(csp, table.doms) && variable in a && tracer.Valid()
    modifies table, tracer
    ensures (ok, table.doms) == ForwardPass(csp, variable, old(table.doms), a)
    ensures tracer.Valid()
    ensures ok && table.doms != UnaryPass(csp, old(table.doms), a).1 ==> tracer.Appended("forward_check")
    ensures !(ok && table.doms != UnaryPass(csp, old(table.doms), a).1) ==> tracer.Unchanged()
  {
    ok := EnforceUnary(csp, table, a);
    if !ok {
      return;
    }
    var pruned;
    ok, pruned := PruneNeighbors(table, Neighbors(csp, variable), FcActive(csp, variable), FcKeep(csp, variable, a[variable], a));
    if ok && pruned > 0 {
      tracer.LogForwardCheck(variable, pruned);
    }
  }
}
