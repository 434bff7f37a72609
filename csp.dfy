/**
 * The constraint-satisfaction problem the solver works on: named variables
 * with finite domains, and constraints that each have a scope and a
 * predicate over partial assignments. Neighbours and the constraints
 * between two variables are derived from the scopes.
 */
module CspModel {

  type Name = string
  type Value = string

  /** A partial assignment, variable name to value. */
  type Assignment = map<Name, Value>

  /** Current candidate values of each variable. */
  type Domains = map<Name, set<Value>>

  /**
   * A constraint: the two kinds the test suites build through
   * `Constraint.all_diff` and `Constraint.equals`, and an arbitrary
   * predicate with its own scope.
   */
  datatype Constraint =
    | AllDiff(vars: seq<Name>)
    | EqualsValue(variable: Name, target: Value)
    | Custom(description: string, scope: seq<Name>, holds: Assignment -> bool)

  function Scope(c: Constraint): seq<Name>
  {
    match c
    case AllDiff(vars) => vars
    case EqualsValue(v, _) => [v]
    case Custom(_, scope, _) => scope
  }

  /** `Constraint.is_satisfied(assignment)`; unassigned scope variables are not judged. */
  predicate IsSatisfied(c: Constraint, a: Assignment)
  {
    match c
    case AllDiff(vars) =>
      forall i, j :: 0 <= i < |vars| && 0 <= j < |vars| && vars[i] != vars[j] && vars[i] in a && vars[j] in a
        ==> a[vars[i]] != a[vars[j]]
    case EqualsValue(v, x) => v in a ==> a[v] == x
    case Custom(_, _, holds) => holds(a)
  }

  /** `all(c.is_satisfied(a) for c in cs)` */
  predicate AllSatisfied(cs: seq<Constraint>, a: Assignment)
  {
    forall i :: 0 <= i < |cs| ==> IsSatisfied(cs[i], a)
  }

  /** The built-in kinds hold whenever none of their scope variables is assigned. */
  lemma BuiltinVacuous(c: Constraint, a: Assignment)
    requires !c.Custom?
    requires forall n :: n in Scope(c) ==> n !in a
    ensures IsSatisfied(c, a)
  {
  }

  /** `all_diff` holds exactly when no two assigned scope variables share a value. */
  lemma AllDiffMeaning(vars: seq<Name>, a: Assignment)
    ensures IsSatisfied(AllDiff(vars), a) <==>
              forall u, w :: u in vars && w in vars && u != w && u in a && w in a ==> a[u] != a[w]
  {
    if IsSatisfied(AllDiff(vars), a) {
      forall u, w | u in vars && w in vars && u != w && u in a && w in a
        ensures a[u] != a[w]
      {
        var i :| 0 <= i < |vars| && vars[i] == u;
        var j :| 0 <= j < |vars| && vars[j] == w;
      }
    }
  }

  datatype Variable = Variable(name: Name, domain: set<Value>)

  datatype Csp = Csp(variables: seq<Variable>, constraints: seq<Constraint>)

  function NamesOf(vars: seq<Variable>): (r: seq<Name>)
    ensures |r| == |vars|
    ensures forall i :: 0 <= i < |r| ==> r[i] == vars[i].name
  {
    if vars == [] then [] else NamesOf(vars[..|vars| - 1]) + [vars[|vars| - 1].name]
  }

  /** `csp.variable_names`, in declaration order. */
  function VariableNames(csp: Csp): seq<Name>
  {
    NamesOf(csp.variables)
  }

  /** Both `x` and `y` are in the scope of `c`. */
  predicate Links(c: Constraint, x: Name, y: Name)
  {
    x in Scope(c) && y in Scope(c)
  }

  /** Every constraint of `cs` that `keep` picks holds under `a`. */
  predicate SatisfiedWhere(cs: seq<Constraint>, keep: Constraint -> bool, a: Assignment)
  {
    forall i :: 0 <= i < |cs| && keep(cs[i]) ==> IsSatisfied(cs[i], a)
  }

  lemma AllSatisfiedCons(c: Constraint, rest: seq<Constraint>)
    ensures forall a :: AllSatisfied([c] + rest, a) <==> IsSatisfied(c, a) && AllSatisfied(rest, a)
  {
    forall a
      ensures AllSatisfied([c] + rest, a) <==> IsSatisfied(c, a) && AllSatisfied(rest, a)
    {
      var cs := [c] + rest;
      assert cs[0] == c;
      assert forall k :: 0 <= k < |rest| ==> cs[k + 1] == rest[k];
      if IsSatisfied(c, a) && AllSatisfied(rest, a) {
        forall k | 0 <= k < |cs|
          ensures IsSatisfied(cs[k], a)
        {
          if k > 0 {
            assert cs[k] == rest[k - 1];
          }
        }
      }
    }
  }

  lemma SatisfiedWhereCons(cs: seq<Constraint>, keep: Constraint -> bool)
    requires cs != []
    ensures forall a :: SatisfiedWhere(cs, keep, a) <==>
              (keep(cs[0]) ==> IsSatisfied(cs[0], a)) && SatisfiedWhere(cs[1..], keep, a)
  {
    forall a
      ensures SatisfiedWhere(cs, keep, a) <==>
                (keep(cs[0]) ==> IsSatisfied(cs[0], a)) && SatisfiedWhere(cs[1..], keep, a)
    {
      assert forall k :: 0 <= k < |cs| - 1 ==> cs[1..][k] == cs[k + 1];
      if (keep(cs[0]) ==> IsSatisfied(cs[0], a)) && SatisfiedWhere(cs[1..], keep, a) {
        forall i | 0 <= i < |cs| && keep(cs[i])
          ensures IsSatisfied(cs[i], a)
        {
          if i > 0 {
            assert cs[1..][i - 1] == cs[i];
          }
        }
      }
    }
  }

  /**
   * The constraints of `cs` that `keep` picks, in order (the list
   * comprehensions `[c for c in cs if ...]` of the model and the solver).
   */
  function Select(cs: seq<Constraint>, keep: Constraint -> bool): (r: seq<Constraint>)
    ensures |r| <= |cs|
    ensures forall k :: 0 <= k < |r| ==> keep(r[k])
    ensures |r| == 0 <==> forall i :: 0 <= i < |cs| ==> !keep(cs[i])
    ensures forall a :: AllSatisfied(r, a) <==> SatisfiedWhere(cs, keep, a)
  {
    if cs == [] then []
    else
      var rest := Select(cs[1..], keep);
      SatisfiedWhereCons(cs, keep);
      if keep(cs[0]) then
        AllSatisfiedCons(cs[0], rest);
        [cs[0]] + rest
      else
        rest
  }

  /** Every constraint of `cs` linking `x` and `y` holds under `a`. */
  predicate SatisfiedWhereLinked(cs: seq<Constraint>, x: Name, y: Name, a: Assignment)
  {
    forall i :: 0 <= i < |cs| && Links(cs[i], x, y) ==> IsSatisfied(cs[i], a)
  }

  /** The constraints of `cs` whose scope holds both `x` and `y`, in order. */
  function Linking(cs: seq<Constraint>, x: Name, y: Name): (r: seq<Constraint>)
    ensures |r| <= |cs|
    ensures forall k :: 0 <= k < |r| ==> Links(r[k], x, y)
    ensures |r| == 0 <==> forall i :: 0 <= i < |cs| ==> !Links(cs[i], x, y)
    ensures forall a :: AllSatisfied(r, a) <==> SatisfiedWhereLinked(cs, x, y, a)
  {
    Select(cs, c => Links(c, x, y))
  }

  /** `csp.constraints_for(v)`: the constraints whose scope mentions `v`. */
  function ConstraintsFor(csp: Csp, v: Name): seq<Constraint>
  {
    Linking(csp.constraints, v, v)
  }

  /** `csp.constraints_between(x, y)`: the constraints whose scope mentions both. */
  function ConstraintsBetween(csp: Csp, x: Name, y: Name): seq<Constraint>
  {
    Linking(csp.constraints, x, y)
  }

  /** Some constraint of the problem mentions both `x` and `y`. */
  predicate Linked(csp: Csp, x: Name, y: Name)
  {
    exists i :: 0 <= i < |csp.constraints| && Links(csp.constraints[i], x, y)
  }

  function NeighborsAmong(names: seq<Name>, csp: Csp, v: Name): (r: seq<Name>)
    ensures forall w :: w in r <==> w in names && w != v && Linked(csp, v, w)
  {
    if names == [] then []
    else
      var rest := NeighborsAmong(names[1..], csp, v);
      if names[0] != v && |ConstraintsBetween(csp, v, names[0])| > 0 then [names[0]] + rest else rest
  }

  /**
   * `csp.neighbors[v]`: the other variables that share a constraint with
   * `v`, in declaration order.
   */
  function Neighbors(csp: Csp, v: Name): (r: seq<Name>)
    ensures forall w :: w in r <==> w in VariableNames(csp) && w != v && Linked(csp, v, w)
  {
    NeighborsAmong(VariableNames(csp), csp, v)
  }

  lemma LinkedSymmetric(csp: Csp, v: Name, w: Name)
    ensures Linked(csp, v, w) <==> Linked(csp, w, v)
  {
    if Linked(csp, v, w) {
      var i :| 0 <= i < |csp.constraints| && Links(csp.constraints[i], v, w);
      assert Links(csp.constraints[i], w, v);
    }
    if Linked(csp, w, v) {
      var i :| 0 <= i < |csp.constraints| && Links(csp.constraints[i], w, v);
      assert Links(csp.constraints[i], v, w);
    }
  }

  /** Being neighbours is symmetric between declared variables. */
  lemma NeighborsSymmetric(csp: Csp, v: Name, w: Name)
    requires v in VariableNames(csp) && w in VariableNames(csp)
    ensures w in Neighbors(csp, v) <==> v in Neighbors(csp, w)
  {
    LinkedSymmetric(csp, v, w);
  }

  /** `csp.is_consistent(a)`: every constraint holds under `a`. */
  predicate IsConsistent(csp: Csp, a: Assignment)
  {
    AllSatisfied(csp.constraints, a)
  }

  /** A complete, consistent assignment: exactly the declared variables, every constraint holding. */
  ghost predicate IsSolution(csp: Csp, a: Assignment)
  {
    (forall n :: n in a <==> n in VariableNames(csp)) && IsConsistent(csp, a)
  }

  /** Every declared variable has an entry in `d`. */
  predicate Covers(csp: Csp, d: Domains)
  {
    forall n :: n in VariableNames(csp) ==> n in d
  }

  /** `csp.copy_domains()`: each variable's declared domain; a later duplicate name wins. */
  function DeclaredDomains(vars: seq<Variable>): (d: Domains)
    ensures forall n :: n in d <==> n in NamesOf(vars)
  {
    if vars == [] then map[]
    else
      var init := vars[..|vars| - 1];
      assert NamesOf(vars) == NamesOf(init) + [vars[|vars| - 1].name];
      DeclaredDomains(init)[vars[|vars| - 1].name := vars[|vars| - 1].domain]
  }

  /** A variable's entry is its declared domain unless a later variable has the same name. */
  lemma {:induction false} DeclaredDomainOf(vars: seq<Variable>, i: nat)
    requires i < |vars|
    requires vars[i].name !in NamesOf(vars)[i + 1..]
    ensures DeclaredDomains(vars)[vars[i].name] == vars[i].domain
  {
    var init := vars[..|vars| - 1];
    if i < |vars| - 1 {
      assert vars[|vars| - 1].name == NamesOf(vars)[i + 1..][|vars| - 2 - i];
      assert init[i] == vars[i];
      assert NamesOf(init)[i + 1..] == NamesOf(vars)[i + 1..|vars| - 1];
      DeclaredDomainOf(init, i);
    }
  }

  /**
   * The mutable `dict` of domains the solver prunes in place. Each copy
   * (`csp.copy_domains(...)`) is a separate object.
   */
  class DomainTable {
    var doms: Domains

    /** `csp.copy_domains(d)`: a fresh table with the same contents. */
    constructor (d: Domains)
      ensures doms == d
    {
      doms := d;
    }
  }
}
