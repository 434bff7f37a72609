/**
 * The solver's step log: an append-only list of steps with a running step
 * counter, a summary of how many steps of each kind were logged, and the
 * process-wide tracer the solver picks up.
 */
module Trace {
  import opened Wrappers
  import opened Strings

  /** One logged step; fields a log call does not set stay `None`. */
  datatype TraceStep = TraceStep(
    stepNumber: int,
    actionType: string,
    variable: Option<string>,
    value: Option<string>,
    domainSize: Option<int>,
    assignmentSize: Option<int>,
    constraintChecked: Option<string>,
    isValid: Option<bool>,
    reason: Option<string>)

  function Blank(n: int, action: string): TraceStep
  {
    TraceStep(n, action, None, None, None, None, None, None, None)
  }

  function AssignStep(n: int, variable: string, value: string, domainSize: int, assignmentSize: int): TraceStep
  {
    Blank(n, "assign").(variable := Some(variable), value := Some(value),
                        domainSize := Some(domainSize), assignmentSize := Some(assignmentSize))
  }

  function BacktrackStep(n: int, variable: string, reason: string): TraceStep
  {
    Blank(n, "backtrack").(variable := Some(variable), reason := Some(reason))
  }

  function ConstraintCheckStep(n: int, description: string, isValid: bool, variable: Option<string>): TraceStep
  {
    Blank(n, "constraint_check").(constraintChecked := Some(description), isValid := Some(isValid), variable := variable)
  }

  function DomainReducedStep(n: int, variable: string, newDomainSize: int, reason: string): TraceStep
  {
    Blank(n, "domain_reduced").(variable := Some(variable), domainSize := Some(newDomainSize), reason := Some(reason))
  }

  function Ac3Step(n: int, variablesAffected: int, arcsProcessed: int): TraceStep
  {
    Blank(n, "ac3").(reason := Some("Affected " + IntToString(variablesAffected) + " vars, processed "
                                     + IntToString(arcsProcessed) + " arcs"))
  }

  function ForwardCheckStep(n: int, variable: string, domainsPruned: int): TraceStep
  {
    Blank(n, "forward_check").(variable := Some(variable),
                               reason := Some("Pruned " + IntToString(domainsPruned) + " values from other domains"))
  }

  function SolutionFoundStep(n: int, assignmentSize: int): TraceStep
  {
    Blank(n, "solution_found").(assignmentSize := Some(assignmentSize))
  }

  /** Number of steps tagged `tag`. */
  function CountTagged(steps: seq<TraceStep>, tag: string): nat
  {
    if steps == [] then 0
    else CountTagged(steps[..|steps| - 1], tag) + (if steps[|steps| - 1].actionType == tag then 1 else 0)
  }

  /** Per-tag counts in first-seen order, as Python's insertion-ordered `dict` keeps them. */
  type Counts = seq<(string, int)>

  predicate KeysDistinct(c: Counts)
  {
    forall i, j :: 0 <= i < j < |c| ==> c[i].0 != c[j].0
  }

  predicate HasKey(c: Counts, key: string)
  {
    exists i :: 0 <= i < |c| && c[i].0 == key
  }

  function SumCounts(c: Counts): int
  {
    if c == [] then 0 else SumCounts(c[..|c| - 1]) + c[|c| - 1].1
  }

  /** Position of `key` in `c`, or `|c|` when absent (Python's `dict.get` miss). */
  function KeyIndex(c: Counts, key: string): (k: nat)
    ensures k <= |c|
    ensures k < |c| ==> c[k].0 == key
    ensures k == |c| ==> !HasKey(c, key)
  {
    if c == [] then 0
    else if c[|c| - 1].0 == key then |c| - 1
    else
      var k := KeyIndex(c[..|c| - 1], key);
      if k < |c| - 1 then k else |c|
  }

  lemma {:induction false} SumCountsBump(c: Counts, k: nat)
    requires k < |c|
    ensures SumCounts(c[k := (c[k].0, c[k].1 + 1)]) == SumCounts(c) + 1
    decreases |c|
  {
    var c' := c[k := (c[k].0, c[k].1 + 1)];
    if k == |c| - 1 {
      assert c'[..|c'| - 1] == c[..|c| - 1];
    } else {
      var p := c[..|c| - 1];
      SumCountsBump(p, k);
      assert c'[..|c'| - 1] == p[k := (p[k].0, p[k].1 + 1)];
    }
  }

  /** `c` holds exactly the per-tag counts of `s`, and they add up to `|s|`. */
  ghost predicate Tallies(c: Counts, s: seq<TraceStep>)
  {
    && KeysDistinct(c)
    && (forall k :: 0 <= k < |c| ==> c[k].1 == CountTagged(s, c[k].0) && c[k].1 > 0)
    && (forall t :: !HasKey(c, t) ==> CountTagged(s, t) == 0)
    && (forall j :: 0 <= j < |s| ==> HasKey(c, s[j].actionType))
    && SumCounts(c) == |s|
  }

  /** `action_counts[tag] = action_counts.get(tag, 0) + 1` */
  function Tally(c: Counts, tag: string): Counts
  {
    var k := KeyIndex(c, tag);
    if k < |c| then c[k := (tag, c[k].1 + 1)] else c + [(tag, 1)]
  }

  lemma CountTaggedSnoc(s: seq<TraceStep>, step: TraceStep, t: string)
    ensures CountTagged(s + [step], t) == CountTagged(s, t) + (if step.actionType == t then 1 else 0)
  {
    assert (s + [step])[..|s|] == s;
  }

  /** Every step of `s + [step]` has a key in `c`, given that those of `s` do. */
  lemma KeysCoverSnoc(c: Counts, s: seq<TraceStep>, step: TraceStep)
    requires forall j :: 0 <= j < |s| ==> HasKey(c, s[j].actionType)
    requires HasKey(c, step.actionType)
    ensures forall j :: 0 <= j < |s + [step]| ==> HasKey(c, (s + [step])[j].actionType)
  {
    forall j | 0 <= j < |s + [step]|
      ensures HasKey(c, (s + [step])[j].actionType)
    {
      if j < |s| {
        assert (s + [step])[j] == s[j];
      }
    }
  }

  /** Changing the count of an entry keeps the keys. */
  lemma HasKeyBump(c: Counts, k: nat, n: int)
    requires k < |c|
    ensures forall t :: HasKey(c[k := (c[k].0, n)], t) <==> HasKey(c, t)
  {
    var c' := c[k := (c[k].0, n)];
    forall t
      ensures HasKey(c', t) <==> HasKey(c, t)
    {
      if HasKey(c, t) {
        var i :| 0 <= i < |c| && c[i].0 == t;
        assert c'[i].0 == t;
      }
      if HasKey(c', t) {
        var i :| 0 <= i < |c'| && c'[i].0 == t;
        assert c[i].0 == t;
      }
    }
  }

  /** Tallying a tag already present bumps its count in place. */
  lemma TallyBump(c: Counts, s: seq<TraceStep>, step: TraceStep, k: nat)
    requires Tallies(c, s) && k < |c| && c[k].0 == step.actionType
    ensures Tallies(c[k := (step.actionType, c[k].1 + 1)], s + [step])
  {
    var c' := c[k := (step.actionType, c[k].1 + 1)];
    SumCountsBump(c, k);
    HasKeyBump(c, k, c[k].1 + 1);
    forall t
      ensures CountTagged(s + [step], t) == CountTagged(s, t) + (if step.actionType == t then 1 else 0)
    {
      CountTaggedSnoc(s, step, t);
    }
    KeysCoverSnoc(c', s, step);
  }

  /** Appending a new entry adds exactly its key. */
  lemma HasKeySnoc(c: Counts, key: string, n: int)
    ensures forall t :: HasKey(c + [(key, n)], t) <==> HasKey(c, t) || t == key
  {
    var c' := c + [(key, n)];
    forall t
      ensures HasKey(c', t) <==> HasKey(c, t) || t == key
    {
      if HasKey(c, t) {
        var i :| 0 <= i < |c| && c[i].0 == t;
        assert c'[i].0 == t;
      }
      if HasKey(c', t) && t != key {
        var i :| 0 <= i < |c'| && c'[i].0 == t;
        assert c[i].0 == t;
      }
      assert c'[|c|].0 == key;
    }
  }

  /** Tallying a new tag appends it with count 1. */
  lemma TallyNew(c: Counts, s: seq<TraceStep>, step: TraceStep)
    requires Tallies(c, s) && !HasKey(c, step.actionType)
    ensures Tallies(c + [(step.actionType, 1)], s + [step])
  {
    var c' := c + [(step.actionType, 1)];
    assert c'[..|c'| - 1] == c;
    HasKeySnoc(c, step.actionType, 1);
    forall t
      ensures CountTagged(s + [step], t) == CountTagged(s, t) + (if step.actionType == t then 1 else 0)
    {
      CountTaggedSnoc(s, step, t);
    }
    KeysCoverSnoc(c', s, step);
  }


  lemma TallyStep(c: Counts, s: seq<TraceStep>, step: TraceStep)
    requires Tallies(c, s)
    ensures Tallies(Tally(c, step.actionType), s + [step])
  {
    var k := KeyIndex(c, step.actionType);
    if k < |c| {
      TallyBump(c, s, step, k);
    } else {
      TallyNew(c, s, step);
    }
  }

  /** Index of the first step tagged `tag`, or `|s|` when no step is. */
  function FirstTagged(s: seq<TraceStep>, tag: string): (k: nat)
    ensures k <= |s|
    ensures k < |s| ==> s[k].actionType == tag
  {
    if s == [] then 0
    else if s[0].actionType == tag then 0
    else 1 + FirstTagged(s[1..], tag)
  }

  /** No step before `FirstTagged(s, tag)` is tagged `tag`. */
  lemma {:induction false} FirstTaggedLeast(s: seq<TraceStep>, tag: string, j: int)
    requires 0 <= j < |s| && s[j].actionType == tag
    ensures FirstTagged(s, tag) <= j
  {
    if j > 0 && s[0].actionType != tag {
      FirstTaggedLeast(s[1..], tag, j - 1);
    }
  }

  /** The keys of `c` come in the order their tags first occur in `s`. */
  ghost predicate FirstSeenOrder(c: Counts, s: seq<TraceStep>)
  {
    forall i, j :: 0 <= i < j < |c| ==> FirstTagged(s, c[i].0) < FirstTagged(s, c[j].0)
  }

  /** Appending a step leaves the first occurrence of a tag already seen where it was. */
  lemma FirstTaggedSnoc(s: seq<TraceStep>, step: TraceStep, t: string)
    ensures FirstTagged(s, t) < |s| ==> FirstTagged(s + [step], t) == FirstTagged(s, t)
    ensures FirstTagged(s, t) == |s| && step.actionType == t ==> FirstTagged(s + [step], t) == |s|
  {
    var k, k' := FirstTagged(s, t), FirstTagged(s + [step], t);
    if k' < |s| {
      assert (s + [step])[k'] == s[k'];
      FirstTaggedLeast(s, t, k');
    }
    if k < |s| {
      assert (s + [step])[k] == s[k];
      FirstTaggedLeast(s + [step], t, k);
    } else if step.actionType == t {
      assert (s + [step])[|s|] == step;
      FirstTaggedLeast(s + [step], t, |s|);
    }
  }

  /** A tag with a positive count occurs in `s`. */
  lemma {:induction false} CountedIsSeen(s: seq<TraceStep>, t: string)
    requires CountTagged(s, t) > 0
    ensures FirstTagged(s, t) < |s|
  {
    var p := s[..|s| - 1];
    if s[|s| - 1].actionType != t {
      CountedIsSeen(p, t);
      var i := FirstTagged(p, t);
      assert s[i] == p[i];
      FirstTaggedLeast(s, t, i);
    } else {
      FirstTaggedLeast(s, t, |s| - 1);
    }
  }

  /** Tags already counted keep their first occurrence when a step is appended. */
  lemma SeenKeysStay(c: Counts, s: seq<TraceStep>, step: TraceStep)
    requires forall k :: 0 <= k < |c| ==> CountTagged(s, c[k].0) > 0
    ensures forall k :: 0 <= k < |c| ==> FirstTagged(s + [step], c[k].0) == FirstTagged(s, c[k].0) < |s|
  {
    forall k | 0 <= k < |c|
      ensures FirstTagged(s + [step], c[k].0) == FirstTagged(s, c[k].0) < |s|
    {
      CountedIsSeen(s, c[k].0);
      FirstTaggedSnoc(s, step, c[k].0);
    }
  }

  /** A tag not yet counted first occurs at the appended step. */
  lemma NewTagFirstAt(c: Counts, s: seq<TraceStep>, step: TraceStep)
    requires forall j :: 0 <= j < |s| ==> HasKey(c, s[j].actionType)
    requires !HasKey(c, step.actionType)
    ensures FirstTagged(s + [step], step.actionType) == |s|
  {
    FirstTaggedSnoc(s, step, step.actionType);
  }

  /** Bumping the count of a key already seen keeps the first-seen order. */
  lemma OrderBump(c: Counts, s: seq<TraceStep>, step: TraceStep, k: int)
    requires 0 <= k < |c| && FirstSeenOrder(c, s)
    requires forall i :: 0 <= i < |c| ==> FirstTagged(s + [step], c[i].0) == FirstTagged(s, c[i].0)
    ensures FirstSeenOrder(c[k := (c[k].0, c[k].1 + 1)], s + [step])
  {
    var c' := c[k := (c[k].0, c[k].1 + 1)];
    forall i, j | 0 <= i < j < |c'|
      ensures FirstTagged(s + [step], c'[i].0) < FirstTagged(s + [step], c'[j].0)
    {
      assert c'[i].0 == c[i].0 && c'[j].0 == c[j].0;
    }
  }

  /** Appending a key first seen at the new step keeps the first-seen order. */
  lemma OrderNew(c: Counts, s: seq<TraceStep>, step: TraceStep)
    requires FirstSeenOrder(c, s)
    requires forall i :: 0 <= i < |c| ==> FirstTagged(s + [step], c[i].0) == FirstTagged(s, c[i].0) < |s|
    requires FirstTagged(s + [step], step.actionType) == |s|
    ensures FirstSeenOrder(c + [(step.actionType, 1)], s + [step])
  {
    var c' := c + [(step.actionType, 1)];
    forall i, j | 0 <= i < j < |c'|
      ensures FirstTagged(s + [step], c'[i].0) < FirstTagged(s + [step], c'[j].0)
    {
      OrderNewPair(c, s, step, i, j);
    }
  }

  /** One pair of keys after a new key is appended: see `OrderNew`. */
  lemma OrderNewPair(c: Counts, s: seq<TraceStep>, step: TraceStep, i: int, j: int)
    requires 0 <= i < j <= |c|
    requires FirstSeenOrder(c, s)
    requires FirstTagged(s + [step], c[i].0) == FirstTagged(s, c[i].0) < |s|
    requires j < |c| ==> FirstTagged(s + [step], c[j].0) == FirstTagged(s, c[j].0)
    requires FirstTagged(s + [step], step.actionType) == |s|
    ensures FirstTagged(s + [step], (c + [(step.actionType, 1)])[i].0) < FirstTagged(s + [step], (c + [(step.actionType, 1)])[j].0)
  {
    var c' := c + [(step.actionType, 1)];
    assert c'[i] == c[i];
    if j < |c| {
      assert c'[j] == c[j];
    } else {
      assert c'[j].0 == step.actionType;
    }
  }

  /** One counting step keeps the keys in first-seen order. */
  lemma OrderStep(c: Counts, s: seq<TraceStep>, step: TraceStep)
    requires forall k :: 0 <= k < |c| ==> CountTagged(s, c[k].0) > 0
    requires forall j :: 0 <= j < |s| ==> HasKey(c, s[j].actionType)
    requires FirstSeenOrder(c, s)
    ensures FirstSeenOrder(Tally(c, step.actionType), s + [step])
  {
    SeenKeysStay(c, s, step);
    var k := KeyIndex(c, step.actionType);
    if k < |c| {
      OrderBump(c, s, step, k);
    } else {
      NewTagFirstAt(c, s, step);
      OrderNew(c, s, step);
    }
  }

  /** Counting one more step of `steps` keeps both the tallies and their first-seen order. */
  lemma CountPrefixStep(c: Counts, steps: seq<TraceStep>, i: int)
    requires 0 <= i < |steps|
    requires Tallies(c, steps[..i]) && FirstSeenOrder(c, steps[..i])
    ensures Tallies(Tally(c, steps[i].actionType), steps[..i + 1])
    ensures FirstSeenOrder(Tally(c, steps[i].actionType), steps[..i + 1])
  {
    assert steps[..i + 1] == steps[..i] + [steps[i]];
    TallyStep(c, steps[..i], steps[i]);
    OrderStep(c, steps[..i], steps[i]);
  }

  /** What `Tracer.summary` returns, without the elapsed time. */
  datatype TraceSummary = TraceSummary(totalSteps: int, actionCounts: Counts, numAssignments: int, numBacktracks: int)

  class Tracer {
    var enabled: bool
    var steps: seq<TraceStep>
    var stepCounter: int

    /** The counter equals the number of steps, and steps are numbered 1, 2, 3, ... */
    ghost predicate Valid()
      reads this
    {
      stepCounter == |steps| && forall i :: 0 <= i < |steps| ==> steps[i].stepNumber == i + 1
    }

    /**
     * The effect every `log_*` call has: when enabled, exactly `step` is
     * appended and the counter moves to its number; when disabled, nothing.
     */
    twostate predicate Logged(step: TraceStep)
      reads this
    {
      && enabled == old(enabled)
      && if old(enabled) then
           && stepCounter == old(stepCounter) + 1
           && step.stepNumber == stepCounter
           && steps == old(steps) + [step]
         else
           steps == old(steps) && stepCounter == old(stepCounter)
    }

    /** Exactly one step tagged `tag` was appended, or nothing changed when disabled. */
    twostate predicate Appended(tag: string)
      reads this
    {
      && enabled == old(enabled)
      && if old(enabled) then
           && stepCounter == old(stepCounter) + 1
           && |steps| == |old(steps)| + 1
           && steps[..|old(steps)|] == old(steps)
           && steps[|old(steps)|].actionType == tag
           && steps[|old(steps)|].stepNumber == stepCounter
         else
           steps == old(steps) && stepCounter == old(stepCounter)
    }

    twostate predicate Unchanged()
      reads this
    {
      enabled == old(enabled) && steps == old(steps) && stepCounter == old(stepCounter)
    }

    /** Steps were only appended, and none when disabled. */
    twostate predicate Grew()
      reads this
    {
      && enabled == old(enabled)
      && old(steps) <= steps
      && (!old(enabled) ==> steps == old(steps) && stepCounter == old(stepCounter))
    }

    constructor (enabled: bool)
      ensures this.enabled == enabled && steps == [] && stepCounter == 0
      ensures Valid()
    {
      this.enabled := enabled;
      steps := [];
      stepCounter := 0;
    }

    method LogAssign(variable: string, value: string, domainSize: int, assignmentSize: int)
      modifies this
      ensures Logged(AssignStep(old(stepCounter) + 1, variable, value, domainSize, assignmentSize))
      ensures old(Valid()) ==> Valid()
    {
      if !enabled {
        return;
      }
      stepCounter := stepCounter + 1;
      steps := steps + [AssignStep(stepCounter, variable, value, domainSize, assignmentSize)];
    }

    method LogBacktrack(variable: string, reason: string)
      modifies this
      ensures Logged(BacktrackStep(old(stepCounter) + 1, variable, reason))
      ensures old(Valid()) ==> Valid()
    {
      if !enabled {
        return;
      }
      stepCounter := stepCounter + 1;
      steps := steps + [BacktrackStep(stepCounter, variable, reason)];
    }

    method LogConstraintCheck(description: string, isValid: bool, variable: Option<string>)
      modifies this
      ensures Logged(ConstraintCheckStep(old(stepCounter) + 1, description, isValid, variable))
      ensures old(Valid()) ==> Valid()
    {
      if !enabled {
        return;
      }
      stepCounter := stepCounter + 1;
      steps := steps + [ConstraintCheckStep(stepCounter, description, isValid, variable)];
    }

    method LogDomainReduction(variable: string, newDomainSize: int, reason: string)
      modifies this
      ensures Logged(DomainReducedStep(old(stepCounter) + 1, variable, newDomainSize, reason))
      ensures old(Valid()) ==> Valid()
    {
      if !enabled {
        return;
      }
      stepCounter := stepCounter + 1;
      steps := steps + [DomainReducedStep(stepCounter, variable, newDomainSize, reason)];
    }

    method LogAc3Run(variablesAffected: int, arcsProcessed: int)
      modifies this
      ensures Logged(Ac3Step(old(stepCounter) + 1, variablesAffected, arcsProcessed))
      ensures old(Valid()) ==> Valid()
    {
      if !enabled {
        return;
      }
      stepCounter := stepCounter + 1;
      steps := steps + [Ac3Step(stepCounter, variablesAffected, arcsProcessed)];
    }

    method LogForwardCheck(variable: string, domainsPruned: int)
      modifies this
      ensures Logged(ForwardCheckStep(old(stepCounter) + 1, variable, domainsPruned))
      ensures old(Valid()) ==> Valid()
    {
      if !enabled {
        return;
      }
      stepCounter := stepCounter + 1;
      steps := steps + [ForwardCheckStep(stepCounter, variable, domainsPruned)];
    }

    method LogSolutionFound(assignmentSize: int)
      modifies this
      ensures Logged(SolutionFoundStep(old(stepCounter) + 1, assignmentSize))
      ensures old(Valid()) ==> Valid()
    {
      if !enabled {
        return;
      }
      stepCounter := stepCounter + 1;
      steps := steps + [SolutionFoundStep(stepCounter, assignmentSize)];
    }

    /**
     * `summary()`: the total, the per-tag counts (which add up to the total)
     * and the numbers of assignments and backtracks.
     */
    method Summary() returns (s: TraceSummary)
      ensures s.totalSteps == |steps|
      ensures s.numAssignments == CountTagged(steps, "assign")
      ensures s.numBacktracks == CountTagged(steps, "backtrack")
      ensures KeysDistinct(s.actionCounts)
      ensures forall k :: 0 <= k < |s.actionCounts| ==>
                s.actionCounts[k].1 == CountTagged(steps, s.actionCounts[k].0) && s.actionCounts[k].1 > 0
      ensures forall i :: 0 <= i < |steps| ==> HasKey(s.actionCounts, steps[i].actionType)
      ensures SumCounts(s.actionCounts) == s.totalSteps
      ensures forall i, j :: 0 <= i < j < |s.actionCounts| ==>
                FirstTagged(steps, s.actionCounts[i].0) < FirstTagged(steps, s.actionCounts[j].0)
    {
      var counts: Counts := [];
      var i := 0;
      while i < |steps|
        invariant 0 <= i <= |steps|
        invariant Tallies(counts, steps[..i])
        invariant FirstSeenOrder(counts, steps[..i])
      {
        CountPrefixStep(counts, steps, i);
        counts := Tally(counts, steps[i].actionType);
        i := i + 1;
      }
      assert steps[..i] == steps;
      s := TraceSummary(|steps|, counts, CountTagged(steps, "assign"), CountTagged(steps, "backtrack"));
    }
  }

  /** The process-wide tracer slot (`_global_tracer`), empty until first asked for. */
  class TraceRegistry {
    var global: Tracer?

    ghost predicate Valid()
      reads this, global
    {
      global != null ==> global.Valid()
    }

    constructor ()
      ensures global == null
    {
      global := null;
    }

    /** `get_tracer()`: the existing tracer, or a new enabled one stored for next time. */
    method GetTracer() returns (t: Tracer)
      modifies this
      ensures global == t
      ensures old(global) != null ==> t == old(global)
      ensures old(global) == null ==> fresh(t) && t.enabled && t.steps == [] && t.stepCounter == 0
      ensures old(Valid()) ==> Valid()
    {
      if global == null {
        global := new Tracer(true);
      }
      t := global;
    }

    /** `reset_tracer()`: forget the tracer, so the next `GetTracer` starts afresh. */
    method ResetTracer()
      modifies this
      ensures global == null && Valid()
    {
      global := null;
    }

    /** `enable_tracing(enabled)`: switch logging of the (possibly new) tracer on or off. */
    method EnableTracing(enabled: bool)
      modifies this, global
      ensures global != null && global.enabled == enabled
      ensures old(global) != null ==> global == old(global) && global.steps == old(global.steps)
                                      && global.stepCounter == old(global.stepCounter)
      ensures old(global) == null ==> fresh(global) && global.steps == [] && global.stepCounter == 0
      ensures old(Valid()) ==> Valid()
    {
      var t := GetTracer();
      t.enabled := enabled;
    }
  }
}
