/** Evaluating calculated variables in dependency rounds, with cycle detection. */
module Calculations {
  import opened Wrappers
  import opened Expressions
  import opened Survey
  import opened Sequences
  import opened Dependencies
  import Compiler
  import Parser
  import Strings

  datatype Verdict = Calculated(value: Value) | Failed | Cycle

  datatype TraceEntry = TraceEntry(id: string, expression: string, dependencies: seq<string>, verdict: Verdict)

  datatype AdaptiveDiagnostic =
    | CalculationUnparsed(id: string) | CalculationFailed(id: string) | CalculationCycle(id: string)
    | RelevanceFailed(id: string)

  // ----- Parsing the calculations -----

  predicate IsCalculated(v: Variable) {
    v.calculation.Some? && v.calculation.value != ""
  }

  function CalculatedIds(variables: seq<Variable>): set<string> {
    set v | v in variables && IsCalculated(v) :: v.externalId
  }

  /** The first parts of all references, in the order they are visited. */
  function Heads(node: Node): seq<string>
    decreases node, 1
  {
    match node
    case Literal(_) => []
    case Reference(head, _) => [head]
    case Unary(_, operand) => Heads(operand)
    case Binary(_, left, right) => Heads(left) + Heads(right)
    case Call(_, args) => AllHeads(args)
  }

  function AllHeads(args: seq<Node>): seq<string>
    decreases args, 0
  {
    if args == [] then [] else Heads(args[0]) + AllHeads(args[1..])
  }

  lemma {:induction false} HeadsAreReferences(node: Node)
    ensures forall x :: x in Heads(node) <==> x in References(node)
    decreases node, 1
  {
    match node
    case Unary(_, operand) => HeadsAreReferences(operand);
    case Binary(_, left, right) =>
      HeadsAreReferences(left);
      HeadsAreReferences(right);
    case Call(_, args) => AllHeadsAreReferences(args);
    case _ =>
  }

  lemma {:induction false} AllHeadsAreReferences(args: seq<Node>)
    ensures forall x :: x in AllHeads(args) <==> x in AllReferences(args)
    decreases args, 0
  {
    if args != [] {
      HeadsAreReferences(args[0]);
      AllHeadsAreReferences(args[1..]);
    }
  }

  function OnlyIn(xs: seq<string>, names: set<string>): (r: seq<string>)
    ensures forall x :: x in r <==> x in xs && x in names
  {
    if xs == [] then [] else (if xs[0] in names then [xs[0]] else []) + OnlyIn(xs[1..], names)
  }

  lemma {:induction false} DistinctKeepsMembers(xs: seq<string>)
    ensures forall x :: x in Compiler.Distinct(xs) <==> x in xs
  {
    if xs != [] {
      DistinctKeepsMembers(xs[..|xs| - 1]);
    }
  }

  function DependenciesOf(node: Node, variableIds: set<string>): seq<string> {
    Strings.Sort(OnlyIn(Compiler.Distinct(Heads(node)), variableIds))
  }

  lemma DependenciesAreReferences(node: Node, variableIds: set<string>)
    ensures forall x :: x in DependenciesOf(node, variableIds) <==> x in References(node) && x in variableIds
  {
    HeadsAreReferences(node);
    DistinctKeepsMembers(Heads(node));
  }

  /** Setting a map entry: a definition replaces the one with its ID in place, or comes last. */
  function Put(defs: seq<Definition>, d: Definition): seq<Definition> {
    if defs == [] then [d]
    else if defs[0].id == d.id then [d] + defs[1..]
    else [defs[0]] + Put(defs[1..], d)
  }

  datatype Parsed = Parsed(defs: seq<Definition>, failures: seq<TraceEntry>)

  function ParseAll(variables: seq<Variable>, variableIds: set<string>): Parsed {
    if variables == [] then Parsed([], [])
    else
      var before := ParseAll(variables[..|variables| - 1], variableIds);
      var v := variables[|variables| - 1];
      if !IsCalculated(v) then before
      else
        match Parser.ParseExpression(v.calculation.value)
        case Err(_) =>
          before.(failures := before.failures + [TraceEntry(v.externalId, v.calculation.value, [], Failed)])
        case Ok(node) =>
          before.(defs := Put(before.defs, Definition(
            v.externalId, v.calculation.value, node, DependenciesOf(node, variableIds))))
  }

  function IdsOf(defs: seq<Definition>): seq<string> {
    seq(|defs|, i requires 0 <= i < |defs| => defs[i].id)
  }

  lemma {:induction false} PutKeepsDistinct(defs: seq<Definition>, d: Definition)
    requires NoDuplicates(IdsOf(defs))
    ensures NoDuplicates(IdsOf(Put(defs, d)))
    ensures forall x :: x in IdsOf(Put(defs, d)) <==> x in IdsOf(defs) || x == d.id
    ensures forall e :: e in Put(defs, d) ==> e in defs || e == d
  {
    if defs == [] {
      assert IdsOf(Put(defs, d)) == [d.id];
    } else {
      var rest := defs[1..];
      assert IdsOf(defs) == [defs[0].id] + IdsOf(rest);
      NoDuplicatesCons(defs[0].id, IdsOf(rest));
      if defs[0].id == d.id {
        assert IdsOf(Put(defs, d)) == [d.id] + IdsOf(rest);
      } else {
        PutKeepsDistinct(rest, d);
        assert IdsOf(Put(defs, d)) == [defs[0].id] + IdsOf(Put(rest, d));
        NoDuplicatesCons(defs[0].id, IdsOf(Put(rest, d)));
      }
    }
  }

  ghost predicate WellParsed(defs: seq<Definition>, variableIds: set<string>) {
    NoDuplicates(IdsOf(defs)) && DependenciesOver(defs, variableIds)
  }

  lemma PutIsWellParsed(defs: seq<Definition>, d: Definition, variableIds: set<string>)
    requires WellParsed(defs, variableIds) && d.id in variableIds
    requires forall x :: x in d.dependencies <==> x in References(d.node) && x in variableIds
    ensures WellParsed(Put(defs, d), variableIds)
  {
    PutKeepsDistinct(defs, d);
  }

  lemma {:induction false} ParsingIsWellFormed(variables: seq<Variable>, variableIds: set<string>)
    requires CalculatedIds(variables) <= variableIds
    ensures WellParsed(ParseAll(variables, variableIds).defs, variableIds)
  {
    if variables != [] {
      var front, v := variables[..|variables| - 1], variables[|variables| - 1];
      ParsingIsWellFormed(front, variableIds);
      if IsCalculated(v) {
        var parsed := Parser.ParseExpression(v.calculation.value);
        if parsed.Ok? {
          DependenciesAreReferences(parsed.value, variableIds);
          var d := Definition(v.externalId, v.calculation.value,
            parsed.value, DependenciesOf(parsed.value, variableIds));
          assert v.externalId in CalculatedIds(variables);
          PutIsWellParsed(ParseAll(front, variableIds).defs, d, variableIds);
        }
      }
    }
  }

  lemma DistinctIdsDistinctDefinitions(defs: seq<Definition>)
    requires NoDuplicates(IdsOf(defs))
    ensures DistinctDefinitions(defs)
    ensures forall x :: x in IdsOf(defs) <==> x in DefinitionIds(defs)
  {
    forall a, b | a in defs && b in defs && a.id == b.id
      ensures a == b
    {
      var i :| 0 <= i < |defs| && defs[i] == a;
      var j :| 0 <= j < |defs| && defs[j] == b;
      assert IdsOf(defs)[i] == IdsOf(defs)[j];
    }
    forall x
      ensures x in IdsOf(defs) <==> x in DefinitionIds(defs)
    {
      if x in IdsOf(defs) {
        var i :| 0 <= i < |defs| && IdsOf(defs)[i] == x;
        assert defs[i] in defs;
      }
      if d :| d in defs && d.id == x {
        var i :| 0 <= i < |defs| && defs[i] == d;
        assert IdsOf(defs)[i] == x;
      }
    }
  }

  // ----- The rounds -----

  function TraceIds(trace: seq<TraceEntry>): seq<string> {
    seq(|trace|, i requires 0 <= i < |trace| => trace[i].id)
  }

  function Without(xs: seq<string>, x: string): (r: seq<string>)
    ensures forall y :: y in r <==> y in xs && y != x
    ensures |r| <= |xs| && (x in xs ==> |r| < |xs|)
  {
    if xs == [] then [] else (if xs[0] == x then [] else [xs[0]]) + Without(xs[1..], x)
  }

  lemma {:induction false} WithoutKeepsDistinct(xs: seq<string>, x: string)
    requires NoDuplicates(xs)
    ensures NoDuplicates(Without(xs, x))
  {
    if xs != [] {
      assert xs == [xs[0]] + xs[1..];
      NoDuplicatesCons(xs[0], xs[1..]);
      WithoutKeepsDistinct(xs[1..], x);
      NoDuplicatesCons(xs[0], Without(xs[1..], x));
    }
  }

  /** The definition of a parsed variable. */
  function DefinitionOf(defs: seq<Definition>, id: string): (d: Definition)
    requires id in DefinitionIds(defs)
    ensures d in defs && d.id == id
  {
    if defs[0].id == id then defs[0] else DefinitionOf(defs[1..], id)
  }

  predicate IsReady(defs: seq<Definition>, pending: seq<string>, id: string)
    requires id in DefinitionIds(defs)
  {
    forall y :: y in DefinitionOf(defs, id).dependencies ==> y !in pending
  }

  function Ready(defs: seq<Definition>, pending: seq<string>, candidates: seq<string>): (r: seq<string>)
    requires forall x :: x in candidates ==> x in DefinitionIds(defs)
    ensures forall x :: x in r <==> x in candidates && IsReady(defs, pending, x)
  {
    if candidates == [] then []
    else
      (if IsReady(defs, pending, candidates[0]) then [candidates[0]] else [])
      + Ready(defs, pending, candidates[1..])
  }

  lemma {:induction false} ReadyKeepsDistinct(defs: seq<Definition>, pending: seq<string>, candidates: seq<string>)
    requires forall x :: x in candidates ==> x in DefinitionIds(defs)
    requires NoDuplicates(candidates)
    ensures NoDuplicates(Ready(defs, pending, candidates))
  {
    if candidates != [] {
      assert candidates == [candidates[0]] + candidates[1..];
      NoDuplicatesCons(candidates[0], candidates[1..]);
      ReadyKeepsDistinct(defs, pending, candidates[1..]);
      NoDuplicatesCons(candidates[0], Ready(defs, pending, candidates[1..]));
    }
  }

  /** A trace entry reports its definition and the variable map's value. */
  ghost predicate Reports(e: TraceEntry, defs: seq<Definition>, variables: Context) {
    e.id in DefinitionIds(defs) &&
    e.expression == DefinitionOf(defs, e.id).expression && e.dependencies == DefinitionOf(defs, e.id).dependencies &&
    match e.verdict
    case Calculated(v) => e.id in variables && variables[e.id] == v
    case Failed => e.id !in variables
    case Cycle => e.id !in variables
  }

  /** The state between evaluations: what is traced is settled and in dependency order, the rest is pending. */
  ghost predicate Progress(
    defs: seq<Definition>, done: seq<TraceEntry>, pending: seq<string>, answers: Context, variables: Context,
    host: Host)
  {
    NoDuplicates(TraceIds(done)) && NoDuplicates(pending) &&
    (forall x :: x in DefinitionIds(defs) <==> x in TraceIds(done) || x in pending) &&
    (forall x :: x in pending ==> x !in TraceIds(done)) &&
    Ordered(defs, TraceIds(done)) &&
    (forall x :: x in variables ==> x in TraceIds(done)) &&
    (forall d :: d in defs && d.id in TraceIds(done) ==> Settled(d, answers, variables, host)) &&
    (forall i :: 0 <= i < |done| ==> Reports(done[i], defs, variables) && !done[i].verdict.Cycle?)
  }

  /** Evaluating one variable whose dependencies are all traced. */
  lemma EvaluationProgresses(
    defs: seq<Definition>, variableIds: set<string>, done: seq<TraceEntry>, pending: seq<string>,
    answers: Context, variables: Context, host: Host, id: string)
    requires WellParsed(defs, variableIds) && Progress(defs, done, pending, answers, variables, host)
    requires id in pending && forall y :: Edge(defs, id, y) ==> y in TraceIds(done)
    ensures var d := DefinitionOf(defs, id);
            var r := Evaluate(d.node, answers + variables, host);
            var after := if r.Ok? then variables[id := r.value] else variables;
            var entry := TraceEntry(id, d.expression, d.dependencies, if r.Ok? then Calculated(r.value) else Failed);
            Progress(defs, done + [entry], Without(pending, id), answers, after, host)
  {
    DistinctIdsDistinctDefinitions(defs);
    var d := DefinitionOf(defs, id);
    var r := Evaluate(d.node, answers + variables, host);
    var after := if r.Ok? then variables[id := r.value] else variables;
    var entry := TraceEntry(id, d.expression, d.dependencies, if r.Ok? then Calculated(r.value) else Failed);
    var next := done + [entry];
    assert TraceIds(next) == TraceIds(done) + [id];
    WithoutKeepsDistinct(pending, id);
    NoDuplicatesAppend(TraceIds(done), [id]);
    OrderExtends(defs, TraceIds(done), id);
    forall e | e in defs && e.id in TraceIds(next)
      ensures Settled(e, answers, after, host)
    {
      NotReadByTraced(defs, variableIds, done, pending, id, e);
      if e.id == id { assert e == d; }
      SettledAfter(e, answers, variables, id, host, r);
    }
    forall i | 0 <= i < |next|
      ensures Reports(next[i], defs, after) && !next[i].verdict.Cycle?
    {
      if i < |done| {
        assert TraceIds(done)[i] == done[i].id;
      }
    }
  }

  lemma OrderExtends(defs: seq<Definition>, order: seq<string>, id: string)
    requires Ordered(defs, order) && forall y :: Edge(defs, id, y) ==> y in order
    ensures Ordered(defs, order + [id])
  {
    var next := order + [id];
    forall i, y | 0 <= i < |next| && Edge(defs, next[i], y)
      ensures y in next[..i]
    {
      assert next[..i] == order[..i];
      assert order[..|order|] == order;
    }
  }

  lemma SettledAfter(e: Definition, answers: Context, variables: Context, id: string, host: Host, r: Outcome)
    requires id !in References(e.node) && id !in variables
    requires e.id != id ==> Settled(e, answers, variables, host)
    requires e.id == id ==> r == Evaluate(e.node, answers + variables, host)
    ensures Settled(e, answers, if r.Ok? then variables[id := r.value] else variables, host)
  {
    var after := if r.Ok? then variables[id := r.value] else variables;
    EvaluationIsLocal(e.node, answers + variables, answers + after, host);
  }

  /** A pending variable is read neither by a traced one nor, once it is ready, by itself. */
  lemma NotReadByTraced(
    defs: seq<Definition>, variableIds: set<string>, done: seq<TraceEntry>, pending: seq<string>, id: string,
    e: Definition)
    requires WellParsed(defs, variableIds) && Ordered(defs, TraceIds(done))
    requires id in DefinitionIds(defs) && id !in TraceIds(done)
    requires forall y :: Edge(defs, id, y) ==> y in TraceIds(done)
    requires e in defs && (e.id in TraceIds(done) || e.id == id)
    ensures id !in References(e.node)
  {
    TracedDependenciesAreTraced(defs, TraceIds(done));
    assert id in References(e.node) ==> id in e.dependencies && Edge(defs, e.id, id);
  }

  lemma TracedDependenciesAreTraced(defs: seq<Definition>, order: seq<string>)
    requires Ordered(defs, order)
    ensures forall x, y :: x in order && Edge(defs, x, y) ==> y in order
  {
    forall x, y | x in order && Edge(defs, x, y)
      ensures y in order
    {
      var i :| 0 <= i < |order| && order[i] == x;
      assert y in order[..i];
    }
  }

  /** When nothing is ready, every pending variable waits for a pending one. */
  lemma NothingReadyIsStuck(defs: seq<Definition>, pending: seq<string>)
    requires NoDuplicates(IdsOf(defs)) && forall x :: x in pending ==> x in DefinitionIds(defs)
    requires Ready(defs, pending, pending) == []
    ensures Stuck(defs, (set x | x in pending))
  {
    var waiting := set x | x in pending;
    forall x | x in waiting
      ensures Blocked(defs, waiting, x)
    {
      assert !IsReady(defs, pending, x);
      var y :| y in DefinitionOf(defs, x).dependencies && y in pending;
      assert y in waiting && Edge(defs, x, y);
    }
  }

  function CycleEntries(defs: seq<Definition>, ids: seq<string>): seq<TraceEntry>
    requires forall x :: x in ids ==> x in DefinitionIds(defs)
  {
    seq(|ids|, i requires 0 <= i < |ids| =>
      TraceEntry(ids[i], DefinitionOf(defs, ids[i]).expression, DefinitionOf(defs, ids[i]).dependencies, Cycle))
  }

  /** One entry for every parsed variable: cycles exactly where one is reached, the rest in dependency order. */
  ghost predicate TraceIsExact(defs: seq<Definition>, trace: seq<TraceEntry>, variables: Context) {
    NoDuplicates(TraceIds(trace)) &&
    (forall x :: x in TraceIds(trace) <==> x in DefinitionIds(defs)) &&
    (forall i :: 0 <= i < |trace| ==> Reports(trace[i], defs, variables)) &&
    (forall i :: 0 <= i < |trace| ==> (trace[i].verdict.Cycle? <==> ReachesCycle(defs, trace[i].id))) &&
    (forall i, y :: 0 <= i < |trace| && !trace[i].verdict.Cycle? && Edge(defs, trace[i].id, y) ==>
       y in TraceIds(trace)[..i])
  }

  /** The traced variables' values are the consistent assignment once the rest is stuck. */
  lemma StuckSolves(
    defs: seq<Definition>, done: seq<TraceEntry>, pending: seq<string>, answers: Context, variables: Context,
    host: Host)
    requires Progress(defs, done, pending, answers, variables, host) && Stuck(defs, (set x | x in pending))
    ensures Solution(defs, answers, variables, host)
  {
    VerdictsAreExact(defs, done, pending);
    assert forall d :: d in defs ==> d.id in DefinitionIds(defs);
  }

  lemma CyclesAreReported(defs: seq<Definition>, ids: seq<string>, variables: Context, i: nat)
    requires forall x :: x in ids ==> x in DefinitionIds(defs)
    requires i < |ids| && ids[i] !in variables
    ensures Reports(CycleEntries(defs, ids)[i], defs, variables)
    ensures CycleEntries(defs, ids)[i].verdict.Cycle? && CycleEntries(defs, ids)[i].id == ids[i]
  {
  }

  lemma TraceIdsAppend(a: seq<TraceEntry>, b: seq<TraceEntry>)
    ensures TraceIds(a + b) == TraceIds(a) + TraceIds(b)
  {
  }

  /** Reporting the stuck variables as cycles completes an exact trace. */
  lemma StuckCompletes(
    defs: seq<Definition>, done: seq<TraceEntry>, pending: seq<string>, answers: Context, variables: Context,
    host: Host)
    requires NoDuplicates(IdsOf(defs)) && Progress(defs, done, pending, answers, variables, host)
    requires forall x :: x in pending ==> x in DefinitionIds(defs)
    requires Ready(defs, pending, pending) == []
    ensures TraceIsExact(defs, done + CycleEntries(defs, Strings.Sort(pending)), variables)
    ensures Solution(defs, answers, variables, host)
  {
    var ids := Strings.Sort(pending);
    SortedPending(pending);
    NothingReadyIsStuck(defs, pending);
    StuckSolves(defs, done, pending, answers, variables, host);
    VerdictsAreExact(defs, done, pending);
    PendingFacts(defs, done, pending, answers, variables, host);
    ExactWhenSorted(defs, done, ids, variables);
  }

  lemma PendingFacts(
    defs: seq<Definition>, done: seq<TraceEntry>, pending: seq<string>, answers: Context, variables: Context,
    host: Host)
    requires Progress(defs, done, pending, answers, variables, host)
    ensures forall x :: x in pending ==> x !in variables
    ensures forall x :: x in DefinitionIds(defs) <==> x in TraceIds(done) || x in pending
    ensures NoDuplicates(TraceIds(done)) && NoDuplicates(pending) && Ordered(defs, TraceIds(done))
    ensures forall i :: 0 <= i < |done| ==> Reports(done[i], defs, variables) && !done[i].verdict.Cycle?
  {
  }

  /** A settled trace followed by the cyclic variables is exact. */
  lemma ExactWhenSorted(defs: seq<Definition>, done: seq<TraceEntry>, ids: seq<string>, variables: Context)
    requires forall x :: x in ids ==> x in DefinitionIds(defs) && ReachesCycle(defs, x) && x !in variables
    requires forall x :: x in TraceIds(done) ==> !ReachesCycle(defs, x)
    requires NoDuplicates(TraceIds(done)) && NoDuplicates(ids)
    requires forall x :: x in DefinitionIds(defs) <==> x in TraceIds(done) || x in ids
    requires forall i :: 0 <= i < |done| ==> Reports(done[i], defs, variables) && !done[i].verdict.Cycle?
    requires Ordered(defs, TraceIds(done))
    ensures TraceIsExact(defs, done + CycleEntries(defs, ids), variables)
  {
    var cycles := CycleEntries(defs, ids);
    var trace := done + cycles;
    assert TraceIds(cycles) == ids;
    TraceIdsAppend(done, cycles);
    NoDuplicatesAppend(TraceIds(done), ids);
    forall i | 0 <= i < |trace|
      ensures Reports(trace[i], defs, variables)
      ensures trace[i].verdict.Cycle? <==> i >= |done|
      ensures ReachesCycle(defs, trace[i].id) <==> i >= |done|
    {
      if i < |done| {
        assert TraceIds(done)[i] == trace[i].id;
      } else {
        assert ids[i - |done|] in ids;
        CyclesAreReported(defs, ids, variables, i - |done|);
      }
    }
    forall i, y | 0 <= i < |trace| && !trace[i].verdict.Cycle? && Edge(defs, trace[i].id, y)
      ensures y in TraceIds(trace)[..i]
    {
      assert TraceIds(trace)[..i] == TraceIds(done)[..i];
      assert TraceIds(done)[i] == trace[i].id;
    }
  }

  lemma SortedPending(pending: seq<string>)
    requires NoDuplicates(pending)
    ensures NoDuplicates(Strings.Sort(pending))
    ensures forall x :: x in Strings.Sort(pending) <==> x in pending
  {
    Strings.SortSorts(pending);
    PermutationKeepsDistinct(pending, Strings.Sort(pending));
  }

  /** The traced variables reach no cycle, the stuck ones all do. */
  lemma VerdictsAreExact(defs: seq<Definition>, done: seq<TraceEntry>, pending: seq<string>)
    requires Ordered(defs, TraceIds(done)) && NoDuplicates(TraceIds(done))
    requires Stuck(defs, (set x | x in pending))
    ensures forall x :: x in TraceIds(done) ==> !ReachesCycle(defs, x)
    ensures forall x :: x in pending ==> ReachesCycle(defs, x)
  {
    forall x | x in TraceIds(done)
      ensures !ReachesCycle(defs, x)
    {
      OrderedReachesNoCycle(defs, TraceIds(done), x);
    }
    forall x | x in pending
      ensures ReachesCycle(defs, x)
    {
      StuckReachesCycle(defs, (set y | y in pending), x);
    }
  }

  // ----- The order of the trace -----

  function WithoutAll(xs: seq<string>, ids: seq<string>): (r: seq<string>)
    ensures |r| <= |xs| && (ids != [] && ids[0] in xs ==> |r| < |xs|)
    ensures forall x :: x in r <==> x in xs && x !in ids
    decreases |ids|
  {
    if ids == [] then xs else Without(WithoutAll(xs, ids[..|ids| - 1]), ids[|ids| - 1])
  }

  /** The variables in the order in which rounds evaluate them: each round in ID order. */
  function RoundOrder(defs: seq<Definition>, pending: seq<string>): seq<string>
    requires forall x :: x in pending ==> x in DefinitionIds(defs)
    decreases |pending|
  {
    var round := Strings.Sort(Ready(defs, pending, pending));
    if round == [] then []
    else
      assert round[0] in pending;
      round + RoundOrder(defs, WithoutAll(pending, round))
  }

  /** What no round ever reaches. */
  function NeverReady(defs: seq<Definition>, pending: seq<string>): seq<string>
    requires forall x :: x in pending ==> x in DefinitionIds(defs)
    decreases |pending|
  {
    var round := Strings.Sort(Ready(defs, pending, pending));
    if round == [] then pending
    else
      assert round[0] in pending;
      NeverReady(defs, WithoutAll(pending, round))
  }

  /** The whole trace after the parse failures: the rounds, then the cyclic variables in ID order. */
  ghost predicate TraceIsOrdered(defs: seq<Definition>, trace: seq<TraceEntry>)
  {
    (forall x :: x in IdsOf(defs) ==> x in DefinitionIds(defs)) &&
    TraceIds(trace) == RoundOrder(defs, IdsOf(defs)) + Strings.Sort(NeverReady(defs, IdsOf(defs))) &&
    forall i :: 0 <= i < |trace| ==> (trace[i].verdict.Cycle? <==> i >= |RoundOrder(defs, IdsOf(defs))|)
  }

  /** What is left to be done after some rounds. */
  ghost predicate InOrder(defs: seq<Definition>, done: seq<TraceEntry>, pending: seq<string>) {
    (forall x :: x in IdsOf(defs) || x in pending ==> x in DefinitionIds(defs)) &&
    TraceIds(done) + RoundOrder(defs, pending) == RoundOrder(defs, IdsOf(defs)) &&
    NeverReady(defs, pending) == NeverReady(defs, IdsOf(defs))
  }

  function DiagnosticsOf(trace: seq<TraceEntry>): seq<AdaptiveDiagnostic> {
    if trace == [] then []
    else
      var last := trace[|trace| - 1];
      DiagnosticsOf(trace[..|trace| - 1])
      + match last.verdict
        case Calculated(_) => []
        case Failed => [CalculationFailed(last.id)]
        case Cycle => [CalculationCycle(last.id)]
  }

  function UnparsedDiagnostics(failures: seq<TraceEntry>): seq<AdaptiveDiagnostic> {
    seq(|failures|, i requires 0 <= i < |failures| => CalculationUnparsed(failures[i].id))
  }

  lemma NextDiagnostic(trace: seq<TraceEntry>, e: TraceEntry)
    ensures DiagnosticsOf(trace + [e])
         == DiagnosticsOf(trace)
            + match e.verdict
              case Calculated(_) => []
              case Failed => [CalculationFailed(e.id)]
              case Cycle => [CalculationCycle(e.id)]
  {
    assert (trace + [e])[..|trace|] == trace;
  }

  lemma EmptyRoundEnds(defs: seq<Definition>, done: seq<TraceEntry>, pending: seq<string>)
    requires InOrder(defs, done, pending) && Ready(defs, pending, pending) == []
    ensures TraceIds(done) == RoundOrder(defs, IdsOf(defs)) && pending == NeverReady(defs, IdsOf(defs))
  {
    assert Strings.Sort([]) == [];
    assert TraceIds(done) + [] == TraceIds(done);
  }

  lemma RoundIsInOrder(
    defs: seq<Definition>, done0: seq<TraceEntry>, pending0: seq<string>, done: seq<TraceEntry>, pending: seq<string>)
    requires InOrder(defs, done0, pending0) && Ready(defs, pending0, pending0) != []
    requires var round := Strings.Sort(Ready(defs, pending0, pending0));
             TraceIds(done) == TraceIds(done0) + round && pending == WithoutAll(pending0, round)
    ensures InOrder(defs, done, pending) && |pending| < |pending0|
  {
    var ready := Ready(defs, pending0, pending0);
    var round := Strings.Sort(ready);
    assert ready[0] in ready && ready[0] in round;
    assert round[0] in pending0;
    Associative(TraceIds(done0), round, RoundOrder(defs, pending));
  }

  /**
   * The parsed calculations are evaluated in rounds of variables whose dependencies are no longer pending;
   * what is left when a round is empty is reported as cyclic.
   */
  method EvaluateCalculatedVariables(declared: seq<Variable>, answers: Context, host: Host)
    returns (variables: Context, trace: seq<TraceEntry>, diagnostics: seq<AdaptiveDiagnostic>)
    ensures var parsed := ParseAll(declared, CalculatedIds(declared));
            Solution(parsed.defs, answers, variables, host) &&
            |parsed.failures| <= |trace| && trace[..|parsed.failures|] == parsed.failures &&
            TraceIsExact(parsed.defs, trace[|parsed.failures|..], variables) &&
            TraceIsOrdered(parsed.defs, trace[|parsed.failures|..]) &&
            diagnostics == UnparsedDiagnostics(parsed.failures) + DiagnosticsOf(trace[|parsed.failures|..])
  {
    hide TraceIsExact, TraceIsOrdered, Solution, DiagnosticsOf, WellParsed, Put, DependenciesOf;
    var variableIds := CalculatedIds(declared);
    var defs: seq<Definition> := [];
    var failures: seq<TraceEntry> := [];
    diagnostics := [];
    for i := 0 to |declared|
      invariant Parsed(defs, failures) == ParseAll(declared[..i], variableIds)
      invariant diagnostics == UnparsedDiagnostics(failures)
    {
      assert declared[..i + 1][..i] == declared[..i];
      var v := declared[i];
      if IsCalculated(v) {
        var parsed := Parser.ParseExpression(v.calculation.value);
        if parsed.Err? {
          failures := failures + [TraceEntry(v.externalId, v.calculation.value, [], Failed)];
          diagnostics := diagnostics + [CalculationUnparsed(v.externalId)];
        } else {
          var dependencies := DependenciesOf(parsed.value, variableIds);
          defs := Put(defs, Definition(v.externalId, v.calculation.value, parsed.value, dependencies));
        }
      }
    }
    assert declared[..|declared|] == declared;
    ParsingIsWellFormed(declared, variableIds);
    var rest, more;
    variables, rest, more := EvaluateRounds(defs, variableIds, answers, host);
    trace := failures + rest;
    diagnostics := diagnostics + more;
    assert trace[|failures|..] == rest && trace[..|failures|] == failures;
  }

  /** The loop over the rounds. */
  method EvaluateRounds(defs: seq<Definition>, variableIds: set<string>, answers: Context, host: Host)
    returns (variables: Context, trace: seq<TraceEntry>, diagnostics: seq<AdaptiveDiagnostic>)
    requires WellParsed(defs, variableIds)
    ensures Solution(defs, answers, variables, host)
    ensures TraceIsExact(defs, trace, variables) && TraceIsOrdered(defs, trace)
    ensures diagnostics == DiagnosticsOf(trace)
  {
    hide WellParsed, Solution, TraceIsExact, DiagnosticsOf, RoundOrder, NeverReady, InOrder, Progress;
    variables, trace, diagnostics := map[], [], [];
    var pending := IdsOf(defs);
    NothingDone(defs, variableIds, answers, host);
    while pending != []
      invariant Progress(defs, trace, pending, answers, variables, host) && InOrder(defs, trace, pending)
      invariant forall x :: x in pending ==> x in DefinitionIds(defs)
      invariant diagnostics == DiagnosticsOf(trace)
      decreases |pending|
    {
      var ready := Ready(defs, pending, pending);
      if ready == [] {
        break;
      }
      ghost var done0, pending0 := trace, pending;
      trace, pending, variables, diagnostics :=
        EvaluateRound(defs, variableIds, trace, pending, ready, answers, variables, host, diagnostics);
      RoundIsInOrder(defs, done0, pending0, trace, pending);
      InOrderKnows(defs, trace, pending);
    }
    ghost var done := trace;
    WellParsedIsDistinct(defs, variableIds);
    StuckCompletes(defs, trace, pending, answers, variables, host);
    EmptyRoundEnds(defs, trace, pending);
    OrderedWhenStuck(defs, trace, pending, answers, variables, host);
    trace, diagnostics := ReportCycles(defs, Strings.Sort(pending), trace, diagnostics);
  }

  lemma InOrderKnows(defs: seq<Definition>, done: seq<TraceEntry>, pending: seq<string>)
    requires InOrder(defs, done, pending)
    ensures forall x :: x in pending ==> x in DefinitionIds(defs)
  {
  }

  lemma WellParsedIsDistinct(defs: seq<Definition>, variableIds: set<string>)
    requires WellParsed(defs, variableIds)
    ensures NoDuplicates(IdsOf(defs))
  {
  }

  lemma NothingDone(defs: seq<Definition>, variableIds: set<string>, answers: Context, host: Host)
    requires WellParsed(defs, variableIds)
    ensures forall x :: x in IdsOf(defs) <==> x in DefinitionIds(defs)
    ensures Progress(defs, [], IdsOf(defs), answers, map[], host) && InOrder(defs, [], IdsOf(defs))
    ensures DiagnosticsOf([]) == []
  {
    hide RoundOrder, NeverReady, Settled, Edge, Reports, DependenciesOver, DefinitionIds, IdsOf;
    DistinctIdsDistinctDefinitions(defs);
    assert TraceIds([]) == [];
    assert [] + RoundOrder(defs, IdsOf(defs)) == RoundOrder(defs, IdsOf(defs));
  }

  lemma OrderedWhenStuck(
    defs: seq<Definition>, done: seq<TraceEntry>, pending: seq<string>, answers: Context, variables: Context,
    host: Host)
    requires Progress(defs, done, pending, answers, variables, host) && InOrder(defs, done, pending)
    requires forall x :: x in pending ==> x in DefinitionIds(defs)
    requires TraceIds(done) == RoundOrder(defs, IdsOf(defs)) && pending == NeverReady(defs, IdsOf(defs))
    ensures TraceIsOrdered(defs, done + CycleEntries(defs, Strings.Sort(pending)))
  {
    hide RoundOrder, NeverReady;
    var ids := Strings.Sort(pending);
    var cycles := CycleEntries(defs, ids);
    TraceIdsAppend(done, cycles);
    assert TraceIds(cycles) == ids;
    forall i | 0 <= i < |done + cycles|
      ensures (done + cycles)[i].verdict.Cycle? <==> i >= |TraceIds(done)|
    {
    }
  }

  /** What is still pending is reported as cyclic, one variable at a time. */
  method ReportCycles(
    defs: seq<Definition>, ids: seq<string>, trace0: seq<TraceEntry>, diagnostics0: seq<AdaptiveDiagnostic>)
    returns (trace: seq<TraceEntry>, diagnostics: seq<AdaptiveDiagnostic>)
    requires forall x :: x in ids ==> x in DefinitionIds(defs)
    requires diagnostics0 == DiagnosticsOf(trace0)
    ensures trace == trace0 + CycleEntries(defs, ids) && diagnostics == DiagnosticsOf(trace)
  {
    hide DiagnosticsOf;
    trace, diagnostics := trace0, diagnostics0;
    for k := 0 to |ids|
      invariant trace == trace0 + CycleEntries(defs, ids)[..k] && diagnostics == DiagnosticsOf(trace)
    {
      var definition := DefinitionOf(defs, ids[k]);
      var entry := TraceEntry(ids[k], definition.expression, definition.dependencies, Cycle);
      NextDiagnostic(trace, entry);
      diagnostics := diagnostics + [CalculationCycle(ids[k])];
      trace := trace + [entry];
      assert CycleEntries(defs, ids)[..k + 1] == CycleEntries(defs, ids)[..k] + [entry];
    }
    assert CycleEntries(defs, ids)[..|ids|] == CycleEntries(defs, ids);
  }

  /** One ready variable is evaluated and traced. */
  method EvaluateOne(
    defs: seq<Definition>, variableIds: set<string>, done0: seq<TraceEntry>, pending0: seq<string>, id: string,
    answers: Context, variables0: Context, host: Host, diagnostics0: seq<AdaptiveDiagnostic>)
    returns (
      done: seq<TraceEntry>, pending: seq<string>, variables: Context, diagnostics: seq<AdaptiveDiagnostic>)
    requires WellParsed(defs, variableIds) && Progress(defs, done0, pending0, answers, variables0, host)
    requires id in pending0 && id in DefinitionIds(defs) && forall y :: Edge(defs, id, y) ==> y in TraceIds(done0)
    requires diagnostics0 == DiagnosticsOf(done0)
    ensures Progress(defs, done, pending, answers, variables, host)
    ensures TraceIds(done) == TraceIds(done0) + [id] && pending == Without(pending0, id)
    ensures diagnostics == DiagnosticsOf(done)
  {
    hide Progress, WellParsed, DiagnosticsOf;
    EvaluationProgresses(defs, variableIds, done0, pending0, answers, variables0, host, id);
    var definition := DefinitionOf(defs, id);
    var value := Evaluate(definition.node, answers + variables0, host);
    pending := Without(pending0, id);
    variables := if value.Ok? then variables0[id := value.value] else variables0;
    var verdict := if value.Ok? then Calculated(value.value) else Failed;
    var entry := TraceEntry(id, definition.expression, definition.dependencies, verdict);
    done := done0 + [entry];
    diagnostics := if value.Ok? then diagnostics0 else diagnostics0 + [CalculationFailed(id)];
    NextDiagnostic(done0, entry);
    TraceIdsAppend(done0, [entry]);
  }

  /** One round: the ready variables are evaluated in ID order. */
  method EvaluateRound(
    defs: seq<Definition>, variableIds: set<string>, done0: seq<TraceEntry>, pending0: seq<string>, ready: seq<string>,
    answers: Context, variables0: Context, host: Host, diagnostics0: seq<AdaptiveDiagnostic>)
    returns (
      done: seq<TraceEntry>, pending: seq<string>, variables: Context, diagnostics: seq<AdaptiveDiagnostic>)
    requires WellParsed(defs, variableIds) && Progress(defs, done0, pending0, answers, variables0, host)
    requires forall x :: x in pending0 ==> x in DefinitionIds(defs)
    requires ready == Ready(defs, pending0, pending0) && ready != []
    requires diagnostics0 == DiagnosticsOf(done0)
    ensures Progress(defs, done, pending, answers, variables, host)
    ensures TraceIds(done) == TraceIds(done0) + Strings.Sort(ready)
    ensures pending == WithoutAll(pending0, Strings.Sort(ready))
    ensures diagnostics == DiagnosticsOf(done)
  {
    hide DiagnosticsOf, Progress, WellParsed, IsReady, WithoutAll;
    done, pending, variables, diagnostics := done0, pending0, variables0, diagnostics0;
    var ids := Strings.Sort(ready);
    RoundIsDistinct(defs, done0, pending0, answers, variables0, host);
    assert WithoutAll(pending0, []) == pending0 by { WithoutNone(pending0); }
    for k := 0 to |ids|
      invariant Progress(defs, done, pending, answers, variables, host)
      invariant TraceIds(done) == TraceIds(done0) + ids[..k]
      invariant pending == WithoutAll(pending0, ids[..k])
      invariant diagnostics == DiagnosticsOf(done)
    {
      var id := ids[k];
      WithoutNext(pending0, ids, k);
      ReadyNow(defs, variableIds, done0, pending0, answers, variables0, host, id);
      done, pending, variables, diagnostics :=
        EvaluateOne(defs, variableIds, done, pending, id, answers, variables, host, diagnostics);
    }
    assert ids[..|ids|] == ids;
  }

  lemma WithoutNone(xs: seq<string>)
    ensures WithoutAll(xs, []) == xs
  {
  }

  lemma WithoutNext(xs: seq<string>, ids: seq<string>, k: nat)
    requires k < |ids| && NoDuplicates(ids)
    ensures ids[..k + 1] == ids[..k] + [ids[k]] && ids[k] in ids && ids[k] !in ids[..k]
    ensures WithoutAll(xs, ids[..k + 1]) == Without(WithoutAll(xs, ids[..k]), ids[k])
  {
    assert ids[..k + 1][..k] == ids[..k];
  }

  lemma RoundIsDistinct(
    defs: seq<Definition>, done: seq<TraceEntry>, pending: seq<string>, answers: Context, variables: Context,
    host: Host)
    requires Progress(defs, done, pending, answers, variables, host)
    requires forall x :: x in pending ==> x in DefinitionIds(defs)
    ensures NoDuplicates(Strings.Sort(Ready(defs, pending, pending)))
  {
    ReadyKeepsDistinct(defs, pending, pending);
    SortedPending(Ready(defs, pending, pending));
  }

  lemma ReadyNow(
    defs: seq<Definition>, variableIds: set<string>, done: seq<TraceEntry>, pending: seq<string>, answers: Context,
    variables: Context, host: Host, id: string)
    requires WellParsed(defs, variableIds) && Progress(defs, done, pending, answers, variables, host)
    requires id in DefinitionIds(defs) && IsReady(defs, pending, id)
    ensures forall y :: Edge(defs, id, y) ==> y in TraceIds(done)
  {
    ReadyDependenciesAreTraced(defs, done, pending, id);
  }

  lemma ReadyDependenciesAreTraced(defs: seq<Definition>, done: seq<TraceEntry>, pending: seq<string>, id: string)
    requires NoDuplicates(IdsOf(defs)) && id in DefinitionIds(defs) && IsReady(defs, pending, id)
    requires forall x :: x in DefinitionIds(defs) <==> x in TraceIds(done) || x in pending
    ensures forall y :: Edge(defs, id, y) ==> y in TraceIds(done)
  {
    DistinctIdsDistinctDefinitions(defs);
    forall y | Edge(defs, id, y)
      ensures y in TraceIds(done)
    {
      var d :| d in defs && d.id == id && y in d.dependencies;
      assert d == DefinitionOf(defs, id);
    }
  }

  // ----- Whole surveys -----

  ghost predicate DistinctVariables(variables: seq<Variable>) {
    forall i, j :: 0 <= i < j < |variables| ==> variables[i].externalId != variables[j].externalId
  }

  ghost predicate Defines(d: Definition, v: Variable, variableIds: set<string>) {
    IsCalculated(v) &&
    var parsed := Parser.ParseExpression(v.calculation.value);
    parsed.Ok?
    && d == Definition(v.externalId, v.calculation.value, parsed.value, DependenciesOf(parsed.value, variableIds))
  }

  /** With distinct IDs, every calculated variable is either defined or a failure, once. */
  lemma {:induction false} ParsedOnce(variables: seq<Variable>, variableIds: set<string>)
    requires DistinctVariables(variables)
    ensures var parsed := ParseAll(variables, variableIds);
            NoDuplicates(IdsOf(parsed.defs)) && NoDuplicates(TraceIds(parsed.failures)) &&
            (forall x :: x in IdsOf(parsed.defs) ==> x !in TraceIds(parsed.failures)) &&
            (forall x :: x in CalculatedIds(variables)
                <==> x in IdsOf(parsed.defs) || x in TraceIds(parsed.failures)) &&
            (forall d :: d in parsed.defs <==> exists v :: v in variables && Defines(d, v, variableIds))
  {
    if variables != [] {
      var front, v := variables[..|variables| - 1], variables[|variables| - 1];
      assert variables == front + [v];
      ParsedOnce(front, variableIds);
      var before := ParseAll(front, variableIds);
      var after := ParseAll(variables, variableIds);
      assert v.externalId !in CalculatedIds(front);
      CalculatedIdsAppend(front, v);
      if IsCalculated(v) {
        var parsed := Parser.ParseExpression(v.calculation.value);
        if parsed.Ok? {
          var d := Definition(v.externalId, v.calculation.value,
            parsed.value, DependenciesOf(parsed.value, variableIds));
          PutNew(before.defs, d);
          assert IdsOf(after.defs) == IdsOf(before.defs) + [d.id];
          NoDuplicatesAppend(IdsOf(before.defs), [d.id]);
          assert Defines(d, v, variableIds);
        } else {
          var entry := TraceEntry(v.externalId, v.calculation.value, [], Failed);
          TraceIdsAppend(before.failures, [entry]);
          assert TraceIds([entry]) == [v.externalId];
          NoDuplicatesAppend(TraceIds(before.failures), [v.externalId]);
        }
      }
    }
  }

  lemma CalculatedIdsAppend(front: seq<Variable>, v: Variable)
    ensures CalculatedIds(front + [v]) == CalculatedIds(front) + (if IsCalculated(v) then {v.externalId} else {})
  {
    var all := front + [v];
    assert forall w :: w in all <==> w in front || w == v;
  }

  lemma {:induction false} PutNew(defs: seq<Definition>, d: Definition)
    requires d.id !in IdsOf(defs)
    ensures Put(defs, d) == defs + [d]
  {
    if defs != [] {
      assert IdsOf(defs) == [defs[0].id] + IdsOf(defs[1..]);
      PutNew(defs[1..], d);
    }
  }

  /** Every calculated variable has exactly one trace entry, and nothing else has one. */
  lemma EveryVariableTracedOnce(declared: seq<Variable>, trace: seq<TraceEntry>, variables: Context)
    requires DistinctVariables(declared)
    requires var parsed := ParseAll(declared, CalculatedIds(declared));
             |parsed.failures| <= |trace| && trace[..|parsed.failures|] == parsed.failures &&
             TraceIsExact(parsed.defs, trace[|parsed.failures|..], variables)
    ensures NoDuplicates(TraceIds(trace))
    ensures forall x :: x in TraceIds(trace) <==> x in CalculatedIds(declared)
    ensures forall x :: x in TraceIds(trace) <==>
              exists v :: v in declared && v.externalId == x && v.calculation.Some? && v.calculation.value != ""
  {
    var parsed := ParseAll(declared, CalculatedIds(declared));
    var rest := trace[|parsed.failures|..];
    ParsedOnce(declared, CalculatedIds(declared));
    DistinctIdsDistinctDefinitions(parsed.defs);
    assert trace == parsed.failures + rest;
    TraceIdsAppend(parsed.failures, rest);
    NoDuplicatesAppend(TraceIds(parsed.failures), TraceIds(rest));
  }

  lemma {:induction false} WithoutAllKeepsDistinct(xs: seq<string>, ids: seq<string>)
    requires NoDuplicates(xs)
    ensures NoDuplicates(WithoutAll(xs, ids))
    decreases |ids|
  {
    if ids != [] {
      WithoutAllKeepsDistinct(xs, ids[..|ids| - 1]);
      WithoutKeepsDistinct(WithoutAll(xs, ids[..|ids| - 1]), ids[|ids| - 1]);
    }
  }

  /** The same definitions and pending variables, in whatever order, make the same round. */
  lemma SameRound(defs: seq<Definition>, others: seq<Definition>, p: seq<string>, q: seq<string>)
    requires DistinctDefinitions(defs) && forall d :: d in defs <==> d in others
    requires NoDuplicates(p) && NoDuplicates(q) && forall x :: x in p <==> x in q
    requires (forall x :: x in p ==> x in DefinitionIds(defs)) && forall x :: x in q ==> x in DefinitionIds(others)
    ensures Strings.Sort(Ready(defs, p, p)) == Strings.Sort(Ready(others, q, q))
  {
    hide Ready;
    var a, b := Ready(defs, p, p), Ready(others, q, q);
    ReadyKeepsDistinct(defs, p, p);
    ReadyKeepsDistinct(others, q, q);
    forall x | x in p
      ensures IsReady(defs, p, x) == IsReady(others, q, x)
    {
      assert DefinitionOf(defs, x) == DefinitionOf(others, x);
    }
    SameMembers(a, b);
    Strings.SortIsCanonical(a, b);
  }

  /** The order of the trace depends on neither the order of the definitions nor that of the pending variables. */
  lemma {:induction false} RoundOrderIsCanonical(
    defs: seq<Definition>, others: seq<Definition>, p: seq<string>, q: seq<string>)
    requires DistinctDefinitions(defs) && forall d :: d in defs <==> d in others
    requires NoDuplicates(p) && NoDuplicates(q) && forall x :: x in p <==> x in q
    requires (forall x :: x in p ==> x in DefinitionIds(defs)) && forall x :: x in q ==> x in DefinitionIds(others)
    ensures RoundOrder(defs, p) == RoundOrder(others, q)
    ensures Strings.Sort(NeverReady(defs, p)) == Strings.Sort(NeverReady(others, q))
    decreases |p|
  {
    hide Ready, WithoutAll, DistinctDefinitions;
    SameRound(defs, others, p, q);
    var round := Strings.Sort(Ready(defs, p, p));
    if round != [] {
      assert round[0] in p && round[0] in q;
      WithoutAllKeepsDistinct(p, round);
      WithoutAllKeepsDistinct(q, round);
      RoundOrderIsCanonical(defs, others, WithoutAll(p, round), WithoutAll(q, round));
    } else {
      SameMembers(p, q);
      Strings.SortIsCanonical(p, q);
    }
  }

  /** Permuting the declared variables leaves the trace unchanged, apart from the parse failures at its start. */
  lemma TraceDoesNotDependOnOrder(
    declared: seq<Variable>, permuted: seq<Variable>, a: seq<TraceEntry>, b: seq<TraceEntry>, variables: Context)
    requires DistinctVariables(declared) && DistinctVariables(permuted) && multiset(declared) == multiset(permuted)
    requires TraceIsOrdered(ParseAll(declared, CalculatedIds(declared)).defs, a)
    requires TraceIsOrdered(ParseAll(permuted, CalculatedIds(permuted)).defs, b)
    requires TraceIsExact(ParseAll(declared, CalculatedIds(declared)).defs, a, variables)
    requires TraceIsExact(ParseAll(permuted, CalculatedIds(permuted)).defs, b, variables)
    ensures a == b
  {
    hide ParseAll, RoundOrder, NeverReady;
    forall x
      ensures x in declared <==> x in permuted
    {
      assert x in declared <==> x in multiset(declared);
      assert x in permuted <==> x in multiset(permuted);
    }
    var ids := CalculatedIds(declared);
    assert ids == CalculatedIds(permuted);
    var defs, others := ParseAll(declared, ids).defs, ParseAll(permuted, ids).defs;
    ParsedOnce(declared, ids);
    ParsedOnce(permuted, ids);
    DistinctIdsDistinctDefinitions(defs);
    DistinctIdsDistinctDefinitions(others);
    RoundOrderIsCanonical(defs, others, IdsOf(defs), IdsOf(others));
    assert |TraceIds(a)| == |a| && |TraceIds(b)| == |b|;
    forall i | 0 <= i < |a|
      ensures a[i] == b[i]
    {
      assert TraceIds(a)[i] == a[i].id && TraceIds(b)[i] == b[i].id;
      SameReport(defs, others, a[i], b[i], variables);
    }
  }

  lemma SameReport(defs: seq<Definition>, others: seq<Definition>, a: TraceEntry, b: TraceEntry, variables: Context)
    requires DistinctDefinitions(defs) && forall d :: d in defs <==> d in others
    requires Reports(a, defs, variables) && Reports(b, others, variables)
    requires a.id == b.id && (a.verdict.Cycle? <==> b.verdict.Cycle?)
    ensures a == b
  {
    assert DefinitionOf(defs, a.id) == DefinitionOf(others, b.id);
  }

  /** Permuting the declared variables leaves the values of the calculated variables unchanged. */
  lemma DeclarationOrderDoesNotMatter(
    declared: seq<Variable>, permuted: seq<Variable>, answers: Context, v: Context, w: Context, host: Host)
    requires DistinctVariables(declared) && DistinctVariables(permuted) && multiset(declared) == multiset(permuted)
    requires Solution(ParseAll(declared, CalculatedIds(declared)).defs, answers, v, host)
    requires Solution(ParseAll(permuted, CalculatedIds(permuted)).defs, answers, w, host)
    ensures v == w
  {
    forall x
      ensures x in declared <==> x in permuted
    {
      assert x in declared <==> x in multiset(declared);
      assert x in permuted <==> x in multiset(permuted);
    }
    var ids := CalculatedIds(declared);
    assert ids == CalculatedIds(permuted);
    ParsedOnce(declared, ids);
    ParsedOnce(permuted, ids);
    ParsingIsWellFormed(declared, ids);
    DistinctIdsDistinctDefinitions(ParseAll(declared, ids).defs);
    OrderDoesNotMatter(ParseAll(declared, ids).defs, ParseAll(permuted, ids).defs, ids, answers, v, w, host);
  }

  /** Two variables that read each other are both reported as cycles, whatever else is declared. */
  lemma MutualReadersReachCycle(defs: seq<Definition>, x: string, y: string)
    requires Edge(defs, x, y) && Edge(defs, y, x)
    ensures ReachesCycle(defs, x) && ReachesCycle(defs, y)
  {
    var there, back := [x, y, x], [y, x, y];
    assert there[0] == there[2] && back[0] == back[2];
    assert Walk(defs, there) && Walk(defs, back);
  }
}
