/** Turning "show if" relevance into forward jump rules with a pruned rule list. */
module Routing {
  import opened Wrappers
  import opened Expressions
  import opened Payload
  import opened Runtime
  import opened Compiler
  import opened RelevanceCompiler
  import Parser
  import RelevanceText
  import Words

  /** The blocks to route, with each block's relevance and the questions available once it is done. */
  datatype Route = Route(
    blocks: seq<Block>, relevance: seq<string>, available: seq<set<string>>, endingId: string, c: RelevanceContext)

  datatype Routed = Routed(blocks: seq<Block>) | Mismatched | Failed(error: CompileError)

  ghost predicate Aligned(r: Route) {
    |r.blocks| == |r.relevance| == |r.available|
  }

  function RoutePath(from: nat, target: nat): string {
    "routing.block." + Words.Numeral(from) + ".target." + Words.Numeral(target)
  }

  function PrefixedContext(c: RelevanceContext, prefix: string): RelevanceContext {
    c.(createId := path => c.createId(prefix + "." + path))
  }

  function JumpRule(r: Route, from: nat, target: nat): Result<Rule, CompileError>
    requires target < |r.blocks| && target < |r.relevance|
  {
    var path := RoutePath(from, target);
    var conditions := CompileRelevance(r.relevance[target], PrefixedContext(r.c, path));
    if conditions.Err? then Err(conditions.error)
    else Ok(Jump(r.c.createId(path + ".rule"), conditions.value, r.c.createId(path + ".jump"), r.blocks[target].id))
  }

  datatype Plan = Plan(rules: seq<Rule>, fallback: string)

  type Planned = Result<Plan, CompileError>

  function WithRules(rules: seq<Rule>, rest: Planned): Planned {
    if rest.Err? then rest else Ok(Plan(rules + rest.value.rules, rest.value.fallback))
  }

  /** The rules and the fallback of a block, scanning targets from a position with some relevance texts seen. */
  function PlanFrom(r: Route, from: nat, target: nat, seen: set<string>): Planned
    requires Aligned(r) && from < |r.blocks|
    decreases |r.blocks| - target
  {
    if target >= |r.blocks| then Ok(Plan([], r.endingId))
    else
      var relevance := r.relevance[target];
      if RelevanceText.IsUnconditional(relevance) then Ok(Plan([], r.blocks[target].id))
      else if relevance in seen then PlanFrom(r, from, target + 1, seen)
      else
        match Parser.ParseExpression(relevance)
        case Err(error) => Err(InvalidExpression(error))
        case Ok(node) =>
          if !(References(node) <= r.available[from]) then PlanFrom(r, from, target + 1, seen)
          else
            var rule := JumpRule(r, from, target);
            if rule.Err? then Err(rule.error)
            else WithRules([rule.value], PlanFrom(r, from, target + 1, seen + {relevance}))
  }

  /** A block without rules stays as it is; rules come after the block's own logic. */
  function WithPlan(block: Block, plan: Plan): Block {
    if plan.rules == [] then block
    else block.(logic := block.logic + plan.rules, logicFallback := Some(plan.fallback))
  }

  function RouteUpTo(r: Route, n: nat): Result<seq<Block>, CompileError>
    requires Aligned(r) && n <= |r.blocks|
  {
    if n == 0 then Ok([])
    else
      var before := RouteUpTo(r, n - 1);
      if before.Err? then before
      else
        var plan := PlanFrom(r, n - 1, n, {});
        if plan.Err? then Err(plan.error) else Ok(before.value + [WithPlan(r.blocks[n - 1], plan.value)])
  }

  /** One block's scan of the blocks after it. */
  method PlanBlock(r: Route, from: nat) returns (planned: Planned)
    requires Aligned(r) && from < |r.blocks|
    ensures planned == PlanFrom(r, from, from + 1, {})
    ensures planned.Err? <==> exists t: nat :: Fault(r, from, t)
    ensures forall t: nat :: Fault(r, from, t) ==> planned == Err(FaultAt(r, t))
  {
    hide Fault, FaultAt, FaultFrom, Malformed;
    BlockFailsExactly(r, from);
    var rules: seq<Rule> := [];
    var seen: set<string> := {};
    NoRulesYet(PlanFrom(r, from, from + 1, seen));
    for target := from + 1 to |r.blocks|
      invariant PlanFrom(r, from, from + 1, {}) == WithRules(rules, PlanFrom(r, from, target, seen))
    {
      var relevance := r.relevance[target];
      assert rules + [] == rules;
      if RelevanceText.IsUnconditional(relevance) {
        return Ok(Plan(rules, r.blocks[target].id));
      }
      if relevance in seen {
        continue;
      }
      var parsed := Parser.ParseExpression(relevance);
      if parsed.Err? {
        return Err(InvalidExpression(parsed.error));
      }
      if !(References(parsed.value) <= r.available[from]) {
        continue;
      }
      var rule := JumpRule(r, from, target);
      if rule.Err? {
        return Err(rule.error);
      }
      AppendRule(rules, rule.value, PlanFrom(r, from, target + 1, seen + {relevance}));
      seen := seen + {relevance};
      rules := rules + [rule.value];
    }
    assert rules + [] == rules;
    planned := Ok(Plan(rules, r.endingId));
  }

  method ApplyAdaptiveSegmentRouting(r: Route) returns (routed: Routed)
    ensures !Aligned(r) ==> routed == Mismatched
    ensures Aligned(r) ==>
              routed == (match RouteUpTo(r, |r.blocks|) case Ok(blocks) => Routed(blocks) case Err(e) => Failed(e))
    ensures Aligned(r) ==>
              (routed.Failed? <==> exists from: nat, t: nat ::
                 from < t < |r.blocks| && AllConditional(r, from + 1, t) && Malformed(r, from, t))
    ensures Aligned(r) ==> forall from: nat, t: nat :: FirstFault(r, from, t) ==> routed == Failed(FaultAt(r, t))
  {
    hide PlanFrom, WithPlan, JumpRule, RouteUpTo, AllConditional, Malformed, FirstFault, FaultAt;
    if Aligned(r) { RoutingFailsExactly(r); }
    if |r.blocks| != |r.relevance| || |r.blocks| != |r.available| {
      return Mismatched;
    }
    var blocks: seq<Block> := [];
    NothingRouted(r);
    for from := 0 to |r.blocks|
      invariant RouteUpTo(r, from) == Ok(blocks)
    {
      NextRouted(r, from, blocks);
      var plan := PlanBlock(r, from);
      if plan.Err? {
        FailureStays(r, |r.blocks|, from + 1);
        return Failed(plan.error);
      }
      blocks := blocks + [WithPlan(r.blocks[from], plan.value)];
    }
    routed := Routed(blocks);
  }

  lemma NothingRouted(r: Route)
    requires Aligned(r)
    ensures RouteUpTo(r, 0) == Ok([])
  {
  }

  lemma NextRouted(r: Route, n: nat, blocks: seq<Block>)
    requires Aligned(r) && n < |r.blocks| && RouteUpTo(r, n) == Ok(blocks)
    ensures var plan := PlanFrom(r, n, n + 1, {});
            RouteUpTo(r, n + 1)
              == if plan.Err? then Err(plan.error) else Ok(blocks + [WithPlan(r.blocks[n], plan.value)])
  {
    hide PlanFrom, WithPlan;
  }

  lemma NoRulesYet(rest: Planned)
    ensures WithRules([], rest) == rest
  {
    assert rest.Ok? ==> [] + rest.value.rules == rest.value.rules;
  }

  lemma AppendRule(rules: seq<Rule>, rule: Rule, rest: Planned)
    ensures WithRules(rules, WithRules([rule], rest)) == WithRules(rules + [rule], rest)
  {
    if rest.Ok? {
      assert rules + ([rule] + rest.value.rules) == rules + [rule] + rest.value.rules;
    }
  }

  lemma {:induction false} FailureStays(r: Route, n: nat, m: nat)
    requires Aligned(r) && m <= n <= |r.blocks| && RouteUpTo(r, m).Err?
    ensures RouteUpTo(r, n) == RouteUpTo(r, m)
  {
    if m < n {
      FailureStays(r, n - 1, m);
    }
  }

  // ----- Condition IDs do not matter to the decision -----

  lemma {:induction false} IdsDoNotMatter(
    node: Node, c: RelevanceContext, d: RelevanceContext, p: string, q: string, s: Situation)
    requires c.resolve == d.resolve
    ensures CompileNode(node, c, p).Ok? == CompileNode(node, d, q).Ok?
    ensures CompileNode(node, c, p).Ok? ==>
              (Met(CompileNode(node, c, p).value, s) == Met(CompileNode(node, d, q).value, s)) &&
              CompileNode(node, c, p).value.ConditionGroup? == CompileNode(node, d, q).value.ConditionGroup?
    ensures CompileNode(node, c, p).Err? ==> CompileNode(node, d, q) == CompileNode(node, c, p)
  {
    hide ConditionHolds, LeftValue, IsNumericOperand;
    match node
    case Unary(uop, operand) =>
      if uop.Not? && !operand.Reference? && !IsEmptyCall(operand) {
        IdsDoNotMatter(operand, c, d, p + ".not", q + ".not", s);
      }
    case Binary(op, left, right) =>
      if op.And? || op.Or? {
        IdsDoNotMatter(left, c, d, p + ".left", q + ".left", s);
        IdsDoNotMatter(right, c, d, p + ".right", q + ".right", s);
        if CompileNode(node, c, p).Ok? {
          var k := if op.And? then AllOf else AnyOf;
          PairMet(c.createId(p + ".group"), k, CompileNode(left, c, p + ".left").value,
                  CompileNode(right, c, p + ".right").value, s);
          PairMet(d.createId(q + ".group"), k, CompileNode(left, d, q + ".left").value,
                  CompileNode(right, d, q + ".right").value, s);
        }
      }
    case _ =>
  }

  /** Whether a relevance text's compiled conditions are met, whatever IDs they carry. */
  ghost predicate Passes(relevance: string, c: RelevanceContext, s: Situation) {
    var compiled := CompileRelevance(relevance, c);
    compiled.Ok? && Met(compiled.value, s)
  }

  lemma PassesUnderAnyIds(relevance: string, c: RelevanceContext, d: RelevanceContext, s: Situation)
    requires c.resolve == d.resolve
    ensures CompileRelevance(relevance, c).Ok? == CompileRelevance(relevance, d).Ok?
    ensures Passes(relevance, c, s) == Passes(relevance, d, s)
    ensures CompileRelevance(relevance, c).Err? ==> CompileRelevance(relevance, d) == CompileRelevance(relevance, c)
  {
    var parsed := Parser.ParseExpression(RelevanceText.Trim(StripBraces(RelevanceText.Trim(relevance))));
    if parsed.Ok? {
      IdsDoNotMatter(parsed.value, c, d, "root", "root", s);
      if CompileNode(parsed.value, c, "root").Ok? {
        SingletonMet(c.createId("root.group"), CompileNode(parsed.value, c, "root").value, s);
        SingletonMet(d.createId("root.group"), CompileNode(parsed.value, d, "root").value, s);
      }
    }
  }

  // ----- The pruned rules against the naive scan -----

  ghost predicate ReferencesAvailable(r: Route, from: nat, target: nat)
    requires Aligned(r) && from < |r.blocks| && target < |r.blocks|
  {
    var references := RelevanceText.ReferencesOf(r.relevance[target]);
    references.Some? && references.value <= r.available[from]
  }

  /** The naive test: a target is open when it is unconditional, or can be decided here and passes. */
  ghost predicate Open(r: Route, from: nat, target: nat, s: Situation)
    requires Aligned(r) && from < |r.blocks| && target < |r.blocks|
  {
    RelevanceText.IsUnconditional(r.relevance[target])
    || (ReferencesAvailable(r, from, target) && Passes(r.relevance[target], r.c, s))
  }

  /** The least open target from a position on, or the number of blocks when there is none. */
  ghost function LeastOpen(r: Route, from: nat, target: nat, s: Situation): (k: nat)
    requires Aligned(r) && from < |r.blocks| && target <= |r.blocks|
    ensures target <= k <= |r.blocks|
    ensures k < |r.blocks| ==> Open(r, from, k, s)
    ensures forall j :: target <= j < k ==> !Open(r, from, j, s)
    decreases |r.blocks| - target
  {
    if target == |r.blocks| || Open(r, from, target, s) then target else LeastOpen(r, from, target + 1, s)
  }

  function TargetId(r: Route, k: nat): string
    requires k <= |r.blocks|
  {
    if k < |r.blocks| then r.blocks[k].id else r.endingId
  }

  /** What the runtime does with a plan: the first jump that is met, else the fallback. */
  ghost function PlanTarget(plan: Plan, s: Situation): string {
    var jump := FirstJump(plan.rules, s.responses, s.vars, s.env);
    if jump.Some? then jump.value else plan.fallback
  }

  /**
   * Skipping relevance texts already seen, and stopping at the first unconditional block, changes no
   * decision: in every situation the plan picks the least open target.
   */
  lemma {:induction false} PrunedPlanPicksLeastOpen(
    r: Route, from: nat, target: nat, seen: set<string>, plan: Plan, s: Situation)
    requires Aligned(r) && from < |r.blocks| && target <= |r.blocks|
    requires PlanFrom(r, from, target, seen) == Ok(plan)
    requires forall relevance :: relevance in seen ==> !Passes(relevance, r.c, s)
    ensures PlanTarget(plan, s) == TargetId(r, LeastOpen(r, from, target, s))
    decreases |r.blocks| - target
  {
    hide RelevanceText.IsUnconditional, CompileRelevance, EvaluateCondition, RoutePath;
    if target < |r.blocks| && !RelevanceText.IsUnconditional(r.relevance[target]) {
      var relevance := r.relevance[target];
      if relevance in seen || !ReferencesAvailable(r, from, target) {
        PrunedPlanPicksLeastOpen(r, from, target + 1, seen, plan, s);
      } else {
        var rest := PlanFrom(r, from, target + 1, seen + {relevance}).value;
        var rule := JumpRule(r, from, target).value;
        assert plan.rules == [rule] + rest.rules && plan.rules[1..] == rest.rules;
        var d := PrefixedContext(r.c, RoutePath(from, target));
        PassesUnderAnyIds(relevance, r.c, d, s);
        if !Passes(relevance, r.c, s) {
          PrunedPlanPicksLeastOpen(r, from, target + 1, seen + {relevance}, rest, s);
        }
      }
    }
  }

  // ----- When routing fails -----

  /** A target that cannot be turned into a rule: it does not parse, or is decidable but does not compile. */
  ghost predicate Malformed(r: Route, from: nat, target: nat)
    requires Aligned(r) && from < |r.blocks| && target < |r.blocks|
  {
    Parser.ParseExpression(r.relevance[target]).Err?
    || (ReferencesAvailable(r, from, target) && CompileRelevance(r.relevance[target], r.c).Err?)
  }

  ghost predicate AllConditional(r: Route, first: nat, last: nat)
    requires Aligned(r) && last < |r.blocks|
  {
    forall i :: first <= i <= last ==> !RelevanceText.IsUnconditional(r.relevance[i])
  }

  /** The first malformed target from a position on, with no unconditional block up to it. */
  ghost predicate FaultFrom(r: Route, from: nat, first: nat, target: nat)
    requires Aligned(r) && from < |r.blocks|
  {
    first <= target < |r.blocks| && AllConditional(r, first, target) && Malformed(r, from, target)
    && forall i :: first <= i < target ==> !Malformed(r, from, i)
  }

  ghost function FaultAt(r: Route, target: nat): CompileError
    requires Aligned(r) && target < |r.blocks|
  {
    match Parser.ParseExpression(r.relevance[target])
    case Err(error) => InvalidExpression(error)
    case Ok(_) =>
      var compiled := CompileRelevance(r.relevance[target], r.c);
      if compiled.Err? then compiled.error else UnsupportedExpression
  }

  /** A block's plan fails exactly at the first malformed target before the next unconditional block. */
  lemma {:induction false} PlanFailsExactly(r: Route, from: nat, target: nat, seen: set<string>)
    requires Aligned(r) && from < |r.blocks| && target <= |r.blocks|
    requires forall x :: x in seen ==> Parser.ParseExpression(x).Ok? && CompileRelevance(x, r.c).Ok?
    ensures PlanFrom(r, from, target, seen).Err? <==> exists t: nat :: FaultFrom(r, from, target, t)
    ensures forall t: nat :: FaultFrom(r, from, target, t) ==> PlanFrom(r, from, target, seen) == Err(FaultAt(r, t))
    decreases |r.blocks| - target
  {
    hide RelevanceText.IsUnconditional, CompileRelevance, RoutePath, Parser.ParseExpression, FaultFrom;
    if target == |r.blocks| || RelevanceText.IsUnconditional(r.relevance[target]) {
      NoFaultFrom(r, from, target);
    } else {
      var relevance := r.relevance[target];
      if Malformed(r, from, target) {
        assert relevance !in seen;
        MalformedStopsPlan(r, from, target, seen);
        OwnFault(r, from, target);
        assert FaultFrom(r, from, target, target);
      } else {
        var more := if ReferencesAvailable(r, from, target) then seen + {relevance} else seen;
        var next := target + 1;
        FaultGoesOn(r, from, target, next);
        PlanFailsExactly(r, from, next, more);
        WellFormedGoesOn(r, from, target, seen);
      }
    }
  }

  lemma BlockFailsExactly(r: Route, from: nat)
    requires Aligned(r) && from < |r.blocks|
    ensures PlanFrom(r, from, from + 1, {}).Err? <==> exists t: nat :: Fault(r, from, t)
    ensures forall t: nat :: Fault(r, from, t) ==> PlanFrom(r, from, from + 1, {}) == Err(FaultAt(r, t))
  {
    hide PlanFrom, FaultFrom, FaultAt;
    var next := from + 1;
    PlanFailsExactly(r, from, next, {});
    forall t: nat
      ensures Fault(r, from, t) <==> FaultFrom(r, from, next, t)
    {
    }
  }

  lemma NoFaultFrom(r: Route, from: nat, target: nat)
    requires Aligned(r) && from < |r.blocks| && target <= |r.blocks|
    requires target < |r.blocks| ==> RelevanceText.IsUnconditional(r.relevance[target])
    ensures forall t: nat :: !FaultFrom(r, from, target, t)
  {
    hide RelevanceText.IsUnconditional;
  }

  lemma OwnFault(r: Route, from: nat, target: nat)
    requires Aligned(r) && from < |r.blocks| && target < |r.blocks| && Malformed(r, from, target)
    requires !RelevanceText.IsUnconditional(r.relevance[target])
    ensures forall t: nat :: FaultFrom(r, from, target, t) <==> t == target
  {
    hide RelevanceText.IsUnconditional, Malformed;
  }

  lemma MalformedStopsPlan(r: Route, from: nat, target: nat, seen: set<string>)
    requires Aligned(r) && from < |r.blocks| && target < |r.blocks| && Malformed(r, from, target)
    requires !RelevanceText.IsUnconditional(r.relevance[target]) && r.relevance[target] !in seen
    ensures PlanFrom(r, from, target, seen) == Err(FaultAt(r, target))
  {
    hide RelevanceText.IsUnconditional, CompileRelevance, RoutePath, Parser.ParseExpression;
    CompilesUnderAnyIds(r, from, target);
  }

  lemma CompilesUnderAnyIds(r: Route, from: nat, target: nat)
    requires Aligned(r) && from < |r.blocks| && target < |r.blocks|
    ensures var compiled := CompileRelevance(r.relevance[target], r.c);
            JumpRule(r, from, target).Err? == compiled.Err? &&
            (compiled.Err? ==> JumpRule(r, from, target) == Err(compiled.error))
  {
    hide CompileRelevance, RoutePath;
    var anywhere := Situation(map[], map[], Environment([], [], "", Expressions.Host(n => "", s => None)));
    PassesUnderAnyIds(r.relevance[target], r.c, PrefixedContext(r.c, RoutePath(from, target)), anywhere);
  }

  lemma WellFormedGoesOn(r: Route, from: nat, target: nat, seen: set<string>)
    requires Aligned(r) && from < |r.blocks| && target < |r.blocks| && !Malformed(r, from, target)
    requires !RelevanceText.IsUnconditional(r.relevance[target])
    ensures var more := if ReferencesAvailable(r, from, target) then seen + {r.relevance[target]} else seen;
            PlanFrom(r, from, target, seen).Err? == PlanFrom(r, from, target + 1, more).Err? &&
            (PlanFrom(r, from, target, seen).Err? ==>
               PlanFrom(r, from, target, seen) == PlanFrom(r, from, target + 1, more))
  {
    hide RelevanceText.IsUnconditional, CompileRelevance, RoutePath, Parser.ParseExpression;
    CompilesUnderAnyIds(r, from, target);
    if r.relevance[target] in seen {
      assert seen + {r.relevance[target]} == seen;
    }
  }

  lemma FaultGoesOn(r: Route, from: nat, target: nat, next: nat)
    requires next == target + 1
    requires Aligned(r) && from < |r.blocks| && target < |r.blocks| && !Malformed(r, from, target)
    requires !RelevanceText.IsUnconditional(r.relevance[target])
    ensures forall t: nat :: FaultFrom(r, from, target, t) <==> FaultFrom(r, from, next, t)
  {
    hide RelevanceText.IsUnconditional, Malformed;
  }

  ghost predicate Fault(r: Route, from: nat, target: nat)
    requires Aligned(r)
  {
    from < |r.blocks| && FaultFrom(r, from, from + 1, target)
  }

  /** The first fault of the first block that has one. */
  ghost predicate FirstFault(r: Route, from: nat, target: nat)
    requires Aligned(r)
  {
    Fault(r, from, target) && forall i: nat, t: nat :: i < from ==> !Fault(r, i, t)
  }

  lemma {:induction false} RoutingFailsUpTo(r: Route, n: nat)
    requires Aligned(r) && n <= |r.blocks|
    ensures RouteUpTo(r, n).Err? <==> exists from: nat, t: nat :: from < n && Fault(r, from, t)
    ensures forall from: nat, t: nat :: from < n && FirstFault(r, from, t) ==> RouteUpTo(r, n) == Err(FaultAt(r, t))
  {
    hide PlanFrom, Fault, FaultAt;
    if n > 0 {
      RoutingFailsUpTo(r, n - 1);
      BlockFailsExactly(r, n - 1);
    }
  }

  /**
   * Routing fails exactly when, for some block, a conditional target before the next unconditional one does not
   * parse, or has all its references available and does not compile; the error is that of the first such fault.
   */
  lemma RoutingFailsExactly(r: Route)
    requires Aligned(r)
    ensures RouteUpTo(r, |r.blocks|).Err?
       <==> exists from: nat, t: nat ::
              from < t < |r.blocks| && AllConditional(r, from + 1, t) && Malformed(r, from, t)
    ensures forall from: nat, t: nat :: FirstFault(r, from, t) ==> RouteUpTo(r, |r.blocks|) == Err(FaultAt(r, t))
  {
    hide RouteUpTo, AllConditional, Malformed, FaultAt;
    RoutingFailsUpTo(r, |r.blocks|);
    if from: nat, t: nat :| from < t < |r.blocks| && AllConditional(r, from + 1, t) && Malformed(r, from, t) {
      var u := LeastMalformed(r, from, from + 1, t);
      assert Fault(r, from, u);
    }
  }

  lemma {:induction false} LeastMalformed(r: Route, from: nat, first: nat, t: nat) returns (u: nat)
    requires Aligned(r) && from < |r.blocks| && first <= t < |r.blocks| && Malformed(r, from, t)
    requires AllConditional(r, first, t)
    ensures FaultFrom(r, from, first, u)
    decreases t - first
  {
    hide Malformed, RelevanceText.IsUnconditional;
    if Malformed(r, from, first) {
      u := first;
    } else {
      u := LeastMalformed(r, from, first + 1, t);
    }
  }

  /** After successful routing, every conditional relevance that some block's scan reaches parses. */
  lemma ReachedRelevanceParses(r: Route, from: nat, target: nat)
    requires Aligned(r) && RouteUpTo(r, |r.blocks|).Ok?
    requires from < target < |r.blocks| && AllConditional(r, from + 1, target)
    ensures Parser.ParseExpression(r.relevance[target]).Ok?
    ensures ReferencesAvailable(r, from, target) ==> CompileRelevance(r.relevance[target], r.c).Ok?
  {
    hide RouteUpTo, AllConditional;
    RoutingFailsExactly(r);
    assert !Malformed(r, from, target);
  }

  // ----- The runtime on routed blocks -----

  lemma {:induction false} RoutedLength(r: Route, n: nat, blocks: seq<Block>)
    requires Aligned(r) && n <= |r.blocks| && RouteUpTo(r, n) == Ok(blocks)
    ensures |blocks| == n
  {
    if n > 0 {
      RoutedLength(r, n - 1, RouteUpTo(r, n - 1).value);
    }
  }

  lemma {:induction false} RoutedBlock(r: Route, n: nat, blocks: seq<Block>, i: nat)
    requires Aligned(r) && i < n <= |r.blocks| && RouteUpTo(r, n) == Ok(blocks)
    ensures |blocks| == n && PlanFrom(r, i, i + 1, {}).Ok?
    ensures blocks[i] == WithPlan(r.blocks[i], PlanFrom(r, i, i + 1, {}).value)
    ensures blocks[i].id == r.blocks[i].id && blocks[i].elements == r.blocks[i].elements
  {
    var before := RouteUpTo(r, n - 1).value;
    RoutedLength(r, n - 1, before);
    assert blocks[..n - 1] == before;
    if i < n - 1 {
      RoutedBlock(r, n - 1, before, i);
      assert blocks[i] == before[i];
    }
  }

  lemma {:induction false} OwnLogicNeverJumps(logic: seq<Rule>, rules: seq<Rule>, s: Situation)
    requires forall rule :: rule in logic ==> rule.Calculation?
    ensures FirstJump(logic + rules, s.responses, s.vars, s.env) == FirstJump(rules, s.responses, s.vars, s.env)
  {
    if logic == [] {
      assert logic + rules == rules;
    } else {
      assert logic[0] in logic && forall rule :: rule in logic[1..] ==> rule in logic;
      assert (logic + rules)[0] == logic[0] && (logic + rules)[1..] == logic[1..] + rules;
      OwnLogicNeverJumps(logic[1..], rules, s);
    }
  }

  /** Compiled segments: some element to show, only calculations before routing, and one route's parts. */
  ghost predicate Routable(r: Route, payload: Payload) {
    Aligned(r) && payload.endings != [] && payload.endings[0] == r.endingId &&
    RouteUpTo(r, |r.blocks|) == Ok(payload.blocks) &&
    (forall i :: 0 <= i < |r.blocks| ==> r.blocks[i].elements != [] && r.blocks[i].logicFallback == None) &&
    (forall i, rule :: 0 <= i < |r.blocks| && rule in r.blocks[i].logic ==> rule.Calculation?)
  }

  /** Every block that follows directly can be decided on the spot. */
  ghost predicate NextIsDecidable(r: Route, from: nat)
    requires Aligned(r) && from < |r.blocks|
  {
    (from + 1 < |r.blocks| && !RelevanceText.IsUnconditional(r.relevance[from + 1])) ==>
      ReferencesAvailable(r, from, from + 1)
  }

  lemma {:induction false} PlanOfDecidable(r: Route, from: nat, plan: Plan)
    requires Aligned(r) && from < |r.blocks| && PlanFrom(r, from, from + 1, {}) == Ok(plan)
    requires NextIsDecidable(r, from) && plan.rules == []
    ensures from + 1 < |r.blocks| ==> RelevanceText.IsUnconditional(r.relevance[from + 1])
  {
  }

  ghost function NextOf(payload: Payload, from: nat, s: Situation): Option<string>
    requires from < |payload.blocks|
  {
    NextBlockId(payload, from, s.responses, s.vars, s.env)
  }

  lemma RoutingKeepsIds(r: Route, payload: Payload)
    requires Routable(r, payload)
    ensures |payload.blocks| == |r.blocks|
    ensures forall i :: 0 <= i < |r.blocks| ==> payload.blocks[i].id == r.blocks[i].id
    ensures forall i :: 0 <= i < |r.blocks| ==> payload.blocks[i].elements == r.blocks[i].elements
  {
    RoutedLength(r, |r.blocks|, payload.blocks);
    forall i | 0 <= i < |r.blocks|
      ensures payload.blocks[i].id == r.blocks[i].id && payload.blocks[i].elements == r.blocks[i].elements
    {
      RoutedBlock(r, |r.blocks|, payload.blocks, i);
    }
  }

  /** A block without rules goes on to the block after it, or to the ending. */
  lemma NextWithoutRules(r: Route, payload: Payload, from: nat, s: Situation)
    requires Routable(r, payload) && from < |r.blocks| == |payload.blocks|
    requires payload.blocks[from] == r.blocks[from]
    ensures NextOf(payload, from, s) == Some(TargetId(r, from + 1))
  {
    hide RouteUpTo, HasAnsweredConditionInputs, BlockExists;
    RoutingKeepsIds(r, payload);
    assert r.blocks[from].logic + [] == r.blocks[from].logic;
    OwnLogicNeverJumps(r.blocks[from].logic, [], s);
    if from + 1 < |r.blocks| {
      assert payload.blocks[from + 1].elements == r.blocks[from + 1].elements;
    }
  }

  /** A block with rules takes the first rule that is met, else its fallback. */
  lemma NextWithRules(r: Route, payload: Payload, from: nat, plan: Plan, s: Situation)
    requires Routable(r, payload) && from < |r.blocks| == |payload.blocks|
    requires payload.blocks[from] == WithPlan(r.blocks[from], plan) && plan.rules != []
    requires plan.fallback == r.endingId || exists i :: 0 <= i < |r.blocks| && r.blocks[i].id == plan.fallback
    ensures NextOf(payload, from, s) == Some(PlanTarget(plan, s))
  {
    hide RouteUpTo, HasAnsweredConditionInputs, EvaluateCondition, NextContent;
    RoutingKeepsIds(r, payload);
    OwnLogicNeverJumps(r.blocks[from].logic, plan.rules, s);
    if plan.fallback != r.endingId {
      var i :| 0 <= i < |r.blocks| && r.blocks[i].id == plan.fallback;
      assert payload.blocks[i].id == plan.fallback;
    } else {
      assert payload.endings[0] in payload.endings;
    }
  }

  /**
   * After submitting a block, the runtime goes to the least later block that is unconditional, or whose
   * references are available and whose relevance is met, and to the ending when there is none.
   */
  lemma RuntimePicksLeastOpen(r: Route, payload: Payload, from: nat, s: Situation)
    requires Routable(r, payload) && from < |r.blocks| && |payload.blocks| == |r.blocks|
    requires NextIsDecidable(r, from)
    ensures NextOf(payload, from, s) == Some(TargetId(r, LeastOpen(r, from, from + 1, s)))
  {
    hide RouteUpTo, PlanFrom, Passes, NextOf, TargetId, PlanTarget;
    RoutedBlock(r, |r.blocks|, payload.blocks, from);
    var plan := PlanFrom(r, from, from + 1, {}).value;
    if plan.rules == [] {
      PlanOfDecidable(r, from, plan);
      NextWithoutRules(r, payload, from, s);
    } else {
      PrunedPlanPicksLeastOpen(r, from, from + 1, {}, plan, s);
      FallbackExists(r, from, from + 1, {}, plan);
      NextWithRules(r, payload, from, plan, s);
    }
  }

  lemma {:induction false} FallbackExists(r: Route, from: nat, target: nat, seen: set<string>, plan: Plan)
    requires Aligned(r) && from < |r.blocks| && PlanFrom(r, from, target, seen) == Ok(plan)
    ensures plan.fallback == r.endingId || exists i :: 0 <= i < |r.blocks| && r.blocks[i].id == plan.fallback
    decreases |r.blocks| - target
  {
    if target < |r.blocks| && !RelevanceText.IsUnconditional(r.relevance[target]) {
      var relevance := r.relevance[target];
      if relevance in seen || !ReferencesAvailable(r, from, target) {
        FallbackExists(r, from, target + 1, seen, plan);
      } else {
        FallbackExists(r, from, target + 1, seen + {relevance},
                       PlanFrom(r, from, target + 1, seen + {relevance}).value);
      }
    }
  }
}
