/** Relevance that reads an equation question: it decides on the value of the variable that the equation writes. */
module EquationRelevance {
  import opened Wrappers
  import opened Expressions
  import opened Survey
  import opened Payload
  import opened Runtime
  import opened Compiler
  import opened RelevanceCompiler
  import opened SurveyReferences
  import opened LeafAgreement
  import opened RelevancePreservation
  import opened Segments
  import opened SurveySegments
  import opened CompiledSurvey
  import Responding
  import opened Variables
  import Ids
  import Parser
  import Routing
  import SegmentConservation
  import Sorting
  import Validation

  function EquationId(survey: CanonicalSurvey, q: Question): string {
    Ids.EquationVariableId(survey.externalId, q.externalId)
  }

  /** What the runtime holds for an equation: its variable's number, or zero where nothing was calculated. */
  function EquationValue(survey: CanonicalSurvey, q: Question, s: Situation): Value {
    var id := EquationId(survey, q);
    var n := if id in s.vars then NumberOf(s.vars[id], s.env.host) else None;
    Num(if n.Some? then n.value else 0.0)
  }

  /** The runtime knows the equation's variable as a number. */
  ghost predicate Declares(survey: CanonicalSurvey, q: Question, s: Situation) {
    VariableWithId(s.env.variables, EquationId(survey, q)) == Some(PayloadVariable(EquationId(survey, q), true))
  }

  ghost predicate IsEquationQuestion(survey: CanonicalSurvey, q: Question) {
    QuestionNamed(survey.questions, q.externalId) == Some(q) && q.kind.Equation?
  }

  /** What a condition on an equation question reads. */
  lemma EquationIsRead(survey: CanonicalSurvey, q: Question, s: Situation)
    requires IsEquationQuestion(survey, q) && Declares(survey, q, s)
    ensures Resolve(survey, s.env.host, q.externalId).Ok?
    ensures var operand := Resolve(survey, s.env.host, q.externalId).value.operand;
            LeftValue(operand, s.responses, s.vars, s.env) == Some(EquationValue(survey, q, s)) &&
            IsNumericOperand(operand, s.env) && operand == VariableOperand(EquationId(survey, q))
  {
  }

  /**
   * A comparison with an equation question, in either operand order, is met exactly as it evaluates on the
   * variable's value, if and only if the runtime's coercion of a text literal makes no difference.
   */
  lemma EquationComparisonExactly(
    survey: CanonicalSurvey, q: Question, node: Node, createId: string -> string, path: string, answers: Context,
    s: Situation)
    requires IsEquationQuestion(survey, q) && Declares(survey, q, s)
    requires IsPlainComparison(node) && ComparedName(node) == q.externalId
    requires q.externalId in answers && answers[q.externalId] == EquationValue(survey, q, s)
    requires CompileNode(node, ContextOf(survey, s.env.host, createId), path).Ok?
    ensures Met(CompileNode(node, ContextOf(survey, s.env.host, createId), path).value, s)
              == EvaluatesTruthily(node, answers, s.env.host)
       <==> AnswerComparisonSafe(q, ComparedOp(node), ComparedLiteral(node), EquationValue(survey, q, s), s.env.host)
    ensures ComparedLiteral(node).Num? ==>
              AnswerComparisonSafe(q, ComparedOp(node), ComparedLiteral(node), EquationValue(survey, q, s), s.env.host)
  {
    hide EquationId, LeftValue, IsNumericOperand, QuestionNamed;
    EquationIsRead(survey, q, s);
    ComparisonEvaluates(node, answers, s.env.host);
    EquationConditionCompiled(survey, q, node, createId, path, s);
    NumberCondition(q, ComparedOp(node), ComparedLiteral(node), EquationValue(survey, q, s), s.env.host);
  }

  lemma EquationConditionCompiled(
    survey: CanonicalSurvey, q: Question, node: Node, createId: string -> string, path: string, s: Situation)
    requires IsEquationQuestion(survey, q) && Declares(survey, q, s)
    requires IsPlainComparison(node) && ComparedName(node) == q.externalId
    requires CompileNode(node, ContextOf(survey, s.env.host, createId), path).Ok?
    ensures IsComparison(ComparedOp(node)) && (ComparedLiteral(node).Str? || ComparedLiteral(node).Num?)
    ensures Met(CompileNode(node, ContextOf(survey, s.env.host, createId), path).value, s)
         == ConditionHolds(ComparisonOperator(ComparedOp(node)), true, Some(EquationValue(survey, q, s)),
                           Some(ComparedLiteral(node)), s.env.host)
  {
    hide EquationId, LeftValue, IsNumericOperand, QuestionNamed, ConditionHolds;
    EquationIsRead(survey, q, s);
  }

  lemma NumberCondition(q: Question, op: BinaryOp, literal: Value, value: Value, host: Host)
    requires q.kind.Equation? && IsComparison(op) && (literal.Str? || literal.Num?) && value.Num?
    ensures ConditionHolds(ComparisonOperator(op), true, Some(value), Some(literal), host)
              == AppliesTruthily(op, value, literal, host)
       <==> AnswerComparisonSafe(q, op, literal, value, host)
    ensures literal.Num? ==> AnswerComparisonSafe(q, op, literal, value, host)
  {
  }

  /** A presence test of an equation question is always answered; it agrees with truthiness exactly off zero. */
  lemma EquationPresenceExactly(
    survey: CanonicalSurvey, q: Question, node: Node, createId: string -> string, path: string, answers: Context,
    s: Situation)
    requires IsEquationQuestion(survey, q) && Declares(survey, q, s)
    requires IsPresenceTest(node) && TestedName(node) == q.externalId
    requires q.externalId in answers && answers[q.externalId] == EquationValue(survey, q, s)
    ensures var c := ContextOf(survey, s.env.host, createId);
            CompileNode(node, c, path).Ok? && CompileNode(Unary(Not, node), c, path).Ok? &&
            (Met(CompileNode(node, c, path).value, s) == EvaluatesTruthily(node, answers, s.env.host)
             <==> PresenceSafe(q, EquationValue(survey, q, s))) &&
            (Met(CompileNode(Unary(Not, node), c, path).value, s)
               == EvaluatesTruthily(Unary(Not, node), answers, s.env.host)
             <==> PresenceSafe(q, EquationValue(survey, q, s)))
  {
    hide EquationId, LeftValue, IsNumericOperand, QuestionNamed;
    EquationIsRead(survey, q, s);
    var a := Reference(q.externalId, []);
    var c := ContextOf(survey, s.env.host, createId);
    assert node.Reference? ==> node == a;
    assert node.Call? ==> node.args[0] == a && Argument(node) == a;
    assert Evaluate(a, answers, s.env.host) == Ok(answers[q.externalId]);
    PresenceConditions(true, Some(EquationValue(survey, q, s)), s.env.host);
    assert CompilePresence(a, IsSubmitted, c, path).Ok? && CompilePresence(a, IsSkipped, c, path).Ok?;
  }

  // ----- The variable that is read is declared, as a number -----

  lemma {:induction false} FirstRequestDecides(survey: string, requests: seq<Request>, id: string)
    requires exists r :: r in requests && VariableId(survey, r) == id
    requires forall r :: r in requests && VariableId(survey, r) == id ==> r.isNumber
    ensures VariableWithId(Declared(survey, requests), id) == Some(PayloadVariable(id, true))
  {
    var front, last := requests[..|requests| - 1], requests[|requests| - 1];
    assert requests == front + [last];
    DeclaredOnce(survey, front);
    if exists r :: r in front && VariableId(survey, r) == id {
      FirstRequestDecides(survey, front, id);
      if |Declared(survey, requests)| > |Declared(survey, front)| {
        FoundStays(Declared(survey, front), PayloadVariable(VariableId(survey, last), last.isNumber), id);
      }
    } else {
      assert VariableId(survey, last) == id;
      FoundLast(Declared(survey, front), PayloadVariable(id, true));
    }
  }

  lemma {:induction false} FoundStays(variables: seq<PayloadVariable>, v: PayloadVariable, id: string)
    requires VariableWithId(variables, id).Some?
    ensures VariableWithId(variables + [v], id) == VariableWithId(variables, id)
  {
    assert (variables + [v])[0] == variables[0];
    if variables[0].id != id {
      assert (variables + [v])[1..] == variables[1..] + [v];
      FoundStays(variables[1..], v, id);
    }
  }

  lemma {:induction false} FoundLast(variables: seq<PayloadVariable>, v: PayloadVariable)
    requires v.id !in DeclaredIds(variables)
    ensures VariableWithId(variables + [v], v.id) == Some(v)
  {
    if variables == [] {
      assert [] + [v] == [v];
    } else {
      assert DeclaredIds(variables)[0] == variables[0].id;
      assert (variables + [v])[1..] == variables[1..] + [v];
      assert forall i :: 0 <= i < |variables| - 1 ==> DeclaredIds(variables[1..])[i] == DeclaredIds(variables)[i + 1];
      FoundLast(variables[1..], v);
    }
  }

  lemma {:induction false} EquationRequestsAreNumbers(questions: seq<Question>, q: Question)
    ensures forall r :: r in EquationRequests(questions) ==> r.isNumber
    ensures q in questions && q.kind.Equation? ==> Request(q.externalId, true) in EquationRequests(questions)
  {
    if questions != [] {
      EquationRequestsAreNumbers(questions[1..], q);
    }
  }

  lemma {:induction false} ReferenceRequestsAreNumbers(survey: CanonicalSurvey, sources: seq<string>)
    ensures forall r :: r in ReferenceRequests(survey, sources) ==> r.isNumber
  {
    if sources != [] {
      ReferenceRequestsAreNumbers(survey, sources[1..]);
    }
  }

  lemma {:induction false} GroupRequestsAreNumbers(survey: CanonicalSurvey, questions: seq<Question>)
    ensures forall r :: r in GroupRequests(survey, questions) ==> r.isNumber
  {
    if questions != [] {
      GroupRequestsAreNumbers(survey, questions[1..]);
      var q := questions[0];
      if q.kind.Equation? && HasCalculation(q) && Parser.ParseExpression(q.calculation.value).Ok? {
        ReferenceRequestsAreNumbers(survey, Distinct(Sources(Parser.ParseExpression(q.calculation.value).value)));
      }
    }
  }

  lemma {:induction false} BlockRequestsAreNumbers(survey: CanonicalSurvey, groups: seq<Group>)
    ensures forall r :: r in BlockRequests(survey, groups) ==> r.isNumber
  {
    hide GroupRequests, GroupQuestions;
    if groups != [] {
      BlockRequestsAreNumbers(survey, groups[1..]);
      GroupRequestsAreNumbers(survey, GroupQuestions(survey, groups[0].externalId));
    }
  }

  /** In a clean survey no declared variable shares the ID of an equation question's variable. */
  lemma VariableIsNotEquation(survey: CanonicalSurvey, q: Question, v: Variable)
    requires Validation.CleanlyValidated(survey) && q in survey.questions && v in survey.variables
    ensures Ids.EquationVariableId(survey.externalId, v.externalId) != EquationId(survey, q)
  {
    hide Ids.Encodable, Ids.EquationVariableId, Validation.CleanReferences;
    Validation.CleanSurveyIsDistinct(survey);
    Validation.CleanSurveyIsIdentified(survey);
    Validation.ListedIds(survey);
    var s := survey.externalId;
    assert v.externalId in Validation.AllIds(survey);
    Ids.ExternalIdsAreEncodable(v.externalId);
    if Ids.EquationVariableId(s, v.externalId) == EquationId(survey, q) {
      Ids.CompiledIdsDecodeUniquely(Ids.EquationVariable(s, v.externalId), Ids.EquationVariable(s, q.externalId));
    }
  }

  /** The payload of a clean survey declares every equation question's variable, as a number. */
  lemma EquationIsDeclared(survey: CanonicalSurvey, q: Question)
    requires Validation.CleanlyValidated(survey) && q in survey.questions && q.kind.Equation?
    ensures VariableWithId(PayloadVariables(survey), EquationId(survey, q))
         == Some(PayloadVariable(EquationId(survey, q), true))
  {
    hide Validation.CleanlyValidated, Declared, Ids.EquationVariableId, EquationRequests, BlockRequests, Sorting.Sort;
    var requests := Requests(survey);
    EquationRequestsAreNumbers(survey.questions, q);
    BlockRequestsAreNumbers(survey, Sorting.Sort(survey.groups, GroupOrder));
    var own := Request(q.externalId, true);
    assert own in requests && VariableId(survey.externalId, own) == EquationId(survey, q);
    forall r | r in requests && VariableId(survey.externalId, r) == EquationId(survey, q)
      ensures r.isNumber
    {
      if r in VariableRequests(survey.variables) {
        var i :| 0 <= i < |survey.variables| && VariableRequests(survey.variables)[i] == r;
        VariableIsNotEquation(survey, q, survey.variables[i]);
      }
    }
    FirstRequestDecides(survey.externalId, requests, EquationId(survey, q));
  }

  // ----- The variable that is read is the one the equation rule writes -----

  lemma {:induction false} RuleOfQuestion(survey: CanonicalSurvey, questions: seq<Question>, q: Question)
    requires EquationRules(survey, questions).Ok? && q in questions && q.kind.Equation? && HasCalculation(q)
    ensures EquationRule(survey, q).Ok? && EquationRule(survey, q).value in EquationRules(survey, questions).value
  {
    hide EquationRule;
    if questions[0] != q {
      RuleOfQuestion(survey, questions[1..], q);
    }
  }

  lemma {:induction false} RuleOfSegment(segments: seq<Segment>, rule: Rule) returns (i: nat)
    requires rule in LogicOf(segments)
    ensures i < |segments| && rule in segments[i].block.logic
  {
    var last := |segments| - 1;
    if rule in segments[last].block.logic {
      i := last;
    } else {
      i := RuleOfSegment(segments[..last], rule);
    }
  }

  lemma {:induction false} GroupIsAmongSegments(
    survey: CanonicalSurvey, blocks: seq<Block>, groups: seq<Group>, segments: seq<Segment>, group: Group, s: Segment)
    requires SegmentGroups(survey, blocks, groups) == Ok(segments) && group in groups
    requires SegmentGroup(survey, blocks, group).Ok? ==> s in SegmentGroup(survey, blocks, group).value
    ensures SegmentGroup(survey, blocks, group).Ok? && s in segments
  {
    hide SegmentGroup;
    var last := |groups| - 1;
    if groups[last] != group {
      var before := SegmentGroups(survey, blocks, groups[..last]).value;
      GroupIsAmongSegments(survey, blocks, groups[..last], before, group, s);
    }
  }

  lemma RuleOfGroup(survey: CanonicalSurvey, segments: seq<Segment>, group: Group, q: Question) returns (s: Segment)
    requires Validation.CleanlyValidated(survey) && SegmentConservation.DistinctSurvey(survey)
    requires SegmentsOf(survey, segments) && group in survey.groups
    requires q in survey.questions && q.groupExternalId == group.externalId && q.kind.Equation?
    ensures HasCalculation(q) && EquationRule(survey, q).Ok? && s in segments
    ensures EquationRule(survey, q).value in s.block.logic
  {
    hide Validation.CleanlyValidated, SourceBlocks, SegmentGroups, EquationRule, SegmentElements, BlockNamed,
      Sorting.Sort, GroupQuestions, SegmentConservation.DistinctSurvey, EquationRules;
    SegmentsOfExactly(survey, segments);
    var blocks, groups := SourceBlocks(survey).value, Sorting.Sort(survey.groups, GroupOrder);
    Sorting.SortMembers(survey.groups, GroupOrder);
    SurveyGroupsDistinct(survey);
    SegmentConservation.BlocksByGroup(survey, blocks, group);
    var source := BlockNamed(blocks, group.externalId).value;
    CalculationOfSource(survey, group, source, q);
    GroupSegmentsCompile(survey, blocks, groups, segments, group);
    var raw := SegmentElements(survey, group, source, source.elements).value;
    EncodableSurvey(survey);
    SegmentConservation.LogicConserved(survey, group, source, raw);
    var i := RuleOfSegment(raw, EquationRule(survey, q).value);
    s := Closed(group, raw)[i];
    assert s in SegmentGroup(survey, blocks, group).value;
    GroupIsAmongSegments(survey, blocks, groups, segments, group, s);
  }

  lemma SurveyGroupsDistinct(survey: CanonicalSurvey)
    requires SegmentConservation.DistinctSurvey(survey)
    ensures DistinctGroups(survey.groups)
  {
  }

  lemma EncodableSurvey(survey: CanonicalSurvey)
    requires Validation.CleanlyValidated(survey)
    ensures SegmentConservation.EncodableQuestions(survey)
  {
    Validation.CleanSurveyIsIdentified(survey);
  }

  /** A group's compiled block holds the rule of each of its equations. */
  lemma CalculationOfSource(survey: CanonicalSurvey, group: Group, source: Block, q: Question)
    requires SourceBlock(survey, group) == Ok(source)
    requires q in survey.questions && q.groupExternalId == group.externalId && q.kind.Equation?
    ensures HasCalculation(q) && EquationRule(survey, q).Ok? && EquationRule(survey, q).value in source.logic
  {
    hide GroupQuestions, EquationRules, EquationRule;
    var questions := GroupQuestions(survey, group.externalId);
    GroupQuestionsMember(survey, group.externalId, q);
    SourceElementsMatch(questions, survey.defaultLanguage);
    var k :| 0 <= k < |questions| && questions[k] == q;
    assert SourceElement(q, survey.defaultLanguage).Ok?;
    RuleOfQuestion(survey, questions, q);
  }

  lemma {:induction false} GroupSegmentsCompile(
    survey: CanonicalSurvey, blocks: seq<Block>, groups: seq<Group>, segments: seq<Segment>, group: Group)
    requires SegmentGroups(survey, blocks, groups) == Ok(segments) && group in groups
    ensures SegmentGroup(survey, blocks, group).Ok?
  {
    hide SegmentGroup;
    var last := |groups| - 1;
    if groups[last] != group {
      GroupSegmentsCompile(survey, blocks, groups[..last], SegmentGroups(survey, blocks, groups[..last]).value, group);
    }
  }

  /**
   * In a compiled clean survey, relevance on an equation question reads the very variable that the question's
   * calculation rule, found in one of the blocks, writes; and the payload declares it as a number.
   */
  lemma RelevanceReadsWhatRuleWrites(
    survey: CanonicalSurvey, host: Host, c: Compilation, segments: seq<Segment>, group: Group, q: Question)
    returns (i: nat, rule: Rule)
    requires Validation.CleanlyValidated(survey) && Responding.Compiled(survey, host, c, segments)
    requires group in survey.groups && q in survey.questions && q.groupExternalId == group.externalId
    requires q.kind.Equation?
    ensures i < |c.payload.blocks| && rule in c.payload.blocks[i].logic && rule.Calculation?
    ensures q.calculation == Some(rule.expression)
    ensures Resolve(survey, host, q.externalId).Ok?
    ensures Resolve(survey, host, q.externalId).value.operand == VariableOperand(rule.variableId)
    ensures VariableWithId(c.payload.variables, rule.variableId) == Some(PayloadVariable(rule.variableId, true))
  {
    hide Validation.CleanlyValidated, SegmentsOf, CompilesTo, SegmentConservation.DistinctSurvey, WellIdentified,
      RouteOf, Routing.RouteUpTo, Routing.PlanFrom, PayloadVariables, Ids.EquationVariableId, QuestionNamed;
    var s := RuleOfGroup(survey, segments, group, q);
    rule := EquationRule(survey, q).value;
    i :| 0 <= i < |segments| && segments[i] == s;
    Responding.CompiledRoute(survey, host, c, segments);
    CompiledRuleStays(survey, host, c, segments, i, rule);
    EquationIsDeclared(survey, q);
    CompiledVariables(survey, host, c);
    OwnQuestionFound(survey, q);
  }

  lemma OwnQuestionFound(survey: CanonicalSurvey, q: Question)
    requires SegmentConservation.DistinctSurvey(survey) && q in survey.questions
    ensures QuestionNamed(survey.questions, q.externalId) == Some(q)
  {
    QuestionNamedFinds(survey.questions, q);
  }

  lemma CompiledVariables(survey: CanonicalSurvey, host: Host, c: Compilation)
    requires CompilesTo(survey, host, c)
    ensures c.payload.variables == PayloadVariables(survey)
  {
    hide SourceBlocks, SegmentGroups, RouteOf, Routing.RouteUpTo, PayloadVariables, WithMissingEntries;
    CompilesToExactly(survey, host, c);
  }

  lemma CompiledRuleStays(
    survey: CanonicalSurvey, host: Host, c: Compilation, segments: seq<Segment>, i: nat, rule: Rule)
    requires Responding.Compiled(survey, host, c, segments) && i < |segments| && rule in segments[i].block.logic
    ensures i < |c.payload.blocks| && rule in c.payload.blocks[i].logic
  {
    hide SegmentsOf, CompilesTo, SegmentConservation.DistinctSurvey, WellIdentified, Routing.RouteUpTo,
      Routing.PlanFrom, RewrittenElements, RoutingContext, Availability;
    Responding.CompiledRoute(survey, host, c, segments);
    var r := RouteOf(survey, host, segments);
    assert rule in r.blocks[i].logic;
    Routing.RoutedBlock(r, |r.blocks|, c.payload.blocks, i);
  }

  /** Of several requests for one variable the first decides its type: a declared variable before an equation. */
  lemma {:induction false} FirstRequestWins(survey: string, requests: seq<Request>, k: nat)
    requires k < |requests|
    requires forall i :: 0 <= i < k ==> VariableId(survey, requests[i]) != VariableId(survey, requests[k])
    ensures VariableWithId(Declared(survey, requests), VariableId(survey, requests[k]))
         == Some(PayloadVariable(VariableId(survey, requests[k]), requests[k].isNumber))
  {
    hide VariableId;
    var front, last := requests[..|requests| - 1], requests[|requests| - 1];
    var id := VariableId(survey, requests[k]);
    DeclaredOnce(survey, front);
    if k < |front| {
      FirstRequestWins(survey, front, k);
      if |Declared(survey, requests)| > |Declared(survey, front)| {
        FoundStays(Declared(survey, front), PayloadVariable(VariableId(survey, last), last.isNumber), id);
      }
    } else {
      forall r | r in front
        ensures VariableId(survey, r) != id
      {
        var i :| 0 <= i < |front| && front[i] == r;
        assert requests[i] == r;
      }
      FoundLast(Declared(survey, front), PayloadVariable(id, last.isNumber));
    }
  }

  /** A declared variable keeps its type, whatever equations and references ask for the same variable. */
  lemma DeclaredVariablesKeepTheirType(survey: CanonicalSurvey, k: nat)
    requires k < |survey.variables|
    requires forall i :: 0 <= i < k ==>
               Ids.EquationVariableId(survey.externalId, survey.variables[i].externalId)
                 != Ids.EquationVariableId(survey.externalId, survey.variables[k].externalId)
    ensures var id := Ids.EquationVariableId(survey.externalId, survey.variables[k].externalId);
            VariableWithId(PayloadVariables(survey), id) == Some(PayloadVariable(id, survey.variables[k].isNumber))
  {
    hide Ids.EquationVariableId, EquationRequests, BlockRequests, Declared;
    var requests := Requests(survey);
    assert forall i :: 0 <= i <= k ==>
        requests[i] == Request(survey.variables[i].externalId, survey.variables[i].isNumber);
    FirstRequestWins(survey.externalId, requests, k);
  }
}
