/** Exactly when a whole survey compiles. */
module CompileSucceeds {
  import opened Wrappers
  import opened Expressions
  import opened Survey
  import opened Payload
  import opened Compiler
  import opened Segments
  import opened SegmentConservation
  import opened SurveySegments
  import opened CompiledSurvey
  import opened RelevanceCompiler
  import opened SurveyReferences
  import Ids
  import Parser
  import RelevanceText
  import Routing
  import Sorting

  // ----- Source blocks -----

  /** A question that its group can show, and whose calculation parses if it is an equation. */
  ghost predicate CanBeShown(survey: CanonicalSurvey, q: Question) {
    SourceElement(q, survey.defaultLanguage).Ok?
    && (q.kind.Equation? && HasCalculation(q) ==> Parser.ParseExpression(q.calculation.value).Ok?)
  }

  lemma {:induction false} ElementsCompileExactly(questions: seq<Question>, defaultLanguage: string)
    ensures SourceElements(questions, defaultLanguage).Ok?
       <==> forall i :: 0 <= i < |questions| ==> SourceElement(questions[i], defaultLanguage).Ok?
  {
    hide SourceElement;
    if questions != [] {
      ElementsCompileExactly(questions[1..], defaultLanguage);
      assert forall i :: 0 <= i < |questions| - 1 ==> questions[1..][i] == questions[i + 1];
    }
  }

  lemma RuleCompilesExactly(survey: CanonicalSurvey, q: Question)
    requires q.calculation.Some?
    ensures EquationRule(survey, q).Ok? <==> Parser.ParseExpression(q.calculation.value).Ok?
  {
    hide Parser.ParseExpression;
  }

  lemma {:induction false} RulesCompileExactly(survey: CanonicalSurvey, questions: seq<Question>)
    ensures EquationRules(survey, questions).Ok?
       <==> forall i :: 0 <= i < |questions| && questions[i].kind.Equation? && HasCalculation(questions[i]) ==>
              Parser.ParseExpression(questions[i].calculation.value).Ok?
  {
    hide Parser.ParseExpression, EquationRule;
    if questions != [] {
      if HasCalculation(questions[0]) { RuleCompilesExactly(survey, questions[0]); }
      RulesCompileExactly(survey, questions[1..]);
      assert forall i :: 0 <= i < |questions| - 1 ==> questions[1..][i] == questions[i + 1];
    }
  }

  lemma BlockCompilesExactly(survey: CanonicalSurvey, group: Group)
    ensures SourceBlock(survey, group).Ok?
       <==> forall q :: q in survey.questions && q.groupExternalId == group.externalId ==> CanBeShown(survey, q)
  {
    hide GroupQuestions, SourceElements, EquationRules, SourceElement, Parser.ParseExpression;
    var questions := GroupQuestions(survey, group.externalId);
    ElementsCompileExactly(questions, survey.defaultLanguage);
    RulesCompileExactly(survey, questions);
    forall q: Question
      ensures q in questions <==> q in survey.questions && q.groupExternalId == group.externalId
    {
      GroupQuestionsMember(survey, group.externalId, q);
    }
    assert forall i :: 0 <= i < |questions| ==> questions[i] in questions;
    forall q | q in questions
      ensures exists i :: 0 <= i < |questions| && questions[i] == q
    {
    }
  }

  lemma {:induction false} BlocksCompileExactly(survey: CanonicalSurvey, groups: seq<Group>)
    ensures SourceBlocksOf(survey, groups).Ok?
       <==> forall i :: 0 <= i < |groups| ==> SourceBlock(survey, groups[i]).Ok?
  {
    hide SourceBlock;
    if groups != [] {
      BlocksCompileExactly(survey, groups[1..]);
      assert forall i :: 0 <= i < |groups| - 1 ==> groups[1..][i] == groups[i + 1];
    }
  }

  /** Every question that some group shows can be shown. */
  ghost predicate QuestionsCanBeShown(survey: CanonicalSurvey) {
    forall g, q :: g in survey.groups && q in survey.questions && q.groupExternalId == g.externalId ==>
      CanBeShown(survey, q)
  }

  lemma SourceCompilesExactly(survey: CanonicalSurvey)
    ensures SourceBlocks(survey).Ok? <==> QuestionsCanBeShown(survey)
  {
    hide SourceBlock, CanBeShown, Sorting.Sort;
    var groups := Sorting.Sort(survey.groups, GroupOrder);
    Sorting.SortMembers(survey.groups, GroupOrder);
    BlocksCompileExactly(survey, groups);
    forall i | 0 <= i < |groups|
      ensures SourceBlock(survey, groups[i]).Ok?
         <==> forall q :: q in survey.questions && q.groupExternalId == groups[i].externalId ==> CanBeShown(survey, q)
    {
      BlockCompilesExactly(survey, groups[i]);
      assert groups[i] in groups;
    }
    forall g | g in survey.groups
      ensures exists i :: 0 <= i < |groups| && groups[i] == g
    {
      assert g in groups;
    }
  }

  // ----- Segments -----

  lemma {:induction false} ElementsAreSegmented(
    survey: CanonicalSurvey, group: Group, source: Block, elements: seq<Element>)
    requires forall e :: e in elements ==> QuestionNamed(survey.questions, e.id).Some?
    ensures SegmentElements(survey, group, source, elements).Ok?
  {
    hide RelevanceText.Combine, RulesFor, QuestionNamed;
    if elements != [] {
      var front, last := elements[..|elements| - 1], elements[|elements| - 1];
      assert last in elements && forall e :: e in front ==> e in elements;
      ElementsAreSegmented(survey, group, source, front);
    }
  }

  lemma GroupIsSegmentedAlways(survey: CanonicalSurvey, blocks: seq<Block>, group: Group)
    requires SourceBlocks(survey) == Ok(blocks) && DistinctSurvey(survey) && group in survey.groups
    ensures SegmentGroup(survey, blocks, group).Ok?
  {
    hide SourceBlocks, SourceBlock, SegmentElements, DistinctSurvey, BlockNamed;
    GroupsDistinct(survey);
    BlocksByGroup(survey, blocks, group);
    var source := BlockNamed(blocks, group.externalId).value;
    forall e | e in source.elements
      ensures QuestionNamed(survey.questions, e.id).Some?
    {
      var q := BlockElementSource(survey, group, source, e);
    }
    ElementsAreSegmented(survey, group, source, source.elements);
  }

  lemma GroupsDistinct(survey: CanonicalSurvey)
    requires DistinctSurvey(survey)
    ensures DistinctGroups(survey.groups)
  {
  }

  lemma {:induction false} GroupsAreSegmented(survey: CanonicalSurvey, blocks: seq<Block>, groups: seq<Group>)
    requires SourceBlocks(survey) == Ok(blocks) && DistinctSurvey(survey)
    requires forall g :: g in groups ==> g in survey.groups
    ensures SegmentGroups(survey, blocks, groups).Ok?
  {
    hide SourceBlocks, SegmentGroup, DistinctSurvey;
    if groups != [] {
      var front, last := groups[..|groups| - 1], groups[|groups| - 1];
      assert last in groups && forall g :: g in front ==> g in groups;
      GroupsAreSegmented(survey, blocks, front);
      GroupIsSegmentedAlways(survey, blocks, last);
    }
  }

  // ----- Whole surveys -----

  /** A relevance text compiles exactly when, braces aside, it parses to one of the forms that compile. */
  lemma RelevanceCompilesExactly(survey: CanonicalSurvey, host: Host, createId: string -> string, relevance: string)
    ensures var parsed := Parser.ParseExpression(RelevanceText.Trim(StripBraces(RelevanceText.Trim(relevance))));
            CompileRelevance(relevance, ContextOf(survey, host, createId)).Ok? <==>
              parsed.Ok? && IsCompilable(survey, parsed.value)
  {
    hide Parser.ParseExpression, RelevanceText.Trim, StripBraces, CompileNode, IsCompilable;
    var parsed := Parser.ParseExpression(RelevanceText.Trim(StripBraces(RelevanceText.Trim(relevance))));
    if parsed.Ok? {
      CompilesExactly(survey, host, parsed.value, createId, "root");
    }
  }

  /** A conditional segment that the scan from an earlier one reaches, and that cannot be turned into a rule. */
  ghost predicate HasFault(survey: CanonicalSurvey, host: Host, segments: seq<Segment>)
    requires survey.endings != []
  {
    var r := RouteOf(survey, host, segments);
    Routing.Aligned(r) && exists from: nat, t: nat ::
      from < t < |r.blocks| && Routing.AllConditional(r, from + 1, t) && Routing.Malformed(r, from, t)
  }

  /**
   * A survey with distinct IDs compiles exactly when all questions that its groups show can be shown, it has an
   * ending, and no segment that a scan reaches is malformed.
   */
  lemma CompilesIfAndOnlyIf(survey: CanonicalSurvey, host: Host)
    requires DistinctSurvey(survey)
    ensures Compile(survey, host).Ok?
       <==> QuestionsCanBeShown(survey) && survey.endings != []
            && exists segments :: SegmentsOf(survey, segments) && !HasFault(survey, host, segments)
  {
    hide SourceBlocks, SegmentGroups, Sorting.Sort, RouteOf, Routing.RouteUpTo, QuestionsCanBeShown, DistinctSurvey,
      WithMissingEntries, SegmentEntries, Routing.AllConditional, Routing.Malformed;
    SourceCompilesExactly(survey);
    if SourceBlocks(survey).Ok? {
      var blocks, groups := SourceBlocks(survey).value, Sorting.Sort(survey.groups, GroupOrder);
      Sorting.SortMembers(survey.groups, GroupOrder);
      GroupsAreSegmented(survey, blocks, groups);
      var segments := SegmentGroups(survey, blocks, groups).value;
      SegmentsOfExactly(survey, segments);
      forall others | SegmentsOf(survey, others)
        ensures others == segments
      {
        SegmentsOfExactly(survey, others);
      }
      if survey.endings != [] {
        RouteAligned(survey, host, segments);
        Routing.RoutingFailsExactly(RouteOf(survey, host, segments));
      }
    }
  }

  lemma RouteAligned(survey: CanonicalSurvey, host: Host, segments: seq<Segment>)
    requires survey.endings != []
    ensures Routing.Aligned(RouteOf(survey, host, segments))
  {
  }
}
