/** What every segment of a compiled survey looks like, and where each question lives. */
module SurveySegments {
  import opened Wrappers
  import opened Survey
  import opened Payload
  import opened Compiler
  import opened Segments
  import opened SegmentConservation
  import Ids
  import RelevanceText
  import Sequences
  import Sorting

  /** The canonical question of an element, with the element compiled from it. */
  ghost predicate IsSourceOf(survey: CanonicalSurvey, group: Group, relevance: string, e: Element, q: Question) {
    QuestionNamed(survey.questions, e.id) == Some(q) && q.externalId == e.id && q in survey.questions &&
    q.groupExternalId == group.externalId &&
    SourceElement(q, survey.defaultLanguage) == Ok(e) &&
    relevance == RelevanceText.Combine(group.relevance, q.relevance)
  }

  /** A segment holds questions of one group under one relevance, and nothing but calculation rules. */
  ghost predicate IsSegmentOf(survey: CanonicalSurvey, group: Group, s: Segment) {
    group in survey.groups && s.group == group.externalId &&
    s.block.elements != [] && s.block.logicFallback == None &&
    (forall rule :: rule in s.block.logic ==> rule.Calculation?) &&
    s.questions == ElementIds(s.block.elements) &&
    (forall x :: x in s.calculated ==> x in s.questions) &&
    (forall e :: e in s.block.elements ==> exists q :: IsSourceOf(survey, group, s.relevance, e, q))
  }

  ghost predicate IsSurveySegment(survey: CanonicalSurvey, s: Segment) {
    exists group :: IsSegmentOf(survey, group, s)
  }

  lemma {:induction false} RulesAreCalculations(rules: seq<Rule>, id: string)
    ensures forall rule :: rule in RulesFor(rules, id) ==> rule.Calculation?
  {
    if rules != [] {
      RulesAreCalculations(rules[1..], id);
    }
  }

  lemma {:induction false} ElementsOfMember(segments: seq<Segment>, i: nat, e: Element)
    requires i < |segments| && e in segments[i].block.elements
    ensures e in ElementsOf(segments)
  {
    if i < |segments| - 1 {
      ElementsOfMember(segments[..|segments| - 1], i, e);
    }
  }

  lemma BlockElementSource(survey: CanonicalSurvey, group: Group, source: Block, e: Element) returns (q: Question)
    requires DistinctSurvey(survey) && SourceBlock(survey, group) == Ok(source) && e in source.elements
    ensures QuestionNamed(survey.questions, e.id) == Some(q) && q.externalId == e.id && q in survey.questions
    ensures q.groupExternalId == group.externalId && SourceElement(q, survey.defaultLanguage) == Ok(e)
  {
    var questions := GroupQuestions(survey, group.externalId);
    SourceElementsMatch(questions, survey.defaultLanguage);
    var k :| 0 <= k < |source.elements| && source.elements[k] == e;
    ElementQuestion(survey, group, source, k);
    q := questions[k];
    assert q in questions;
    GroupQuestionsMember(survey, group.externalId, q);
  }

  lemma CoherentIsSegment(survey: CanonicalSurvey, group: Group, source: Block, s: Segment)
    requires DistinctSurvey(survey) && SourceBlock(survey, group) == Ok(source) && group in survey.groups
    requires Coherent(survey, group, source, s)
    requires forall e :: e in s.block.elements ==> e in source.elements
    ensures IsSegmentOf(survey, group, s)
  {
    hide RelevanceText.Combine, SourceBlock, SourceElement, Ids.EquationVariableId;
    var elements := s.block.elements;
    RulesAreCalculations(
      source.logic, Ids.EquationVariableId(survey.externalId, elements[0].id));
    forall e | e in elements
      ensures exists q :: IsSourceOf(survey, group, s.relevance, e, q)
    {
      var q := BlockElementSource(survey, group, source, e);
      assert IsSourceOf(survey, group, s.relevance, e, q);
    }
    assert elements[0].id == s.questions[0];
  }

  lemma GroupSegmentsAreSegments(survey: CanonicalSurvey, blocks: seq<Block>, group: Group, segments: seq<Segment>)
    requires SourceBlocks(survey) == Ok(blocks) && DistinctSurvey(survey) && group in survey.groups
    requires SegmentGroup(survey, blocks, group) == Ok(segments)
    ensures forall i :: 0 <= i < |segments| ==> IsSegmentOf(survey, group, segments[i])
    ensures forall i :: 0 <= i < |segments| ==> segments[i].index == i && segments[i].count == |segments|
  {
    hide IsSegmentOf, SourceBlock, SegmentElements, BlockNamed, SourceBlocks;
    BlocksByGroup(survey, blocks, group);
    var source := BlockNamed(blocks, group.externalId).value;
    var raw := SegmentElements(survey, group, source, source.elements).value;
    SegmentingConserves(survey, group, source, source.elements, raw);
    forall i | 0 <= i < |segments|
      ensures IsSegmentOf(survey, group, segments[i])
      ensures segments[i].index == i && segments[i].count == |segments|
    {
      forall e | e in raw[i].block.elements
        ensures e in source.elements
      {
        ElementsOfMember(raw, i, e);
      }
      CoherentAt(survey, group, source, raw, i);
      CoherentIsSegment(survey, group, source, raw[i]);
      ClosingKeepsSegment(survey, group, raw, i);
    }
  }

  lemma ClosingKeepsSegment(survey: CanonicalSurvey, group: Group, raw: seq<Segment>, i: nat)
    requires i < |raw| && IsSegmentOf(survey, group, raw[i])
    ensures IsSegmentOf(survey, group, Closed(group, raw)[i])
  {
  }

  lemma {:induction false} SegmentsAreSurveySegments(
    survey: CanonicalSurvey, blocks: seq<Block>, groups: seq<Group>, segments: seq<Segment>)
    requires SourceBlocks(survey) == Ok(blocks) && DistinctSurvey(survey)
    requires forall g :: g in groups ==> g in survey.groups
    requires SegmentGroups(survey, blocks, groups) == Ok(segments)
    ensures forall i :: 0 <= i < |segments| ==> IsSurveySegment(survey, segments[i])
  {
    if groups != [] {
      var front, group := groups[..|groups| - 1], groups[|groups| - 1];
      var before := SegmentGroups(survey, blocks, front).value;
      SegmentsAreSurveySegments(survey, blocks, front, before);
      var last := SegmentGroup(survey, blocks, group).value;
      GroupSegmentsAreSegments(survey, blocks, group, last);
    }
  }

  predicate IsSegmentation(survey: CanonicalSurvey, r: Result<seq<Segment>, CompileError>) {
    var source := SourceBlocks(survey);
    if source.Err? then r == Err(source.error)
    else r == SegmentGroups(survey, source.value, Sorting.Sort(survey.groups, GroupOrder))
  }

  /** The survey is cut into these segments. Stated over results, like CompilesTo, so that proofs unfold on demand. */
  ghost predicate SegmentsOf(survey: CanonicalSurvey, segments: seq<Segment>) {
    forall r :: IsSegmentation(survey, r) ==> r == Ok(segments)
  }

  lemma SegmentsOfExactly(survey: CanonicalSurvey, segments: seq<Segment>)
    ensures SegmentsOf(survey, segments)
       <==> SourceBlocks(survey).Ok?
            && SegmentGroups(survey, SourceBlocks(survey).value, Sorting.Sort(survey.groups, GroupOrder))
               == Ok(segments)
  {
    hide SourceBlocks, SegmentGroups;
    var source := SourceBlocks(survey);
    if source.Ok? {
      assert IsSegmentation(survey, SegmentGroups(survey, source.value, Sorting.Sort(survey.groups, GroupOrder)));
    } else {
      assert IsSegmentation(survey, Err(source.error));
    }
  }


  lemma SortedGroups(survey: CanonicalSurvey)
    requires DistinctGroups(survey.groups)
    ensures forall g :: g in Sorting.Sort(survey.groups, GroupOrder) <==> g in survey.groups
    ensures DistinctGroups(Sorting.Sort(survey.groups, GroupOrder))
  {
    var groups := Sorting.Sort(survey.groups, GroupOrder);
    Sorting.SortMembers(survey.groups, GroupOrder);
    Sorting.SortPermutes(survey.groups, GroupOrder);
    Sequences.PermutationKeepsDistinct(survey.groups, groups);
    forall i, j | 0 <= i < j < |groups|
      ensures groups[i].externalId != groups[j].externalId
    {
      assert groups[i] in groups && groups[j] in groups;
    }
  }

  /** Every segment is one of the survey's, and the segments list the survey's grouped questions once, in order. */
  lemma SurveyIsSegmented(survey: CanonicalSurvey, segments: seq<Segment>)
    requires DistinctSurvey(survey) && SegmentsOf(survey, segments)
    ensures forall i :: 0 <= i < |segments| ==> IsSurveySegment(survey, segments[i])
    ensures QuestionIdsOf(segments) == SurveyOrder(survey, Sorting.Sort(survey.groups, GroupOrder))
    ensures Sequences.NoDuplicates(QuestionIdsOf(segments))
  {
    var groups := Sorting.Sort(survey.groups, GroupOrder);
    SegmentsOfExactly(survey, segments);
    SortedGroups(survey);
    SegmentsAreSurveySegments(survey, SourceBlocks(survey).value, groups, segments);
    GroupsConserve(survey, SourceBlocks(survey).value, groups, segments);
    SurveyOrderDistinct(survey, groups);
  }

  lemma {:induction false} QuestionIdsMember(segments: seq<Segment>, x: string)
    ensures x in QuestionIdsOf(segments) <==> exists i :: 0 <= i < |segments| && x in segments[i].questions
  {
    if segments != [] {
      QuestionIdsMember(segments[..|segments| - 1], x);
    }
  }

  /** No question is in two segments. */
  lemma {:induction false} OneSegmentEach(segments: seq<Segment>, i: nat, j: nat, x: string)
    requires Sequences.NoDuplicates(QuestionIdsOf(segments))
    requires i < j < |segments| && x in segments[i].questions
    ensures x !in segments[j].questions
  {
    var front, last := segments[..|segments| - 1], segments[|segments| - 1];
    var all := QuestionIdsOf(segments);
    assert QuestionIdsOf(front) == all[..|QuestionIdsOf(front)|];
    if j < |segments| - 1 {
      OneSegmentEach(front, i, j, x);
    } else {
      assert front[i] == segments[i];
      QuestionIdsMember(front, x);
      var a :| 0 <= a < |QuestionIdsOf(front)| && QuestionIdsOf(front)[a] == x;
      forall b | 0 <= b < |last.questions|
        ensures last.questions[b] != x
      {
        assert all[a] != all[|QuestionIdsOf(front)| + b];
      }
    }
  }

  /** A question whose group exists is in some segment. */
  lemma EveryQuestionHasSegment(survey: CanonicalSurvey, segments: seq<Segment>, q: Question, g: Group)
    requires DistinctSurvey(survey) && SegmentsOf(survey, segments)
    requires q in survey.questions && g in survey.groups && q.groupExternalId == g.externalId
    ensures exists i :: 0 <= i < |segments| && q.externalId in segments[i].questions
  {
    var groups := Sorting.Sort(survey.groups, GroupOrder);
    SortedGroups(survey);
    SurveyIsSegmented(survey, segments);
    SurveyOrderMember(survey, groups, q.externalId);
    QuestionIdsMember(segments, q.externalId);
  }
}
