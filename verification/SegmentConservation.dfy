/** Segmentation of a whole survey keeps every question and every equation rule, once and in order. */
module SegmentConservation {
  import opened Wrappers
  import opened Expressions
  import opened Survey
  import opened Payload
  import opened Compiler
  import opened Segments
  import Ids
  import RelevanceText
  import Sequences
  import Sorting

  function ExternalIdsOf(questions: seq<Question>): seq<string> {
    seq(|questions|, i requires 0 <= i < |questions| => questions[i].externalId)
  }

  /** The question IDs of a sequence of segments, in order. */
  function QuestionIdsOf(segments: seq<Segment>): seq<string> {
    if segments == [] then [] else QuestionIdsOf(segments[..|segments| - 1]) + segments[|segments| - 1].questions
  }

  /** The survey's questions group by group, each group in question order. */
  function SurveyOrder(survey: CanonicalSurvey, groups: seq<Group>): seq<string> {
    if groups == [] then []
    else
      SurveyOrder(survey, groups[..|groups| - 1])
      + ExternalIdsOf(GroupQuestions(survey, groups[|groups| - 1].externalId))
  }

  ghost predicate DistinctSurvey(survey: CanonicalSurvey) {
    DistinctQuestions(survey.questions) && DistinctGroups(survey.groups)
  }

  // ----- One group -----

  function ElementIds(elements: seq<Element>): seq<string> {
    seq(|elements|, i requires 0 <= i < |elements| => elements[i].id)
  }

  lemma CoherentIds(survey: CanonicalSurvey, group: Group, source: Block, s: Segment)
    requires Coherent(survey, group, source, s)
    ensures s.questions == ElementIds(s.block.elements)
  {
  }

  lemma {:induction false} QuestionIdsAreElementIds(
    survey: CanonicalSurvey, group: Group, source: Block, segments: seq<Segment>)
    requires AllCoherent(survey, group, source, segments)
    ensures QuestionIdsOf(segments) == ElementIds(ElementsOf(segments))
  {
    hide Coherent, ElementIds;
    if segments == [] {
      NoElementIds();
    } else {
      var last := |segments| - 1;
      QuestionIdsAreElementIds(survey, group, source, segments[..last]);
      CoherentIds(survey, group, source, segments[last]);
      ElementIdsAppend(ElementsOf(segments[..last]), segments[last].block.elements);
    }
  }

  lemma NoElementIds()
    ensures ElementIds([]) == []
  {
  }

  lemma ElementIdsAppend(a: seq<Element>, b: seq<Element>)
    ensures ElementIds(a + b) == ElementIds(a) + ElementIds(b)
  {
  }

  lemma {:induction false} ClosingKeepsQuestions(group: Group, segments: seq<Segment>, n: nat)
    requires n <= |segments|
    ensures QuestionIdsOf(Closed(group, segments)[..n]) == QuestionIdsOf(segments[..n])
  {
    if n > 0 {
      ClosingKeepsQuestions(group, segments, n - 1);
      assert Closed(group, segments)[..n][..n - 1] == Closed(group, segments)[..n - 1];
      assert segments[..n][..n - 1] == segments[..n - 1];
    }
  }

  lemma {:induction false} QuestionIdsAppend(a: seq<Segment>, b: seq<Segment>)
    ensures QuestionIdsOf(a + b) == QuestionIdsOf(a) + QuestionIdsOf(b)
  {
    if b == [] {
      assert a + b == a;
    } else {
      var front, last := b[..|b| - 1], b[|b| - 1];
      QuestionIdsAppend(a, front);
      assert (a + b)[..|a + b| - 1] == a + front && (a + b)[|a + b| - 1] == last;
      Sequences.Associative(QuestionIdsOf(a), QuestionIdsOf(front), last.questions);
    }
  }

  lemma SourceElementIds(q: Question, defaultLanguage: string)
    requires SourceElement(q, defaultLanguage).Ok?
    ensures SourceElement(q, defaultLanguage).value.id == q.externalId
  {
  }

  /** A compiled block's elements are its group's questions in order. */
  lemma BlockElementIds(survey: CanonicalSurvey, group: Group, block: Block)
    requires SourceBlock(survey, group) == Ok(block)
    ensures block.id == group.externalId
    ensures ElementIds(block.elements) == ExternalIdsOf(GroupQuestions(survey, group.externalId))
  {
    var questions := GroupQuestions(survey, group.externalId);
    SourceElementsMatch(questions, survey.defaultLanguage);
    forall i | 0 <= i < |questions|
      ensures block.elements[i].id == questions[i].externalId
    {
      SourceElementIds(questions[i], survey.defaultLanguage);
    }
  }

  // ----- The whole survey -----

  /** The compiled source blocks of groups, addressed by group. */
  lemma BlocksByGroup(survey: CanonicalSurvey, blocks: seq<Block>, group: Group)
    requires SourceBlocks(survey) == Ok(blocks) && DistinctGroups(survey.groups) && group in survey.groups
    ensures BlockNamed(blocks, group.externalId).Some?
    ensures SourceBlock(survey, group) == Ok(BlockNamed(blocks, group.externalId).value)
  {
    hide SourceBlock, Sorting.Sort;
    var groups := Sorting.Sort(survey.groups, GroupOrder);
    Sorting.SortMembers(survey.groups, GroupOrder);
    SourceBlocksMatch(survey, groups);
    var i :| 0 <= i < |groups| && groups[i] == group;
    SourceBlockId(survey, groups[i], blocks[i]);
    assert blocks[i] in blocks;
    var found := BlockNamed(blocks, group.externalId).value;
    var j :| 0 <= j < |blocks| && blocks[j] == found;
    SourceBlockId(survey, groups[j], blocks[j]);
    assert groups[j] in groups;
  }

  lemma SourceBlockId(survey: CanonicalSurvey, group: Group, block: Block)
    requires SourceBlock(survey, group) == Ok(block)
    ensures block.id == group.externalId
  {
  }

  lemma {:induction false} GroupsConserve(survey: CanonicalSurvey, blocks: seq<Block>, groups: seq<Group>,
                                          segments: seq<Segment>)
    requires SourceBlocks(survey) == Ok(blocks) && DistinctGroups(survey.groups)
    requires forall g :: g in groups ==> g in survey.groups
    requires SegmentGroups(survey, blocks, groups) == Ok(segments)
    ensures QuestionIdsOf(segments) == SurveyOrder(survey, groups)
  {
    if groups != [] {
      var front, group := groups[..|groups| - 1], groups[|groups| - 1];
      var before := SegmentGroups(survey, blocks, front).value;
      GroupsConserve(survey, blocks, front, before);
      var last := SegmentGroup(survey, blocks, group).value;
      GroupConserves(survey, blocks, group, last);
      QuestionIdsAppend(before, last);
    }
  }

  lemma GroupConserves(survey: CanonicalSurvey, blocks: seq<Block>, group: Group, segments: seq<Segment>)
    requires SourceBlocks(survey) == Ok(blocks) && DistinctGroups(survey.groups) && group in survey.groups
    requires SegmentGroup(survey, blocks, group) == Ok(segments)
    ensures QuestionIdsOf(segments) == ExternalIdsOf(GroupQuestions(survey, group.externalId))
  {
    hide SourceBlock, SourceBlocks, BlockNamed, SegmentElements, Closed, ExternalIdsOf, ElementIds, GroupQuestions,
      AllCoherent, Separated, ElementsOf, QuestionIdsOf;
    BlocksByGroup(survey, blocks, group);
    var source := BlockNamed(blocks, group.externalId).value;
    var raw := SegmentElements(survey, group, source, source.elements).value;
    SegmentingConserves(survey, group, source, source.elements, raw);
    QuestionIdsAreElementIds(survey, group, source, raw);
    BlockElementIds(survey, group, source);
    ClosingKeepsAllQuestions(group, raw);
  }

  lemma ClosingKeepsAllQuestions(group: Group, segments: seq<Segment>)
    ensures QuestionIdsOf(Closed(group, segments)) == QuestionIdsOf(segments)
  {
    ClosingKeepsQuestions(group, segments, |segments|);
    assert segments[..|segments|] == segments && Closed(group, segments)[..|segments|] == Closed(group, segments);
  }

  // ----- Every question once -----

  lemma {:induction false} QuestionsInDistinct(questions: seq<Question>, group: string)
    requires DistinctQuestions(questions)
    ensures DistinctQuestions(QuestionsIn(questions, group))
  {
    if questions != [] {
      QuestionsInDistinct(questions[1..], group);
      forall q | q in QuestionsIn(questions[1..], group)
        ensures q.externalId != questions[0].externalId
      {
        QuestionsInMember(questions[1..], group, q);
      }
    }
  }

  /** A permutation of distinct questions is distinct. */
  lemma PermutedDistinct(a: seq<Question>, b: seq<Question>)
    requires DistinctQuestions(a) && multiset(a) == multiset(b)
    ensures DistinctQuestions(b)
  {
    Sequences.PermutationKeepsDistinct(a, b);
    forall i, j | 0 <= i < j < |b|
      ensures b[i].externalId != b[j].externalId
    {
      assert b[i] in multiset(b) && b[j] in multiset(b);
      assert b[i] in a && b[j] in a;
    }
  }

  lemma GroupQuestionsDistinct(survey: CanonicalSurvey, group: string)
    requires DistinctQuestions(survey.questions)
    ensures DistinctQuestions(GroupQuestions(survey, group))
    ensures Sequences.NoDuplicates(ExternalIdsOf(GroupQuestions(survey, group)))
  {
    var questions := QuestionsIn(survey.questions, group);
    QuestionsInDistinct(survey.questions, group);
    Sorting.SortPermutes(questions, QuestionOrder);
    PermutedDistinct(questions, GroupQuestions(survey, group));
  }

  lemma {:induction false} SurveyOrderMember(survey: CanonicalSurvey, groups: seq<Group>, x: string)
    requires DistinctQuestions(survey.questions)
    ensures x in SurveyOrder(survey, groups)
       <==> exists q, g ::
              q in survey.questions && g in groups && q.externalId == x && q.groupExternalId == g.externalId
  {
    if groups != [] {
      var front, group := groups[..|groups| - 1], groups[|groups| - 1];
      SurveyOrderMember(survey, front, x);
      assert groups == front + [group];
      var last := GroupQuestions(survey, group.externalId);
      if x in ExternalIdsOf(last) {
        var i :| 0 <= i < |last| && ExternalIdsOf(last)[i] == x;
        GroupQuestionsMember(survey, group.externalId, last[i]);
        assert last[i] in last;
      }
      if q, g :| q in survey.questions && g in groups && q.externalId == x && q.groupExternalId == g.externalId {
        GroupQuestionsMember(survey, group.externalId, q);
        if g !in front {
          var i :| 0 <= i < |last| && last[i] == q;
          assert ExternalIdsOf(last)[i] == x;
        }
      }
    }
  }

  lemma {:induction false} SurveyOrderDistinct(survey: CanonicalSurvey, groups: seq<Group>)
    requires DistinctQuestions(survey.questions) && DistinctGroups(groups)
    ensures Sequences.NoDuplicates(SurveyOrder(survey, groups))
  {
    if groups != [] {
      var front, group := groups[..|groups| - 1], groups[|groups| - 1];
      SurveyOrderDistinct(survey, front);
      GroupQuestionsDistinct(survey, group.externalId);
      var last := ExternalIdsOf(GroupQuestions(survey, group.externalId));
      forall x | x in SurveyOrder(survey, front)
        ensures x !in last
      {
        InOneGroup(survey, front, group, x);
      }
      Sequences.NoDuplicatesAppend(SurveyOrder(survey, front), last);
    }
  }

  lemma InOneGroup(survey: CanonicalSurvey, front: seq<Group>, group: Group, x: string)
    requires DistinctQuestions(survey.questions)
    requires forall g :: g in front ==> g.externalId != group.externalId
    requires x in SurveyOrder(survey, front)
    ensures x !in ExternalIdsOf(GroupQuestions(survey, group.externalId))
  {
    SurveyOrderMember(survey, front, x);
    var q, g :| q in survey.questions && g in front && q.externalId == x && q.groupExternalId == g.externalId;
    var last := GroupQuestions(survey, group.externalId);
    forall i | 0 <= i < |last|
      ensures last[i].externalId != x
    {
      assert last[i] in last;
      GroupQuestionsMember(survey, group.externalId, last[i]);
    }
  }

  // ----- Equation rules -----

  lemma {:induction false} RulesForEquation(
    survey: CanonicalSurvey, questions: seq<Question>, rules: seq<Rule>, x: string)
    requires DistinctQuestions(questions) && EquationRules(survey, questions) == Ok(rules)
    requires Ids.Encodable(survey.externalId) && Ids.Encodable(x)
    requires forall q :: q in questions ==> Ids.Encodable(q.externalId)
    ensures forall q :: q in questions && q.externalId == x && q.kind.Equation? && HasCalculation(q) ==>
              EquationRule(survey, q).Ok?
              && RulesFor(rules, Ids.EquationVariableId(survey.externalId, x)) == [EquationRule(survey, q).value]
    ensures (forall q :: q in questions ==> q.externalId != x) ==>
              RulesFor(rules, Ids.EquationVariableId(survey.externalId, x)) == []
  {
    if questions != [] {
      var first := questions[0];
      var id := Ids.EquationVariableId(survey.externalId, x);
      if first.kind.Equation? && HasCalculation(first) {
        var rest := EquationRules(survey, questions[1..]).value;
        RulesForEquation(survey, questions[1..], rest, x);
        assert rules[0] == EquationRule(survey, first).value && rules[1..] == rest;
        if Ids.EquationVariableId(survey.externalId, first.externalId) == id {
          Ids.CompiledIdsDecodeUniquely(Ids.EquationVariable(survey.externalId, first.externalId),
                                        Ids.EquationVariable(survey.externalId, x));
        }
        assert first.externalId == x ==> forall q :: q in questions[1..] ==> q.externalId != x;
      } else {
        RulesForEquation(survey, questions[1..], rules, x);
        assert first.externalId == x ==> forall q :: q in questions[1..] ==> q.externalId != x;
      }
    }
  }

  ghost predicate EncodableQuestions(survey: CanonicalSurvey) {
    Ids.Encodable(survey.externalId) && forall q :: q in survey.questions ==> Ids.Encodable(q.externalId)
  }

  /** The calculation rule of one question, if it is an equation. */
  function QuestionRules(survey: CanonicalSurvey, q: Question): seq<Rule> {
    if q.kind.Equation? && HasCalculation(q) && EquationRule(survey, q).Ok? then [EquationRule(survey, q).value] else []
  }

  lemma FirstEquationRule(survey: CanonicalSurvey, questions: seq<Question>, rules: seq<Rule>)
    requires questions != [] && EquationRules(survey, questions) == Ok(rules)
    ensures EquationRules(survey, questions[1..]).Ok?
    ensures rules == QuestionRules(survey, questions[0]) + EquationRules(survey, questions[1..]).value
  {
  }

  /** What one more element adds to the rules of the segments. */
  ghost function AddedLogic(survey: CanonicalSurvey, source: Block, element: Element): seq<Rule> {
    if IsEquation(survey, element) then RulesFor(source.logic, Ids.EquationVariableId(survey.externalId, element.id))
    else []
  }

  lemma LogicWithElement(
    survey: CanonicalSurvey, group: Group, source: Block, segments: seq<Segment>, element: Element)
    requires WithElement(survey, group, source, segments, element).Ok?
    ensures LogicOf(WithElement(survey, group, source, segments, element).value)
         == LogicOf(segments) + AddedLogic(survey, source, element)
  {
    var next := WithElement(survey, group, source, segments, element).value;
    if |next| == |segments| {
      assert next[..|next| - 1] == segments[..|next| - 1];
    } else {
      assert next[..|next| - 1] == segments;
    }
  }

  /** The element at a position of a block belongs to the question at that position of the group. */
  lemma ElementQuestion(survey: CanonicalSurvey, group: Group, source: Block, k: nat)
    requires DistinctSurvey(survey) && SourceBlock(survey, group) == Ok(source)
    requires k < |GroupQuestions(survey, group.externalId)|
    ensures |source.elements| == |GroupQuestions(survey, group.externalId)|
    ensures GroupQuestions(survey, group.externalId)[k] in survey.questions
    ensures source.elements[k].id == GroupQuestions(survey, group.externalId)[k].externalId
    ensures QuestionNamed(survey.questions, source.elements[k].id)
         == Some(GroupQuestions(survey, group.externalId)[k])
    ensures GroupQuestions(survey, group.externalId)[k].kind.Equation?
        ==> HasCalculation(GroupQuestions(survey, group.externalId)[k])
  {
    hide Sorting.Sort, EquationRules, SourceChoices;
    var questions := GroupQuestions(survey, group.externalId);
    BlockElementIds(survey, group, source);
    SourceElementsMatch(questions, survey.defaultLanguage);
    assert ElementIds(source.elements)[k] == ExternalIdsOf(questions)[k];
    assert questions[k] in questions;
    GroupQuestionsMember(survey, group.externalId, questions[k]);
    QuestionNamedFinds(survey.questions, questions[k]);
  }

  /** An element adds exactly its own question's rule. */
  lemma ElementLogic(survey: CanonicalSurvey, group: Group, source: Block, k: nat)
    requires DistinctSurvey(survey) && EncodableQuestions(survey) && SourceBlock(survey, group) == Ok(source)
    requires k < |GroupQuestions(survey, group.externalId)| == |source.elements|
    ensures AddedLogic(survey, source, source.elements[k])
         == QuestionRules(survey, GroupQuestions(survey, group.externalId)[k])
  {
    var questions := GroupQuestions(survey, group.externalId);
    ElementQuestion(survey, group, source, k);
    GroupQuestionsDistinct(survey, group.externalId);
    forall p | p in questions
      ensures Ids.Encodable(p.externalId)
    {
      GroupQuestionsMember(survey, group.externalId, p);
    }
    assert questions[k] in questions;
    if questions[k].kind.Equation? {
      RulesForEquation(survey, questions, source.logic, questions[k].externalId);
    }
  }

  lemma NoLogicYet(survey: CanonicalSurvey, group: Group, source: Block, rest: seq<Rule>)
    requires SourceBlock(survey, group) == Ok(source)
    requires EquationRules(survey, GroupQuestions(survey, group.externalId)[0..]) == Ok(rest)
    ensures LogicOf([]) + rest == source.logic
  {
    assert GroupQuestions(survey, group.externalId)[0..] == GroupQuestions(survey, group.externalId);
  }

  lemma {:induction false} LogicConservedUpTo(
    survey: CanonicalSurvey, group: Group, source: Block, questions: seq<Question>, k: nat,
    segments: seq<Segment>, rest: seq<Rule>)
    requires DistinctSurvey(survey) && EncodableQuestions(survey) && SourceBlock(survey, group) == Ok(source)
    requires questions == GroupQuestions(survey, group.externalId) && k <= |questions| == |source.elements|
    requires SegmentElements(survey, group, source, source.elements[..k]) == Ok(segments)
    requires EquationRules(survey, questions[k..]) == Ok(rest)
    ensures LogicOf(segments) + rest == source.logic
    decreases k
  {
    if k == 0 {
      assert source.elements[..0] == [];
      NoLogicYet(survey, group, source, rest);
    } else {
      var before, more := OneElementBack(survey, group, source, questions, k, segments, rest);
      LogicConservedUpTo(survey, group, source, questions, k - 1, before, more);
    }
  }

  lemma OneElementBack(
    survey: CanonicalSurvey, group: Group, source: Block, questions: seq<Question>, k: nat,
    segments: seq<Segment>, rest: seq<Rule>)
    returns (before: seq<Segment>, more: seq<Rule>)
    requires DistinctSurvey(survey) && EncodableQuestions(survey) && SourceBlock(survey, group) == Ok(source)
    requires questions == GroupQuestions(survey, group.externalId) && 0 < k <= |questions| == |source.elements|
    requires SegmentElements(survey, group, source, source.elements[..k]) == Ok(segments)
    requires EquationRules(survey, questions[k..]) == Ok(rest)
    ensures SegmentElements(survey, group, source, source.elements[..k - 1]) == Ok(before)
    ensures EquationRules(survey, questions[k - 1..]) == Ok(more)
    ensures LogicOf(before) + more == LogicOf(segments) + rest
  {
    hide *;
    before := PreviousSegments(survey, group, source, k, segments);
    more := PreviousRules(survey, group, source, questions, k, rest);
    var added := AddedLogic(survey, source, source.elements[k - 1]);
    assert LogicOf(before) + (added + rest) == (LogicOf(before) + added) + rest;
  }

  lemma PreviousSegments(survey: CanonicalSurvey, group: Group, source: Block, k: nat, segments: seq<Segment>)
    returns (before: seq<Segment>)
    requires 0 < k <= |source.elements| && SegmentElements(survey, group, source, source.elements[..k]) == Ok(segments)
    ensures SegmentElements(survey, group, source, source.elements[..k - 1]) == Ok(before)
    ensures LogicOf(segments) == LogicOf(before) + AddedLogic(survey, source, source.elements[k - 1])
  {
    var elements := source.elements[..k];
    assert elements[..k - 1] == source.elements[..k - 1] && elements[k - 1] == source.elements[k - 1];
    before := SegmentElements(survey, group, source, elements[..k - 1]).value;
    LogicWithElement(survey, group, source, before, source.elements[k - 1]);
  }

  lemma PreviousRules(
    survey: CanonicalSurvey, group: Group, source: Block, questions: seq<Question>, k: nat, rest: seq<Rule>)
    returns (more: seq<Rule>)
    requires DistinctSurvey(survey) && EncodableQuestions(survey) && SourceBlock(survey, group) == Ok(source)
    requires questions == GroupQuestions(survey, group.externalId) && 0 < k <= |questions| == |source.elements|
    requires EquationRules(survey, questions[k..]) == Ok(rest)
    ensures EquationRules(survey, questions[k - 1..]) == Ok(more)
    ensures more == AddedLogic(survey, source, source.elements[k - 1]) + rest
  {
    AllEquationRules(survey, group, source, k - 1);
    more := EquationRules(survey, questions[k - 1..]).value;
    assert questions[k - 1..][0] == questions[k - 1] && questions[k - 1..][1..] == questions[k..];
    FirstEquationRule(survey, questions[k - 1..], more);
    ElementLogic(survey, group, source, k - 1);
  }

  lemma {:induction false} AllEquationRules(survey: CanonicalSurvey, group: Group, source: Block, k: nat)
    requires SourceBlock(survey, group) == Ok(source) && k <= |GroupQuestions(survey, group.externalId)|
    ensures EquationRules(survey, GroupQuestions(survey, group.externalId)[k..]).Ok?
  {
    var questions := GroupQuestions(survey, group.externalId);
    if k == 0 {
      assert questions[0..] == questions;
    } else {
      AllEquationRules(survey, group, source, k - 1);
      assert questions[k - 1..][1..] == questions[k..];
      FirstEquationRule(survey, questions[k - 1..], EquationRules(survey, questions[k - 1..]).value);
    }
  }

  /** The segments of a group hold its block's equation rules, each once and in order. */
  lemma LogicConserved(survey: CanonicalSurvey, group: Group, source: Block, segments: seq<Segment>)
    requires DistinctSurvey(survey) && EncodableQuestions(survey) && SourceBlock(survey, group) == Ok(source)
    requires SegmentElements(survey, group, source, source.elements) == Ok(segments)
    ensures LogicOf(segments) == source.logic
  {
    var questions := GroupQuestions(survey, group.externalId);
    SourceElementsMatch(questions, survey.defaultLanguage);
    var n := |questions|;
    assert source.elements[..n] == source.elements && questions[n..] == [];
    LogicConservedUpTo(survey, group, source, questions, n, segments, []);
  }

  lemma {:induction false} ClosingKeepsContents(group: Group, segments: seq<Segment>, n: nat)
    requires n <= |segments|
    ensures ElementsOf(Closed(group, segments)[..n]) == ElementsOf(segments[..n])
    ensures LogicOf(Closed(group, segments)[..n]) == LogicOf(segments[..n])
  {
    if n > 0 {
      ClosingKeepsContents(group, segments, n - 1);
      assert Closed(group, segments)[..n][..n - 1] == Closed(group, segments)[..n - 1];
      assert segments[..n][..n - 1] == segments[..n - 1];
    }
  }

  lemma ClosingKeepsCoherent(survey: CanonicalSurvey, group: Group, source: Block, segments: seq<Segment>, i: nat)
    requires i < |segments| && Coherent(survey, group, source, segments[i])
    ensures Coherent(survey, group, source, Closed(group, segments)[i])
  {
    hide RelevanceText.Combine, RulesFor, IsEquation;
  }

  /** The segments of a group: its elements and equation rules in order, cut just where they have to be. */
  lemma GroupIsSegmented(survey: CanonicalSurvey, blocks: seq<Block>, group: Group, segments: seq<Segment>)
    requires SourceBlocks(survey) == Ok(blocks) && DistinctSurvey(survey) && EncodableQuestions(survey)
    requires group in survey.groups && SegmentGroup(survey, blocks, group) == Ok(segments)
    ensures BlockNamed(blocks, group.externalId).Some?
    ensures var source := BlockNamed(blocks, group.externalId).value;
            ElementsOf(segments) == source.elements && LogicOf(segments) == source.logic &&
            (forall i :: 0 <= i < |segments| ==> Coherent(survey, group, source, segments[i])) &&
            forall i :: 0 < i < |segments| ==> Apart(survey, segments[i - 1], segments[i])
  {
    hide SourceBlocks, SourceBlock, SegmentElements, Coherent, Separated, AllCoherent, ElementsOf, LogicOf, Apart,
      DistinctQuestions, EncodableQuestions;
    BlocksByGroup(survey, blocks, group);
    var source := BlockNamed(blocks, group.externalId).value;
    var raw := SegmentElements(survey, group, source, source.elements).value;
    SegmentingConserves(survey, group, source, source.elements, raw);
    LogicConserved(survey, group, source, raw);
    ClosingKeepsContents(group, raw, |raw|);
    assert raw[..|raw|] == raw && Closed(group, raw)[..|raw|] == Closed(group, raw);
    forall i | 0 <= i < |segments|
      ensures Coherent(survey, group, source, segments[i])
    {
      CoherentAt(survey, group, source, raw, i);
      ClosingKeepsCoherent(survey, group, source, raw, i);
    }
    forall i | 0 < i < |segments|
      ensures Apart(survey, segments[i - 1], segments[i])
    {
      ApartAt(survey, raw, i);
      ClosingKeepsApart(survey, group, raw, i);
    }
  }

  lemma ClosingKeepsApart(survey: CanonicalSurvey, group: Group, segments: seq<Segment>, i: nat)
    requires 0 < i < |segments| && Apart(survey, segments[i - 1], segments[i])
    ensures Apart(survey, Closed(group, segments)[i - 1], Closed(group, segments)[i])
  {
    hide IsEquation;
  }
}
