/** Cutting the compiled blocks of groups into segments of equal effective relevance. */
module Segments {
  import opened Wrappers
  import opened Survey
  import opened Payload
  import opened Compiler
  import Ids
  import RelevanceText
  import Sorting
  import Words

  datatype Segment = Segment(
    block: Block, group: string, relevance: string, index: nat, count: nat,
    questions: seq<string>, calculated: seq<string>)

  /** A map from block IDs to blocks keeps the last block with an ID. */
  function BlockNamed(blocks: seq<Block>, id: string): (r: Option<Block>)
    ensures r.Some? ==> r.value in blocks && r.value.id == id
    ensures r.None? ==> forall b :: b in blocks ==> b.id != id
  {
    if blocks == [] then None
    else if blocks[|blocks| - 1].id == id then Some(blocks[|blocks| - 1])
    else BlockNamed(blocks[..|blocks| - 1], id)
  }

  /** The rules that compute one variable. */
  function RulesFor(rules: seq<Rule>, variableId: string): seq<Rule> {
    if rules == [] then []
    else
      (if rules[0].Calculation? && rules[0].variableId == variableId then [rules[0]] else [])
      + RulesFor(rules[1..], variableId)
  }

  function SegmentName(group: string, index: nat): string {
    group + "_segment_" + Words.Numeral(index + 1)
  }

  function OpenSegment(group: string, element: Element, relevance: string, index: nat, rules: seq<Rule>,
                       calculated: seq<string>): Segment {
    Segment(Block(SegmentName(group, index), [element], rules, None), group, relevance, index, 0,
            [element.id], calculated)
  }

  function Extended(s: Segment, element: Element): Segment {
    s.(block := s.block.(elements := s.block.elements + [element]), questions := s.questions + [element.id])
  }

  /** The segments of a group after one more element; the counts are filled in when the group is complete. */
  function WithElement(survey: CanonicalSurvey, group: Group, source: Block, segments: seq<Segment>, element: Element)
    : Result<seq<Segment>, CompileError>
  {
    match QuestionNamed(survey.questions, element.id)
    case None => Err(MissingQuestion)
    case Some(q) =>
      var relevance := RelevanceText.Combine(group.relevance, q.relevance);
      if q.kind.Equation? then
        var rules := RulesFor(source.logic, Ids.EquationVariableId(survey.externalId, q.externalId));
        Ok(segments + [OpenSegment(group.externalId, element, relevance, |segments|, rules, [q.externalId])])
      else if segments != [] && segments[|segments| - 1].relevance == relevance then
        Ok(segments[..|segments| - 1] + [Extended(segments[|segments| - 1], element)])
      else
        Ok(segments + [OpenSegment(group.externalId, element, relevance, |segments|, [], [])])
  }

  function SegmentElements(survey: CanonicalSurvey, group: Group, source: Block, elements: seq<Element>)
    : Result<seq<Segment>, CompileError>
  {
    if elements == [] then Ok([])
    else
      var before := SegmentElements(survey, group, source, elements[..|elements| - 1]);
      if before.Err? then before
      else WithElement(survey, group, source, before.value, elements[|elements| - 1])
  }

  /** A group that stays in one piece keeps its own name. */
  function Closed(group: Group, segments: seq<Segment>): seq<Segment> {
    seq(|segments|, i requires 0 <= i < |segments| =>
      var s := segments[i].(count := |segments|);
      if |segments| == 1 then s.(block := s.block.(id := group.externalId)) else s)
  }

  function SegmentGroup(survey: CanonicalSurvey, blocks: seq<Block>, group: Group): Result<seq<Segment>, CompileError> {
    var source := BlockNamed(blocks, group.externalId);
    if source.None? then Err(MissingBlock)
    else
      var segments := SegmentElements(survey, group, source.value, source.value.elements);
      if segments.Err? then segments else Ok(Closed(group, segments.value))
  }

  function SegmentGroups(survey: CanonicalSurvey, blocks: seq<Block>, groups: seq<Group>)
    : Result<seq<Segment>, CompileError>
  {
    if groups == [] then Ok([])
    else
      var before := SegmentGroups(survey, blocks, groups[..|groups| - 1]);
      if before.Err? then before
      else
        var last := SegmentGroup(survey, blocks, groups[|groups| - 1]);
        if last.Err? then last else Ok(before.value + last.value)
  }

  method SegmentCanonicalBlocks(survey: CanonicalSurvey, blocks: seq<Block>)
    returns (r: Result<seq<Segment>, CompileError>)
    ensures r == SegmentGroups(survey, blocks, Sorting.Sort(survey.groups, GroupOrder))
  {
    hide SegmentElements, WithElement, Closed, Sorting.Sort;
    var groups := Sorting.Sort(survey.groups, GroupOrder);
    var segments: seq<Segment> := [];
    for g := 0 to |groups|
      invariant SegmentGroups(survey, blocks, groups[..g]) == Ok(segments)
    {
      var group := groups[g];
      PrefixGroups(survey, blocks, groups, g);
      var source := BlockNamed(blocks, group.externalId);
      if source.None? {
        return Err(MissingBlock);
      }
      var groupSegments := SegmentBlock(survey, group, source.value);
      if groupSegments.Err? {
        return groupSegments;
      }
      segments := segments + Closed(group, groupSegments.value);
    }
    assert groups[..|groups|] == groups;
    r := Ok(segments);
  }

  /** The loop over one block's elements, extending the last segment or opening a new one. */
  method SegmentBlock(survey: CanonicalSurvey, group: Group, source: Block)
    returns (r: Result<seq<Segment>, CompileError>)
    ensures r == SegmentElements(survey, group, source, source.elements)
  {
    hide RelevanceText.Combine, RulesFor, Ids.EquationVariableId, OpenSegment, Extended, SegmentElements, QuestionNamed;
    var segments: seq<Segment> := [];
    var elements := source.elements;
    NoElementsYet(survey, group, source);
    for e := 0 to |elements|
      invariant SegmentElements(survey, group, source, elements[..e]) == Ok(segments)
    {
      var element := elements[e];
      PrefixElements(survey, group, source, elements, e);
      NextElement(survey, group, source, elements, e, segments);
      var question := QuestionNamed(survey.questions, element.id);
      if question.None? {
        return Err(MissingQuestion);
      }
      var relevance := RelevanceText.Combine(group.relevance, question.value.relevance);
      var count := |segments|;
      if question.value.kind.Equation? {
        var id := question.value.externalId;
        var rules := RulesFor(source.logic, Ids.EquationVariableId(survey.externalId, id));
        segments := segments + [OpenSegment(group.externalId, element, relevance, count, rules, [id])];
      } else if count > 0 && segments[count - 1].relevance == relevance {
        segments := segments[..count - 1] + [Extended(segments[count - 1], element)];
      } else {
        segments := segments + [OpenSegment(group.externalId, element, relevance, count, [], [])];
      }
    }
    assert elements[..|elements|] == elements;
    r := Ok(segments);
  }

  /** How the group loop's state relates to the whole result: an error in one group is the result. */
  lemma {:induction false} PrefixGroups(survey: CanonicalSurvey, blocks: seq<Block>, groups: seq<Group>, g: nat)
    requires g < |groups|
    ensures groups[..g + 1][..g] == groups[..g] && groups[..g + 1][g] == groups[g]
    ensures SegmentGroups(survey, blocks, groups[..g + 1]).Err? ==>
              SegmentGroups(survey, blocks, groups) == SegmentGroups(survey, blocks, groups[..g + 1])
    decreases |groups|
  {
    assert groups[..g + 1][..g] == groups[..g];
    if g + 1 < |groups| {
      PrefixGroups(survey, blocks, groups[..|groups| - 1], g);
      assert groups[..|groups| - 1][..g + 1] == groups[..g + 1];
    } else {
      assert groups[..g + 1] == groups;
    }
  }

  lemma {:induction false} PrefixElements(
    survey: CanonicalSurvey, group: Group, source: Block, elements: seq<Element>, e: nat)
    requires e < |elements|
    ensures elements[..e + 1][..e] == elements[..e] && elements[..e + 1][e] == elements[e]
    ensures SegmentElements(survey, group, source, elements[..e + 1]).Err? ==>
              SegmentElements(survey, group, source, elements)
              == SegmentElements(survey, group, source, elements[..e + 1])
    decreases |elements|
  {
    assert elements[..e + 1][..e] == elements[..e];
    if e + 1 < |elements| {
      PrefixElements(survey, group, source, elements[..|elements| - 1], e);
      assert elements[..|elements| - 1][..e + 1] == elements[..e + 1];
    } else {
      assert elements[..e + 1] == elements;
    }
  }

  lemma NoElementsYet(survey: CanonicalSurvey, group: Group, source: Block)
    ensures SegmentElements(survey, group, source, source.elements[..0]) == Ok([])
  {
  }

  lemma NextElement(
    survey: CanonicalSurvey, group: Group, source: Block, elements: seq<Element>, e: nat, segments: seq<Segment>)
    requires e < |elements| && SegmentElements(survey, group, source, elements[..e]) == Ok(segments)
    ensures SegmentElements(survey, group, source, elements[..e + 1])
         == WithElement(survey, group, source, segments, elements[e])
  {
    hide WithElement;
    assert elements[..e + 1][..e] == elements[..e];
  }

  // ----- What segmentation conserves -----

  ghost predicate IsEquation(survey: CanonicalSurvey, element: Element) {
    var q := QuestionNamed(survey.questions, element.id);
    q.Some? && q.value.kind.Equation?
  }

  /** The elements of all segments, in order. */
  ghost function ElementsOf(segments: seq<Segment>): seq<Element> {
    if segments == [] then [] else ElementsOf(segments[..|segments| - 1]) + segments[|segments| - 1].block.elements
  }

  /** The rules of all segments, in order. */
  ghost function LogicOf(segments: seq<Segment>): seq<Rule> {
    if segments == [] then [] else LogicOf(segments[..|segments| - 1]) + segments[|segments| - 1].block.logic
  }

  /** One segment: elements of one relevance, an equation only in front, and that equation's rules. */
  ghost predicate Coherent(survey: CanonicalSurvey, group: Group, source: Block, s: Segment) {
    var elements := s.block.elements;
    elements != [] && s.group == group.externalId && s.block.logicFallback == None &&
    |s.questions| == |elements| && (forall i :: 0 <= i < |elements| ==> s.questions[i] == elements[i].id) &&
    (forall e :: e in elements ==> QuestionNamed(survey.questions, e.id).Some?) &&
    (forall e :: e in elements ==>
       s.relevance
         == RelevanceText.Combine(group.relevance, QuestionNamed(survey.questions, e.id).value.relevance)) &&
    (forall i :: 0 < i < |elements| ==> !IsEquation(survey, elements[i])) &&
    s.calculated == (if IsEquation(survey, elements[0]) then [elements[0].id] else []) &&
    s.block.logic ==
      (if IsEquation(survey, elements[0])
       then RulesFor(source.logic, Ids.EquationVariableId(survey.externalId, elements[0].id)) else [])
  }

  /** Every segment is coherent and knows its place. */
  ghost predicate AllCoherent(survey: CanonicalSurvey, group: Group, source: Block, segments: seq<Segment>) {
    segments == [] ||
    var last := |segments| - 1;
    AllCoherent(survey, group, source, segments[..last])
    && segments[last].index == last && Coherent(survey, group, source, segments[last])
  }

  /** The later of two neighbouring segments could not have been part of the earlier one. */
  ghost predicate Apart(survey: CanonicalSurvey, earlier: Segment, later: Segment) {
    later.block.elements != [] &&
    (earlier.relevance != later.relevance || IsEquation(survey, later.block.elements[0]))
  }

  ghost predicate Separated(survey: CanonicalSurvey, segments: seq<Segment>) {
    |segments| < 2 ||
    var last := |segments| - 1;
    Separated(survey, segments[..last]) && Apart(survey, segments[last - 1], segments[last])
  }

  ghost predicate Conserves(
    survey: CanonicalSurvey, group: Group, source: Block, elements: seq<Element>, segments: seq<Segment>)
  {
    ElementsOf(segments) == elements && Separated(survey, segments) && AllCoherent(survey, group, source, segments)
  }

  lemma {:induction false} CoherentAt(
    survey: CanonicalSurvey, group: Group, source: Block, segments: seq<Segment>, i: nat)
    requires AllCoherent(survey, group, source, segments) && i < |segments|
    ensures Coherent(survey, group, source, segments[i]) && segments[i].index == i
  {
    if i < |segments| - 1 {
      CoherentAt(survey, group, source, segments[..|segments| - 1], i);
    }
  }

  lemma {:induction false} ApartAt(survey: CanonicalSurvey, segments: seq<Segment>, i: nat)
    requires Separated(survey, segments) && 0 < i < |segments|
    ensures Apart(survey, segments[i - 1], segments[i])
  {
    if i < |segments| - 1 {
      ApartAt(survey, segments[..|segments| - 1], i);
    }
  }

  lemma ExtensionCoherent(survey: CanonicalSurvey, group: Group, source: Block, s: Segment, element: Element)
    requires Coherent(survey, group, source, s)
    requires QuestionNamed(survey.questions, element.id).Some? && !IsEquation(survey, element)
    requires s.relevance
      == RelevanceText.Combine(group.relevance, QuestionNamed(survey.questions, element.id).value.relevance)
    ensures Coherent(survey, group, source, Extended(s, element))
  {
    var after := Extended(s, element).block.elements;
    assert forall e :: e in after ==> e in s.block.elements || e == element;
    assert after[0] == s.block.elements[0];
  }

  /** One more element either extends the last segment or opens a new one. */
  ghost predicate Grows(survey: CanonicalSurvey, segments: seq<Segment>, next: seq<Segment>, element: Element) {
    next != [] &&
    var last := |next| - 1;
    (|next| == |segments| && next == segments[..last] + [Extended(segments[last], element)]
     && segments[last].block.elements != [])
    || (next == segments + [next[last]] && next[last].block.elements == [element]
        && (last > 0 ==> segments[last - 1].relevance != next[last].relevance || IsEquation(survey, element)))
  }

  lemma ExtendingKeepsCoherent(
    survey: CanonicalSurvey, group: Group, source: Block, segments: seq<Segment>, element: Element)
    requires AllCoherent(survey, group, source, segments) && segments != []
    requires QuestionNamed(survey.questions, element.id).Some? && !IsEquation(survey, element)
    requires segments[|segments| - 1].relevance
      == RelevanceText.Combine(group.relevance, QuestionNamed(survey.questions, element.id).value.relevance)
    ensures segments[|segments| - 1].block.elements != []
    ensures AllCoherent(survey, group, source,
                        segments[..|segments| - 1] + [Extended(segments[|segments| - 1], element)])
  {
    hide RelevanceText.Combine, RulesFor, IsEquation;
    var last := |segments| - 1;
    var next := segments[..last] + [Extended(segments[last], element)];
    ExtensionCoherent(survey, group, source, segments[last], element);
    assert next[..last] == segments[..last] && next[last] == Extended(segments[last], element);
  }

  lemma OpeningCoherent(
    survey: CanonicalSurvey, group: Group, source: Block, element: Element, relevance: string, index: nat)
    requires QuestionNamed(survey.questions, element.id).Some?
    requires relevance
      == RelevanceText.Combine(group.relevance, QuestionNamed(survey.questions, element.id).value.relevance)
    ensures var equation := IsEquation(survey, element);
            var rules := RulesFor(source.logic, Ids.EquationVariableId(survey.externalId, element.id));
            Coherent(survey, group, source, OpenSegment(group.externalId, element, relevance, index,
                     if equation then rules else [], if equation then [element.id] else []))
  {
  }

  lemma OpeningKeepsCoherent(
    survey: CanonicalSurvey, group: Group, source: Block, segments: seq<Segment>, element: Element, relevance: string)
    requires AllCoherent(survey, group, source, segments) && QuestionNamed(survey.questions, element.id).Some?
    requires relevance
      == RelevanceText.Combine(group.relevance, QuestionNamed(survey.questions, element.id).value.relevance)
    ensures var equation := IsEquation(survey, element);
            var rules := RulesFor(source.logic, Ids.EquationVariableId(survey.externalId, element.id));
            var opening := OpenSegment(group.externalId, element, relevance, |segments|,
                                       if equation then rules else [], if equation then [element.id] else []);
            opening.block.elements == [element] && opening.relevance == relevance
            && AllCoherent(survey, group, source, segments + [opening])
  {
    hide RelevanceText.Combine, RulesFor, Coherent, IsEquation;
    var equation := IsEquation(survey, element);
    var rules := RulesFor(source.logic, Ids.EquationVariableId(survey.externalId, element.id));
    var opening := OpenSegment(group.externalId, element, relevance, |segments|,
                               if equation then rules else [], if equation then [element.id] else []);
    OpeningCoherent(survey, group, source, element, relevance, |segments|);
    assert (segments + [opening])[..|segments|] == segments;
  }

  lemma WithElementGrows(
    survey: CanonicalSurvey, group: Group, source: Block, segments: seq<Segment>, element: Element, next: seq<Segment>)
    requires WithElement(survey, group, source, segments, element) == Ok(next)
    requires AllCoherent(survey, group, source, segments)
    ensures Grows(survey, segments, next, element) && AllCoherent(survey, group, source, next)
  {
    hide RelevanceText.Combine, RulesFor, Coherent, AllCoherent, OpenSegment, Extended;
    var q := QuestionNamed(survey.questions, element.id).value;
    var relevance := RelevanceText.Combine(group.relevance, q.relevance);
    var last := |segments| - 1;
    if !q.kind.Equation? && segments != [] && segments[last].relevance == relevance {
      ExtendingKeepsCoherent(survey, group, source, segments, element);
    } else {
      OpeningKeepsCoherent(survey, group, source, segments, element, relevance);
    }
  }

  lemma GrowingKeepsElements(survey: CanonicalSurvey, segments: seq<Segment>, next: seq<Segment>, element: Element)
    requires Grows(survey, segments, next, element)
    ensures ElementsOf(next) == ElementsOf(segments) + [element]
  {
    var last := |next| - 1;
    if |next| == |segments| {
      assert next[..last] == segments[..last];
      assert ElementsOf(next) == (ElementsOf(segments[..last]) + segments[last].block.elements) + [element];
    } else {
      assert next[..last] == segments;
    }
  }

  lemma GrowingKeepsSeparated(survey: CanonicalSurvey, segments: seq<Segment>, next: seq<Segment>, element: Element)
    requires Grows(survey, segments, next, element) && Separated(survey, segments)
    ensures Separated(survey, next)
  {
    var last := |next| - 1;
    if |next| == |segments| {
      assert next[..last] == segments[..last];
      assert next[last].block.elements[0] == segments[last].block.elements[0];
    } else {
      assert next[..last] == segments;
    }
  }

  lemma ElementKeepsConservation(
    survey: CanonicalSurvey, group: Group, source: Block, elements: seq<Element>, segments: seq<Segment>,
    element: Element, more: seq<Element>, next: seq<Segment>)
    requires Conserves(survey, group, source, elements, segments) && more == elements + [element]
    requires WithElement(survey, group, source, segments, element) == Ok(next)
    ensures Conserves(survey, group, source, more, next)
  {
    hide WithElement, ElementsOf, Separated, AllCoherent, Grows;
    WithElementGrows(survey, group, source, segments, element, next);
    GrowingKeepsElements(survey, segments, next, element);
    GrowingKeepsSeparated(survey, segments, next, element);
  }

  lemma LastElement(
    survey: CanonicalSurvey, group: Group, source: Block, elements: seq<Element>, segments: seq<Segment>)
    returns (before: seq<Segment>)
    requires elements != [] && SegmentElements(survey, group, source, elements) == Ok(segments)
    ensures SegmentElements(survey, group, source, elements[..|elements| - 1]) == Ok(before)
    ensures WithElement(survey, group, source, before, elements[|elements| - 1]) == Ok(segments)
  {
    before := SegmentElements(survey, group, source, elements[..|elements| - 1]).value;
  }

  lemma NothingToConserve(survey: CanonicalSurvey, group: Group, source: Block, segments: seq<Segment>)
    requires SegmentElements(survey, group, source, []) == Ok(segments)
    ensures Conserves(survey, group, source, [], segments)
  {
  }

  lemma {:induction false} SegmentingConserves(
    survey: CanonicalSurvey, group: Group, source: Block, elements: seq<Element>, segments: seq<Segment>)
    requires SegmentElements(survey, group, source, elements) == Ok(segments)
    ensures Conserves(survey, group, source, elements, segments)
  {
    hide *;
    if elements == [] {
      NothingToConserve(survey, group, source, segments);
    } else {
      var front, last := elements[..|elements| - 1], elements[|elements| - 1];
      var before := LastElement(survey, group, source, elements, segments);
      SegmentingConserves(survey, group, source, front, before);
      assert elements == front + [last];
      ElementKeepsConservation(survey, group, source, front, before, last, elements, segments);
    }
  }
}
