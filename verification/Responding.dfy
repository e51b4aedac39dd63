/** A respondent answering the compiled survey, and what the runtime has recorded after some blocks. */
module Responding {
  import opened Wrappers
  import opened Expressions
  import opened Survey
  import opened Payload
  import opened Runtime
  import opened Compiler
  import opened Segments
  import opened SegmentConservation
  import opened SurveySegments
  import opened CompiledSurvey
  import opened RelevanceCompiler
  import opened SurveyReferences
  import ElementContents
  import Ids
  import Routing
  import Runs

  /** What a respondent answers on each block, and the variable values the runtime then calculates. */
  datatype Respondent = Respondent(reply: nat -> Context, calculated: seq<nat> -> Responses, language: string)

  // ----- Recording -----

  /** The stored responses for canonical answers. */
  function Record(survey: CanonicalSurvey, questions: seq<Question>, answers: Context, language: string): Responses {
    if questions == [] then map[]
    else
      var before := Record(survey, questions[..|questions| - 1], answers, language);
      var q := questions[|questions| - 1];
      if q.externalId in answers && Fits(q, answers[q.externalId]) then
        before[Ids.QuestionId(survey.externalId, q.externalId) :=
          StoredResponse(q, answers[q.externalId], survey.defaultLanguage, language)]
      else before
  }

  lemma QuestionIdsDiffer(survey: string, a: string, b: string)
    requires Ids.Encodable(survey) && Ids.Encodable(a) && Ids.Encodable(b)
    ensures Ids.QuestionId(survey, a) == Ids.QuestionId(survey, b) <==> a == b
  {
    if Ids.QuestionId(survey, a) == Ids.QuestionId(survey, b) {
      Ids.CompiledIdsDecodeUniquely(Ids.Question(survey, a), Ids.Question(survey, b));
    }
  }

  lemma {:induction false} RecordLookup(
    survey: CanonicalSurvey, questions: seq<Question>, answers: Context, language: string, q: Question)
    requires DistinctQuestions(questions) && Ids.Encodable(survey.externalId)
    requires forall p :: p in questions ==> Ids.Encodable(p.externalId)
    requires Ids.Encodable(q.externalId)
    requires forall p :: p in questions && p.externalId == q.externalId ==> p == q
    ensures var id := Ids.QuestionId(survey.externalId, q.externalId);
            var record := Record(survey, questions, answers, language);
            var stored := q in questions && q.externalId in answers && Fits(q, answers[q.externalId]);
            (id in record <==> stored) &&
            (stored ==>
               record[id] == StoredResponse(q, answers[q.externalId], survey.defaultLanguage, language))
  {
    if questions != [] {
      var front, last := questions[..|questions| - 1], questions[|questions| - 1];
      assert questions == front + [last];
      RecordLookup(survey, front, answers, language, q);
      QuestionIdsDiffer(survey.externalId, q.externalId, last.externalId);
    }
  }

  // ----- The runtime's elements -----

  function PayloadElements(blocks: seq<Block>): seq<Element> {
    if blocks == [] then [] else PayloadElements(blocks[..|blocks| - 1]) + blocks[|blocks| - 1].elements
  }

  function EnvironmentOf(payload: Payload, language: string, host: Host): Environment {
    Environment(PayloadElements(payload.blocks), payload.variables, language, host)
  }

  lemma {:induction false} PayloadElementsMember(blocks: seq<Block>, e: Element)
    ensures e in PayloadElements(blocks) <==> exists i :: 0 <= i < |blocks| && e in blocks[i].elements
  {
    if blocks != [] {
      PayloadElementsMember(blocks[..|blocks| - 1], e);
    }
  }

  lemma {:induction false} ElementFound(elements: seq<Element>, e: Element)
    requires e in elements && forall f :: f in elements && f.id == e.id ==> f == e
    ensures ElementWithId(elements, e.id) == Some(e)
  {
    if elements[0] != e {
      ElementFound(elements[1..], e);
    }
  }

  lemma RewrittenIsElementOf(survey: CanonicalSurvey, q: Question, e: Element)
    requires SourceElement(q, survey.defaultLanguage) == Ok(e)
    ensures IsElementOf(survey, q, RewrittenElement(survey.externalId, e))
    ensures RewrittenElement(survey.externalId, e).id == Ids.QuestionId(survey.externalId, q.externalId)
  {
    hide CompiledText, Ids.OptionId, Ids.QuestionId;
    if HasChoices(q.kind) {
      assert RewrittenElement(survey.externalId, e).choices == CompiledChoices(survey, q);
    }
  }

  /** A compiled survey with its segments, ready to be answered. */
  ghost predicate Compiled(survey: CanonicalSurvey, host: Host, c: Compilation, segments: seq<Segment>) {
    DistinctSurvey(survey) && WellIdentified(survey) && SegmentsOf(survey, segments) && survey.endings != [] &&
    CompilesTo(survey, host, c)
  }

  ghost predicate HasQuestion(segments: seq<Segment>, i: nat, x: string) {
    i < |segments| && x in segments[i].questions
  }

  lemma SegmentQuestion(survey: CanonicalSurvey, segments: seq<Segment>, i: nat, x: string)
    returns (group: Group, e: Element, q: Question)
    requires DistinctSurvey(survey) && SegmentsOf(survey, segments) && HasQuestion(segments, i, x)
    ensures IsSegmentOf(survey, group, segments[i])
    ensures e in segments[i].block.elements && IsSourceOf(survey, group, segments[i].relevance, e, q)
    ensures e.id == x
  {
    SurveyIsSegmented(survey, segments);
    var s := segments[i];
    assert IsSurveySegment(survey, s);
    group :| IsSegmentOf(survey, group, s);
    var k :| 0 <= k < |s.questions| && s.questions[k] == x;
    e := s.block.elements[k];
    assert e in s.block.elements;
    q :| IsSourceOf(survey, group, s.relevance, e, q);
  }

  lemma RewrittenBlockShape(survey: CanonicalSurvey, s: Segment)
    requires IsSurveySegment(survey, s)
    ensures var b := RewrittenBlock(survey.externalId, s);
            b.elements != [] && b.logicFallback == None && forall rule :: rule in b.logic ==> rule.Calculation?
  {
    hide RewrittenElement, BlockName, Ids.GroupId, IsSourceOf;
    var group :| IsSegmentOf(survey, group, s);
  }

  lemma CompiledBlocks(survey: CanonicalSurvey, host: Host, c: Compilation, segments: seq<Segment>)
    requires Compiled(survey, host, c, segments)
    ensures |c.payload.blocks| == |segments|
    ensures forall i :: 0 <= i < |segments| ==>
              c.payload.blocks[i].elements == RewrittenElements(survey.externalId, segments[i].block.elements)
    ensures Routing.Routable(RouteOf(survey, host, segments), c.payload)
  {
    hide RewrittenElements, SourceBlocks, SegmentGroups, IsSurveySegment;
    var r := RouteOf(survey, host, segments);
    SurveyIsSegmented(survey, segments);
    forall i | 0 <= i < |segments|
      ensures r.blocks[i].elements != [] && r.blocks[i].logicFallback == None
      ensures forall rule :: rule in r.blocks[i].logic ==> rule.Calculation?
    {
      RewrittenBlockShape(survey, segments[i]);
    }
    CompiledRoute(survey, host, c, segments);
    Routing.RoutingKeepsIds(r, c.payload);
  }

  lemma CompiledRoute(survey: CanonicalSurvey, host: Host, c: Compilation, segments: seq<Segment>)
    requires Compiled(survey, host, c, segments)
    ensures var r := RouteOf(survey, host, segments);
            Routing.Aligned(r) && Routing.RouteUpTo(r, |r.blocks|) == Ok(c.payload.blocks)
            && c.payload.endings == EndingIds(survey) && c.payload.endings[0] == r.endingId
  {
    hide RewrittenBlock, Routing.RouteUpTo, Routing.PlanFrom, SegmentGroups, SourceBlocks, WithMissingEntries;
    CompilesToExactly(survey, host, c);
    SegmentsOfExactly(survey, segments);
  }

  /** The runtime finds the compiled element of every question it can show. */
  lemma QuestionElementFound(
    survey: CanonicalSurvey, host: Host, c: Compilation, segments: seq<Segment>, language: string, i: nat, x: string)
    requires Compiled(survey, host, c, segments) && HasQuestion(segments, i, x)
    ensures QuestionNamed(survey.questions, x).Some?
    ensures var q := QuestionNamed(survey.questions, x).value;
            var found := ElementWithId(EnvironmentOf(c.payload, language, host).elements,
                                       Ids.QuestionId(survey.externalId, x));
            found.Some? && IsElementOf(survey, q, found.value)
  {
    hide PayloadElements, RewrittenElement, SourceElement;
    CompiledBlocks(survey, host, c, segments);
    var group, e, q := SegmentQuestion(survey, segments, i, x);
    RewrittenIsElementOf(survey, q, e);
    var rewritten := RewrittenElement(survey.externalId, e);
    var elements := PayloadElements(c.payload.blocks);
    var k :| 0 <= k < |segments[i].block.elements| && segments[i].block.elements[k] == e;
    assert c.payload.blocks[i].elements[k] == rewritten;
    PayloadElementsMember(c.payload.blocks, rewritten);
    forall f | f in elements && f.id == rewritten.id
      ensures f == rewritten
    {
      SameIdSameElement(survey, host, c, segments, q, e, f);
    }
    ElementFound(elements, rewritten);
  }

  /** Every element of the payload was rewritten from one compiled for a canonical question. */
  lemma PayloadElementOrigin(
    survey: CanonicalSurvey, host: Host, c: Compilation, segments: seq<Segment>, f: Element)
    returns (g: Element, p: Question)
    requires Compiled(survey, host, c, segments) && f in PayloadElements(c.payload.blocks)
    ensures f == RewrittenElement(survey.externalId, g)
    ensures p in survey.questions && p.externalId == g.id && SourceElement(p, survey.defaultLanguage) == Ok(g)
  {
    hide PayloadElements, RewrittenElement, SourceElement;
    CompiledBlocks(survey, host, c, segments);
    PayloadElementsMember(c.payload.blocks, f);
    var j :| 0 <= j < |segments| && f in c.payload.blocks[j].elements;
    var m :| 0 <= m < |segments[j].block.elements| && c.payload.blocks[j].elements[m] == f;
    g := segments[j].block.elements[m];
    p := ElementSource(survey, segments, j, g);
  }

  lemma ElementSource(survey: CanonicalSurvey, segments: seq<Segment>, j: nat, g: Element) returns (p: Question)
    requires DistinctSurvey(survey) && SegmentsOf(survey, segments)
    requires j < |segments| && g in segments[j].block.elements
    ensures p in survey.questions && p.externalId == g.id && SourceElement(p, survey.defaultLanguage) == Ok(g)
  {
    SurveyIsSegmented(survey, segments);
    assert IsSurveySegment(survey, segments[j]);
    var group :| IsSegmentOf(survey, group, segments[j]);
    p :| IsSourceOf(survey, group, segments[j].relevance, g, p);
  }

  lemma SameIdSameElement(
    survey: CanonicalSurvey, host: Host, c: Compilation, segments: seq<Segment>, q: Question, e: Element, f: Element)
    requires Compiled(survey, host, c, segments)
    requires q in survey.questions && q.externalId == e.id && SourceElement(q, survey.defaultLanguage) == Ok(e)
    requires f in PayloadElements(c.payload.blocks) && f.id == Ids.QuestionId(survey.externalId, e.id)
    ensures f == RewrittenElement(survey.externalId, e)
  {
    hide PayloadElements, SourceElement, ItemId;
    var g, p := PayloadElementOrigin(survey, host, c, segments, f);
    assert f.id == Ids.QuestionId(survey.externalId, g.id);
    QuestionIdsDiffer(survey.externalId, g.id, e.id);
    assert p == q;
  }

  // ----- Answers along a run -----

  function AnswersAfter(reply: nat -> Context, visited: seq<nat>): Context {
    if visited == [] then map[]
    else AnswersAfter(reply, visited[..|visited| - 1]) + reply(visited[|visited| - 1])
  }

  /** The respondent answers only what a block shows, each answer fitting its question. */
  ghost predicate Honest(survey: CanonicalSurvey, segments: seq<Segment>, respondent: Respondent) {
    (forall i, x :: 0 <= i < |segments| && x in respondent.reply(i) ==> HasQuestion(segments, i, x)) &&
    (forall i, x :: 0 <= i < |segments| && x in respondent.reply(i) ==>
       QuestionNamed(survey.questions, x).Some?
       && Fits(QuestionNamed(survey.questions, x).value, respondent.reply(i)[x]))
  }

  ghost function HistoryOf(survey: CanonicalSurvey, host: Host, c: Compilation, respondent: Respondent): Runs.History {
    (visited: seq<nat>) =>
      Situation(Record(survey, survey.questions, AnswersAfter(respondent.reply, visited), respondent.language),
                respondent.calculated(visited), EnvironmentOf(c.payload, respondent.language, host))
  }

  ghost predicate Positions(visited: seq<nat>, n: nat) {
    forall k :: 0 <= k < |visited| ==> visited[k] < n
  }

  /** After a run, a question is answered exactly when its block was visited and answered it there. */
  lemma {:induction false} AnswersComeFromOwnBlock(
    survey: CanonicalSurvey, segments: seq<Segment>, respondent: Respondent, visited: seq<nat>, m: nat, x: string)
    requires DistinctSurvey(survey) && SegmentsOf(survey, segments) && Honest(survey, segments, respondent)
    requires Positions(visited, |segments|) && HasQuestion(segments, m, x)
    ensures x in AnswersAfter(respondent.reply, visited) <==> m in visited && x in respondent.reply(m)
    ensures x in AnswersAfter(respondent.reply, visited) ==>
              AnswersAfter(respondent.reply, visited)[x] == respondent.reply(m)[x]
  {
    if visited != [] {
      var front, last := visited[..|visited| - 1], visited[|visited| - 1];
      assert visited == front + [last];
      AnswersComeFromOwnBlock(survey, segments, respondent, front, m, x);
      if x in respondent.reply(last) && last != m {
        SurveyIsSegmented(survey, segments);
        assert HasQuestion(segments, last, x);
        if m < last { OneSegmentEach(segments, m, last, x); } else { OneSegmentEach(segments, last, m, x); }
      }
    }
  }

  lemma {:induction false} AnswersFit(
    survey: CanonicalSurvey, segments: seq<Segment>, respondent: Respondent, visited: seq<nat>, x: string)
    requires Honest(survey, segments, respondent) && Positions(visited, |segments|)
    requires x in AnswersAfter(respondent.reply, visited)
    ensures QuestionNamed(survey.questions, x).Some?
    ensures Fits(QuestionNamed(survey.questions, x).value, AnswersAfter(respondent.reply, visited)[x])
  {
    var front, last := visited[..|visited| - 1], visited[|visited| - 1];
    if x !in respondent.reply(last) {
      AnswersFit(survey, segments, respondent, front, x);
    }
  }

  /** At every point of a run the runtime has recorded exactly the answers so far. */
  lemma RunIsLegible(
    survey: CanonicalSurvey, host: Host, c: Compilation, segments: seq<Segment>, respondent: Respondent,
    visited: seq<nat>, i: nat, x: string)
    requires Compiled(survey, host, c, segments) && Honest(survey, segments, respondent)
    requires Positions(visited, |segments|) && HasQuestion(segments, i, x)
    ensures QuestionNamed(survey.questions, x).Some?
    ensures Recorded(survey, QuestionNamed(survey.questions, x).value, AnswersAfter(respondent.reply, visited),
                     HistoryOf(survey, host, c, respondent)(visited))
  {
    var answers := AnswersAfter(respondent.reply, visited);
    QuestionElementFound(survey, host, c, segments, respondent.language, i, x);
    var q := QuestionNamed(survey.questions, x).value;
    RecordLookup(survey, survey.questions, answers, respondent.language, q);
    if x in answers {
      AnswersFit(survey, segments, respondent, visited, x);
    }
  }

  lemma {:induction false} RecordedFrom(
    survey: CanonicalSurvey, questions: seq<Question>, answers: Context, language: string, id: string)
    returns (q: Question)
    requires id in Record(survey, questions, answers, language)
    ensures q in questions && q.externalId in answers && Fits(q, answers[q.externalId])
    ensures id == Ids.QuestionId(survey.externalId, q.externalId)
    ensures Record(survey, questions, answers, language)[id]
         == StoredResponse(q, answers[q.externalId], survey.defaultLanguage, language)
  {
    hide Ids.QuestionId, StoredResponse, Fits;
    var front, last := questions[..|questions| - 1], questions[|questions| - 1];
    if last.externalId in answers && Fits(last, answers[last.externalId])
       && id == Ids.QuestionId(survey.externalId, last.externalId) {
      q := last;
    } else {
      q := RecordedFrom(survey, front, answers, language, id);
    }
  }

  lemma {:induction false} AnswerWasShown(
    survey: CanonicalSurvey, segments: seq<Segment>, respondent: Respondent, visited: seq<nat>, x: string)
    returns (i: nat)
    requires Honest(survey, segments, respondent) && Positions(visited, |segments|)
    requires x in AnswersAfter(respondent.reply, visited)
    ensures i in visited && HasQuestion(segments, i, x)
  {
    var front, last := visited[..|visited| - 1], visited[|visited| - 1];
    if x in respondent.reply(last) {
      i := last;
    } else {
      i := AnswerWasShown(survey, segments, respondent, front, x);
    }
  }

  /** Every response recorded along a run belongs to an element of the payload that admits responses of its shape. */
  lemma ResponsesFitElements(
    survey: CanonicalSurvey, host: Host, c: Compilation, segments: seq<Segment>, respondent: Respondent,
    visited: seq<nat>, id: string)
    requires Compiled(survey, host, c, segments) && Honest(survey, segments, respondent)
    requires Positions(visited, |segments|) && id in HistoryOf(survey, host, c, respondent)(visited).responses
    ensures var s := HistoryOf(survey, host, c, respondent)(visited);
            var e := ElementWithId(s.env.elements, id);
            e.Some? && Admits(e.value.kind, s.responses[id])
  {
    hide Honest, Record, AnswersAfter, HasQuestion, PayloadElements, Ids.QuestionId, StoredResponse, SourceElement,
      SegmentsOf, CompilesTo, DistinctSurvey, WellIdentified;
    var answers := AnswersAfter(respondent.reply, visited);
    var q := RecordedFrom(survey, survey.questions, answers, respondent.language, id);
    var i := AnswerWasShown(survey, segments, respondent, visited, q.externalId);
    QuestionElementFound(survey, host, c, segments, respondent.language, i, q.externalId);
    OnlyQuestion(survey, q);
    ElementContents.StoredResponseIsAdmitted(
      q, SourceElement(q, survey.defaultLanguage).value, answers[q.externalId], survey.defaultLanguage,
      respondent.language);
  }

  lemma OnlyQuestion(survey: CanonicalSurvey, q: Question)
    requires DistinctSurvey(survey) && q in survey.questions
    ensures QuestionNamed(survey.questions, q.externalId) == Some(q)
  {
    QuestionNamedFinds(survey.questions, q);
  }
}
