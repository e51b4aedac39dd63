/** A small survey that meets every assumption of the main theorem, and one that shows how names clash. */
module Example {
  import opened Wrappers
  import opened Expressions
  import opened Survey
  import opened Payload
  import opened Compiler
  import opened Segments
  import opened SurveySegments
  import opened CompiledSurvey
  import opened RelevanceCompiler
  import opened RelevanceText
  import opened Responding
  import Agreement
  import Artifact
  import BlockNames
  import Ids
  import LeafAgreement
  import Parser
  import RelevancePreservation
  import Routing
  import SegmentConservation
  import Sequences
  import Sorting
  import SurveyReferences
  import Validation
  import Words

  /** A text question. */
  function Ask(id: string, group: string, order: int, relevance: Option<string>): Question {
    Question(id, group, OpenText, order, relevance, None, [], None, false, false, false)
  }

  /** Group G asks A, and B if A is answered; a last group asks C. */
  function Example(last: string): CanonicalSurvey {
    CanonicalSurvey(
      "S", "en", ["en"], [Group("G", 1, None), Group(last, 2, None)],
      [Ask("A", "G", 1, None), Ask("B", "G", 2, Some("A")), Ask("C", last, 3, None)], [], [Ending("E")])
  }

  function Input(id: string): Element {
    Element(id, OpenTextElement(false), [], [], [])
  }

  function ExampleBlocks(last: string): seq<Block> {
    [Block("G", [Input("A"), Input("B")], [], None), Block(last, [Input("C")], [], None)]
  }

  function ExampleSegments(last: string): seq<Segment> {
    [Segment(Block("G_segment_1", [Input("A")], [], None), "G", "1", 0, 2, ["A"], []),
     Segment(Block("G_segment_2", [Input("B")], [], None), "G", "A", 1, 2, ["B"], []),
     Segment(Block(last, [Input("C")], [], None), last, "1", 0, 1, ["C"], [])]
  }

  // ----- Compiling it -----

  lemma SortedAlready<T>(a: T, b: T, key: T -> int)
    requires key(a) <= key(b)
    ensures Sorting.Sort([a, b], key) == [a, b] && Sorting.Sort([a], key) == [a]
  {
    assert [a][1..] == [] && [b][1..] == [] && [a, b][1..] == [b];
    assert [b] + [] == [b] && [a] + [] == [a] && [a] + [b] == [a, b];
    assert Sorting.Sort([b], key) == [b];
  }

  lemma GroupsAreSorted(last: string)
    ensures Sorting.Sort(Example(last).groups, GroupOrder) == Example(last).groups
  {
    SortedAlready(Group("G", 1, None), Group(last, 2, None), GroupOrder);
  }

  lemma ExampleQuestions(last: string)
    requires last != "G"
    ensures GroupQuestions(Example(last), "G") == [Ask("A", "G", 1, None), Ask("B", "G", 2, Some("A"))]
    ensures GroupQuestions(Example(last), last) == [Ask("C", last, 3, None)]
  {
    var a, b, c := Ask("A", "G", 1, None), Ask("B", "G", 2, Some("A")), Ask("C", last, 3, None);
    assert [a, b, c][1..] == [b, c] && [b, c][1..] == [c] && [c][1..] == [];
    forall group: string
      ensures QuestionsIn([c], group) == if group == last then [c] else []
      ensures QuestionsIn([b, c], group) == (if group == "G" then [b] else []) + QuestionsIn([c], group)
      ensures QuestionsIn([a, b, c], group) == (if group == "G" then [a] else []) + QuestionsIn([b, c], group)
    {
    }
    assert QuestionsIn([a, b, c], "G") == [a, b] && QuestionsIn([a, b, c], last) == [c];
    SortedAlready(a, b, QuestionOrder);
    SortedAlready(c, c, QuestionOrder);
  }

  lemma ExampleElements(last: string)
    requires last != "G"
    ensures SourceBlocks(Example(last)) == Ok(ExampleBlocks(last))
  {
    hide GroupQuestions, Sorting.Sort;
    var survey := Example(last);
    var a, b, c := Ask("A", "G", 1, None), Ask("B", "G", 2, Some("A")), Ask("C", last, 3, None);
    ExampleQuestions(last);
    GroupsAreSorted(last);
    assert [a, b][1..] == [b] && [b][1..] == [] && [c][1..] == [];
    assert [Input("B")] + [] == [Input("B")] && [Input("C")] + [] == [Input("C")];
    assert SourceElements([], "en") == Ok([]) && SourceElement(c, "en") == Ok(Input("C"));
    assert SourceElements([b], "en") == Ok([Input("B")]);
    assert SourceElements([c], "en") == Ok([Input("C")]);
    assert [Input("A")] + [Input("B")] == [Input("A"), Input("B")];
    assert SourceElements([a, b], "en") == Ok([Input("A"), Input("B")]);
    assert EquationRules(survey, [b]) == Ok([]) && EquationRules(survey, [c]) == Ok([]);
    assert EquationRules(survey, [a, b]) == Ok([]);
    var g, h := survey.groups[0], survey.groups[1];
    assert [g, h][1..] == [h] && [h][1..] == [] && survey.groups == [g, h];
    assert SourceBlock(survey, g) == Ok(ExampleBlocks(last)[0]) && SourceBlock(survey, h) == Ok(ExampleBlocks(last)[1]);
    assert [ExampleBlocks(last)[1]] + [] == [ExampleBlocks(last)[1]];
    assert SourceBlocksOf(survey, [h]) == Ok([ExampleBlocks(last)[1]]);
    assert [ExampleBlocks(last)[0]] + [ExampleBlocks(last)[1]] == ExampleBlocks(last);
  }

  lemma CombinedTexts()
    ensures Combine(None, None) == "1" && Combine(None, Some("A")) == "A"
    ensures IsUnconditional("1") && !IsUnconditional("A")
  {
    assert Trim("A") == "A" && Trim("1") == "1";
  }

  lemma Numerals()
    ensures Words.Numeral(1) == "1" && Words.Numeral(2) == "2"
    ensures SegmentName("G", 0) == "G_segment_1" && SegmentName("G", 1) == "G_segment_2"
  {
    assert "G" + "_segment_" + "1" == "G_segment_1" && "G" + "_segment_" + "2" == "G_segment_2";
  }

  lemma QuestionsFound(last: string)
    requires last != "G"
    ensures QuestionNamed(Example(last).questions, "A") == Some(Ask("A", "G", 1, None))
    ensures QuestionNamed(Example(last).questions, "B") == Some(Ask("B", "G", 2, Some("A")))
    ensures QuestionNamed(Example(last).questions, "C") == Some(Ask("C", last, 3, None))
  {
    var a, b, c := Ask("A", "G", 1, None), Ask("B", "G", 2, Some("A")), Ask("C", last, 3, None);
    assert [a, b, c][..2] == [a, b] && [a, b][..1] == [a];
  }

  /** One element cuts off a segment of its own. */
  lemma OneElement(survey: CanonicalSurvey, group: Group, source: Block, e: Element, q: Question)
    requires QuestionNamed(survey.questions, e.id) == Some(q) && !q.kind.Equation?
    ensures SegmentElements(survey, group, source, [e])
         == Ok([OpenSegment(group.externalId, e, Combine(group.relevance, q.relevance), 0, [], [])])
  {
    assert [e][..0] == [];
    assert SegmentElements(survey, group, source, []) == Ok([]);
    var open := OpenSegment(group.externalId, e, Combine(group.relevance, q.relevance), 0, [], []);
    assert [] + [open] == [open] && [e][0] == e;
    assert WithElement(survey, group, source, [], e) == Ok([open]);
  }

  lemma FirstGroupCut(last: string)
    requires last != "G"
    ensures SegmentElements(Example(last), Example(last).groups[0], ExampleBlocks(last)[0], [Input("A"), Input("B")])
         == Ok([OpenSegment("G", Input("A"), "1", 0, [], []), OpenSegment("G", Input("B"), "A", 1, [], [])])
  {
    hide Combine, QuestionNamed;
    CombinedTexts();
    QuestionsFound(last);
    var survey, source := Example(last), ExampleBlocks(last)[0];
    var a, b := Input("A"), Input("B");
    assert [a, b][..1] == [a];
    OneElement(survey, survey.groups[0], source, a, Ask("A", "G", 1, None));
    var first, second := OpenSegment("G", a, "1", 0, [], []), OpenSegment("G", b, "A", 1, [], []);
    assert [first] + [second] == [first, second] && [first][0].relevance == "1";
    assert WithElement(survey, survey.groups[0], source, [first], b) == Ok([first, second]);
  }

  lemma ExampleIsSegmented(last: string)
    requires last != "G"
    ensures SegmentsOf(Example(last), ExampleSegments(last))
  {
    hide Combine, QuestionNamed, SourceBlocks, Sorting.Sort, Example;
    var survey := Example(last);
    var blocks, g, h := ExampleBlocks(last), Group("G", 1, None), Group(last, 2, None);
    ExampleElements(last);
    GroupsAreSorted(last);
    SegmentsOfExactly(survey, ExampleSegments(last));
    FirstGroupSegments(last);
    LastGroupSegments(last);
    assert [g, h][..1] == [g] && [g][..0] == [];
    assert SegmentGroups(survey, blocks, []) == Ok([]);
    var first, second := ExampleSegments(last)[..2], ExampleSegments(last)[2..];
    assert [] + first == first && first + second == ExampleSegments(last);
    assert SegmentGroups(survey, blocks, [g]) == Ok(first);
    assert SegmentGroups(survey, blocks, [g, h]) == Ok(first + second);
    assert survey.groups == [g, h] by { ExampleGroups(last); }
  }

  lemma ExampleGroups(last: string)
    ensures Example(last).groups == [Group("G", 1, None), Group(last, 2, None)]
  {
  }

  lemma BlocksFound(last: string)
    requires last != "G"
    ensures BlockNamed(ExampleBlocks(last), "G") == Some(ExampleBlocks(last)[0])
    ensures BlockNamed(ExampleBlocks(last), last) == Some(ExampleBlocks(last)[1])
  {
    assert ExampleBlocks(last)[..1] == [ExampleBlocks(last)[0]];
  }

  lemma FirstGroupSegments(last: string)
    requires last != "G"
    ensures SegmentGroup(Example(last), ExampleBlocks(last), Group("G", 1, None)) == Ok(ExampleSegments(last)[..2])
  {
    hide SegmentElements, BlockNamed;
    BlocksFound(last);
    FirstGroupCut(last);
    Numerals();
    var open := [OpenSegment("G", Input("A"), "1", 0, [], []), OpenSegment("G", Input("B"), "A", 1, [], [])];
    assert Closed(Group("G", 1, None), open) == ExampleSegments(last)[..2];
  }

  lemma LastGroupSegments(last: string)
    requires last != "G"
    ensures SegmentGroup(Example(last), ExampleBlocks(last), Group(last, 2, None)) == Ok(ExampleSegments(last)[2..])
  {
    hide SegmentElements, BlockNamed, Combine, QuestionNamed;
    BlocksFound(last);
    QuestionsFound(last);
    CombinedTexts();
    OneElement(Example(last), Group(last, 2, None), ExampleBlocks(last)[1], Input("C"), Ask("C", last, 3, None));
    var open := [OpenSegment(last, Input("C"), "1", 0, [], [])];
    assert Closed(Group(last, 2, None), open) == ExampleSegments(last)[2..];
  }

  // ----- Routing it -----

  lemma LexName()
    ensures Parser.Lex("A") == Ok([Parser.Identifier("A")])
  {
    var ts := [Parser.Identifier("A")];
    assert "A"[1..] == "" && Parser.Run("", Parser.IsIdentifierPart) == 0;
    assert "A"[..1] == "A" && Parser.Scan("A") == Parser.Emit(Parser.Identifier("A"), "");
    assert ts + [] == ts && Parser.Lex("") == Ok([]);
  }

  lemma NameIsPrimary()
    ensures Parser.ParsePrimary([Parser.Identifier("A")]) == Parser.Done(Reference("A", []), [])
  {
    assert [Parser.Identifier("A")][1..] == [] && Parser.Lower("A") == "a";
    assert ['A'] + "" == "A" && [""][1..] == [] && ["A"] + [] == ["A"];
    assert Parser.SplitDots("") == [""] && Parser.SplitDots("A") == ["A"] && ["A"][1..] == [];
    assert Parser.PathOf("A") == Ok(Reference("A", []));
  }

  lemma ParsedName()
    ensures Parser.ParseExpression("A") == Ok(Reference("A", [])) && ReferencesOf("A") == Some({"A"})
  {
    LexName();
    NameIsPrimary();
    var ts := [Parser.Identifier("A")];
    assert Parser.ParseBinary(0, ts) == Parser.Done(Reference("A", []), []);
    assert Parser.ParseTernary(ts) == Parser.Done(Reference("A", []), []);
  }

  /** Whatever mints the IDs, the one conditional relevance compiles. */
  lemma NameCompiles(last: string, host: Host, createId: string -> string)
    requires last != "G"
    ensures CompileRelevance("A", SurveyReferences.ContextOf(Example(last), host, createId)).Ok?
  {
    hide Parser.ParseExpression, QuestionNamed;
    ParsedName();
    QuestionsFound(last);
    assert Trim("A") == "A" && StripBraces("A") == "A";
  }

  function ExampleRoute(last: string, host: Host): Routing.Route {
    RouteOf(Example(last), host, ExampleSegments(last))
  }

  lemma ExamplePlans(last: string, host: Host)
    requires last != "G"
    ensures var r := ExampleRoute(last, host);
            Routing.Aligned(r) && |r.blocks| == 3 && Routing.PlanFrom(r, 0, 1, {}).Ok?
            && Routing.PlanFrom(r, 1, 2, {}).Ok? && Routing.PlanFrom(r, 2, 3, {}).Ok?
  {
    hide CompileRelevance, Parser.ParseExpression, IsUnconditional, RewrittenBlock, ReferencesOf, Routing.RoutePath;
    var r := ExampleRoute(last, host);
    CombinedTexts();
    ParsedName();
    assert r.relevance == ["1", "A", "1"];
    assert "A" in AvailableAfter(ExampleSegments(last), 1);
    assert r.available[0] == AvailableAfter(ExampleSegments(last), 1);
    var c := Routing.PrefixedContext(r.c, Routing.RoutePath(0, 1));
    assert c == SurveyReferences.ContextOf(Example(last), host, c.createId);
    NameCompiles(last, host, c.createId);
    assert Routing.JumpRule(r, 0, 1).Ok?;
    assert Routing.PlanFrom(r, 0, 2, {"A"}).Ok?;
  }

  lemma ExampleCompiles(last: string, host: Host) returns (c: Compilation)
    requires last != "G"
    ensures CompilesTo(Example(last), host, c)
  {
    hide Routing.PlanFrom, SourceBlocks, SegmentGroups, RewrittenBlocks, WithMissingEntries, Sorting.Sort;
    var survey := Example(last);
    ExampleIsSegmented(last);
    SegmentsOfExactly(survey, ExampleSegments(last));
    ExamplePlans(last, host);
    var r := ExampleRoute(last, host);
    assert Routing.RouteUpTo(r, 0).Ok?;
    assert Routing.RouteUpTo(r, 1).Ok?;
    assert Routing.RouteUpTo(r, 2).Ok?;
    assert Routing.RouteUpTo(r, 3).Ok?;
    c := Compile(survey, host).value;
    CompilesToExactly(survey, host, c);
  }

  // ----- Validating it -----

  lemma ExampleIsClean(last: string)
    requires Ids.IsExternalId(last) && last !in ["G", "A", "B", "C", "E"]
    ensures Validation.CleanlyValidated(Example(last))
  {
    var survey := Example(last);
    var ids := ["G", last, "A", "B", "C", "E"];
    assert Validation.AllIds(survey) == ids;
    assert Sequences.NoDuplicates(ids);
    forall x | x in ids + ["S"]
      ensures Ids.IsExternalId(x)
    {
    }
    assert Ids.IsExternalId("S");
    var groups := Validation.GroupIds(survey.groups);
    assert groups == ["G", last];
    forall q | q in survey.questions
      ensures Validation.CleanQuestion(survey, q) && Validation.ValidQuestion(q)
    {
      assert "G" in groups && last in groups;
      assert Ids.IsExternalId(q.externalId);
      assert Validation.ItemIds(q.options) == [];
    }
  }

  /** A clean survey whose artifact is rejected: a group has the name of a piece of another group. */
  lemma ClashIsRejected(host: Host) returns (c: Compilation)
    ensures Validation.CleanlyValidated(Example("G_segment_1")) && CompilesTo(Example("G_segment_1"), host, c)
    ensures !Artifact.Matched(c.payload, c.entries)
  {
    hide Example, Artifact.Matched, Validation.CleanlyValidated, CompilesTo;
    var last := "G_segment_1";
    assert |last| == 11 && last[0] == 'G';
    ExampleIsClean(last);
    c := ExampleCompiles(last, host);
    ExampleIsSegmented(last);
    var segments := ExampleSegments(last);
    Artifact.CleanArtifactAccepted(Example(last), host, c, segments);
    Numerals();
    assert BlockNames.NameTaken(segments[2], segments[0]);
  }

  // ----- Answering it -----

  lemma OneParses()
    ensures ReferencesOf("1") == Some({}) && Parser.ParseExpression("1").Ok?
  {
    TrueRelevanceParses();
  }

  lemma ExampleIsOrderly(last: string)
    requires last != "G"
    ensures Agreement.Orderly(Example(last), ExampleSegments(last))
  {
    hide ReferencesOf, IsUnconditional, QuestionNamed;
    CombinedTexts();
    ParsedName();
    OneParses();
    QuestionsFound(last);
    var survey, segments := Example(last), ExampleSegments(last);
    assert "A" in segments[0].questions && HasQuestion(segments, 0, "A");
    assert Agreement.IsEarlier(survey, segments, 1, "A");
  }

  lemma ExampleNamesDiffer()
    ensures Sequences.NoDuplicates(BlockNamesOf(ExampleSegments("H")))
  {
    Numerals();
    var segments := ExampleSegments("H");
    assert BlockName(segments[0])[10] == '1' && BlockName(segments[1])[10] == '2';
  }

  /** A faithful reading of "A" needs nothing of a text answer, nor that there is one. */
  lemma NameIsFaithful(last: string, answers: Context, host: Host)
    requires last != "G" && ("A" in answers ==> answers["A"].Str?)
    ensures RelevancePreservation.Faithful(Example(last), "A", answers, host)
    ensures Holds("A", answers, host) ==> "A" in answers
  {
    hide Parser.ParseExpression, QuestionNamed;
    ParsedName();
    QuestionsFound(last);
  }

  /** Whoever answers the example honestly, every complete run meets all assumptions of the main theorem. */
  lemma ExampleMeetsAssumptions(host: Host, respondent: Respondent) returns (t: Agreement.Session, visited: seq<nat>)
    requires Honest(Example("H"), ExampleSegments("H"), respondent)
    ensures t.survey == Example("H") && t.segments == ExampleSegments("H") && t.host == host
    ensures t.respondent == respondent && Agreement.Completed(t, visited) && Agreement.DecidesFaithfully(t, visited)
    ensures Agreement.AllParse(t.survey) && Agreement.VariablesApart(t.survey)
    ensures Agreement.HoldsOnlyWhenAnswered(t, t.Answers(visited))
  {
    hide Agreement.Completed, Agreement.Ready, Honest, SegmentsOf, CompilesTo, Validation.CleanlyValidated,
      Agreement.Orderly, Agreement.DecidesFaithfully, Agreement.AllParse, Agreement.HoldsOnlyWhenAnswered,
      SurveyReferences.ClearOptions,
      Agreement.VariablesApart, Compile, BlockNamesOf;
    var survey, segments := Example("H"), ExampleSegments("H");
    ExampleIsClean("H");
    var c := ExampleCompiles("H", host);
    ExampleIsSegmented("H");
    ExampleIsOrderly("H");
    ExampleNamesDiffer();
    t := Agreement.Session(survey, host, c, segments, respondent);
    ExampleHasNoOptions("H", respondent.language);
    Agreement.CleanSurveyIsReady(t);
    visited := Agreement.EveryRespondentFinishes(t);
    Agreement.CompletedIsRunning(t, visited);
    ExampleAnswersAreTexts(t, visited);
    ExampleIsFaithful(t, visited);
    ExampleParses("H");
  }

  lemma ExampleHasNoOptions(last: string, language: string)
    ensures forall q :: q in Example(last).questions ==> SurveyReferences.ClearOptions(q, "en", language)
    ensures Example(last).defaultLanguage == "en"
  {
  }

  lemma ExampleParses(last: string)
    ensures Agreement.AllParse(Example(last))
  {
    hide Parser.ParseExpression;
    ParsedName();
  }

  lemma ExampleIsFaithful(t: Agreement.Session, visited: seq<nat>)
    requires t.survey == Example("H") && t.segments == ExampleSegments("H") && Agreement.Ready(t)
    requires "A" in t.Answers(visited) ==> t.Answers(visited)["A"].Str?
    ensures Agreement.DecidesFaithfully(t, visited) && Agreement.HoldsOnlyWhenAnswered(t, t.Answers(visited))
  {
    hide Agreement.Ready, Agreement.DecidedAt, Agreement.LastBefore, RelevancePreservation.Faithful, Holds,
      ReferencesOf, IsUnconditional, Example, AnswersAfter;
    NameIsFaithful("H", t.Answers(visited), t.host);
    ParsedName();
    CombinedTexts();
    OneParses();
    assert t.segments[0].relevance == "1" && t.segments[1].relevance == "A" && t.segments[2].relevance == "1";
  }

  lemma ExampleAnswersAreTexts(t: Agreement.Session, visited: seq<nat>)
    requires t.survey == Example("H") && t.segments == ExampleSegments("H")
    requires Honest(t.survey, t.segments, t.respondent) && Positions(visited, 3)
    ensures "A" in t.Answers(visited) ==> t.Answers(visited)["A"].Str?
  {
    hide Honest, Example;
    if "A" in t.Answers(visited) {
      AnswersFit(t.survey, t.segments, t.respondent, visited, "A");
      QuestionsFound("H");
    }
  }

  /** A respondent who answers the first question, so that the second is shown. */
  function Answering(): Respondent {
    Respondent((i: nat) => if i == 0 then map["A" := Str("yes")] else map[], (visited: seq<nat>) => map[], "en")
  }

  lemma AnsweringIsHonest()
    ensures Honest(Example("H"), ExampleSegments("H"), Answering())
  {
    hide QuestionNamed;
    QuestionsFound("H");
    assert "A" in ExampleSegments("H")[0].questions;
  }

  // ----- A negation that is lost -----

  const TWICE_NEGATED := "not not A"

  lemma LexNot()
    ensures Parser.Lex("not") == Ok([Parser.Identifier("not")])
  {
    var s := "not";
    assert s[1..] == "ot" && "ot"[1..] == "t" && "t"[1..] == "";
    assert Parser.Run("", Parser.IsIdentifierPart) == 0 && Parser.Run("t", Parser.IsIdentifierPart) == 1;
    assert Parser.Run("ot", Parser.IsIdentifierPart) == 2;
    assert s[..3] == s && s[3..] == "";
    assert Parser.Scan(s) == Parser.Emit(Parser.Identifier("not"), "");
    assert Parser.Lex("") == Ok([]) && [Parser.Identifier("not")] + [] == [Parser.Identifier("not")];
  }

  lemma LexTwiceNegated()
    ensures Parser.Lex(TWICE_NEGATED)
         == Ok([Parser.Identifier("not"), Parser.Identifier("not"), Parser.Identifier("A")])
  {
    hide Parser.Lex;
    var no, a := Parser.Identifier("not"), Parser.Identifier("A");
    LexNot();
    LexName();
    LexAfterSpace("A");
    assert " " + "A" == " A" && [no] + [a] == [no, a];
    LexAppend("not", " A");
    assert Parser.Lex("not" + " A") == Ok([no] + [a]);
    var once := "not A";
    assert "not" + " A" == once && [no] + [a] == [no, a];
    LexAfterSpace(once);
    LexAppend("not", " " + once);
    assert Parser.Lex("not" + (" " + once)) == Ok([no] + [no, a]);
    assert "not" + (" " + once) == TWICE_NEGATED && [no] + [no, a] == [no, no, a];
  }

  lemma ParsedTwiceNegated()
    ensures Parser.ParseExpression(TWICE_NEGATED) == Ok(Unary(Not, Unary(Not, Reference("A", []))))
  {
    hide Parser.Lex;
    LexTwiceNegated();
    var no, a := Parser.Identifier("not"), Parser.Identifier("A");
    var ts := [no, no, a];
    assert ts[1..] == [no, a] && [no, a][1..] == [a];
    NameIsPrimary();
    assert Parser.Lower("not") == "not";
    assert Parser.ParsePrimary([no, a]) == Parser.Done(Unary(Not, Reference("A", [])), []);
    assert Parser.ParsePrimary(ts) == Parser.Done(Unary(Not, Unary(Not, Reference("A", []))), []);
    assert Parser.ParseBinary(0, ts) == Parser.ParsePrimary(ts) && Parser.ParseTernary(ts) == Parser.ParsePrimary(ts);
  }

  lemma TwiceNegatedCompiles(host: Host, createId: string -> string)
    ensures CompileRelevance(TWICE_NEGATED, SurveyReferences.ContextOf(Example("H"), host, createId)).Ok?
  {
    hide Parser.ParseExpression, Example, Trim, StripBraces, QuestionNamed;
    ParsedTwiceNegated();
    QuestionsFound("H");
    RelevancePreservation.BracesDoNotMatter(TWICE_NEGATED);
    var a, once := Reference("A", []), Unary(Not, Reference("A", []));
    var c := SurveyReferences.ContextOf(Example("H"), host, createId);
    assert CompileNode(once, c, "root.not") == CompilePresence(a, IsSkipped, c, "root.not");
    assert CompileNode(Unary(Not, once), c, "root") == CompileNode(once, c, "root" + ".not");
  }

  /** For every answer to A, the compiled conditions of "not not A" decide the opposite of what it says. */
  lemma TwiceNegatedInverts(createId: string -> string, answers: Context, s: Situation)
    requires LeafAgreement.AllLegible(Example("H"), {"A"}, answers, s) && "A" in answers
    ensures var c := SurveyReferences.ContextOf(Example("H"), s.env.host, createId);
            CompileRelevance(TWICE_NEGATED, c).Ok? &&
            Met(CompileRelevance(TWICE_NEGATED, c).value, s) != Holds(TWICE_NEGATED, answers, s.env.host)
  {
    hide Parser.ParseExpression, Example, Validation.CleanlyValidated, Met, CompileRelevance, QuestionNamed;
    var survey := Example("H");
    ParsedTwiceNegated();
    ExampleIsClean("H");
    Validation.CleanSurveyIsIdentified(survey);
    QuestionsFound("H");
    var a, once := Reference("A", []), Unary(Not, Reference("A", []));
    var node := Unary(Not, once);
    assert References(a) == {"A"} && References(node) == {"A"};
    var q := Ask("A", "G", 1, None);
    assert LeafAgreement.Legible(survey, q, answers, s);
    assert SurveyReferences.Fits(q, answers["A"]);
    assert LeafAgreement.ExpressionSafe(survey, a, answers, s.env.host);
    assert LeafAgreement.ExpressionSafe(survey, once, answers, s.env.host);
    assert Evaluate(a, answers, s.env.host) == Ok(answers["A"]);
    assert WithoutNegations(node) == once;
    TwiceNegatedCompiles(s.env.host, createId);
    RelevancePreservation.PreservedIffNegationsHarmless(survey, TWICE_NEGATED, createId, answers, s);
  }
}
