/** Runs of a compiled survey show exactly the questions that the simulator calls visible. */
module Agreement {
  import opened Wrappers
  import opened Expressions
  import opened Survey
  import opened Payload
  import opened Compiler
  import opened Segments
  import opened SegmentConservation
  import opened SurveySegments
  import opened CompiledSurvey
  import opened RelevanceCompiler
  import opened SurveyReferences
  import opened LeafAgreement
  import opened RelevancePreservation
  import opened RelevanceText
  import opened Routing
  import opened Runs
  import opened Responding
  import Calculations
  import Dependencies
  import Ids
  import Parser
  import Sequences
  import Simulation
  import Validation

  /** A respondent in front of a compiled survey. */
  datatype Session = Session(
    survey: CanonicalSurvey, host: Host, compilation: Compilation, segments: seq<Segment>, respondent: Respondent)
  {
    function Route(): Routing.Route
      requires survey.endings != []
    {
      RouteOf(survey, host, segments)
    }

    ghost function History(): Runs.History {
      HistoryOf(survey, host, compilation, respondent)
    }

    /** The answers collected on the visited blocks. */
    function Answers(visited: seq<nat>): Context {
      AnswersAfter(respondent.reply, visited)
    }
  }

  /** A name that an ordinary question of a strictly earlier segment answers. */
  ghost predicate IsEarlier(survey: CanonicalSurvey, segments: seq<Segment>, j: nat, x: string) {
    exists i :: 0 <= i < j && HasQuestion(segments, i, x)
      && QuestionNamed(survey.questions, x).Some? && !QuestionNamed(survey.questions, x).value.kind.Equation?
  }

  /** The first segment is unconditional, and every relevance reads ordinary questions of earlier segments only. */
  ghost predicate Orderly(survey: CanonicalSurvey, segments: seq<Segment>) {
    segments != [] && IsUnconditional(segments[0].relevance) &&
    forall j :: 0 <= j < |segments| ==> ReadsBackwards(survey, segments, j)
  }

  ghost predicate ReadsBackwards(survey: CanonicalSurvey, segments: seq<Segment>, j: nat)
    requires j < |segments|
  {
    ReferencesOf(segments[j].relevance).Some? &&
    forall x :: x in ReferencesOf(segments[j].relevance).value ==> IsEarlier(survey, segments, j, x)
  }

  /** What the compiled survey and the respondent are assumed to be. */
  ghost predicate Ready(t: Session) {
    Responding.Compiled(t.survey, t.host, t.compilation, t.segments) &&
    Orderly(t.survey, t.segments) &&
    Sequences.NoDuplicates(BlockNamesOf(t.segments)) &&
    (forall g :: g in t.survey.groups ==> Ids.Encodable(g.externalId)) &&
    (forall e :: e in t.survey.endings ==> Ids.Encodable(e.externalId)) &&
    Honest(t.survey, t.segments, t.respondent) &&
    forall q :: q in t.survey.questions ==> ClearOptions(q, t.survey.defaultLanguage, t.respondent.language)
  }

  // ----- The route of an orderly survey -----

  lemma {:induction false} AvailableMember(segments: seq<Segment>, n: nat, x: string)
    requires n <= |segments| && forall s, y :: s in segments && y in s.calculated ==> y in s.questions
    ensures x in AvailableAfter(segments, n) <==> exists i :: 0 <= i < n && HasQuestion(segments, i, x)
  {
    if n > 0 {
      AvailableMember(segments, n - 1, x);
      assert segments[n - 1] in segments;
      assert x in AvailableAfter(segments, n)
        <==> x in AvailableAfter(segments, n - 1) || HasQuestion(segments, n - 1, x);
    }
  }

  lemma CalculatedAreQuestions(survey: CanonicalSurvey, segments: seq<Segment>)
    requires DistinctSurvey(survey) && SegmentsOf(survey, segments)
    ensures forall s, y :: s in segments && y in s.calculated ==> y in s.questions
  {
    hide DistinctSurvey, IsSourceOf;
    SurveyIsSegmented(survey, segments);
    forall s, y | s in segments && y in s.calculated
      ensures y in s.questions
    {
      assert IsSurveySegment(survey, s);
      var group :| IsSegmentOf(survey, group, s);
    }
  }

  /** At a block, exactly the questions of the segments so far are available. */
  lemma AvailableAt(t: Session, from: nat, x: string)
    requires Ready(t) && from < |t.segments|
    ensures x in t.Route().available[from] <==> exists i :: 0 <= i <= from && HasQuestion(t.segments, i, x)
  {
    hide WellIdentified, Orderly, Honest, ClearOptions, RewrittenBlocks, RoutingContext;
    CalculatedAreQuestions(t.survey, t.segments);
    AvailableMember(t.segments, from + 1, x);
  }

  lemma BlockNamesDiffer(t: Session, i: nat, j: nat)
    requires Ready(t) && i < |t.segments| && j < |t.segments| && i != j
    ensures t.Route().blocks[i].id != t.Route().blocks[j].id
  {
    hide WellIdentified, Orderly, Honest, ClearOptions, RewrittenElements;
    var s := t.survey.externalId;
    var a, b := BlockName(t.segments[i]), BlockName(t.segments[j]);
    assert BlockNamesOf(t.segments)[i] == a && BlockNamesOf(t.segments)[j] == b;
    BlockNameEncodable(t, i);
    BlockNameEncodable(t, j);
    if Ids.GroupId(s, a) == Ids.GroupId(s, b) {
      SurveyEncodable(t.survey);
      Ids.CompiledIdsDecodeUniquely(Ids.Group(s, a), Ids.Group(s, b));
    }
  }

  lemma SurveyEncodable(survey: CanonicalSurvey)
    requires WellIdentified(survey)
    ensures Ids.Encodable(survey.externalId)
  {
  }

  lemma BlockNameEncodable(t: Session, i: nat)
    requires Ready(t) && i < |t.segments|
    ensures Ids.Encodable(BlockName(t.segments[i]))
  {
    hide WellIdentified, Orderly, Honest, ClearOptions, IsSourceOf;
    SurveyIsSegmented(t.survey, t.segments);
    assert IsSurveySegment(t.survey, t.segments[i]);
    var group :| IsSegmentOf(t.survey, group, t.segments[i]);
    SegmentNameEncodable(group.externalId, t.segments[i].index);
  }

  lemma BlocksAreDistinct(t: Session)
    requires Ready(t)
    ensures DistinctBlocks(t.Route())
  {
    hide WellIdentified, Orderly, Honest, ClearOptions, RewrittenElements, BlockName;
    var r := t.Route();
    forall i, j | 0 <= i < j < |r.blocks|
      ensures r.blocks[i].id != r.blocks[j].id
    {
      BlockNamesDiffer(t, i, j);
    }
    forall i | 0 <= i < |r.blocks|
      ensures r.blocks[i].id != r.endingId
    {
      var s, name, ending := t.survey.externalId, BlockName(t.segments[i]), t.survey.endings[0];
      BlockNameEncodable(t, i);
      SurveyEncodable(t.survey);
      assert ending in t.survey.endings;
      if Ids.GroupId(s, name) == Ids.EndingId(s, ending.externalId) {
        Ids.CompiledIdsDecodeUniquely(Ids.Group(s, name), Ids.Ending(s, ending.externalId));
      }
    }
  }

  lemma RouteIsDecidable(t: Session)
    requires Ready(t)
    ensures Decidable(t.Route())
  {
    hide WellIdentified, Honest, ClearOptions, RewrittenElements, RoutingContext, EndingIds, AvailableAfter,
      IsUnconditional, ReferencesOf;
    var r := t.Route();
    forall i | 0 <= i < |r.blocks|
      ensures NextIsDecidable(r, i)
    {
      if i + 1 < |r.blocks| {
        assert ReadsBackwards(t.survey, t.segments, i + 1);
        var references := ReferencesOf(r.relevance[i + 1]);
        assert references == ReferencesOf(t.segments[i + 1].relevance);
        forall x | x in references.value
          ensures x in r.available[i]
        {
          assert IsEarlier(t.survey, t.segments, i + 1, x);
          AvailableAt(t, i, x);
        }
      }
    }
  }

  /** The compiled survey can be run. */
  lemma ReadyIsRunnable(t: Session)
    requires Ready(t)
    ensures Runnable(t.Route(), t.compilation.payload)
    ensures |t.Route().blocks| == |t.segments| == |t.compilation.payload.blocks|
  {
    hide WellIdentified, Orderly, Honest, ClearOptions, Routable, DistinctBlocks, Decidable;
    CompiledBlocks(t.survey, t.host, t.compilation, t.segments);
    BlocksAreDistinct(t);
    RouteIsDecidable(t);
  }

  // ----- Decisions taken along the way are final -----

  lemma {:induction false} ExpressionSafeIsLocal(
    survey: CanonicalSurvey, node: Node, a: Context, b: Context, host: Host)
    requires AgreeOn(References(node), a, b)
    ensures ExpressionSafe(survey, node, a, host) == ExpressionSafe(survey, node, b, host)
  {
    hide ComparisonSafe, PresenceSafe;
    match node
    case Call(_, args) =>
      if |args| == 1 && args[0].Reference? {
        assert args[0].head in References(args[0]) && References(args[0]) <= References(node);
      }
    case Unary(_, operand) => ExpressionSafeIsLocal(survey, operand, a, b, host);
    case Binary(_, left, right) =>
      ExpressionSafeIsLocal(survey, left, a, b, host);
      ExpressionSafeIsLocal(survey, right, a, b, host);
    case _ =>
  }

  lemma {:induction false} TolerantIsLocal(node: Node, a: Context, b: Context, host: Host)
    requires AgreeOn(References(node), a, b)
    ensures Tolerant(node, a, host) == Tolerant(node, b, host)
  {
    EvaluationIsLocal(node, a, b, host);
    if node.Binary? && (node.op.And? || node.op.Or?) {
      TolerantIsLocal(node.left, a, b, host);
      TolerantIsLocal(node.right, a, b, host);
    }
  }

  lemma RelevanceIsLocal(survey: CanonicalSurvey, relevance: string, a: Context, b: Context, host: Host)
    requires ReferencesOf(relevance).Some? && AgreeOn(ReferencesOf(relevance).value, a, b)
    ensures Faithful(survey, relevance, a, host) == Faithful(survey, relevance, b, host)
    ensures Holds(relevance, a, host) == Holds(relevance, b, host)
  {
    hide Parser.ParseExpression, ExpressionSafe, Evaluate, NegatesOnlyPresence, Tolerant;
    var node := Parser.ParseExpression(relevance).value;
    ExpressionSafeIsLocal(survey, node, a, b, host);
    TolerantIsLocal(node, a, b, host);
    EvaluationIsLocal(node, a, b, host);
  }

  ghost predicate Running(t: Session, visited: seq<nat>) {
    Ready(t) && IsRun(t.compilation.payload, t.History(), visited)
  }

  lemma RunPositions(t: Session, visited: seq<nat>)
    requires Running(t, visited)
    ensures visited != [] && visited[0] == 0 && Positions(visited, |t.segments|)
    ensures forall k :: 0 < k < |visited| ==> visited[k - 1] < visited[k]
  {
    hide WellIdentified, Orderly, Honest, ClearOptions, Runnable, Open;
    ReadyIsRunnable(t);
    RunIsSafe(t.Route(), t.compilation.payload, t.History(), visited);
  }

  lemma {:induction false} Ascending(visited: seq<nat>, a: nat, b: nat)
    requires a < b < |visited| && forall k :: 0 < k < |visited| ==> visited[k - 1] < visited[k]
    ensures visited[a] < visited[b]
    decreases b
  {
    if a < b - 1 { Ascending(visited, a, b - 1); }
  }

  lemma VisitedSoFar(visited: seq<nat>, k: nat, i: nat)
    requires k < |visited| && i <= visited[k]
    requires forall k :: 0 < k < |visited| ==> visited[k - 1] < visited[k]
    ensures i in visited <==> i in visited[..k + 1]
  {
    if i in visited {
      var m :| 0 <= m < |visited| && visited[m] == i;
      if k < m {
        Ascending(visited, k, m);
      } else {
        assert visited[..k + 1][m] == i;
      }
    }
  }

  /** What the segments up to the current one answered does not change later in the run. */
  lemma AnswersStay(t: Session, visited: seq<nat>, k: nat, i: nat, x: string)
    requires Running(t, visited) && k < |visited| && i <= visited[k] && HasQuestion(t.segments, i, x)
    ensures AgreeOn({x}, t.Answers(visited[..k + 1]), t.Answers(visited))
  {
    hide WellIdentified, Orderly, ClearOptions, IsRun, AnswersAfter;
    RunPositions(t, visited);
    assert Positions(visited[..k + 1], |t.segments|);
    AnswersComeFromOwnBlock(t.survey, t.segments, t.respondent, visited[..k + 1], i, x);
    AnswersComeFromOwnBlock(t.survey, t.segments, t.respondent, visited, i, x);
    VisitedSoFar(visited, k, i);
  }

  lemma SituationAfter(t: Session, visited: seq<nat>)
    ensures t.History()(visited).env.language == t.respondent.language
    ensures t.History()(visited).env.host == t.host
  {
    var history := HistoryOf(t.survey, t.host, t.compilation, t.respondent);
    assert t.History() == history;
    assert history(visited).env == EnvironmentOf(t.compilation.payload, t.respondent.language, t.host);
  }

  /** The runtime can read every ordinary question of the survey's segments. */
  lemma ReferencesAreLegible(t: Session, visited: seq<nat>, j: nat)
    requires Ready(t) && Positions(visited, |t.segments|) && j < |t.segments|
    ensures ReferencesOf(t.segments[j].relevance).Some?
    ensures AllLegible(t.survey, ReferencesOf(t.segments[j].relevance).value, t.Answers(visited), t.History()(visited))
  {
    hide WellIdentified, Honest, ClearOptions, Recorded, ReferencesOf;
    assert ReadsBackwards(t.survey, t.segments, j);
    forall x | x in ReferencesOf(t.segments[j].relevance).value
      ensures Legible(t.survey, QuestionNamed(t.survey.questions, x).value, t.Answers(visited), t.History()(visited))
    {
      assert IsEarlier(t.survey, t.segments, j, x);
      var i :| 0 <= i < j && HasQuestion(t.segments, i, x);
      RunIsLegible(t.survey, t.host, t.compilation, t.segments, t.respondent, visited, i, x);
      var q := QuestionNamed(t.survey.questions, x).value;
      assert ClearOptions(q, t.survey.defaultLanguage, t.respondent.language);
      SituationAfter(t, visited);
    }
  }

  /** The answers so far agree with the final ones on everything a decidable relevance reads. */
  lemma DecidedOnFinalAnswers(t: Session, visited: seq<nat>, k: nat, j: nat)
    requires Running(t, visited) && k < |visited| && visited[k] < j < |t.segments| == |t.Route().blocks|
    requires ReferencesAvailable(t.Route(), visited[k], j)
    ensures ReferencesOf(t.segments[j].relevance).Some?
    ensures AgreeOn(ReferencesOf(t.segments[j].relevance).value, t.Answers(visited[..k + 1]), t.Answers(visited))
  {
    hide WellIdentified, Orderly, Honest, ClearOptions, IsRun, ReferencesOf, AnswersAfter, RewrittenBlocks,
      RoutingContext, AvailableAfter;
    var from := visited[k];
    forall x | x in ReferencesOf(t.segments[j].relevance).value
      ensures AgreeOn({x}, t.Answers(visited[..k + 1]), t.Answers(visited))
    {
      assert x in t.Route().available[from];
      AvailableAt(t, from, x);
      var i :| 0 <= i <= from && HasQuestion(t.segments, i, x);
      AnswersStay(t, visited, k, i, x);
    }
  }

  lemma RouteContext(t: Session)
    requires Ready(t)
    ensures t.Route().c == ContextOf(t.survey, t.host, t.Route().c.createId)
  {
  }

  /** What the runtime decides about a later segment is what its relevance says of the final answers. */
  lemma DecisionIsFinal(t: Session, visited: seq<nat>, k: nat, j: nat)
    requires Running(t, visited) && k < |visited| && visited[k] < j < |t.segments| == |t.Route().blocks|
    requires ReferencesAvailable(t.Route(), visited[k], j)
    requires Faithful(t.survey, t.segments[j].relevance, t.Answers(visited), t.host)
    requires CompileRelevance(t.segments[j].relevance, t.Route().c).Ok?
    ensures Passes(t.segments[j].relevance, t.Route().c, t.History()(visited[..k + 1]))
         == Holds(t.segments[j].relevance, t.Answers(visited), t.host)
  {
    hide WellIdentified, Orderly, Honest, ClearOptions, IsRun, AnswersAfter, AllLegible, RewrittenBlocks,
      AvailableAfter, CompileRelevance, Met, Holds;
    var relevance, before := t.segments[j].relevance, visited[..k + 1];
    RunPositions(t, visited);
    DecidedOnFinalAnswers(t, visited, k, j);
    RelevanceIsLocal(t.survey, relevance, t.Answers(before), t.Answers(visited), t.host);
    ReferencesAreLegible(t, before, j);
    RouteContext(t);
    SituationAfter(t, before);
    RelevanceIsPreserved(t.survey, relevance, t.Route().c.createId, t.Answers(before), t.History()(before));
  }

  // ----- Which segments a complete run visits -----

  ghost predicate Completed(t: Session, visited: seq<nat>) {
    Ready(t) && IsComplete(t.compilation.payload, t.Route(), t.History(), visited)
  }

  /** The segment visited last before a position. */
  ghost predicate LastBefore(visited: seq<nat>, k: nat, j: nat) {
    k < |visited| && visited[k] < j && (k + 1 < |visited| ==> j <= visited[k + 1])
  }

  lemma {:induction false} FindLastBefore(visited: seq<nat>, j: nat) returns (k: nat)
    requires visited != [] && visited[0] < j
    requires forall i :: 0 < i < |visited| ==> visited[i - 1] < visited[i]
    ensures LastBefore(visited, k, j)
    ensures j in visited <==> k + 1 < |visited| && visited[k + 1] == j
  {
    k := 0;
    while k + 1 < |visited| && visited[k + 1] < j
      invariant k < |visited| && visited[k] < j
    {
      k := k + 1;
    }
    if j in visited {
      var m :| 0 <= m < |visited| && visited[m] == j;
      if m < k { Ascending(visited, m, k); }
      if k + 1 < m { Ascending(visited, k + 1, m); }
    }
  }

  /** Whether the route from a block considers a later segment: its references are available there. */
  ghost predicate DecidedAt(t: Session, from: nat, j: nat)
    requires Ready(t) && from < |t.segments| && j < |t.segments|
  {
    var relevance := t.segments[j].relevance;
    IsUnconditional(relevance)
    || (ReferencesOf(relevance).Some?
        && forall x :: x in ReferencesOf(relevance).value ==>
              exists i :: 0 <= i <= from && HasQuestion(t.segments, i, x))
  }

  /** Where the run decides about a conditional segment, the relevance compiles to what it means for its answers. */
  ghost predicate DecidesFaithfully(t: Session, visited: seq<nat>)
    requires Ready(t)
  {
    forall j: nat, k: nat ::
      (j < |t.segments| && LastBefore(visited, k, j) && visited[k] < |t.segments| && DecidedAt(t, visited[k], j)) ==>
        FaithfulIfConditional(t, visited, j)
  }

  ghost predicate FaithfulIfConditional(t: Session, visited: seq<nat>, j: nat)
    requires j < |t.segments|
  {
    IsUnconditional(t.segments[j].relevance)
    || Faithful(t.survey, t.segments[j].relevance, t.Answers(visited), t.host)
  }

  lemma DecidedIsAvailable(t: Session, from: nat, j: nat)
    requires Ready(t) && from < |t.segments| && j < |t.segments| == |t.Route().blocks|
    ensures DecidedAt(t, from, j)
       <==> IsUnconditional(t.segments[j].relevance) || ReferencesAvailable(t.Route(), from, j)
  {
    hide WellIdentified, Honest, ClearOptions, ReferencesOf, IsUnconditional, RewrittenBlocks, RoutingContext,
      AvailableAfter;
    assert ReadsBackwards(t.survey, t.segments, j);
    forall x
      ensures x in t.Route().available[from] <==> exists i :: 0 <= i <= from && HasQuestion(t.segments, i, x)
    {
      AvailableAt(t, from, x);
    }
  }

  lemma RoutingSucceeds(t: Session)
    requires Ready(t)
    ensures Aligned(t.Route()) && RouteUpTo(t.Route(), |t.Route().blocks|).Ok?
  {
    hide WellIdentified, Orderly, Honest, ClearOptions, RouteOf, RouteUpTo;
    ReadyIsRunnable(t);
  }

  /** A conditional block that is decided here passes exactly when its relevance holds of the final answers. */
  lemma PassesOnFinalAnswers(t: Session, visited: seq<nat>, k: nat, j: nat)
    requires Running(t, visited) && k < |visited| && visited[k] < j < |t.segments| == |t.Route().blocks|
    requires Aligned(t.Route()) && ReferencesAvailable(t.Route(), visited[k], j)
    requires Faithful(t.survey, t.segments[j].relevance, t.Answers(visited), t.host)
    requires forall i :: visited[k] < i <= j ==> !IsUnconditional(t.Route().relevance[i])
    ensures Passes(t.segments[j].relevance, t.Route().c, t.History()(visited[..k + 1]))
         == Holds(t.segments[j].relevance, t.Answers(visited), t.host)
  {
    hide WellIdentified, Orderly, Honest, ClearOptions, IsRun, Passes, ReferencesAvailable, RewrittenBlocks,
      RoutingContext, Availability, CompileRelevance, Holds, Faithful, IsUnconditional, PlanFrom;
    var relevance := t.segments[j].relevance;
    assert t.Route().relevance[j] == relevance;
    RoutingSucceeds(t);
    ReachedRelevanceParses(t.Route(), visited[k], j);
    DecisionIsFinal(t, visited, k, j);
  }

  /** With only conditional blocks in between, a later block is open exactly when it is decided here and holds. */
  lemma OpenOnFinalAnswers(t: Session, visited: seq<nat>, k: nat, j: nat)
    requires Running(t, visited) && k < |visited| && visited[k] < j < |t.segments| == |t.Route().blocks|
    requires Aligned(t.Route()) && (DecidedAt(t, visited[k], j) ==> FaithfulIfConditional(t, visited, j))
    requires forall i :: visited[k] < i < j ==> !IsUnconditional(t.Route().relevance[i])
    ensures Open(t.Route(), visited[k], j, t.History()(visited[..k + 1]))
       <==> Holds(t.segments[j].relevance, t.Answers(visited), t.host) && DecidedAt(t, visited[k], j)
  {
    hide WellIdentified, Orderly, Honest, ClearOptions, IsRun, Passes, ReferencesAvailable, RewrittenBlocks,
      RoutingContext, Availability, Holds, Faithful, IsUnconditional, DecidedAt;
    var relevance := t.segments[j].relevance;
    assert t.Route().relevance[j] == relevance;
    DecidedIsAvailable(t, visited[k], j);
    if IsUnconditional(relevance) {
      RelevanceParses(t, j);
      UnconditionalHolds(relevance, t.Answers(visited), t.host);
    } else if ReferencesAvailable(t.Route(), visited[k], j) {
      PassesOnFinalAnswers(t, visited, k, j);
    }
  }

  lemma RelevanceParses(t: Session, j: nat)
    requires Ready(t) && j < |t.segments|
    ensures Parser.ParseExpression(t.segments[j].relevance).Ok?
  {
    hide WellIdentified, Honest, ClearOptions, Parser.ParseExpression, IsUnconditional;
    assert ReadsBackwards(t.survey, t.segments, j);
  }

  /** The least open target after the last block before j decides whether j is visited. */
  lemma VisitedIfOpen(t: Session, visited: seq<nat>, k: nat, j: nat)
    requires Completed(t, visited) && LastBefore(visited, k, j) && j < |t.segments| == |t.Route().blocks|
    requires j in visited <==> k + 1 < |visited| && visited[k + 1] == j
    ensures Aligned(t.Route()) && visited[k] < |t.Route().blocks|
    ensures forall i :: visited[k] < i < j ==> !IsUnconditional(t.Route().relevance[i])
    ensures j in visited <==> Open(t.Route(), visited[k], j, t.History()(visited[..k + 1]))
  {
    hide WellIdentified, Orderly, Honest, ClearOptions, Runnable, Passes, IsRun, ReferencesAvailable,
      RewrittenBlocks, RoutingContext, Availability, IsUnconditional, Destination;
    ReadyIsRunnable(t);
    RunnableIsAligned(t.Route(), t.compilation.payload);
    RunPositions(t, visited);
    var r, from, s := t.Route(), visited[k], t.History()(visited[..k + 1]);
    RunTakesLeastOpen(r, t.compilation.payload, t.History(), visited, k);
    assert visited[..|visited|] == visited;
    var target := LeastOpen(r, from, from + 1, s);
    assert target >= j;
    forall i | from < i < j
      ensures !IsUnconditional(r.relevance[i])
    {
      assert !Open(r, from, i, s);
    }
  }

  lemma RunnableIsAligned(r: Route, payload: Payload)
    requires Runnable(r, payload)
    ensures Aligned(r)
  {
  }

  /**
   * A complete run visits a segment exactly when its relevance holds of the answers collected and every
   * question it reads lies no later than the segment visited before it.
   */
  lemma VisitedExactly(t: Session, visited: seq<nat>, j: nat) returns (k: nat)
    requires Completed(t, visited) && 0 < j < |t.segments| && DecidesFaithfully(t, visited)
    ensures LastBefore(visited, k, j) && visited[k] < |t.segments|
    ensures j in visited <==> Holds(t.segments[j].relevance, t.Answers(visited), t.host) && DecidedAt(t, visited[k], j)
  {
    hide Ready, IsComplete, IsRun, Open, DecidedAt, Holds, FaithfulIfConditional, IsUnconditional;
    CompletedIsRunning(t, visited);
    k := FindLastBefore(visited, j);
    VisitedIfOpen(t, visited, k, j);
    OpenOnFinalAnswers(t, visited, k, j);
  }

  lemma CompletedIsRunning(t: Session, visited: seq<nat>)
    requires Completed(t, visited)
    ensures Running(t, visited) && |t.Route().blocks| == |t.segments|
    ensures visited != [] && visited[0] == 0 && Positions(visited, |t.segments|)
    ensures forall k :: 0 < k < |visited| ==> visited[k - 1] < visited[k]
  {
    hide Ready, IsRun;
    RunPositions(t, visited);
    ReadyIsRunnable(t);
  }

  /** A relevance holds only when every question it reads is answered. */
  ghost predicate HoldsOnlyWhenAnswered(t: Session, answers: Context) {
    forall j :: 0 <= j < |t.segments| && Holds(t.segments[j].relevance, answers, t.host) ==>
      ReferencesOf(t.segments[j].relevance).Some? && ReferencesOf(t.segments[j].relevance).value <= answers.Keys
  }

  /** A relevance whose questions are all answered is decided at the last block visited before it. */
  lemma AnsweredIsDecided(t: Session, visited: seq<nat>, k: nat, j: nat)
    requires Running(t, visited) && k < |visited| && visited[k] < |t.segments| && j < |t.segments|
    requires LastBefore(visited, k, j)
    requires ReferencesOf(t.segments[j].relevance).Some?
    requires ReferencesOf(t.segments[j].relevance).value <= t.Answers(visited).Keys
    ensures DecidedAt(t, visited[k], j)
  {
    hide WellIdentified, ClearOptions, IsRun, ReferencesOf, AnswersAfter, IsUnconditional;
    RunPositions(t, visited);
    assert ReadsBackwards(t.survey, t.segments, j);
    forall x | x in ReferencesOf(t.segments[j].relevance).value
      ensures exists i :: 0 <= i <= visited[k] && HasQuestion(t.segments, i, x)
    {
      assert IsEarlier(t.survey, t.segments, j, x);
      var i :| 0 <= i < j && HasQuestion(t.segments, i, x);
      AnswersComeFromOwnBlock(t.survey, t.segments, t.respondent, visited, i, x);
      var m :| 0 <= m < |visited| && visited[m] == i;
      if k < m { NoneBetween(visited, k, j, m); }
      if m < k { Ascending(visited, m, k); }
    }
  }

  lemma NoneBetween(visited: seq<nat>, k: nat, j: nat, m: nat)
    requires LastBefore(visited, k, j) && k < m < |visited|
    requires forall k :: 0 < k < |visited| ==> visited[k - 1] < visited[k]
    ensures j <= visited[m]
  {
    if k + 1 < m { Ascending(visited, k + 1, m); }
  }

  /** The references of a later segment are all known where the run decides about it. */
  ghost predicate DecidedInTime(t: Session, visited: seq<nat>, j: nat)
    requires Ready(t) && j < |t.segments|
  {
    forall k: nat :: LastBefore(visited, k, j) && visited[k] < |t.segments| ==> DecidedAt(t, visited[k], j)
  }

  lemma LastBeforeUnique(visited: seq<nat>, j: nat, a: nat, b: nat)
    requires forall k :: 0 < k < |visited| ==> visited[k - 1] < visited[k]
    requires LastBefore(visited, a, j) && LastBefore(visited, b, j)
    ensures a == b
  {
    if a + 1 < b { Ascending(visited, a + 1, b); }
    if b + 1 < a { Ascending(visited, b + 1, a); }
  }

  /** A segment is visited exactly when its relevance holds and is decided in time. */
  lemma VisitedIffHolds(t: Session, visited: seq<nat>, j: nat)
    requires Completed(t, visited) && j < |t.segments| && DecidesFaithfully(t, visited)
    ensures j in visited
       <==> Holds(t.segments[j].relevance, t.Answers(visited), t.host) && DecidedInTime(t, visited, j)
  {
    hide WellIdentified, Honest, ClearOptions, IsComplete, IsRun, Open, DecidedAt, Holds, DecidesFaithfully,
      IsUnconditional, ReferencesOf, ReadsBackwards, LastBefore;
    CompletedIsRunning(t, visited);
    RelevanceParses(t, j);
    if j == 0 {
      UnconditionalHolds(t.segments[0].relevance, t.Answers(visited), t.host);
      NothingBeforeFirst(visited);
    } else {
      var k := VisitedExactly(t, visited, j);
      OnlyDecision(t, visited, k, j);
    }
  }

  lemma OnlyDecision(t: Session, visited: seq<nat>, k: nat, j: nat)
    requires Ready(t) && j < |t.segments| && LastBefore(visited, k, j) && visited[k] < |t.segments|
    requires forall k :: 0 < k < |visited| ==> visited[k - 1] < visited[k]
    ensures DecidedInTime(t, visited, j) <==> DecidedAt(t, visited[k], j)
  {
    hide Ready, DecidedAt, LastBefore;
    forall m: nat | LastBefore(visited, m, j)
      ensures m == k
    {
      LastBeforeUnique(visited, j, m, k);
    }
  }

  lemma NothingBeforeFirst(visited: seq<nat>)
    ensures forall k: nat :: !LastBefore(visited, k, 0)
  {
  }

  // ----- Questions -----

  /** The questions of the visited segments, in the order they are shown. */
  function ShownQuestions(segments: seq<Segment>, visited: seq<nat>): seq<string>
    requires Positions(visited, |segments|)
  {
    if visited == [] then []
    else ShownQuestions(segments, visited[..|visited| - 1]) + segments[visited[|visited| - 1]].questions
  }

  lemma {:induction false} ShownMember(segments: seq<Segment>, visited: seq<nat>, x: string)
    requires Positions(visited, |segments|)
    ensures x in ShownQuestions(segments, visited) <==> exists j :: j in visited && HasQuestion(segments, j, x)
  {
    if visited != [] {
      var front, last := visited[..|visited| - 1], visited[|visited| - 1];
      ShownMember(segments, front, x);
      assert visited == front + [last];
      assert HasQuestion(segments, last, x) <==> x in segments[last].questions;
    }
  }

  lemma {:induction false} SegmentDistinct(segments: seq<Segment>, i: nat)
    requires Sequences.NoDuplicates(QuestionIdsOf(segments)) && i < |segments|
    ensures Sequences.NoDuplicates(segments[i].questions)
  {
    var front, last := segments[..|segments| - 1], segments[|segments| - 1];
    Validation.DistinctParts(QuestionIdsOf(front), last.questions);
    if i < |segments| - 1 { SegmentDistinct(front, i); }
  }

  lemma {:induction false} ShownOnce(segments: seq<Segment>, visited: seq<nat>)
    requires Positions(visited, |segments|) && Sequences.NoDuplicates(QuestionIdsOf(segments))
    requires forall k :: 0 < k < |visited| ==> visited[k - 1] < visited[k]
    ensures Sequences.NoDuplicates(ShownQuestions(segments, visited))
  {
    if visited != [] {
      var front, last := visited[..|visited| - 1], visited[|visited| - 1];
      ShownOnce(segments, front);
      SegmentDistinct(segments, last);
      forall x | x in ShownQuestions(segments, front)
        ensures x !in segments[last].questions
      {
        ShownMember(segments, front, x);
        var j :| j in front && HasQuestion(segments, j, x);
        var m :| 0 <= m < |front| && front[m] == j;
        Ascending(visited, m, |visited| - 1);
        OneSegmentEach(segments, j, last, x);
      }
      Sequences.NoDuplicatesAppend(ShownQuestions(segments, front), segments[last].questions);
    }
  }

  ghost predicate AllParse(survey: CanonicalSurvey) {
    (forall g :: g in survey.groups ==> Parses(g.relevance)) &&
    (forall q :: q in survey.questions ==> Parses(q.relevance))
  }

  /** The relevance of a question and of its group are each absent or parse, so that the simulator can tell. */
  ghost predicate SimulatorReads(survey: CanonicalSurvey, x: string) {
    forall q, g :: (q in survey.questions && g in survey.groups && q.externalId == x
                    && q.groupExternalId == g.externalId) ==> Parses(g.relevance) && Parses(q.relevance)
  }

  /** No calculated variable has the ID of a question. */
  ghost predicate VariablesApart(survey: CanonicalSurvey) {
    forall q :: q in survey.questions ==> q.externalId !in Calculations.CalculatedIds(survey.variables)
  }

  /** Where they parse, the relevance of a question and its group together say what its segment's does. */
  lemma SegmentRelevance(t: Session, j: nat, x: string, ctx: Context) returns (g: Group, q: Question)
    requires Ready(t) && HasQuestion(t.segments, j, x)
    ensures g in t.survey.groups && q in t.survey.questions && q.externalId == x && q.groupExternalId == g.externalId
    ensures HoldsIfPresent(g.relevance, ctx, t.host) && HoldsIfPresent(q.relevance, ctx, t.host)
       <==> Holds(t.segments[j].relevance, ctx, t.host) && Parses(g.relevance) && Parses(q.relevance)
  {
    hide WellIdentified, Orderly, Honest, ClearOptions, Holds, HoldsIfPresent, Combine, Parses, SourceElement,
      DistinctSurvey;
    var group, e, question := SegmentQuestion(t.survey, t.segments, j, x);
    g, q := group, question;
    CombineIsConjunction(g.relevance, q.relevance, ctx, t.host);
  }

  /** Calculated values do not change what a relevance says: it reads questions only. */
  lemma VariablesDoNotMatter(t: Session, j: nat, answers: Context, variables: Context)
    requires Ready(t) && VariablesApart(t.survey) && j < |t.segments|
    requires forall x :: x in variables ==> x in Calculations.CalculatedIds(t.survey.variables)
    ensures Holds(t.segments[j].relevance, answers + variables, t.host)
         == Holds(t.segments[j].relevance, answers, t.host)
  {
    hide WellIdentified, Honest, ClearOptions, Holds, ReferencesOf, IsUnconditional, Faithful,
      Calculations.CalculatedIds;
    assert ReadsBackwards(t.survey, t.segments, j);
    forall x | x in ReferencesOf(t.segments[j].relevance).value
      ensures x !in variables
    {
      assert IsEarlier(t.survey, t.segments, j, x);
      assert QuestionNamed(t.survey.questions, x).value in t.survey.questions;
    }
    RelevanceIsLocal(t.survey, t.segments[j].relevance, answers + variables, answers, t.host);
  }

  /** A question is visible exactly when the relevance of its segment holds and the simulator can read its own. */
  lemma VisibleIffSegmentHolds(t: Session, j: nat, x: string, answers: Context, variables: Context)
    requires Ready(t) && VariablesApart(t.survey) && HasQuestion(t.segments, j, x)
    requires forall y :: y in variables ==> y in Calculations.CalculatedIds(t.survey.variables)
    ensures x in Simulation.VisibleQuestions(t.survey, answers + variables, t.host)
       <==> Holds(t.segments[j].relevance, answers, t.host) && SimulatorReads(t.survey, x)
  {
    hide WellIdentified, Orderly, Honest, ClearOptions, Holds, HoldsIfPresent, Calculations.CalculatedIds, Parses,
      VariablesApart, SimulatorReads;
    var ctx := answers + variables;
    Simulation.VisibleExactly(t.survey, ctx, t.host, x);
    VariablesDoNotMatter(t, j, answers, variables);
    var h, p := SegmentRelevance(t, j, x, ctx);
    ReadsOwn(t.survey, p, h);
    if q, g :| q in t.survey.questions && g in t.survey.groups && q.externalId == x
               && q.groupExternalId == g.externalId
               && HoldsIfPresent(g.relevance, ctx, t.host) && HoldsIfPresent(q.relevance, ctx, t.host) {
      SameQuestion(t.survey, p, q, h, g);
    }
  }

  lemma ReadsOwn(survey: CanonicalSurvey, p: Question, h: Group)
    requires DistinctSurvey(survey) && p in survey.questions && h in survey.groups
    requires p.groupExternalId == h.externalId
    ensures SimulatorReads(survey, p.externalId) <==> Parses(h.relevance) && Parses(p.relevance)
  {
    hide Parses, DistinctSurvey;
    forall q, g | q in survey.questions && g in survey.groups && q.externalId == p.externalId
                  && q.groupExternalId == g.externalId
      ensures q == p && g == h
    {
      SameQuestion(survey, p, q, h, g);
    }
  }

  /** A visible question belongs to some segment. */
  lemma VisibleHasSegment(t: Session, ctx: Context, x: string) returns (j: nat)
    requires Ready(t) && x in Simulation.VisibleQuestions(t.survey, ctx, t.host)
    ensures HasQuestion(t.segments, j, x)
  {
    hide WellIdentified, Orderly, Honest, ClearOptions, HoldsIfPresent;
    Simulation.VisibleExactly(t.survey, ctx, t.host, x);
    var q, g :| q in t.survey.questions && g in t.survey.groups && q.externalId == x
      && q.groupExternalId == g.externalId
      && HoldsIfPresent(g.relevance, ctx, t.host) && HoldsIfPresent(q.relevance, ctx, t.host);
    EveryQuestionHasSegment(t.survey, t.segments, q, g);
    j :| 0 <= j < |t.segments| && q.externalId in t.segments[j].questions;
  }

  /** A question is shown exactly when its one segment is visited. */
  lemma ShownIffVisited(t: Session, visited: seq<nat>, j: nat, x: string)
    requires Ready(t) && Positions(visited, |t.segments|) && HasQuestion(t.segments, j, x)
    ensures x in ShownQuestions(t.segments, visited) <==> j in visited
  {
    hide WellIdentified, Orderly, Honest, ClearOptions, QuestionIdsOf, ShownQuestions;
    SurveyIsSegmented(t.survey, t.segments);
    ShownMember(t.segments, visited, x);
    if i :| i in visited && HasQuestion(t.segments, i, x) {
      if i < j { OneSegmentEach(t.segments, i, j, x); }
      if j < i { OneSegmentEach(t.segments, j, i, x); }
    }
  }

  lemma ShownSegment(t: Session, visited: seq<nat>, x: string) returns (j: nat)
    requires Positions(visited, |t.segments|) && x in ShownQuestions(t.segments, visited)
    ensures HasQuestion(t.segments, j, x)
  {
    ShownMember(t.segments, visited, x);
    j :| j in visited && HasQuestion(t.segments, j, x);
  }

  /** The run visits a segment exactly when it holds of the answers and the simulator can read each question's part. */
  ghost predicate VisitsWhatIsVisible(t: Session, visited: seq<nat>) {
    forall j: nat, x: string :: HasQuestion(t.segments, j, x) ==>
      (j in visited <==> Holds(t.segments[j].relevance, t.Answers(visited), t.host) && SimulatorReads(t.survey, x))
  }

  /** The questions shown are the visible ones exactly when the visited segments are those that hold and can be read. */
  lemma ShownIsVisibleExactly(t: Session, visited: seq<nat>, variables: Context)
    requires Completed(t, visited) && VariablesApart(t.survey)
    requires forall y :: y in variables ==> y in Calculations.CalculatedIds(t.survey.variables)
    ensures Positions(visited, |t.segments|)
    ensures VisitsWhatIsVisible(t, visited)
       <==> forall x :: x in ShownQuestions(t.segments, visited)
                   <==> x in Simulation.VisibleQuestions(t.survey, t.Answers(visited) + variables, t.host)
  {
    hide Ready, IsComplete, Holds, ShownQuestions, SimulatorReads, VariablesApart, Simulation.VisibleQuestions,
      HasQuestion;
    CompletedIsRunning(t, visited);
    var shown := ShownQuestions(t.segments, visited);
    var visible := Simulation.VisibleQuestions(t.survey, t.Answers(visited) + variables, t.host);
    forall j: nat, x: string | HasQuestion(t.segments, j, x)
      ensures x in shown <==> j in visited
      ensures j < |t.segments|
      ensures x in visible
         <==> Holds(t.segments[j].relevance, t.Answers(visited), t.host) && SimulatorReads(t.survey, x)
    {
      HasQuestionInRange(t.segments, j, x);
      ShownIffVisited(t, visited, j, x);
      VisibleIffSegmentHolds(t, j, x, t.Answers(visited), variables);
    }
    forall x | x in shown || x in visible
      ensures exists j: nat :: HasQuestion(t.segments, j, x)
    {
      if x in shown {
        var j := ShownSegment(t, visited, x);
      } else {
        var j := VisibleHasSegment(t, t.Answers(visited) + variables, x);
      }
    }
  }

  lemma HasQuestionInRange(segments: seq<Segment>, j: nat, x: string)
    requires HasQuestion(segments, j, x)
    ensures j < |segments|
  {
  }

  lemma SameQuestion(survey: CanonicalSurvey, p: Question, q: Question, h: Group, g: Group)
    requires DistinctSurvey(survey) && p in survey.questions && q in survey.questions && p.externalId == q.externalId
    requires h in survey.groups && g in survey.groups
    requires p.groupExternalId == h.externalId && q.groupExternalId == g.externalId
    ensures p == q && h == g
  {
  }

  /** A segment that holds is decided in time for just those of its questions that the simulator can read. */
  ghost predicate DecidedWhereReadable(t: Session, visited: seq<nat>)
    requires Ready(t)
  {
    forall j: nat, x: string :: HasQuestion(t.segments, j, x) ==>
      Holds(t.segments[j].relevance, t.Answers(visited), t.host) ==>
        (DecidedInTime(t, visited, j) <==> SimulatorReads(t.survey, x))
  }

  /**
   * The compiler against the simulator, exactly: a complete run of the compiled blocks shows each question
   * that the simulator calls visible for the collected answers once, and no other, if and only if every
   * segment whose relevance holds reads only questions up to the segment visited before it - or, for a
   * question whose own or group's relevance does not parse by itself, reads a later one.
   */
  lemma CompilerAgreesExactly(t: Session, visited: seq<nat>, variables: Context)
    requires Completed(t, visited) && VariablesApart(t.survey) && DecidesFaithfully(t, visited)
    requires var ids := Calculations.CalculatedIds(t.survey.variables);
             Dependencies.Solution(Calculations.ParseAll(t.survey.variables, ids).defs, t.Answers(visited),
               variables, t.host)
    ensures Positions(visited, |t.segments|)
    ensures multiset(ShownQuestions(t.segments, visited))
              == multiset(Simulation.VisibleQuestions(t.survey, t.Answers(visited) + variables, t.host))
       <==> DecidedWhereReadable(t, visited)
    ensures Sequences.NoDuplicates(ShownQuestions(t.segments, visited))
  {
    hide WellIdentified, Orderly, Honest, ClearOptions, IsComplete, DecidesFaithfully, DecidedWhereReadable, Holds,
      AnswersAfter, VariablesApart, ShownQuestions, QuestionIdsOf, VisitsWhatIsVisible;
    CompletedIsRunning(t, visited);
    SurveyIsSegmented(t.survey, t.segments);
    ShownOnce(t.segments, visited);
    Simulation.VisibleOnce(t.survey, t.Answers(visited) + variables, t.host);
    SolutionIsCalculated(t.survey.variables, t.Answers(visited), variables, t.host);
    VisitsWhatIsVisibleExactly(t, visited);
    ShownIsVisibleExactly(t, visited, variables);
    Sequences.SameMembersExactly(ShownQuestions(t.segments, visited),
                                 Simulation.VisibleQuestions(t.survey, t.Answers(visited) + variables, t.host));
  }

  lemma VisitsWhatIsVisibleExactly(t: Session, visited: seq<nat>)
    requires Completed(t, visited) && DecidesFaithfully(t, visited)
    ensures VisitsWhatIsVisible(t, visited) <==> DecidedWhereReadable(t, visited)
  {
    hide Ready, IsComplete, DecidesFaithfully, Holds, DecidedInTime, SimulatorReads, HasQuestion;
    forall j: nat, x: string | HasQuestion(t.segments, j, x)
      ensures j < |t.segments|
      ensures j in visited
         <==> Holds(t.segments[j].relevance, t.Answers(visited), t.host) && DecidedInTime(t, visited, j)
    {
      HasQuestionInRange(t.segments, j, x);
      VisitedIffHolds(t, visited, j);
    }
  }

  /**
   * The compiler agrees with the simulator when every relevance parses and holds only if all the questions it
   * reads are answered: a complete run shows each visible question once, and no other.
   */
  lemma CompilerAgreesWithSimulator(t: Session, visited: seq<nat>, variables: Context)
    requires Completed(t, visited) && AllParse(t.survey) && VariablesApart(t.survey)
    requires DecidesFaithfully(t, visited) && HoldsOnlyWhenAnswered(t, t.Answers(visited))
    requires var ids := Calculations.CalculatedIds(t.survey.variables);
             Dependencies.Solution(Calculations.ParseAll(t.survey.variables, ids).defs, t.Answers(visited),
               variables, t.host)
    ensures Positions(visited, |t.segments|)
    ensures multiset(ShownQuestions(t.segments, visited))
         == multiset(Simulation.VisibleQuestions(t.survey, t.Answers(visited) + variables, t.host))
  {
    hide Ready, IsComplete, DecidesFaithfully, Holds, Parses, VariablesApart, ReferencesOf, Dependencies.Solution,
      DecidedAt, ShownQuestions, Simulation.VisibleQuestions;
    CompletedIsRunning(t, visited);
    forall j: nat, k: nat | j < |t.segments| && Holds(t.segments[j].relevance, t.Answers(visited), t.host)
                  && LastBefore(visited, k, j) && k < |visited| && visited[k] < |t.segments|
      ensures DecidedAt(t, visited[k], j)
    {
      AnsweredIsDecided(t, visited, k, j);
    }
    CompilerAgreesExactly(t, visited, variables);
  }

  lemma SolutionIsCalculated(declared: seq<Variable>, answers: Context, variables: Context, host: Host)
    requires Dependencies.Solution(
      Calculations.ParseAll(declared, Calculations.CalculatedIds(declared)).defs, answers, variables, host)
    ensures forall x :: x in variables ==> x in Calculations.CalculatedIds(declared)
  {
    Calculations.ParsingIsWellFormed(declared, Calculations.CalculatedIds(declared));
  }

  // ----- The assumptions can be met -----

  /** Whatever the respondent answers, the compiled survey has a complete run. */
  lemma EveryRespondentFinishes(t: Session) returns (visited: seq<nat>)
    requires Ready(t)
    ensures Completed(t, visited)
  {
    hide WellIdentified, Honest, ClearOptions, Runnable, IsComplete;
    ReadyIsRunnable(t);
    visited := RunExists(t.Route(), t.compilation.payload, t.History(), [0]);
  }

  /** A cleanly validated survey meets the assumptions about its IDs and its variables. */
  lemma CleanSurveyIsReady(t: Session)
    requires Validation.CleanlyValidated(t.survey) && SegmentsOf(t.survey, t.segments)
    requires CompilesTo(t.survey, t.host, t.compilation) && Orderly(t.survey, t.segments)
    requires Sequences.NoDuplicates(BlockNamesOf(t.segments)) && Honest(t.survey, t.segments, t.respondent)
    requires forall q :: q in t.survey.questions ==> ClearOptions(q, t.survey.defaultLanguage, t.respondent.language)
    ensures Ready(t) && VariablesApart(t.survey)
  {
    hide Orderly, Honest, ClearOptions;
    Validation.CleanSurveyIsDistinct(t.survey);
    Validation.CleanSurveyIsIdentified(t.survey);
  }
}
