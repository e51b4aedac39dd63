/** The reference semantics: which groups and questions are relevant for given answers. */
module Simulation {
  import opened Wrappers
  import opened Expressions
  import opened Survey
  import opened RelevanceText
  import opened Calculations
  import Dependencies
  import Parser
  import SegmentConservation
  import Sequences
  import Sorting
  import SurveySegments

  datatype Target = GroupTarget | QuestionTarget | EndingTarget

  datatype Reason = Relevant | NotRelevant | ParentNotRelevant | Complete | EvaluationError

  datatype RouteEntry = RouteEntry(id: string, target: Target, result: bool, reason: Reason)

  datatype SimulationResult = SimulationResult(
    visibleGroups: seq<string>, visibleQuestions: seq<string>, ending: string, variables: Context,
    route: seq<RouteEntry>, calculations: seq<TraceEntry>, diagnostics: seq<AdaptiveDiagnostic>)

  /** Relevance evaluated to a decision, or an error. */
  function EvaluateRelevance(relevance: Option<string>, ctx: Context, host: Host): Result<bool, Error> {
    if !IsPresent(relevance) then Ok(true)
    else
      match Parser.ParseExpression(relevance.value)
      case Err(error) => Err(error)
      case Ok(node) => var r := Evaluate(node, ctx, host); if r.Err? then Err(r.error) else Ok(Truthy(r.value))
  }

  function RelevanceEntry(id: string, target: Target, decision: Result<bool, Error>): RouteEntry {
    match decision
    case Err(_) => RouteEntry(id, target, false, EvaluationError)
    case Ok(true) => RouteEntry(id, target, true, Relevant)
    case Ok(false) => RouteEntry(id, target, false, NotRelevant)
  }

  /** The relevance decisions of groups by ID; the last group with an ID decides. */
  function GroupVisibility(groups: seq<Group>, ctx: Context, host: Host): map<string, bool> {
    if groups == [] then map[]
    else
      var g := groups[|groups| - 1];
      GroupVisibility(groups[..|groups| - 1], ctx, host)[g.externalId := HoldsIfPresent(g.relevance, ctx, host)]
  }

  function GroupEntries(groups: seq<Group>, ctx: Context, host: Host): seq<RouteEntry> {
    seq(|groups|, i requires 0 <= i < |groups| =>
      RelevanceEntry(groups[i].externalId, GroupTarget, EvaluateRelevance(groups[i].relevance, ctx, host)))
  }

  function QuestionEntry(q: Question, visibility: map<string, bool>, ctx: Context, host: Host): RouteEntry {
    if q.groupExternalId in visibility && visibility[q.groupExternalId] then
      RelevanceEntry(q.externalId, QuestionTarget, EvaluateRelevance(q.relevance, ctx, host))
    else RouteEntry(q.externalId, QuestionTarget, false, ParentNotRelevant)
  }

  function QuestionEntries(questions: seq<Question>, visibility: map<string, bool>, ctx: Context, host: Host)
    : seq<RouteEntry>
  {
    seq(|questions|, i requires 0 <= i < |questions| => QuestionEntry(questions[i], visibility, ctx, host))
  }

  /** The targets whose entry says they are relevant, in order. */
  function RelevantIds(entries: seq<RouteEntry>): seq<string> {
    if entries == [] then []
    else
      RelevantIds(entries[..|entries| - 1])
      + (if entries[|entries| - 1].result then [entries[|entries| - 1].id] else [])
  }

  /** A diagnostic for every relevance that could not be evaluated, in order. */
  function RouteDiagnostics(entries: seq<RouteEntry>): seq<AdaptiveDiagnostic> {
    if entries == [] then []
    else
      RouteDiagnostics(entries[..|entries| - 1])
      + (if entries[|entries| - 1].reason.EvaluationError? then [RelevanceFailed(entries[|entries| - 1].id)] else [])
  }

  function VisibleQuestions(survey: CanonicalSurvey, ctx: Context, host: Host): seq<string> {
    var groups := Sorting.Sort(survey.groups, GroupOrder);
    var questions := Sorting.Sort(survey.questions, QuestionOrder);
    RelevantIds(QuestionEntries(questions, GroupVisibility(groups, ctx, host), ctx, host))
  }

  /** Simulates a survey: calculations first, then group relevance, then question relevance. */
  method SimulateAdaptiveRoute(survey: CanonicalSurvey, answers: Context, host: Host) returns (r: SimulationResult)
    requires survey.endings != []
    ensures Dependencies.Solution(ParseAll(survey.variables, CalculatedIds(survey.variables)).defs,
              answers, r.variables, host)
    ensures r.visibleQuestions == VisibleQuestions(survey, answers + r.variables, host)
    ensures var groups := Sorting.Sort(survey.groups, GroupOrder);
            var questions := Sorting.Sort(survey.questions, QuestionOrder);
            var ctx := answers + r.variables;
            r.visibleGroups == RelevantIds(GroupEntries(groups, ctx, host)) &&
            r.route == GroupEntries(groups, ctx, host)
                       + QuestionEntries(questions, GroupVisibility(groups, ctx, host), ctx, host)
                       + [RouteEntry(survey.endings[0].externalId, EndingTarget, true, Complete)]
    ensures r.ending == survey.endings[0].externalId
    ensures var parsed := ParseAll(survey.variables, CalculatedIds(survey.variables));
            |parsed.failures| <= |r.calculations| && r.calculations[..|parsed.failures|] == parsed.failures &&
            TraceIsExact(parsed.defs, r.calculations[|parsed.failures|..], r.variables) &&
            TraceIsOrdered(parsed.defs, r.calculations[|parsed.failures|..]) &&
            r.diagnostics == UnparsedDiagnostics(parsed.failures)
                             + DiagnosticsOf(r.calculations[|parsed.failures|..]) + RouteDiagnostics(r.route)
  {
    hide TraceIsExact, TraceIsOrdered, Dependencies.Solution, DiagnosticsOf, RouteDiagnostics, ParseAll,
      GroupVisibility, QuestionEntries, GroupEntries, RelevantIds;
    var variables, calculations, diagnostics := EvaluateCalculatedVariables(survey.variables, answers, host);
    var ctx := answers + variables;
    var groups := Sorting.Sort(survey.groups, GroupOrder);
    var visibility, groupRoute, visibleGroups, groupDiagnostics := DecideGroups(groups, ctx, host);
    var questions := Sorting.Sort(survey.questions, QuestionOrder);
    var questionRoute, visibleQuestions, questionDiagnostics := DecideQuestions(questions, visibility, ctx, host);
    var ending := RouteEntry(survey.endings[0].externalId, EndingTarget, true, Complete);
    RouteDiagnosticsAppend(groupRoute, questionRoute);
    NextDecision(groupRoute + questionRoute, ending);
    r := SimulationResult(
      visibleGroups, visibleQuestions, ending.id, variables, groupRoute + questionRoute + [ending], calculations,
      diagnostics + (groupDiagnostics + questionDiagnostics));
  }

  lemma NextDecision(entries: seq<RouteEntry>, entry: RouteEntry)
    ensures RouteDiagnostics(entries + [entry])
         == RouteDiagnostics(entries) + (if entry.reason.EvaluationError? then [RelevanceFailed(entry.id)] else [])
  {
    assert (entries + [entry])[..|entries|] == entries;
  }

  lemma {:induction false} RouteDiagnosticsAppend(a: seq<RouteEntry>, b: seq<RouteEntry>)
    ensures RouteDiagnostics(a + b) == RouteDiagnostics(a) + RouteDiagnostics(b)
  {
    if b == [] {
      assert a + b == a;
    } else {
      var front, last := b[..|b| - 1], b[|b| - 1];
      RouteDiagnosticsAppend(a, front);
      NextDecision(a + front, last);
      assert a + b == a + front + [last];
    }
  }

  lemma RelevantIdsAppend(entries: seq<RouteEntry>, entry: RouteEntry)
    ensures RelevantIds(entries + [entry]) == RelevantIds(entries) + (if entry.result then [entry.id] else [])
  {
    assert (entries + [entry])[..|entries|] == entries;
  }

  lemma NextGroup(groups: seq<Group>, i: nat, ctx: Context, host: Host)
    requires i < |groups|
    ensures GroupEntries(groups[..i + 1], ctx, host)
         == GroupEntries(groups[..i], ctx, host)
            + [RelevanceEntry(groups[i].externalId, GroupTarget, EvaluateRelevance(groups[i].relevance, ctx, host))]
    ensures GroupVisibility(groups[..i + 1], ctx, host)
         == GroupVisibility(groups[..i], ctx, host)
              [groups[i].externalId := HoldsIfPresent(groups[i].relevance, ctx, host)]
  {
    assert groups[..i + 1][..i] == groups[..i];
  }

  method DecideGroups(groups: seq<Group>, ctx: Context, host: Host)
    returns (
      visibility: map<string, bool>, route: seq<RouteEntry>, visible: seq<string>,
      diagnostics: seq<AdaptiveDiagnostic>)
    ensures visibility == GroupVisibility(groups, ctx, host)
    ensures route == GroupEntries(groups, ctx, host) && visible == RelevantIds(route)
    ensures diagnostics == RouteDiagnostics(route)
  {
    visibility, route, visible, diagnostics := map[], [], [], [];
    for i := 0 to |groups|
      invariant visibility == GroupVisibility(groups[..i], ctx, host)
      invariant route == GroupEntries(groups[..i], ctx, host) && visible == RelevantIds(route)
      invariant diagnostics == RouteDiagnostics(route)
    {
      var group := groups[i];
      var decision := EvaluateRelevance(group.relevance, ctx, host);
      var relevant := decision.Ok? && decision.value;
      visibility := visibility[group.externalId := relevant];
      if relevant {
        visible := visible + [group.externalId];
      }
      if decision.Err? {
        diagnostics := diagnostics + [RelevanceFailed(group.externalId)];
      }
      var entry := RelevanceEntry(group.externalId, GroupTarget, decision);
      RelevantIdsAppend(route, entry);
      NextDecision(route, entry);
      NextGroup(groups, i, ctx, host);
      route := route + [entry];
    }
    assert groups[..|groups|] == groups;
  }

  method DecideQuestions(questions: seq<Question>, visibility: map<string, bool>, ctx: Context, host: Host)
    returns (route: seq<RouteEntry>, visible: seq<string>, diagnostics: seq<AdaptiveDiagnostic>)
    ensures route == QuestionEntries(questions, visibility, ctx, host) && visible == RelevantIds(route)
    ensures diagnostics == RouteDiagnostics(route)
  {
    hide EvaluateRelevance;
    route, visible, diagnostics := [], [], [];
    for i := 0 to |questions|
      invariant route == QuestionEntries(questions[..i], visibility, ctx, host) && visible == RelevantIds(route)
      invariant diagnostics == RouteDiagnostics(route)
    {
      var question := questions[i];
      var entry := RouteEntry(question.externalId, QuestionTarget, false, ParentNotRelevant);
      if question.groupExternalId in visibility && visibility[question.groupExternalId] {
        var decision := EvaluateRelevance(question.relevance, ctx, host);
        if decision.Ok? && decision.value {
          visible := visible + [question.externalId];
        }
        if decision.Err? {
          diagnostics := diagnostics + [RelevanceFailed(question.externalId)];
        }
        entry := RelevanceEntry(question.externalId, QuestionTarget, decision);
      }
      RelevantIdsAppend(route, entry);
      NextDecision(route, entry);
      route := route + [entry];
    }
    assert questions[..|questions|] == questions;
  }

  // ----- What visibility means -----

  lemma {:induction false} RelevantIdsMember(entries: seq<RouteEntry>, x: string)
    ensures x in RelevantIds(entries) <==> exists i :: 0 <= i < |entries| && entries[i].result && entries[i].id == x
  {
    if entries != [] {
      RelevantIdsMember(entries[..|entries| - 1], x);
    }
  }

  lemma {:induction false} GroupVisibilityDecides(groups: seq<Group>, g: Group, ctx: Context, host: Host)
    requires DistinctGroups(groups) && g in groups
    ensures g.externalId in GroupVisibility(groups, ctx, host)
    ensures GroupVisibility(groups, ctx, host)[g.externalId] == HoldsIfPresent(g.relevance, ctx, host)
  {
    var last := |groups| - 1;
    if groups[last] != g {
      var i :| 0 <= i < |groups| && groups[i] == g;
      assert g == groups[..last][i];
      GroupVisibilityDecides(groups[..last], g, ctx, host);
    }
  }

  lemma {:induction false} GroupVisibilityDomain(groups: seq<Group>, ctx: Context, host: Host, x: string)
    ensures x in GroupVisibility(groups, ctx, host) <==> exists g :: g in groups && g.externalId == x
  {
    hide HoldsIfPresent;
    if groups != [] {
      GroupVisibilityDomain(groups[..|groups| - 1], ctx, host, x);
      assert groups == groups[..|groups| - 1] + [groups[|groups| - 1]];
    }
  }

  /** A group's relevance by itself; a missing group hides its questions. */
  lemma GroupDecides(survey: CanonicalSurvey, g: Group, ctx: Context, host: Host)
    requires DistinctGroups(survey.groups) && g in survey.groups
    ensures var visibility := GroupVisibility(Sorting.Sort(survey.groups, GroupOrder), ctx, host);
            g.externalId in visibility && visibility[g.externalId] == HoldsIfPresent(g.relevance, ctx, host)
  {
    hide HoldsIfPresent, GroupVisibility, Sorting.Sort;
    SurveySegments.SortedGroups(survey);
    GroupVisibilityDecides(Sorting.Sort(survey.groups, GroupOrder), g, ctx, host);
  }

  lemma EntryResult(q: Question, visibility: map<string, bool>, ctx: Context, host: Host)
    ensures var e := QuestionEntry(q, visibility, ctx, host);
            e.id == q.externalId &&
            (e.result <==> q.groupExternalId in visibility && visibility[q.groupExternalId]
                           && HoldsIfPresent(q.relevance, ctx, host))
  {
  }

  /** The visible questions are those of existing groups whose group's relevance and own relevance both hold. */
  lemma VisibleExactly(survey: CanonicalSurvey, ctx: Context, host: Host, x: string)
    requires DistinctGroups(survey.groups)
    ensures x in VisibleQuestions(survey, ctx, host)
       <==> exists q, g :: q in survey.questions && g in survey.groups && q.externalId == x
              && q.groupExternalId == g.externalId
              && HoldsIfPresent(g.relevance, ctx, host) && HoldsIfPresent(q.relevance, ctx, host)
  {
    hide HoldsIfPresent, GroupVisibility, Sorting.Sort, QuestionEntry;
    var questions := Sorting.Sort(survey.questions, QuestionOrder);
    var groups := Sorting.Sort(survey.groups, GroupOrder);
    var visibility := GroupVisibility(groups, ctx, host);
    var entries := QuestionEntries(questions, visibility, ctx, host);
    Sorting.SortMembers(survey.questions, QuestionOrder);
    Sorting.SortMembers(survey.groups, GroupOrder);
    RelevantIdsMember(entries, x);
    if x in VisibleQuestions(survey, ctx, host) {
      var i :| 0 <= i < |entries| && entries[i].result && entries[i].id == x;
      var q := questions[i];
      EntryResult(q, visibility, ctx, host);
      GroupVisibilityDomain(groups, ctx, host, q.groupExternalId);
      var g :| g in groups && g.externalId == q.groupExternalId;
      GroupDecides(survey, g, ctx, host);
      assert q in questions;
    }
    if q, g :| q in survey.questions && g in survey.groups && q.externalId == x && q.groupExternalId == g.externalId
               && HoldsIfPresent(g.relevance, ctx, host) && HoldsIfPresent(q.relevance, ctx, host) {
      assert q in questions;
      var i :| 0 <= i < |questions| && questions[i] == q;
      EntryResult(q, visibility, ctx, host);
      GroupDecides(survey, g, ctx, host);
      assert entries[i].result && entries[i].id == x;
    }
  }

  lemma {:induction false} RelevantIdsDistinct(entries: seq<RouteEntry>)
    requires forall i, j :: 0 <= i < j < |entries| ==> entries[i].id != entries[j].id
    ensures Sequences.NoDuplicates(RelevantIds(entries))
  {
    if entries != [] {
      var front, last := entries[..|entries| - 1], entries[|entries| - 1];
      RelevantIdsDistinct(front);
      RelevantIdsMember(front, last.id);
      Sequences.NoDuplicatesAppend(RelevantIds(front), if last.result then [last.id] else []);
    }
  }

  lemma VisibleOnce(survey: CanonicalSurvey, ctx: Context, host: Host)
    requires DistinctQuestions(survey.questions)
    ensures Sequences.NoDuplicates(VisibleQuestions(survey, ctx, host))
  {
    hide HoldsIfPresent, GroupVisibility, Sorting.Sort, QuestionEntry;
    var questions := Sorting.Sort(survey.questions, QuestionOrder);
    var visibility := GroupVisibility(Sorting.Sort(survey.groups, GroupOrder), ctx, host);
    Sorting.SortPermutes(survey.questions, QuestionOrder);
    SegmentConservation.PermutedDistinct(survey.questions, questions);
    var entries := QuestionEntries(questions, visibility, ctx, host);
    forall i, j | 0 <= i < j < |entries|
      ensures entries[i].id != entries[j].id
    {
      EntryResult(questions[i], visibility, ctx, host);
      EntryResult(questions[j], visibility, ctx, host);
    }
    RelevantIdsDistinct(entries);
  }

  // ----- What the route trace says -----

  /** Evaluating a relevance that is there fails: it does not parse, or evaluates to an error. */
  predicate FailsToEvaluate(relevance: Option<string>, ctx: Context, host: Host) {
    IsPresent(relevance) &&
    (Parser.ParseExpression(relevance.value).Err?
     || Evaluate(Parser.ParseExpression(relevance.value).value, ctx, host).Err?)
  }

  /** An entry is true exactly for what holds; otherwise its reason tells a failure from a plain no. */
  lemma RelevanceEntryExactly(id: string, target: Target, relevance: Option<string>, ctx: Context, host: Host)
    ensures var e := RelevanceEntry(id, target, EvaluateRelevance(relevance, ctx, host));
            e.id == id && e.target == target && e.result == HoldsIfPresent(relevance, ctx, host) &&
            (e.reason.Relevant? <==> e.result) &&
            (e.reason.EvaluationError? <==> FailsToEvaluate(relevance, ctx, host)) &&
            (e.reason.NotRelevant? <==> !e.result && !FailsToEvaluate(relevance, ctx, host))
  {
    hide Parser.ParseExpression, Evaluate;
  }

  /** A question whose group is missing or not visible is not looked at; any other is judged by its own relevance. */
  lemma QuestionEntryExactly(survey: CanonicalSurvey, q: Question, ctx: Context, host: Host)
    requires DistinctGroups(survey.groups)
    ensures var visibility := GroupVisibility(Sorting.Sort(survey.groups, GroupOrder), ctx, host);
            var e := QuestionEntry(q, visibility, ctx, host);
            var visible := exists g :: g in survey.groups && g.externalId == q.groupExternalId
                                       && HoldsIfPresent(g.relevance, ctx, host);
            e.id == q.externalId && e.target.QuestionTarget? &&
            (e.reason.ParentNotRelevant? <==> !visible) && (!visible ==> !e.result) &&
            (visible ==> e == RelevanceEntry(q.externalId, QuestionTarget, EvaluateRelevance(q.relevance, ctx, host)))
  {
    hide HoldsIfPresent, EvaluateRelevance, GroupVisibility, Sorting.Sort;
    var groups := Sorting.Sort(survey.groups, GroupOrder);
    Sorting.SortMembers(survey.groups, GroupOrder);
    GroupVisibilityDomain(groups, ctx, host, q.groupExternalId);
    forall g | g in survey.groups && g.externalId == q.groupExternalId
      ensures g.externalId in GroupVisibility(groups, ctx, host)
      ensures GroupVisibility(groups, ctx, host)[q.groupExternalId] == HoldsIfPresent(g.relevance, ctx, host)
    {
      GroupDecides(survey, g, ctx, host);
    }
  }
}
