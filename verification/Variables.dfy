/** Declaring the payload variables that equations write and read. */
module Variables {
  import opened Wrappers
  import opened Survey
  import opened Payload
  import opened Compiler
  import opened Sequences
  import Ids
  import Parser
  import Sorting

  /** A request to register a variable under an external ID. */
  datatype Request = Request(externalId: string, isNumber: bool)

  function VariableId(survey: string, r: Request): string {
    Ids.EquationVariableId(survey, r.externalId)
  }

  function DeclaredIds(variables: seq<PayloadVariable>): seq<string> {
    seq(|variables|, i requires 0 <= i < |variables| => variables[i].id)
  }

  /** The declarations left by a sequence of requests: the first one for every ID. */
  function Declared(survey: string, requests: seq<Request>): seq<PayloadVariable> {
    if requests == [] then []
    else
      var before := Declared(survey, requests[..|requests| - 1]);
      var r := requests[|requests| - 1];
      if VariableId(survey, r) in DeclaredIds(before) then before
      else before + [PayloadVariable(VariableId(survey, r), r.isNumber)]
  }

  lemma DeclaringOneMore(survey: string, requests: seq<Request>, r: Request)
    ensures var before := Declared(survey, requests);
            Declared(survey, requests + [r])
              == (if VariableId(survey, r) in DeclaredIds(before) then before
                  else before + [PayloadVariable(VariableId(survey, r), r.isNumber)])
  {
    assert (requests + [r])[..|requests|] == requests;
  }

  lemma OneMoreId(variables: seq<PayloadVariable>, v: PayloadVariable)
    ensures DeclaredIds(variables + [v]) == DeclaredIds(variables) + [v.id]
  {
  }

  /** The registry that the payload compiler keeps while it declares variables. */
  class VariableRegistry {
    const survey: string
    var registered: set<string>
    var declared: seq<PayloadVariable>
    ghost var requests: seq<Request>

    ghost predicate Valid()
      reads this
    {
      declared == Declared(survey, requests) && registered == (set x | x in DeclaredIds(declared))
    }

    constructor (survey: string)
      ensures Valid() && this.survey == survey && requests == []
    {
      this.survey := survey;
      registered, declared, requests := {}, [], [];
    }

    /** Registers a variable unless its ID is registered already, and returns that ID. */
    method Register(request: Request) returns (id: string)
      requires Valid()
      modifies this
      ensures Valid() && requests == old(requests) + [request]
      ensures id == VariableId(survey, request) && id in DeclaredIds(declared)
      ensures old(DeclaredIds(declared)) <= DeclaredIds(declared)
    {
      hide Declared, VariableId, DeclaredIds;
      id := VariableId(survey, request);
      DeclaringOneMore(survey, requests, request);
      requests := requests + [request];
      if id !in registered {
        OneMoreId(declared, PayloadVariable(id, request.isNumber));
        registered := registered + {id};
        declared := declared + [PayloadVariable(id, request.isNumber)];
      }
    }
  }

  // ----- The requests a survey makes -----

  function VariableRequests(variables: seq<Variable>): seq<Request> {
    seq(|variables|, i requires 0 <= i < |variables| => Request(variables[i].externalId, variables[i].isNumber))
  }

  function EquationRequests(questions: seq<Question>): seq<Request> {
    if questions == [] then []
    else
      (if questions[0].kind.Equation? then [Request(questions[0].externalId, true)] else [])
      + EquationRequests(questions[1..])
  }

  /** The variables an equation's references register. */
  function ReferenceRequests(survey: CanonicalSurvey, sources: seq<string>): seq<Request> {
    if sources == [] then []
    else
      var variable := ReferencedVariable(survey, Parser.SplitDots(sources[0])[0]);
      (if variable.Some? then [Request(variable.value, true)] else []) + ReferenceRequests(survey, sources[1..])
  }

  function RuleRequests(survey: CanonicalSurvey, q: Question): seq<Request> {
    if !(q.kind.Equation? && HasCalculation(q)) then []
    else
      var parsed := Parser.ParseExpression(q.calculation.value);
      [Request(q.externalId, true)]
      + (if parsed.Ok? then ReferenceRequests(survey, Distinct(Sources(parsed.value))) else [])
  }

  function GroupRequests(survey: CanonicalSurvey, questions: seq<Question>): seq<Request> {
    if questions == [] then [] else RuleRequests(survey, questions[0]) + GroupRequests(survey, questions[1..])
  }

  function BlockRequests(survey: CanonicalSurvey, groups: seq<Group>): seq<Request> {
    if groups == [] then []
    else GroupRequests(survey, GroupQuestions(survey, groups[0].externalId)) + BlockRequests(survey, groups[1..])
  }

  /** Canonical variables first, then equation questions, then what each block's equations mention. */
  function Requests(survey: CanonicalSurvey): seq<Request> {
    VariableRequests(survey.variables) + EquationRequests(survey.questions)
    + BlockRequests(survey, Sorting.Sort(survey.groups, GroupOrder))
  }

  function PayloadVariables(survey: CanonicalSurvey): seq<PayloadVariable> {
    Declared(survey.externalId, Requests(survey))
  }

  /** Declares a survey's variables one request after the other. */
  method DeclareVariables(survey: CanonicalSurvey) returns (variables: seq<PayloadVariable>)
    ensures variables == PayloadVariables(survey)
  {
    var registry := new VariableRegistry(survey.externalId);
    var requests := Requests(survey);
    for i := 0 to |requests|
      invariant registry.Valid() && registry.survey == survey.externalId && registry.requests == requests[..i]
    {
      var _ := registry.Register(requests[i]);
    }
    assert requests[..|requests|] == requests;
    variables := registry.declared;
  }

  // ----- Closure -----

  lemma {:induction false} DeclaredOnce(survey: string, requests: seq<Request>)
    ensures NoDuplicates(DeclaredIds(Declared(survey, requests)))
    ensures forall id ::
              id in DeclaredIds(Declared(survey, requests)) <==>
                exists r :: r in requests && VariableId(survey, r) == id
  {
    if requests != [] {
      var front, r := requests[..|requests| - 1], requests[|requests| - 1];
      assert requests == front + [r];
      DeclaredOnce(survey, front);
      var before, after := Declared(survey, front), Declared(survey, requests);
      var id := VariableId(survey, r);
      if id !in DeclaredIds(before) {
        assert DeclaredIds(after) == DeclaredIds(before) + [id];
        NoDuplicatesAppend(DeclaredIds(before), [id]);
      }
      forall x
        ensures x in DeclaredIds(after) <==> exists s :: s in requests && VariableId(survey, s) == x
      {
        assert x in DeclaredIds(after) <==> x in DeclaredIds(before) || x == id;
        if x in DeclaredIds(before) {
          var s :| s in front && VariableId(survey, s) == x;
          assert s in requests;
        }
        assert r in requests;
      }
    }
  }

  /** The variable IDs a calculation rule writes and reads. */
  ghost predicate Mentions(rule: Rule, id: string) {
    rule.Calculation? &&
    (rule.variableId == id
     || exists i :: 0 <= i < |rule.references| && rule.references[i].target == VariableOperand(id))
  }

  lemma {:induction false} ReferenceRequested(survey: CanonicalSurvey, sources: seq<string>, i: nat, id: string)
    requires i < |sources| && CompiledReference(survey, sources[i]).target == VariableOperand(id)
    ensures exists r :: r in ReferenceRequests(survey, sources) && VariableId(survey.externalId, r) == id
  {
    var variable := ReferencedVariable(survey, Parser.SplitDots(sources[0])[0]);
    if i == 0 {
      var r := Request(variable.value, true);
      assert ReferenceRequests(survey, sources)[0] == r;
      assert r in ReferenceRequests(survey, sources);
    } else {
      assert sources[1..][i - 1] == sources[i];
      ReferenceRequested(survey, sources[1..], i - 1, id);
      var r :| r in ReferenceRequests(survey, sources[1..]) && VariableId(survey.externalId, r) == id;
      assert r in ReferenceRequests(survey, sources);
    }
  }

  lemma MentionedIsRequested(survey: CanonicalSurvey, q: Question, id: string)
    requires q.kind.Equation? && HasCalculation(q) && EquationRule(survey, q).Ok?
    requires Mentions(EquationRule(survey, q).value, id)
    ensures exists r :: r in RuleRequests(survey, q) && VariableId(survey.externalId, r) == id
  {
    var rule := EquationRule(survey, q).value;
    var own := Request(q.externalId, true);
    assert RuleRequests(survey, q)[0] == own;
    if rule.variableId != id {
      var sources := Distinct(Sources(Parser.ParseExpression(q.calculation.value).value));
      var i :| 0 <= i < |rule.references| && rule.references[i].target == VariableOperand(id);
      ReferenceRequested(survey, sources, i, id);
      var r :| r in ReferenceRequests(survey, sources) && VariableId(survey.externalId, r) == id;
      assert r in RuleRequests(survey, q);
    } else {
      assert own in RuleRequests(survey, q);
    }
  }

  lemma {:induction false} RuleRequestsIncluded(
    survey: CanonicalSurvey, questions: seq<Question>, q: Question, r: Request)
    requires q in questions && r in RuleRequests(survey, q)
    ensures r in GroupRequests(survey, questions)
  {
    if questions[0] != q {
      RuleRequestsIncluded(survey, questions[1..], q, r);
    }
  }

  lemma {:induction false} GroupRequestsIncluded(survey: CanonicalSurvey, groups: seq<Group>, g: Group, r: Request)
    requires g in groups && r in GroupRequests(survey, GroupQuestions(survey, g.externalId))
    ensures r in BlockRequests(survey, groups)
  {
    if groups[0] != g {
      GroupRequestsIncluded(survey, groups[1..], g, r);
    }
  }

  /** Every variable an equation of the survey writes or reads is declared exactly once in the payload. */
  lemma EquationVariablesAreDeclaredOnce(
    survey: CanonicalSurvey, group: Group, q: Question, id: string)
    requires group in survey.groups && q in survey.questions && q.groupExternalId == group.externalId
    requires q.kind.Equation? && HasCalculation(q) && EquationRule(survey, q).Ok?
    requires Mentions(EquationRule(survey, q).value, id)
    ensures multiset(DeclaredIds(PayloadVariables(survey)))[id] == 1
  {
    MentionedIsRequested(survey, q, id);
    var r :| r in RuleRequests(survey, q) && VariableId(survey.externalId, r) == id;
    var groups := Sorting.Sort(survey.groups, GroupOrder);
    Sorting.SortMembers(survey.groups, GroupOrder);
    GroupQuestionsMember(survey, group.externalId, q);
    RuleRequestsIncluded(survey, GroupQuestions(survey, group.externalId), q, r);
    GroupRequestsIncluded(survey, groups, group, r);
    RequestedIsDeclaredOnce(survey.externalId, Requests(survey), r);
  }

  lemma RequestedIsDeclaredOnce(survey: string, requests: seq<Request>, r: Request)
    requires r in requests
    ensures multiset(DeclaredIds(Declared(survey, requests)))[VariableId(survey, r)] == 1
  {
    DeclaredOnce(survey, requests);
    var ids := DeclaredIds(Declared(survey, requests));
    assert VariableId(survey, r) in ids;
    var i :| 0 <= i < |ids| && ids[i] == VariableId(survey, r);
    OnceInDistinct(ids, i);
  }
}
