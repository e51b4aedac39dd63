/** Validating a canonical survey: unique external IDs and resolvable references. */
module Validation {
  import opened Survey
  import opened Sequences
  import Calculations
  import Ids
  import Strings

  datatype Diagnostic =
    | DuplicateId(id: string) | MissingGroup(question: string) | DuplicateOption(question: string, option: string)
    | MissingDefaultLanguage

  ghost predicate Repeats(ids: seq<string>, x: string) {
    exists i, j :: 0 <= i < j < |ids| && ids[i] == x && ids[j] == x
  }

  /** The IDs that occur more than once, in ascending order. */
  method GetDuplicateIds(ids: seq<string>) returns (duplicates: seq<string>)
    ensures forall x :: x in duplicates <==> Repeats(ids, x)
    ensures Strings.Ascending(duplicates) && NoDuplicates(duplicates)
    ensures duplicates == [] <==> NoDuplicates(ids)
  {
    var seen: set<string> := {};
    var found: seq<string> := [];
    for k := 0 to |ids|
      invariant seen == (set x | x in ids[..k])
      invariant NoDuplicates(found)
      invariant forall x :: x in found <==> exists i, j :: 0 <= i < j < k && ids[i] == x && ids[j] == x
    {
      if ids[k] in seen && ids[k] !in found {
        NoDuplicatesAppend(found, [ids[k]]);
        found := found + [ids[k]];
      }
      seen := seen + {ids[k]};
    }
    assert forall x :: x in found ==> x in Strings.Sort(found);
    duplicates := Strings.Sort(found);
    Strings.SortSorts(found);
    PermutationKeepsDistinct(found, duplicates);
    assert ids[..|ids|] == ids;
    if !NoDuplicates(ids) {
      var i, j :| 0 <= i < j < |ids| && ids[i] == ids[j];
      assert ids[i] in duplicates;
    }
    if duplicates != [] {
      assert duplicates[0] in duplicates;
    }
  }

  function GroupIds(groups: seq<Group>): seq<string> {
    seq(|groups|, i requires 0 <= i < |groups| => groups[i].externalId)
  }

  function QuestionIds(questions: seq<Question>): seq<string> {
    seq(|questions|, i requires 0 <= i < |questions| => questions[i].externalId)
  }

  function VariableIds(variables: seq<Variable>): seq<string> {
    seq(|variables|, i requires 0 <= i < |variables| => variables[i].externalId)
  }

  function EndingExternalIds(endings: seq<Ending>): seq<string> {
    seq(|endings|, i requires 0 <= i < |endings| => endings[i].externalId)
  }

  function ItemIds(items: seq<Item>): seq<string> {
    seq(|items|, i requires 0 <= i < |items| => items[i].externalId)
  }

  function AllIds(survey: CanonicalSurvey): seq<string> {
    GroupIds(survey.groups) + QuestionIds(survey.questions) + VariableIds(survey.variables)
    + EndingExternalIds(survey.endings)
  }

  ghost predicate CleanQuestion(survey: CanonicalSurvey, q: Question) {
    q.groupExternalId in GroupIds(survey.groups) && NoDuplicates(ItemIds(q.options))
  }

  /** What a survey without diagnostics guarantees. */
  ghost predicate CleanReferences(survey: CanonicalSurvey) {
    NoDuplicates(AllIds(survey)) && survey.defaultLanguage in survey.languages &&
    forall i :: 0 <= i < |survey.questions| ==> CleanQuestion(survey, survey.questions[i])
  }

  /** What is wrong with a question, each as its own diagnostic. */
  ghost predicate QuestionFault(survey: CanonicalSurvey, q: Question, d: Diagnostic) {
    match d
    case MissingGroup(x) => x == q.externalId && q.groupExternalId !in GroupIds(survey.groups)
    case DuplicateOption(x, option) => x == q.externalId && Repeats(ItemIds(q.options), option)
    case _ => false
  }

  /** What is wrong with a survey as a whole or with one of its first n questions. */
  ghost predicate Fault(survey: CanonicalSurvey, n: nat, d: Diagnostic)
    requires n <= |survey.questions|
  {
    match d
    case DuplicateId(x) => Repeats(AllIds(survey), x)
    case MissingDefaultLanguage => survey.defaultLanguage !in survey.languages
    case _ => exists k :: 0 <= k < n && QuestionFault(survey, survey.questions[k], d)
  }

  /** Reports exactly the faults of the survey, so nothing exactly when it is clean. */
  method ValidateReferences(survey: CanonicalSurvey) returns (diagnostics: seq<Diagnostic>)
    ensures forall d :: d in diagnostics <==> Fault(survey, |survey.questions|, d)
    ensures diagnostics == [] <==> CleanReferences(survey)
  {
    hide Repeats, AllIds, GroupIds, ItemIds;
    diagnostics := [];
    var duplicates := GetDuplicateIds(AllIds(survey));
    for i := 0 to |duplicates|
      invariant forall d :: d in diagnostics <==> d.DuplicateId? && d.id in duplicates[..i]
    {
      assert duplicates[..i + 1] == duplicates[..i] + [duplicates[i]];
      diagnostics := diagnostics + [DuplicateId(duplicates[i])];
    }
    assert duplicates[..|duplicates|] == duplicates;
    for i := 0 to |survey.questions|
      invariant forall d :: d in diagnostics <==> !d.MissingDefaultLanguage? && Fault(survey, i, d)
    {
      var faults := QuestionFaults(survey, survey.questions[i]);
      diagnostics := diagnostics + faults;
    }
    if survey.defaultLanguage !in survey.languages {
      diagnostics := diagnostics + [MissingDefaultLanguage];
    }
    FaultlessExactly(survey);
    assert diagnostics != [] ==> diagnostics[0] in diagnostics;
  }

  /** The body of the loop over the questions. */
  method QuestionFaults(survey: CanonicalSurvey, q: Question) returns (diagnostics: seq<Diagnostic>)
    ensures forall d :: d in diagnostics <==> QuestionFault(survey, q, d)
  {
    hide Repeats, GroupIds, ItemIds;
    diagnostics := [];
    if q.groupExternalId !in GroupIds(survey.groups) {
      diagnostics := diagnostics + [MissingGroup(q.externalId)];
    }
    var before := diagnostics;
    var duplicates := GetDuplicateIds(ItemIds(q.options));
    for k := 0 to |duplicates|
      invariant forall d ::
        d in diagnostics <==>
          d in before || (d.DuplicateOption? && d.question == q.externalId && d.option in duplicates[..k])
    {
      assert duplicates[..k + 1] == duplicates[..k] + [duplicates[k]];
      diagnostics := diagnostics + [DuplicateOption(q.externalId, duplicates[k])];
    }
    assert duplicates[..|duplicates|] == duplicates;
  }

  lemma RepeatsExactly(ids: seq<string>)
    ensures NoDuplicates(ids) <==> forall x :: !Repeats(ids, x)
  {
    if !NoDuplicates(ids) {
      var i, j :| 0 <= i < j < |ids| && ids[i] == ids[j];
      assert Repeats(ids, ids[i]);
    }
  }

  /** A survey without faults is clean. */
  lemma FaultlessExactly(survey: CanonicalSurvey)
    ensures CleanReferences(survey) <==> forall d :: !Fault(survey, |survey.questions|, d)
  {
    hide Repeats, AllIds, GroupIds, ItemIds;
    RepeatsExactly(AllIds(survey));
    forall i | 0 <= i < |survey.questions|
      ensures CleanQuestion(survey, survey.questions[i])
         <==> forall d :: !QuestionFault(survey, survey.questions[i], d)
    {
      QuestionFaultlessExactly(survey, survey.questions[i]);
    }
    if forall d :: !Fault(survey, |survey.questions|, d) {
      forall x
        ensures !Repeats(AllIds(survey), x)
      {
        assert !Fault(survey, |survey.questions|, DuplicateId(x));
      }
      assert !Fault(survey, |survey.questions|, MissingDefaultLanguage);
      forall i, d | 0 <= i < |survey.questions|
        ensures !QuestionFault(survey, survey.questions[i], d)
      {
        assert !Fault(survey, |survey.questions|, d);
      }
    }
  }

  lemma QuestionFaultlessExactly(survey: CanonicalSurvey, q: Question)
    ensures CleanQuestion(survey, q) <==> forall d :: !QuestionFault(survey, q, d)
  {
    hide Repeats, GroupIds, ItemIds;
    RepeatsExactly(ItemIds(q.options));
    if forall d :: !QuestionFault(survey, q, d) {
      assert !QuestionFault(survey, q, MissingGroup(q.externalId));
      forall x
        ensures !Repeats(ItemIds(q.options), x)
      {
        assert !QuestionFault(survey, q, DuplicateOption(q.externalId, x));
      }
    }
  }

  // ----- What the schema accepts -----

  ghost predicate ValidItems(items: seq<Item>) {
    forall i :: 0 <= i < |items| ==> Ids.IsExternalId(items[i].externalId)
  }

  ghost predicate ValidQuestion(q: Question) {
    Ids.IsExternalId(q.externalId) && ValidItems(q.options) &&
    (q.matrix.Some? ==>
       ValidItems(q.matrix.value.rows) && ValidItems(q.matrix.value.columns)
       && NoDuplicates(ItemIds(q.matrix.value.rows) + ItemIds(q.matrix.value.columns)))
  }

  ghost predicate ValidSchema(survey: CanonicalSurvey) {
    Ids.IsExternalId(survey.externalId) && survey.endings != [] &&
    (forall x :: x in AllIds(survey) ==> Ids.IsExternalId(x)) &&
    (forall i :: 0 <= i < |survey.questions| ==> ValidQuestion(survey.questions[i]))
  }

  ghost predicate CleanlyValidated(survey: CanonicalSurvey) {
    ValidSchema(survey) && CleanReferences(survey)
  }

  lemma DistinctParts<T>(a: seq<T>, b: seq<T>)
    requires NoDuplicates(a + b)
    ensures NoDuplicates(a) && NoDuplicates(b)
    ensures forall x :: x in a ==> x !in b
  {
    var all := a + b;
    assert forall i :: 0 <= i < |a| ==> all[i] == a[i];
    assert forall j :: 0 <= j < |b| ==> all[|a| + j] == b[j];
    forall i, j | 0 <= i < j < |b|
      ensures b[i] != b[j]
    {
      assert all[|a| + i] != all[|a| + j];
    }
    forall i, j | 0 <= i < |a| && 0 <= j < |b|
      ensures a[i] != b[j]
    {
      assert all[i] != all[|a| + j];
    }
  }

  /** Distinct IDs over all entities keep groups, questions, variables and endings apart. */
  lemma CleanSurveyIsDistinct(survey: CanonicalSurvey)
    requires CleanReferences(survey)
    ensures DistinctGroups(survey.groups) && DistinctQuestions(survey.questions)
    ensures NoDuplicates(EndingExternalIds(survey.endings))
    ensures forall x :: x in QuestionIds(survey.questions) ==> x !in VariableIds(survey.variables)
  {
    var g, q := GroupIds(survey.groups), QuestionIds(survey.questions);
    var v, e := VariableIds(survey.variables), EndingExternalIds(survey.endings);
    DistinctParts(g + q + v, e);
    DistinctParts(g + q, v);
    DistinctParts(g, q);
    assert forall i :: 0 <= i < |g| ==> g[i] == survey.groups[i].externalId;
    assert forall i :: 0 <= i < |q| ==> q[i] == survey.questions[i].externalId;
    forall x | x in q
      ensures x !in v
    {
      assert x in g + q;
    }
  }

  /** The schema's external IDs can all be encoded, and calculated variables keep clear of questions. */
  lemma CleanSurveyIsIdentified(survey: CanonicalSurvey)
    requires CleanlyValidated(survey)
    ensures Ids.Encodable(survey.externalId)
    ensures forall g :: g in survey.groups ==> Ids.Encodable(g.externalId)
    ensures forall e :: e in survey.endings ==> Ids.Encodable(e.externalId)
    ensures forall q :: q in survey.questions ==> Ids.Encodable(q.externalId)
    ensures forall q, o :: q in survey.questions && o in q.options ==> Ids.Encodable(o.externalId)
    ensures forall q :: q in survey.questions ==> q.externalId !in Calculations.CalculatedIds(survey.variables)
  {
    CleanSurveyIsDistinct(survey);
    ListedIds(survey);
    forall g | g in survey.groups
      ensures Ids.Encodable(g.externalId)
    {
      Ids.ExternalIdsAreEncodable(g.externalId);
    }
    forall e | e in survey.endings
      ensures Ids.Encodable(e.externalId)
    {
      Ids.ExternalIdsAreEncodable(e.externalId);
    }
    forall q | q in survey.questions
      ensures Ids.Encodable(q.externalId)
      ensures forall o :: o in q.options ==> Ids.Encodable(o.externalId)
    {
      var i :| 0 <= i < |survey.questions| && survey.questions[i] == q;
      assert ValidQuestion(survey.questions[i]);
    }
  }

  /** The ID of every group, question, ending and variable is listed among all IDs. */
  lemma ListedIds(survey: CanonicalSurvey)
    ensures forall g :: g in survey.groups ==> g.externalId in AllIds(survey)
    ensures forall e :: e in survey.endings ==> e.externalId in AllIds(survey)
    ensures forall q :: q in survey.questions ==> q.externalId in QuestionIds(survey.questions)
    ensures forall v :: v in survey.variables ==> v.externalId in VariableIds(survey.variables)
  {
    forall g | g in survey.groups
      ensures g.externalId in AllIds(survey)
    {
      var i :| 0 <= i < |survey.groups| && survey.groups[i] == g;
      assert GroupIds(survey.groups)[i] == g.externalId;
    }
    forall e | e in survey.endings
      ensures e.externalId in AllIds(survey)
    {
      var i :| 0 <= i < |survey.endings| && survey.endings[i] == e;
      assert EndingExternalIds(survey.endings)[i] == e.externalId;
    }
    forall q | q in survey.questions
      ensures q.externalId in QuestionIds(survey.questions)
    {
      var i :| 0 <= i < |survey.questions| && survey.questions[i] == q;
      assert QuestionIds(survey.questions)[i] == q.externalId;
    }
    forall v | v in survey.variables
      ensures v.externalId in VariableIds(survey.variables)
    {
      var i :| 0 <= i < |survey.variables| && survey.variables[i] == v;
      assert VariableIds(survey.variables)[i] == v.externalId;
    }
  }
}
