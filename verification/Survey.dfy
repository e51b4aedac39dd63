/** The canonical survey: groups, questions, calculated variables and endings. */
module Survey {
  import opened Wrappers
  import opened Expressions

  datatype QuestionType =
    | OpenText | SingleChoice | MultipleChoice | Numeric | Rating | Ranking | Matrix
    | Date | FileUpload | Consent | Display | Equation

  /** Texts by language, in declaration order. */
  type LocalizedText = seq<(string, string)>

  /** An answer option, a ranking choice, or a matrix row or column. */
  datatype Item = Item(externalId: string, texts: LocalizedText, value: Value, order: int)

  datatype Axes = Axes(rows: seq<Item>, columns: seq<Item>)

  datatype Question = Question(
    externalId: string, groupExternalId: string, kind: QuestionType, order: int,
    relevance: Option<string>, calculation: Option<string>, options: seq<Item>, matrix: Option<Axes>,
    hasRating: bool, numberInput: bool, isNps: bool)

  datatype Group = Group(externalId: string, order: int, relevance: Option<string>)

  datatype Ending = Ending(externalId: string)

  datatype Variable = Variable(externalId: string, name: string, isNumber: bool, calculation: Option<string>)

  datatype CanonicalSurvey = CanonicalSurvey(
    externalId: string, defaultLanguage: string, languages: seq<string>, groups: seq<Group>, questions: seq<Question>,
    variables: seq<Variable>, endings: seq<Ending>)

  /** The question with an external ID; of several, the last one, as in a map built from the list. */
  function QuestionNamed(questions: seq<Question>, externalId: string): (r: Option<Question>)
    ensures r.Some? ==> r.value in questions && r.value.externalId == externalId
    ensures r.None? ==> forall q :: q in questions ==> q.externalId != externalId
  {
    if questions == [] then None
    else if questions[|questions| - 1].externalId == externalId then Some(questions[|questions| - 1])
    else QuestionNamed(questions[..|questions| - 1], externalId)
  }

  ghost predicate DistinctQuestions(questions: seq<Question>) {
    forall i, j :: 0 <= i < j < |questions| ==> questions[i].externalId != questions[j].externalId
  }

  ghost predicate DistinctGroups(groups: seq<Group>) {
    forall i, j :: 0 <= i < j < |groups| ==> groups[i].externalId != groups[j].externalId
  }

  lemma QuestionNamedFinds(questions: seq<Question>, q: Question)
    requires DistinctQuestions(questions) && q in questions
    ensures QuestionNamed(questions, q.externalId) == Some(q)
  {
  }

  function GroupOrder(g: Group): int { g.order }

  function QuestionOrder(q: Question): int { q.order }

  function ItemOrder(i: Item): int { i.order }

  predicate HasChoices(kind: QuestionType) {
    kind.SingleChoice? || kind.MultipleChoice?
  }
}
