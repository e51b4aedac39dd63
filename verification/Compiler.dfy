/** Blocks and elements compiled from canonical groups and questions, before their IDs are rewritten. */
module Compiler {
  import opened Wrappers
  import opened Expressions
  import opened Survey
  import opened Payload
  import Ids
  import Parser
  import Sorting
  import Runtime

  datatype CompileError =
    | UnsupportedQuestionType | UnrepresentableOptions | MissingConfiguration | InvalidExpression(error: Error)
    | UnsupportedReference | InvalidReference | InvalidComparison | UndefinedChoice | UnsupportedExpression
    | UnknownQuestion | MissingBlock | MissingQuestion | MissingEnding

  // ----- Elements -----

  function CompiledText(texts: LocalizedText, defaultLanguage: string): LocalizedText {
    var preferred := Runtime.Translation(texts, defaultLanguage);
    var default := if preferred.Some? then preferred.value else if texts != [] then texts[0].1 else "";
    [("default", default)] + texts
  }

  function ChoicesOf(items: seq<Item>, defaultLanguage: string): seq<Choice> {
    seq(|items|, i requires 0 <= i < |items| =>
      Choice(items[i].externalId, CompiledText(items[i].texts, defaultLanguage)))
  }

  function SourceChoices(items: seq<Item>, defaultLanguage: string): seq<Choice> {
    ChoicesOf(Sorting.Sort(items, ItemOrder), defaultLanguage)
  }

  function Plain(q: Question, kind: ElementKind): Result<Element, CompileError> {
    Ok(Element(q.externalId, kind, [], [], []))
  }

  function SourceElement(q: Question, defaultLanguage: string): Result<Element, CompileError> {
    match q.kind
    case OpenText => Plain(q, OpenTextElement(q.numberInput))
    case Numeric =>
      if q.options != [] then Err(UnrepresentableOptions)
      else Plain(q, if q.isNps then ScaleElement else OpenTextElement(true))
    case Rating => if q.hasRating then Plain(q, ScaleElement) else Err(MissingConfiguration)
    case SingleChoice =>
      Ok(Element(q.externalId, SingleChoiceElement, SourceChoices(q.options, defaultLanguage), [], []))
    case MultipleChoice =>
      Ok(Element(q.externalId, MultipleChoiceElement, SourceChoices(q.options, defaultLanguage), [], []))
    case Ranking => Ok(Element(q.externalId, RankingElement, SourceChoices(q.options, defaultLanguage), [], []))
    case Matrix =>
      if q.matrix.None? then Err(MissingConfiguration)
      else Ok(Element(q.externalId, MatrixElement, [],
                      SourceChoices(q.matrix.value.rows, defaultLanguage),
                      SourceChoices(q.matrix.value.columns, defaultLanguage)))
    case Display => Plain(q, CtaElement)
    case Equation => if HasCalculation(q) then Plain(q, CtaElement) else Err(MissingConfiguration)
    case _ => Err(UnsupportedQuestionType)
  }

  predicate HasCalculation(q: Question) {
    q.calculation.Some? && q.calculation.value != ""
  }

  // ----- Equation rules -----

  /** The dotted references of an expression in the order they are visited, with repetitions. */
  function Sources(node: Node): seq<string>
    decreases node, 1
  {
    match node
    case Literal(_) => []
    case Reference(head, tail) => [JoinItems([head] + tail, ".")]
    case Unary(_, operand) => Sources(operand)
    case Binary(_, left, right) => Sources(left) + Sources(right)
    case Call(_, args) => AllSources(args)
  }

  function AllSources(args: seq<Node>): seq<string>
    decreases args, 0
  {
    if args == [] then [] else Sources(args[0]) + AllSources(args[1..])
  }

  /** First occurrences only, in order. */
  function Distinct(xs: seq<string>): seq<string> {
    if xs == [] then []
    else
      var front := Distinct(xs[..|xs| - 1]);
      if xs[|xs| - 1] in front then front else front + [xs[|xs| - 1]]
  }

  function Upper(s: string): string {
    seq(|s|, i requires 0 <= i < |s| => if 'a' <= s[i] <= 'z' then (s[i] as int - 32) as char else s[i])
  }

  function VariableNamed(variables: seq<Variable>, name: string): Option<Variable> {
    if variables == [] then None
    else if variables[0].externalId == name || variables[0].name == name then Some(variables[0])
    else VariableNamed(variables[1..], name)
  }

  /** What an expression reference reads, and the external ID it registers when that is a variable. */
  function ReferencedVariable(survey: CanonicalSurvey, name: string): Option<string> {
    var question := QuestionNamed(survey.questions, name);
    if question.Some? then if question.value.kind.Equation? then Some(name) else None
    else
      var variable := VariableNamed(survey.variables, name);
      Some(if variable.Some? then variable.value.externalId else name)
  }

  function CompiledReference(survey: CanonicalSurvey, source: string): ExpressionReference {
    var parts := Parser.SplitDots(source);
    var missingIsZero := |parts| > 1 && Upper(parts[1]) == "NAOK";
    var variable := ReferencedVariable(survey, parts[0]);
    var target :=
      if variable.Some? then VariableOperand(Ids.EquationVariableId(survey.externalId, variable.value))
      else ElementOperand(Ids.QuestionId(survey.externalId, parts[0]));
    ExpressionReference(source, target, missingIsZero)
  }

  function EquationRule(survey: CanonicalSurvey, q: Question): Result<Rule, CompileError>
    requires q.calculation.Some?
  {
    match Parser.ParseExpression(q.calculation.value)
    case Err(error) => Err(InvalidExpression(error))
    case Ok(node) =>
      var sources := Distinct(Sources(node));
      Ok(Calculation(
        Ids.EquationLogicId(survey.externalId, q.externalId),
        Ids.EquationConditionGroupId(survey.externalId, q.externalId),
        Ids.EquationActionId(survey.externalId, q.externalId),
        Ids.EquationVariableId(survey.externalId, q.externalId),
        q.calculation.value,
        seq(|sources|, i requires 0 <= i < |sources| => CompiledReference(survey, sources[i]))))
  }

  // ----- Blocks -----

  function QuestionsIn(questions: seq<Question>, group: string): seq<Question> {
    if questions == [] then []
    else (if questions[0].groupExternalId == group then [questions[0]] else []) + QuestionsIn(questions[1..], group)
  }

  function GroupQuestions(survey: CanonicalSurvey, group: string): seq<Question> {
    Sorting.Sort(QuestionsIn(survey.questions, group), QuestionOrder)
  }

  function SourceElements(questions: seq<Question>, defaultLanguage: string): Result<seq<Element>, CompileError> {
    if questions == [] then Ok([])
    else
      var first := SourceElement(questions[0], defaultLanguage);
      if first.Err? then Err(first.error)
      else
        var rest := SourceElements(questions[1..], defaultLanguage);
        if rest.Err? then rest else Ok([first.value] + rest.value)
  }

  function EquationRules(survey: CanonicalSurvey, questions: seq<Question>): Result<seq<Rule>, CompileError> {
    if questions == [] then Ok([])
    else if !(questions[0].kind.Equation? && HasCalculation(questions[0])) then EquationRules(survey, questions[1..])
    else
      var first := EquationRule(survey, questions[0]);
      if first.Err? then Err(first.error)
      else
        var rest := EquationRules(survey, questions[1..]);
        if rest.Err? then rest else Ok([first.value] + rest.value)
  }

  function SourceBlock(survey: CanonicalSurvey, group: Group): Result<Block, CompileError> {
    var questions := GroupQuestions(survey, group.externalId);
    var elements := SourceElements(questions, survey.defaultLanguage);
    if elements.Err? then Err(elements.error)
    else
      var rules := EquationRules(survey, questions);
      if rules.Err? then Err(rules.error)
      else Ok(Block(group.externalId, elements.value, rules.value, None))
  }

  function SourceBlocksOf(survey: CanonicalSurvey, groups: seq<Group>): Result<seq<Block>, CompileError> {
    if groups == [] then Ok([])
    else
      var first := SourceBlock(survey, groups[0]);
      if first.Err? then Err(first.error)
      else
        var rest := SourceBlocksOf(survey, groups[1..]);
        if rest.Err? then rest else Ok([first.value] + rest.value)
  }

  function SourceBlocks(survey: CanonicalSurvey): Result<seq<Block>, CompileError> {
    SourceBlocksOf(survey, Sorting.Sort(survey.groups, GroupOrder))
  }

  // ----- Facts -----

  lemma {:induction false} QuestionsInMember(questions: seq<Question>, group: string, q: Question)
    ensures q in QuestionsIn(questions, group) <==> q in questions && q.groupExternalId == group
  {
    if questions != [] {
      QuestionsInMember(questions[1..], group, q);
      assert q in questions <==> q == questions[0] || q in questions[1..];
    }
  }

  lemma GroupQuestionsMember(survey: CanonicalSurvey, group: string, q: Question)
    ensures q in GroupQuestions(survey, group) <==> q in survey.questions && q.groupExternalId == group
  {
    Sorting.SortMembers(QuestionsIn(survey.questions, group), QuestionOrder);
    QuestionsInMember(survey.questions, group, q);
  }

  lemma {:induction false} SourceElementsMatch(questions: seq<Question>, defaultLanguage: string)
    requires SourceElements(questions, defaultLanguage).Ok?
    ensures |SourceElements(questions, defaultLanguage).value| == |questions|
    ensures forall i :: 0 <= i < |questions| ==>
              SourceElement(questions[i], defaultLanguage) == Ok(SourceElements(questions, defaultLanguage).value[i])
  {
    if questions != [] {
      SourceElementsMatch(questions[1..], defaultLanguage);
    }
  }

  lemma {:induction false} SourceBlocksMatch(survey: CanonicalSurvey, groups: seq<Group>)
    requires SourceBlocksOf(survey, groups).Ok?
    ensures |SourceBlocksOf(survey, groups).value| == |groups|
    ensures forall i :: 0 <= i < |groups| ==>
              SourceBlock(survey, groups[i]) == Ok(SourceBlocksOf(survey, groups).value[i])
  {
    if groups != [] {
      SourceBlocksMatch(survey, groups[1..]);
    }
  }
}
