/** Exactly when a compiled leaf condition reads an answer the way the expression evaluator does. */
module LeafAgreement {
  import opened Wrappers
  import opened Expressions
  import opened Survey
  import opened Payload
  import opened Runtime
  import opened Compiler
  import opened RelevanceCompiler
  import opened SurveyReferences
  import Ids

  /** The runtime reads this text as this number when it compares the two. */
  predicate ReadsAs(text: string, n: real, host: Host) {
    !IsBlankText(text) && host.parseNumber(text) == Some(n)
  }

  predicate IsEquality(op: BinaryOp) {
    op.Equal? || op.NotEqual?
  }

  /** Every selected value is the resolved option. */
  predicate SelectsOnly(q: Question, values: seq<string>, option: Item) {
    values != [] && forall i :: 0 <= i < |values| ==> OptionWithValue(q.options, Str(values[i])) == Some(option)
  }

  /** The comparisons of an answer with a literal whose compiled condition decides the same. */
  predicate ComparisonSafe(q: Question, op: BinaryOp, literal: Value, answer: Value, host: Host) {
    match q.kind
    case SingleChoice =>
      var option := ResolvedOption(q.options, literal, host);
      IsEquality(op) && option.Some? &&
      ((OptionWithValue(q.options, answer) == option) <==> answer == literal)
    case MultipleChoice =>
      var option := ResolvedOption(q.options, literal, host);
      op.NotEqual? || (op.Equal? && answer.Strs? && option.Some? && !SelectsOnly(q, answer.items, option.value))
    case Ranking => op.NotEqual? || (op.Equal? && answer.Strs? && !(literal.Str? && answer.items == [literal.s]))
    case _ =>
      !IsEquality(op)
      || (answer.Num? && (literal.Str? ==> !ReadsAs(literal.s, answer.n, host)))
      || (answer.Str? && (literal.Num? ==> !ReadsAs(answer.s, literal.n, host)))
  }

  /** The answers that presence tests and truthiness agree on. */
  predicate PresenceSafe(q: Question, answer: Value) {
    match q.kind
    case SingleChoice => !IsBlank(answer)
    case _ => answer != Num(0.0) && answer != Strs([])
  }

  function ComparedWith(survey: CanonicalSurvey, q: Question, literal: Value, host: Host): Result<Value, CompileError> {
    var target := Resolve(survey, host, q.externalId);
    if target.Err? then Err(target.error) else ComparedValue(target.value, literal)
  }

  ghost predicate Legible(survey: CanonicalSurvey, q: Question, answers: Context, s: Situation) {
    q in survey.questions && QuestionNamed(survey.questions, q.externalId) == Some(q) && !q.kind.Equation? &&
    Recorded(survey, q, answers, s) && ClearOptions(q, survey.defaultLanguage, s.env.language)
  }

  /** The decision of the compiled comparison of an answered question with a literal. */
  ghost predicate ComparisonMet(survey: CanonicalSurvey, q: Question, op: BinaryOp, compared: Value, s: Situation)
    requires IsComparison(op)
  {
    ConditionHolds(ComparisonOperator(op), IsNumericOperand(OperandOf(survey, q), s.env),
                   LeftValue(OperandOf(survey, q), s.responses, s.vars, s.env), Some(compared), s.env.host)
  }

  lemma NumberComparison(
    survey: CanonicalSurvey, q: Question, op: BinaryOp, literal: Value, answers: Context, s: Situation)
    requires Legible(survey, q, answers, s) && q.externalId in answers && IsComparison(op)
    requires !HasChoices(q.kind) && answers[q.externalId].Num? && (literal.Str? || literal.Num?)
    requires Apply(op, answers[q.externalId], literal, s.env.host).Ok?
    ensures (ComparisonMet(survey, q, op, literal, s)
             == Truthy(Apply(op, answers[q.externalId], literal, s.env.host).value))
       <==> ComparisonSafe(q, op, literal, answers[q.externalId], s.env.host)
  {
    RecordedReadsBack(survey, q, answers, s);
  }

  lemma TextComparison(
    survey: CanonicalSurvey, q: Question, op: BinaryOp, literal: Value, answers: Context, s: Situation)
    requires Legible(survey, q, answers, s) && q.externalId in answers && IsComparison(op)
    requires !HasChoices(q.kind) && answers[q.externalId].Str? && (literal.Str? || literal.Num?)
    requires Apply(op, answers[q.externalId], literal, s.env.host).Ok?
    ensures (ComparisonMet(survey, q, op, literal, s)
             == Truthy(Apply(op, answers[q.externalId], literal, s.env.host).value))
       <==> ComparisonSafe(q, op, literal, answers[q.externalId], s.env.host)
  {
    RecordedReadsBack(survey, q, answers, s);
  }

  lemma RankingComparison(
    survey: CanonicalSurvey, q: Question, op: BinaryOp, literal: Value, answers: Context, s: Situation)
    requires Legible(survey, q, answers, s) && q.externalId in answers && IsComparison(op)
    requires q.kind.Ranking? && (literal.Str? || literal.Num?)
    requires Apply(op, answers[q.externalId], literal, s.env.host).Ok?
    ensures (ComparisonMet(survey, q, op, literal, s)
             == Truthy(Apply(op, answers[q.externalId], literal, s.env.host).value))
       <==> ComparisonSafe(q, op, literal, answers[q.externalId], s.env.host)
  {
    RecordedReadsBack(survey, q, answers, s);
    var items := answers[q.externalId].items;
    assert literal.Str? ==> ((|items| == 1 && items[0] == literal.s) <==> items == [literal.s]);
  }

  lemma SingleChoiceComparison(
    survey: CanonicalSurvey, q: Question, op: BinaryOp, literal: Value, answers: Context, s: Situation)
    requires Legible(survey, q, answers, s) && q.externalId in answers && WellIdentified(survey)
    requires q.kind.SingleChoice? && IsEquality(op)
    requires ComparedWith(survey, q, literal, s.env.host).Ok?
    ensures (ComparisonMet(survey, q, op, ComparedWith(survey, q, literal, s.env.host).value, s)
             == Truthy(Apply(op, answers[q.externalId], literal, s.env.host).value))
       <==> ComparisonSafe(q, op, literal, answers[q.externalId], s.env.host)
  {
    hide ResolvedOption, ShownAnswer, CompiledChoices, Ids.OptionId, OptionWithValue, Ids.Encodable, LeftValue,
      FirstMatch;
    RecordedReadsBack(survey, q, answers, s);
    AnswerIdsDiffer(survey, q, answers[q.externalId], ResolvedOption(q.options, literal, s.env.host).value);
  }

  lemma MultipleChoiceComparison(
    survey: CanonicalSurvey, q: Question, op: BinaryOp, literal: Value, answers: Context, s: Situation)
    requires Legible(survey, q, answers, s) && q.externalId in answers && WellIdentified(survey)
    requires q.kind.MultipleChoice? && IsEquality(op) && (literal.Str? || literal.Num?)
    requires ComparedWith(survey, q, literal, s.env.host).Ok?
    ensures (ComparisonMet(survey, q, op, ComparedWith(survey, q, literal, s.env.host).value, s)
             == Truthy(Apply(op, answers[q.externalId], literal, s.env.host).value))
       <==> ComparisonSafe(q, op, literal, answers[q.externalId], s.env.host)
  {
    hide ResolvedOption, ShownAnswer, CompiledChoices, Ids.OptionId, OptionWithValue, Ids.Encodable, LeftValue,
      SelectsOnly, WellIdentified, ClearOptions, ChoiceIds;
    RecordedReadsBack(survey, q, answers, s);
    var values := answers[q.externalId].items;
    var option := ResolvedOption(q.options, literal, s.env.host).value;
    var id := Ids.OptionId(survey.externalId, q.externalId, option.externalId);
    SelectionIsOnly(survey, q, answers[q.externalId], s, option);
    var ids := ReadBack(survey, q, answers[q.externalId], s).items;
    assert (|ids| == 1 && ids[0] == id) <==> ids == [id];
  }

  /** The selection is read back as one option's ID alone exactly when only that option is selected. */
  lemma SelectionIsOnly(survey: CanonicalSurvey, q: Question, answer: Value, s: Situation, option: Item)
    requires WellIdentified(survey) && q in survey.questions && option in q.options
    requires q.kind.MultipleChoice? && Fits(q, answer) && ClearOptions(q, survey.defaultLanguage, s.env.language)
    ensures ReadBack(survey, q, answer, s).Strs?
    ensures ReadBack(survey, q, answer, s).items == [] <==> answer.items == []
    ensures ReadBack(survey, q, answer, s).items
              == [Ids.OptionId(survey.externalId, q.externalId, option.externalId)]
       <==> SelectsOnly(q, answer.items, option)
  {
    hide ResolvedOption, ShownAnswer, CompiledChoices, ChoiceIds, Distinct, Ids.OptionId, OptionWithValue,
      Ids.Encodable;
    var values := answer.items;
    var id := Ids.OptionId(survey.externalId, q.externalId, option.externalId);
    var shown := StoredResponse(q, answer, survey.defaultLanguage, s.env.language).items;
    SelectionReadsBack(survey, q, values, shown, s.env.language);
    DistinctSingle(AnswerIds(survey, q, values), id);
    forall i | 0 <= i < |values|
      ensures AnswerIds(survey, q, values)[i] == id <==> OptionWithValue(q.options, Str(values[i])) == Some(option)
    {
      AnswerIdsDiffer(survey, q, Str(values[i]), option);
    }
  }

  predicate Submitted(left: Value) {
    match left
    case Str(t) => t != ""
    case Strs(items) => items != []
    case Num(_) => true
    case _ => false
  }

  lemma PresenceConditions(numeric: bool, left: Option<Value>, host: Host)
    ensures ConditionHolds(IsSubmitted, numeric, left, None, host) == (left.Some? && Submitted(left.value))
    ensures ConditionHolds(IsSkipped, numeric, left, None, host)
         == (left.None? || left.value == Strs([]) || left.value == Str("") || left.value == Null)
  {
  }

  lemma ReadBackPresence(survey: CanonicalSurvey, q: Question, answer: Value, s: Situation)
    requires Fits(q, answer) && WellIdentified(survey)
    requires q in survey.questions && ClearOptions(q, survey.defaultLanguage, s.env.language)
    ensures q.kind.SingleChoice? ==> ReadBack(survey, q, answer, s).Str? && ReadBack(survey, q, answer, s).s != ""
    ensures q.kind.MultipleChoice? ==> ReadBack(survey, q, answer, s).Strs?
    ensures q.kind.MultipleChoice? ==> (ReadBack(survey, q, answer, s) == Strs([]) <==> answer == Strs([]))
    ensures !HasChoices(q.kind) ==> ReadBack(survey, q, answer, s) == answer && answer != Null && !answer.Bool?
  {
    if q.kind.SingleChoice? {
      assert |AnswerId(survey, q, answer)| >= 2;
    } else if q.kind.MultipleChoice? {
      var shown := StoredResponse(q, answer, survey.defaultLanguage, s.env.language).items;
      SelectionReadsBack(survey, q, answer.items, shown, s.env.language);
      DistinctSingle(AnswerIds(survey, q, answer.items), "");
    }
  }

  ghost predicate SubmittedMet(survey: CanonicalSurvey, q: Question, s: Situation) {
    ConditionHolds(IsSubmitted, IsNumericOperand(OperandOf(survey, q), s.env),
                   LeftValue(OperandOf(survey, q), s.responses, s.vars, s.env), None, s.env.host)
  }

  ghost predicate SkippedMet(survey: CanonicalSurvey, q: Question, s: Situation) {
    ConditionHolds(IsSkipped, IsNumericOperand(OperandOf(survey, q), s.env),
                   LeftValue(OperandOf(survey, q), s.responses, s.vars, s.env), None, s.env.host)
  }

  /** Presence tests agree with truthiness and blankness exactly on the answers that are safe for them. */
  lemma PresenceAgreesIff(survey: CanonicalSurvey, q: Question, answers: Context, s: Situation)
    requires Legible(survey, q, answers, s) && q.externalId in answers && WellIdentified(survey)
    ensures SubmittedMet(survey, q, s) == Truthy(answers[q.externalId]) <==> PresenceSafe(q, answers[q.externalId])
    ensures SkippedMet(survey, q, s) == IsBlank(answers[q.externalId]) <==> PresenceSafe(q, answers[q.externalId])
  {
    RecordedReadsBack(survey, q, answers, s);
    ReadBackPresence(survey, q, answers[q.externalId], s);
    PresenceConditions(IsNumericOperand(OperandOf(survey, q), s.env),
                       Some(ReadBack(survey, q, answers[q.externalId], s)),
                       s.env.host);
  }

  /** A question without an answer is skipped, not submitted. */
  lemma UnansweredPresence(survey: CanonicalSurvey, q: Question, answers: Context, s: Situation)
    requires Legible(survey, q, answers, s) && q.externalId !in answers
    ensures !SubmittedMet(survey, q, s) && SkippedMet(survey, q, s)
  {
    RecordedReadsBack(survey, q, answers, s);
  }

  // ----- Whole expressions -----

  /** A presence test on this name agrees with the evaluator. */
  predicate PresenceLeafSafe(survey: CanonicalSurvey, name: string, answers: Context) {
    var q := QuestionNamed(survey.questions, name);
    q.Some? && (name in answers ==> PresenceSafe(q.value, answers[name]))
  }

  /** The runtime reads both sides as numbers in this order, whatever the evaluator makes of them. */
  predicate ComparesAsNumbers(op: BinaryOp, answer: Value, literal: Value, host: Host)
    requires IsComparison(op)
  {
    Compare(ComparisonOperator(op), NumberOf(answer, host), NumberOf(literal, host))
  }

  /** A comparison with an answer: safe where it evaluates, and not met where it fails. */
  predicate AnswerComparisonSafe(q: Question, op: BinaryOp, literal: Value, answer: Value, host: Host)
    requires IsComparison(op)
  {
    if Apply(op, answer, literal, host).Ok? then ComparisonSafe(q, op, literal, answer, host)
    else !HasChoices(q.kind) && !ComparesAsNumbers(op, answer, literal, host)
  }

  predicate ComparisonLeafSafe(
    survey: CanonicalSurvey, name: string, op: BinaryOp, literal: Value, answers: Context, host: Host)
    requires IsComparison(op)
  {
    var q := QuestionNamed(survey.questions, name);
    q.Some? && (name in answers ==> AnswerComparisonSafe(q.value, op, literal, answers[name], host))
  }

  /** A reference the evaluator looks up by name alone. */
  predicate PlainReference(node: Node) {
    node.Reference? && node.tail == [] && !ForbiddenPart(node.head)
  }

  /** Every leaf compares a plain reference with a literal, or tests its presence, in a way that agrees. */
  predicate ExpressionSafe(survey: CanonicalSurvey, node: Node, answers: Context, host: Host) {
    match node
    case Reference(head, _) => PlainReference(node) && PresenceLeafSafe(survey, head, answers)
    case Call(name, args) =>
      EmptyCall(name) && |args| == 1 && PlainReference(args[0]) && PresenceLeafSafe(survey, args[0].head, answers)
    case Unary(uop, operand) =>
      uop.Not? && ExpressionSafe(survey, operand, answers, host)
    case Binary(op, left, right) =>
      if op.And? || op.Or? then
        ExpressionSafe(survey, left, answers, host) && ExpressionSafe(survey, right, answers, host)
      else if !IsComparison(op) then false
      else if PlainReference(left) && right.Literal? then
        ComparisonLeafSafe(survey, left.head, op, right.value, answers, host)
      else if left.Literal? && PlainReference(right) then
        ComparisonLeafSafe(survey, right.head, Reversed(op), left.value, answers, host)
      else false
    case Literal(_) => false
  }

  /** The runtime can read every question an expression names. */
  ghost predicate AllLegible(survey: CanonicalSurvey, names: set<string>, answers: Context, s: Situation) {
    forall x :: x in names && QuestionNamed(survey.questions, x).Some?
      ==> Legible(survey, QuestionNamed(survey.questions, x).value, answers, s)
  }

  /** A comparison that evaluates is decided as its value says, exactly if it is safe. */
  lemma ComparisonAgreesIff(
    survey: CanonicalSurvey, q: Question, op: BinaryOp, literal: Value, answers: Context, s: Situation)
    requires Legible(survey, q, answers, s) && q.externalId in answers && WellIdentified(survey) && IsComparison(op)
    requires (literal.Str? || literal.Num?) && ComparedWith(survey, q, literal, s.env.host).Ok?
    requires Apply(op, answers[q.externalId], literal, s.env.host).Ok? && (HasChoices(q.kind) ==> IsEquality(op))
    ensures (ComparisonMet(survey, q, op, ComparedWith(survey, q, literal, s.env.host).value, s)
             == Truthy(Apply(op, answers[q.externalId], literal, s.env.host).value))
       <==> ComparisonSafe(q, op, literal, answers[q.externalId], s.env.host)
  {
    hide ConditionHolds, LeftValue, ResolvedOption, ComparisonSafe, WellIdentified;
    if q.kind.SingleChoice? {
      SingleChoiceComparison(survey, q, op, literal, answers, s);
    } else if q.kind.MultipleChoice? {
      MultipleChoiceComparison(survey, q, op, literal, answers, s);
    } else if q.kind.Ranking? {
      RankingComparison(survey, q, op, literal, answers, s);
    } else if answers[q.externalId].Num? {
      NumberComparison(survey, q, op, literal, answers, s);
    } else {
      TextComparison(survey, q, op, literal, answers, s);
    }
  }

  /** A comparison that fails to evaluate is met all the same where both sides read as numbers in order. */
  lemma FailedComparison(
    survey: CanonicalSurvey, q: Question, op: BinaryOp, literal: Value, answers: Context, s: Situation)
    requires Legible(survey, q, answers, s) && q.externalId in answers && IsComparison(op) && !HasChoices(q.kind)
    requires (literal.Str? || literal.Num?) && Apply(op, answers[q.externalId], literal, s.env.host).Err?
    ensures ComparisonMet(survey, q, op, literal, s)
         == ComparesAsNumbers(op, answers[q.externalId], literal, s.env.host)
  {
    RecordedReadsBack(survey, q, answers, s);
  }

  /** A comparison is met exactly when it applies without error to something truthy, if and only if it is safe. */
  lemma ComparisonMetExactly(
    survey: CanonicalSurvey, q: Question, op: BinaryOp, literal: Value, answers: Context, s: Situation)
    requires Legible(survey, q, answers, s) && q.externalId in answers && WellIdentified(survey) && IsComparison(op)
    requires (literal.Str? || literal.Num?) && ComparedWith(survey, q, literal, s.env.host).Ok?
    requires HasChoices(q.kind) ==> IsEquality(op)
    ensures ComparisonMet(survey, q, op, ComparedWith(survey, q, literal, s.env.host).value, s)
              == AppliesTruthily(op, answers[q.externalId], literal, s.env.host)
       <==> AnswerComparisonSafe(q, op, literal, answers[q.externalId], s.env.host)
  {
    hide ComparisonMet, WellIdentified, ComparisonSafe, ComparesAsNumbers, ResolvedOption;
    if Apply(op, answers[q.externalId], literal, s.env.host).Ok? {
      ComparisonAgreesIff(survey, q, op, literal, answers, s);
    } else {
      FailedComparison(survey, q, op, literal, answers, s);
    }
  }

  predicate AppliesTruthily(op: BinaryOp, a: Value, b: Value, host: Host) {
    var r := Apply(op, a, b, host);
    r.Ok? && Truthy(r.value)
  }

  /** A comparison of a plain reference with a literal, in either order. */
  predicate IsPlainComparison(node: Node) {
    node.Binary? && IsComparison(node.op)
    && ((PlainReference(node.left) && node.right.Literal?) || (node.left.Literal? && PlainReference(node.right)))
  }

  /** The name, operator and literal of a comparison, as the compiler orders them. */
  function ComparedName(node: Node): string
    requires IsPlainComparison(node)
  {
    if PlainReference(node.left) then node.left.head else node.right.head
  }

  function ComparedOp(node: Node): BinaryOp
    requires IsPlainComparison(node)
  {
    if PlainReference(node.left) then node.op else Reversed(node.op)
  }

  function ComparedLiteral(node: Node): Value
    requires IsPlainComparison(node)
  {
    if PlainReference(node.left) then node.right.value else node.left.value
  }

  /** In either order, a comparison evaluates to its operator applied to the answer and the literal. */
  lemma ComparisonEvaluates(node: Node, answers: Context, host: Host)
    requires IsPlainComparison(node)
    ensures ComparedName(node) in References(node) && IsComparison(ComparedOp(node))
    ensures ComparedName(node) !in answers ==> Evaluate(node, answers, host).Err?
    ensures ComparedName(node) in answers ==>
              Evaluate(node, answers, host)
                == Apply(ComparedOp(node), answers[ComparedName(node)], ComparedLiteral(node), host)
  {
    if !PlainReference(node.left) && ComparedName(node) in answers {
      ReversedApplication(node.op, node.left.value, answers[node.right.head], host);
    }
  }

  lemma ReversedApplication(op: BinaryOp, a: Value, b: Value, host: Host)
    requires IsComparison(op)
    ensures Apply(op, a, b, host) == Apply(Reversed(op), b, a, host)
  {
  }

  /** In either order, a comparison compiles to its operator on the question's element and the literal. */
  lemma ComparisonCompiles(
    survey: CanonicalSurvey, q: Question, node: Node, createId: string -> string, path: string, s: Situation)
    requires IsPlainComparison(node) && QuestionNamed(survey.questions, ComparedName(node)) == Some(q)
    requires q.externalId == ComparedName(node) && !q.kind.Equation?
    requires CompileNode(node, ContextOf(survey, s.env.host, createId), path).Ok?
    ensures ComparedLiteral(node).Str? || ComparedLiteral(node).Num?
    ensures ComparedWith(survey, q, ComparedLiteral(node), s.env.host).Ok?
    ensures Met(CompileNode(node, ContextOf(survey, s.env.host, createId), path).value, s)
         == ComparisonMet(survey, q, ComparedOp(node),
                          ComparedWith(survey, q, ComparedLiteral(node), s.env.host).value, s)
  {
    hide ConditionHolds, LeftValue, ResolvedOption;
  }

  /** An answered comparison is met exactly when it evaluates to something truthy, if and only if it is safe. */
  lemma AnsweredComparisonExactly(
    survey: CanonicalSurvey, node: Node, createId: string -> string, path: string, answers: Context, s: Situation)
    requires WellIdentified(survey) && AllLegible(survey, References(node), answers, s)
    requires IsPlainComparison(node) && ComparedName(node) in answers
    requires QuestionNamed(survey.questions, ComparedName(node)).Some?
    requires HasChoices(QuestionNamed(survey.questions, ComparedName(node)).value.kind) ==> IsEquality(ComparedOp(node))
    requires CompileNode(node, ContextOf(survey, s.env.host, createId), path).Ok?
    ensures Met(CompileNode(node, ContextOf(survey, s.env.host, createId), path).value, s)
              == EvaluatesTruthily(node, answers, s.env.host)
       <==> ExpressionSafe(survey, node, answers, s.env.host)
  {
    hide WellIdentified, ConditionHolds, LeftValue, ResolvedOption, AnswerComparisonSafe, CompileNode, ComparisonMet;
    var q := QuestionNamed(survey.questions, ComparedName(node)).value;
    ComparisonEvaluates(node, answers, s.env.host);
    assert Legible(survey, q, answers, s);
    ComparisonCompiles(survey, q, node, createId, path, s);
    ComparisonMetExactly(survey, q, ComparedOp(node), ComparedLiteral(node), answers, s);
  }

  predicate EvaluatesTruthily(node: Node, answers: Context, host: Host) {
    var r := Evaluate(node, answers, host);
    r.Ok? && Truthy(r.value)
  }

  lemma {:induction false} SafeLeavesAgree(
    survey: CanonicalSurvey, node: Node, createId: string -> string, path: string, answers: Context, s: Situation)
    requires WellIdentified(survey) && AllLegible(survey, References(node), answers, s)
    requires ExpressionSafe(survey, node, answers, s.env.host)
    ensures LeavesAgree(node, ContextOf(survey, s.env.host, createId), path, answers, s)
  {
    hide WellIdentified, Legible, EvaluateCondition, Resolve;
    var c := ContextOf(survey, s.env.host, createId);
    match node
    case Reference(head, _) =>
      SafePresence(survey, head, createId, path, answers, s);
      assert node == Reference(head, []);
    case Call(_, args) =>
      SafeEmptyCall(survey, node, createId, path, answers, s);
    case Unary(_, operand) =>
      if operand.Reference? || IsEmptyCall(operand) {
        SafeNegatedPresence(survey, operand, createId, path, answers, s);
      } else {
        SafeLeavesAgree(survey, operand, createId, path + ".not", answers, s);
      }
    case Binary(op, left, right) =>
      if op.And? || op.Or? {
        SafeLeavesAgree(survey, left, createId, path + ".left", answers, s);
        SafeLeavesAgree(survey, right, createId, path + ".right", answers, s);
      } else {
        SafeComparisonAgrees(survey, node, createId, path, answers, s);
      }
  }

  lemma SafeEmptyCall(
    survey: CanonicalSurvey, node: Node, createId: string -> string, path: string, answers: Context, s: Situation)
    requires WellIdentified(survey) && AllLegible(survey, References(node), answers, s) && node.Call?
    requires ExpressionSafe(survey, node, answers, s.env.host)
    ensures LeafAgrees(node, ContextOf(survey, s.env.host, createId), path, answers, s)
  {
    hide WellIdentified, Legible, PresenceSafe;
    var reference := node.args[0];
    assert References(reference) == {reference.head} && References(reference) <= References(node);
    SafePresence(survey, reference.head, createId, path, answers, s);
    assert reference == Reference(reference.head, []) && Argument(node) == reference;
    assert Evaluate(node, answers, s.env.host)
        == Ok(Bool(reference.head !in answers || IsBlank(answers[reference.head])));
  }

  lemma SafeNegatedPresence(
    survey: CanonicalSurvey, operand: Node, createId: string -> string, path: string, answers: Context, s: Situation)
    requires WellIdentified(survey) && AllLegible(survey, References(operand), answers, s)
    requires operand.Reference? || IsEmptyCall(operand)
    requires ExpressionSafe(survey, operand, answers, s.env.host)
    ensures LeafAgrees(Unary(Not, operand), ContextOf(survey, s.env.host, createId), path, answers, s)
  {
    hide WellIdentified, Legible, AllLegible, ExpressionSafe, EvaluateCondition, CompilePresence;
    var node := Unary(Not, operand);
    var c := ContextOf(survey, s.env.host, createId);
    if operand.Reference? {
      SafeNegatedReference(survey, operand, createId, path, answers, s);
      assert CompileNode(node, c, path) == CompilePresence(operand, IsSkipped, c, path);
    } else {
      SafeNegatedCall(survey, operand, createId, path, answers, s);
      assert CompileNode(node, c, path) == CompilePresence(Argument(operand), IsSubmitted, c, path);
    }
  }

  lemma SafeNegatedReference(
    survey: CanonicalSurvey, operand: Node, createId: string -> string, path: string, answers: Context, s: Situation)
    requires WellIdentified(survey) && AllLegible(survey, References(operand), answers, s)
    requires operand.Reference? && ExpressionSafe(survey, operand, answers, s.env.host)
    ensures CompilePresence(operand, IsSkipped, ContextOf(survey, s.env.host, createId), path).Ok?
    ensures Evaluate(operand, answers, s.env.host).Ok? ==>
              Met(CompilePresence(operand, IsSkipped, ContextOf(survey, s.env.host, createId), path).value, s)
                == !Truthy(Evaluate(operand, answers, s.env.host).value)
  {
    hide WellIdentified, Legible, PresenceSafe, CompilePresence, EvaluateCondition;
    assert References(operand) == {operand.head};
    SafePresence(survey, operand.head, createId, path, answers, s);
    assert operand == Reference(operand.head, []);
    BlankIsNotTruthy(if operand.head in answers then answers[operand.head] else Null);
  }

  lemma SafeNegatedCall(
    survey: CanonicalSurvey, operand: Node, createId: string -> string, path: string, answers: Context, s: Situation)
    requires WellIdentified(survey) && AllLegible(survey, References(operand), answers, s)
    requires IsEmptyCall(operand) && ExpressionSafe(survey, operand, answers, s.env.host)
    ensures CompilePresence(Argument(operand), IsSubmitted, ContextOf(survey, s.env.host, createId), path).Ok?
    ensures Evaluate(operand, answers, s.env.host).Ok?
    ensures Met(CompilePresence(Argument(operand), IsSubmitted, ContextOf(survey, s.env.host, createId), path).value, s)
         == !Truthy(Evaluate(operand, answers, s.env.host).value)
  {
    hide WellIdentified, Legible, PresenceSafe, CompilePresence, EvaluateCondition;
    var reference := operand.args[0];
    assert References(reference) == {reference.head} && References(reference) <= References(operand);
    SafePresence(survey, reference.head, createId, path, answers, s);
    assert reference == Reference(reference.head, []) && Argument(operand) == reference;
    assert Evaluate(operand, answers, s.env.host)
        == Ok(Bool(reference.head !in answers || IsBlank(answers[reference.head])));
    BlankIsNotTruthy(if reference.head in answers then answers[reference.head] else Null);
  }

  lemma BlankIsNotTruthy(v: Value)
    ensures IsBlank(v) == !Truthy(v)
  {
  }

  ghost predicate PresenceMet(
    survey: CanonicalSurvey, name: string, operator: Operator, createId: string -> string, path: string, s: Situation)
  {
    var compiled := CompilePresence(Reference(name, []), operator, ContextOf(survey, s.env.host, createId), path);
    compiled.Ok? && Met(compiled.value, s)
  }

  /** A presence test that is safe for an answer agrees with the evaluator; without an answer both say skipped. */
  lemma SafePresence(
    survey: CanonicalSurvey, name: string, createId: string -> string, path: string, answers: Context, s: Situation)
    requires WellIdentified(survey) && AllLegible(survey, {name}, answers, s)
    requires PresenceLeafSafe(survey, name, answers)
    ensures PresenceMet(survey, name, IsSubmitted, createId, path, s)
         == (name in answers && Truthy(answers[name]))
    ensures PresenceMet(survey, name, IsSkipped, createId, path, s)
         == (name !in answers || IsBlank(answers[name]))
    ensures CompilePresence(Reference(name, []), IsSubmitted, ContextOf(survey, s.env.host, createId), path).Ok?
    ensures CompilePresence(Reference(name, []), IsSkipped, ContextOf(survey, s.env.host, createId), path).Ok?
  {
    var q := QuestionNamed(survey.questions, name).value;
    assert Legible(survey, q, answers, s);
    var target := Resolve(survey, s.env.host, name).value;
    assert target.operand == OperandOf(survey, q);
    assert ContextOf(survey, s.env.host, createId).resolve(name) == Ok(target);
    if name in answers {
      PresenceAgreesIff(survey, q, answers, s);
    } else {
      UnansweredPresence(survey, q, answers, s);
    }
  }

  lemma SafeComparisonAgrees(
    survey: CanonicalSurvey, node: Node, createId: string -> string, path: string, answers: Context, s: Situation)
    requires WellIdentified(survey) && AllLegible(survey, References(node), answers, s)
    requires node.Binary? && IsComparison(node.op) && ExpressionSafe(survey, node, answers, s.env.host)
    ensures LeafAgrees(node, ContextOf(survey, s.env.host, createId), path, answers, s)
  {
    hide WellIdentified, ConditionHolds, ResolvedOption, LeftValue, ComparisonSafe, Legible, CompileNode, AllLegible;
    ComparisonEvaluates(node, answers, s.env.host);
    var compiled := CompileNode(node, ContextOf(survey, s.env.host, createId), path);
    if ComparedName(node) in answers && compiled.Ok? {
      SafeChoiceIsEquality(survey, node, answers, s.env.host);
      AnsweredComparisonExactly(survey, node, createId, path, answers, s);
    }
  }

  lemma SafeChoiceIsEquality(survey: CanonicalSurvey, node: Node, answers: Context, host: Host)
    requires IsPlainComparison(node) && ExpressionSafe(survey, node, answers, host) && ComparedName(node) in answers
    ensures QuestionNamed(survey.questions, ComparedName(node)).Some?
    ensures HasChoices(QuestionNamed(survey.questions, ComparedName(node)).value.kind) ==> IsEquality(ComparedOp(node))
  {
    hide ResolvedOption;
  }

  // ----- Leaves about unanswered questions -----

  /** What the runtime decides about a safe leaf that does not evaluate: unanswered is skipped, unlike everything. */
  predicate TruthWithoutAnswer(leaf: Node) {
    leaf.Unary? || (leaf.Binary? && leaf.op.NotEqual?)
  }

  predicate LeafTruth(leaf: Node, answers: Context, host: Host) {
    var r := Evaluate(leaf, answers, host);
    if r.Ok? then Truthy(r.value) else TruthWithoutAnswer(leaf)
  }

  ghost predicate CompiledLeafIs(leaf: Node, c: RelevanceContext, path: string, s: Situation, truth: bool) {
    CompileNode(leaf, c, path).Ok? ==> Met(CompileNode(leaf, c, path).value, s) == truth
  }

  /** A comparison with an unanswered question is met exactly if it is a disequality. */
  lemma UnansweredComparison(
    survey: CanonicalSurvey, q: Question, op: BinaryOp, compared: Value, answers: Context, s: Situation)
    requires Legible(survey, q, answers, s) && q.externalId !in answers && IsComparison(op)
    ensures ComparisonMet(survey, q, op, compared, s) == op.NotEqual?
  {
    hide LeftValue, Recorded, ClearOptions;
    RecordedReadsBack(survey, q, answers, s);
  }

  lemma ComparisonTruth(
    survey: CanonicalSurvey, node: Node, createId: string -> string, path: string, answers: Context, s: Situation)
    requires WellIdentified(survey) && AllLegible(survey, References(node), answers, s)
    requires node.Binary? && IsComparison(node.op) && ExpressionSafe(survey, node, answers, s.env.host)
    ensures CompiledLeafIs(node, ContextOf(survey, s.env.host, createId), path, s, LeafTruth(node, answers, s.env.host))
  {
    hide WellIdentified, ConditionHolds, LeftValue, ResolvedOption, ComparisonSafe, Recorded, CompileNode,
      ComparisonMet;
    ComparisonEvaluates(node, answers, s.env.host);
    var q := QuestionNamed(survey.questions, ComparedName(node)).value;
    assert Legible(survey, q, answers, s);
    if CompileNode(node, ContextOf(survey, s.env.host, createId), path).Ok? {
      if ComparedName(node) in answers {
        SafeChoiceIsEquality(survey, node, answers, s.env.host);
        AnsweredComparisonExactly(survey, node, createId, path, answers, s);
      } else {
        ComparisonCompiles(survey, q, node, createId, path, s);
        var compared := ComparedWith(survey, q, ComparedLiteral(node), s.env.host).value;
        UnansweredComparison(survey, q, ComparedOp(node), compared, answers, s);
      }
    }
  }

  lemma ReferenceTruth(
    survey: CanonicalSurvey, node: Node, createId: string -> string, path: string, answers: Context, s: Situation)
    requires WellIdentified(survey) && AllLegible(survey, References(node), answers, s)
    requires node.Reference? && ExpressionSafe(survey, node, answers, s.env.host)
    ensures CompiledLeafIs(node, ContextOf(survey, s.env.host, createId), path, s, LeafTruth(node, answers, s.env.host))
    ensures CompiledLeafIs(Unary(Not, node), ContextOf(survey, s.env.host, createId), path, s,
                           LeafTruth(Unary(Not, node), answers, s.env.host))
  {
    hide WellIdentified, Legible, PresenceSafe, CompilePresence, EvaluateCondition;
    assert References(node) == {node.head};
    SafePresence(survey, node.head, createId, path, answers, s);
    assert node == Reference(node.head, []);
    BlankIsNotTruthy(if node.head in answers then answers[node.head] else Null);
    assert Evaluate(node, answers, s.env.host)
        == if node.head in answers then Ok(answers[node.head]) else Err(UnknownReference);
    var c := ContextOf(survey, s.env.host, createId);
    assert CompileNode(Unary(Not, node), c, path) == CompilePresence(node, IsSkipped, c, path);
  }

  lemma EmptyCallTruth(
    survey: CanonicalSurvey, node: Node, createId: string -> string, path: string, answers: Context, s: Situation)
    requires WellIdentified(survey) && AllLegible(survey, References(node), answers, s)
    requires IsEmptyCall(node) && ExpressionSafe(survey, node, answers, s.env.host)
    ensures CompiledLeafIs(node, ContextOf(survey, s.env.host, createId), path, s, LeafTruth(node, answers, s.env.host))
    ensures CompiledLeafIs(Unary(Not, node), ContextOf(survey, s.env.host, createId), path, s,
                           LeafTruth(Unary(Not, node), answers, s.env.host))
  {
    hide WellIdentified, Legible, PresenceSafe, CompilePresence, EvaluateCondition, ExpressionSafe, AllLegible;
    SafeEmptyCall(survey, node, createId, path, answers, s);
    SafeNegatedCall(survey, node, createId, path, answers, s);
    var c := ContextOf(survey, s.env.host, createId);
    assert CompileNode(Unary(Not, node), c, path) == CompilePresence(Argument(node), IsSubmitted, c, path);
  }
}
