/** Relevance compilation preserves truth, from the relevance text to the runtime's decision. */
module RelevancePreservation {
  import opened Wrappers
  import opened Expressions
  import opened Survey
  import opened Payload
  import opened Runtime
  import opened Compiler
  import opened RelevanceCompiler
  import opened SurveyReferences
  import opened LeafAgreement
  import opened Parser
  import opened RelevanceText
  import Ids
  import Words

  // ----- A text that tokenizes neither starts nor ends with a brace -----

  lemma {:induction false} RunPasses(s: string, test: char -> bool, i: nat)
    requires i < Run(s, test)
    ensures test(s[i])
  {
    if i > 0 {
      RunPasses(s[1..], test, i - 1);
    }
  }

  /** The last n characters of a text, for comparing what scanning leaves over. */
  ghost predicate EndsIn(s: string, rest: string) {
    |rest| <= |s| && s[|s| - |rest|..] == rest
  }

  lemma {:induction false} QuotedEndsInQuote(s: string, quote: char)
    requires LexQuoted(s, quote).Some?
    ensures EndsIn(s, LexQuoted(s, quote).value.1)
    ensures s[|s| - |LexQuoted(s, quote).value.1| - 1] == quote
    decreases |s|
  {
    if s[0] != quote {
      if s[0] == '\\' {
        QuotedEndsInQuote(s[2..], quote);
      } else {
        QuotedEndsInQuote(s[1..], quote);
      }
    }
  }

  lemma NumberLast(s: string)
    requires s != "" && StartsNumber(s)
    ensures NumberLength(s) == |s| ==> s[|s| - 1] != '}'
    ensures NumberLength(s) <= |s| && s[0] != '{'
  {
    var last, whole := |s| - 1, Run(s, IsDigit);
    if NumberLength(s) == |s| && whole == |s| {
      RunPasses(s, IsDigit, last);
    } else if NumberLength(s) == |s| && whole + 1 < |s| {
      RunPasses(s[whole + 1..], IsDigit, last - whole - 1);
    }
  }

  lemma QuotedLast(s: string)
    requires s != "" && (s[0] == '"' || s[0] == '\'') && LexQuoted(s[1..], s[0]).Some?
    ensures EndsIn(s, LexQuoted(s[1..], s[0]).value.1)
    ensures LexQuoted(s[1..], s[0]).value.1 == "" ==> s[|s| - 1] != '}'
  {
    QuotedEndsInQuote(s[1..], s[0]);
  }

  lemma IdentifierLast(s: string)
    requires s != "" && IsIdentifierStart(s[0])
    ensures Run(s[1..], IsIdentifierPart) == |s| - 1 ==> s[|s| - 1] != '}'
  {
    if Run(s[1..], IsIdentifierPart) == |s| - 1 && |s| > 1 {
      RunPasses(s[1..], IsIdentifierPart, |s| - 2);
    }
  }

  lemma PairLast(s: string)
    requires IsPair(s)
    ensures s[0] != '{' && s[1] != '}'
  {
    assert s[..2][0] == s[0] && s[..2][1] == s[1];
  }

  lemma SimpleLast(c: char)
    requires Simple(c).Some?
    ensures c != '{' && c != '}'
  {
  }

  lemma ScanLast(s: string)
    requires s != "" && !Scan(s).Bad?
    ensures EndsIn(s, Scan(s).rest)
    ensures Scan(s).rest == "" ==> s[|s| - 1] != '}'
    ensures s[0] != '{'
  {
    hide LexQuoted, NumberLength, Parser.NumberValue, StartsNumber, IsPair, Simple;
    if !IsSpace(s[0]) {
      if StartsNumber(s) {
        NumberLast(s);
      } else if s[0] == '"' || s[0] == '\'' {
        QuotedLast(s);
      } else if IsIdentifierStart(s[0]) {
        IdentifierLast(s);
      } else if IsPair(s) {
        PairIsLong(s);
        PairLast(s);
      } else {
        SimpleLast(s[0]);
      }
    }
  }

  lemma PairIsLong(s: string)
    requires IsPair(s)
    ensures |s| >= 2
  {
  }

  lemma LexRest(s: string)
    requires s != "" && Lex(s).Ok?
    ensures !Scan(s).Bad? && Lex(Scan(s).rest).Ok?
  {
  }

  lemma {:induction false} NoTrailingBrace(s: string)
    requires Lex(s).Ok? && s != ""
    ensures s[0] != '{' && s[|s| - 1] != '}'
    decreases |s|
  {
    LexRest(s);
    ScanLast(s);
    var rest := Scan(s).rest;
    if rest != "" {
      NoTrailingBrace(rest);
      assert s[|s| - 1] == s[|s| - |rest|..][|rest| - 1];
    }
  }

  /** Stripping braces changes nothing for a relevance text that parses. */
  lemma BracesDoNotMatter(relevance: string)
    requires ParseExpression(relevance).Ok?
    ensures ParseExpression(Trim(StripBraces(Trim(relevance)))) == ParseExpression(relevance)
  {
    TrimmingKeepsParse(relevance);
    EmptyTextDoesNotParse();
    NoTrailingBrace(Trim(relevance));
    TrimIdempotent(relevance);
  }

  // ----- Preservation -----

  /** No negation in the expression is one that the compiler drops. */
  predicate NegatesOnlyPresence(node: Node) {
    WithoutNegations(node) == node
  }

  /** The truth of an expression when leaves about unanswered questions are read as the runtime reads them. */
  predicate Tolerant(node: Node, answers: Context, host: Host) {
    match node
    case Binary(op, left, right) =>
      if op.And? then Tolerant(left, answers, host) && Tolerant(right, answers, host)
      else if op.Or? then Tolerant(left, answers, host) || Tolerant(right, answers, host)
      else LeafTruth(node, answers, host)
    case _ => LeafTruth(node, answers, host)
  }

  /** Where an expression evaluates, being tolerant changes nothing. */
  lemma {:induction false} EvaluatedIsTolerant(node: Node, answers: Context, host: Host)
    requires Evaluate(node, answers, host).Ok?
    ensures Tolerant(node, answers, host) == Truthy(Evaluate(node, answers, host).value)
  {
    match node
    case Binary(op, left, right) =>
      if op.And? || op.Or? {
        EvaluatedIsTolerant(left, answers, host);
        if Evaluate(right, answers, host).Ok? { EvaluatedIsTolerant(right, answers, host); }
      }
    case _ =>
  }

  /** Compiled conditions are met exactly when their expression is true in the tolerant reading. */
  lemma {:induction false} CompiledIsTolerant(
    survey: CanonicalSurvey, node: Node, createId: string -> string, path: string, answers: Context, s: Situation)
    requires WellIdentified(survey) && AllLegible(survey, References(node), answers, s)
    requires ExpressionSafe(survey, node, answers, s.env.host) && NegatesOnlyPresence(node)
    ensures CompiledLeafIs(node, ContextOf(survey, s.env.host, createId), path, s, Tolerant(node, answers, s.env.host))
  {
    hide WellIdentified, Legible, LeafTruth, ComparisonSafe, EvaluateCondition, Resolve;
    var c := ContextOf(survey, s.env.host, createId);
    match node
    case Reference(_, _) => ReferenceTruth(survey, node, createId, path, answers, s);
    case Call(_, _) => EmptyCallTruth(survey, node, createId, path, answers, s);
    case Unary(_, operand) =>
      if operand.Reference? {
        ReferenceTruth(survey, operand, createId, path, answers, s);
      } else {
        NegatedPresence(node);
        EmptyCallTruth(survey, operand, createId, path, answers, s);
      }
    case Binary(op, left, right) =>
      if op.And? || op.Or? {
        CompiledIsTolerant(survey, left, createId, path + ".left", answers, s);
        CompiledIsTolerant(survey, right, createId, path + ".right", answers, s);
        if CompileNode(node, c, path).Ok? {
          PairMet(c.createId(path + ".group"), if op.And? then AllOf else AnyOf,
                  CompileNode(left, c, path + ".left").value, CompileNode(right, c, path + ".right").value, s);
        }
      } else {
        ComparisonTruth(survey, node, createId, path, answers, s);
      }
  }

  /** A negation that is kept negates a reference or an emptiness test. */
  lemma NegatedPresence(node: Node)
    requires node.Unary? && node.uop.Not? && NegatesOnlyPresence(node) && !node.operand.Reference?
    ensures IsEmptyCall(node.operand)
  {
    if !IsEmptyCall(node.operand) {
      NegationsShrink(node.operand);
    }
  }

  lemma {:induction false} NegationsShrink(node: Node)
    ensures WithoutNegations(node) != Unary(Not, node)
    ensures NodeSize(WithoutNegations(node)) <= NodeSize(node)
  {
    match node
    case Unary(_, operand) => NegationsShrink(operand);
    case Binary(_, left, right) =>
      NegationsShrink(left);
      NegationsShrink(right);
    case _ =>
  }

  ghost function NodeSize(node: Node): nat {
    match node
    case Unary(_, operand) => 1 + NodeSize(operand)
    case Binary(_, left, right) => 1 + NodeSize(left) + NodeSize(right)
    case _ => 1
  }

  /**
   * What a caller can check about the answers for a relevance text to be decided as written: its leaves are
   * safe, no negation is dropped, and reading unanswered questions as the runtime does changes nothing.
   */
  predicate Faithful(survey: CanonicalSurvey, relevance: string, answers: Context, host: Host) {
    match ParseExpression(relevance)
    case Err(_) => false
    case Ok(node) =>
      NegatesOnlyPresence(node) && ExpressionSafe(survey, node, answers, host)
      && Tolerant(node, answers, host) == Holds(relevance, answers, host)
  }

  /** For safe leaves without dropped negations, compiled conditions are met exactly as the text holds, iff faithful. */
  lemma RelevanceIsPreserved(
    survey: CanonicalSurvey, relevance: string, createId: string -> string, answers: Context, s: Situation)
    requires WellIdentified(survey) && ParseExpression(relevance).Ok?
    requires NegatesOnlyPresence(ParseExpression(relevance).value)
    requires ExpressionSafe(survey, ParseExpression(relevance).value, answers, s.env.host)
    requires AllLegible(survey, References(ParseExpression(relevance).value), answers, s)
    requires CompileRelevance(relevance, ContextOf(survey, s.env.host, createId)).Ok?
    ensures Met(CompileRelevance(relevance, ContextOf(survey, s.env.host, createId)).value, s)
              == Holds(relevance, answers, s.env.host)
       <==> Faithful(survey, relevance, answers, s.env.host)
  {
    hide WellIdentified, AllLegible, ExpressionSafe, Tolerant, EvaluateCondition, CompileNode, NegatesOnlyPresence;
    var c := ContextOf(survey, s.env.host, createId);
    var node := ParseExpression(relevance).value;
    BracesDoNotMatter(relevance);
    CompiledIsTolerant(survey, node, createId, "root", answers, s);
    SingletonMet(c.createId("root.group"), CompileNode(node, c, "root").value, s);
  }

  /** A text that evaluates on the answers is faithful when its leaves are safe and no negation is dropped. */
  lemma EvaluatedIsFaithful(survey: CanonicalSurvey, relevance: string, answers: Context, host: Host)
    requires ParseExpression(relevance).Ok? && NegatesOnlyPresence(ParseExpression(relevance).value)
    requires ExpressionSafe(survey, ParseExpression(relevance).value, answers, host)
    requires Evaluate(ParseExpression(relevance).value, answers, host).Ok?
    ensures Faithful(survey, relevance, answers, host)
  {
    hide ExpressionSafe, Tolerant, Evaluate, NegatesOnlyPresence;
    EvaluatedIsTolerant(ParseExpression(relevance).value, answers, host);
  }

  // ----- On single leaves, faithfulness is needed as well -----

  predicate IsPresenceTest(node: Node) {
    PlainReference(node) || (IsEmptyCall(node) && |node.args| == 1 && PlainReference(node.args[0]))
  }

  /** A presence test, its negation, or a comparison that uses only = and != on choice questions. */
  predicate IsLeaf(survey: CanonicalSurvey, node: Node) {
    IsPresenceTest(node)
    || (node.Unary? && node.uop.Not? && IsPresenceTest(node.operand))
    || (IsPlainComparison(node) &&
        var q := QuestionNamed(survey.questions, ComparedName(node));
        q.Some? && HasChoices(q.value.kind) ==> IsEquality(ComparedOp(node)))
  }

  lemma LeavesKeepNegations(survey: CanonicalSurvey, node: Node)
    requires IsLeaf(survey, node)
    ensures NegatesOnlyPresence(node)
  {
  }

  /** What a presence test reads. */
  function TestedName(node: Node): string
    requires IsPresenceTest(node)
  {
    if node.Reference? then node.head else node.args[0].head
  }

  /** A presence test on an answer that is not safe for it is decided the wrong way round. */
  lemma UnsafePresenceIsWrong(
    survey: CanonicalSurvey, node: Node, createId: string -> string, path: string, answers: Context, s: Situation)
    requires WellIdentified(survey) && AllLegible(survey, References(node), answers, s) && IsPresenceTest(node)
    requires QuestionNamed(survey.questions, TestedName(node)).Some?
    requires !ExpressionSafe(survey, node, answers, s.env.host)
    ensures var c := ContextOf(survey, s.env.host, createId);
            !CompiledLeafIs(node, c, path, s, EvaluatesTruthily(node, answers, s.env.host)) &&
            !CompiledLeafIs(Unary(Not, node), c, path, s, EvaluatesTruthily(Unary(Not, node), answers, s.env.host))
  {
    hide WellIdentified, PresenceSafe, ConditionHolds, LeftValue, Recorded, Legible, CompilePresence, Met;
    var name := TestedName(node);
    var a := Reference(name, []);
    assert node.Reference? ==> node == a;
    assert node.Call? ==> node.args[0] == a && References(a) <= References(node);
    assert name in References(node) by { assert References(a) == {name}; }
    UnsafeAnswerIsMisread(survey, name, createId, path, answers, s);
    BlankIsNotTruthy(answers[name]);
    assert Evaluate(a, answers, s.env.host) == Ok(answers[name]);
    var c := ContextOf(survey, s.env.host, createId);
    if node.Reference? {
      assert CompileNode(Unary(Not, node), c, path) == CompilePresence(a, IsSkipped, c, path);
    } else {
      assert Argument(node) == a;
      assert CompileNode(Unary(Not, node), c, path) == CompilePresence(a, IsSubmitted, c, path);
    }
  }

  /** Submitted and skipped are both the opposite of what the evaluator says of an unsafe answer. */
  lemma UnsafeAnswerIsMisread(
    survey: CanonicalSurvey, name: string, createId: string -> string, path: string, answers: Context, s: Situation)
    requires WellIdentified(survey) && AllLegible(survey, {name}, answers, s)
    requires QuestionNamed(survey.questions, name).Some? && !PresenceLeafSafe(survey, name, answers)
    ensures name in answers
    ensures forall operator | operator in [IsSubmitted, IsSkipped] ::
              CompilePresence(Reference(name, []), operator, ContextOf(survey, s.env.host, createId), path).Ok?
    ensures PresenceMet(survey, name, IsSubmitted, createId, path, s) != Truthy(answers[name])
    ensures PresenceMet(survey, name, IsSkipped, createId, path, s) != IsBlank(answers[name])
  {
    hide WellIdentified, PresenceSafe, ConditionHolds, LeftValue, Recorded;
    var q := QuestionNamed(survey.questions, name).value;
    assert Legible(survey, q, answers, s);
    PresenceAgreesIff(survey, q, answers, s);
  }

  lemma UnsafeLeafIsWrong(
    survey: CanonicalSurvey, node: Node, createId: string -> string, path: string, answers: Context, s: Situation)
    requires WellIdentified(survey) && AllLegible(survey, References(node), answers, s) && IsLeaf(survey, node)
    requires CompileNode(node, ContextOf(survey, s.env.host, createId), path).Ok?
    requires !ExpressionSafe(survey, node, answers, s.env.host)
    ensures Met(CompileNode(node, ContextOf(survey, s.env.host, createId), path).value, s)
         != EvaluatesTruthily(node, answers, s.env.host)
  {
    hide WellIdentified, Legible, Met, EvaluatesTruthily, AnswerComparisonSafe, ResolvedOption, PresenceSafe;
    if IsPresenceTest(node) {
      UnsafePresenceIsWrong(survey, node, createId, path, answers, s);
    } else if node.Unary? {
      UnsafePresenceIsWrong(survey, node.operand, createId, path, answers, s);
    } else {
      ComparisonEvaluates(node, answers, s.env.host);
      AnsweredComparisonExactly(survey, node, createId, path, answers, s);
    }
  }

  /**
   * For a text that is a single leaf nothing less than faithfulness will do: its compiled conditions are met
   * exactly as it holds if and only if it is faithful to the answers.
   */
  lemma LeafIsPreservedExactly(
    survey: CanonicalSurvey, relevance: string, createId: string -> string, answers: Context, s: Situation)
    requires WellIdentified(survey) && ParseExpression(relevance).Ok?
    requires IsLeaf(survey, ParseExpression(relevance).value)
    requires AllLegible(survey, References(ParseExpression(relevance).value), answers, s)
    requires CompileRelevance(relevance, ContextOf(survey, s.env.host, createId)).Ok?
    ensures Met(CompileRelevance(relevance, ContextOf(survey, s.env.host, createId)).value, s)
              == Holds(relevance, answers, s.env.host)
       <==> Faithful(survey, relevance, answers, s.env.host)
  {
    hide WellIdentified, AllLegible, ExpressionSafe, Tolerant, EvaluateCondition, CompileNode, NegatesOnlyPresence,
      IsLeaf;
    var c := ContextOf(survey, s.env.host, createId);
    var node := ParseExpression(relevance).value;
    LeavesKeepNegations(survey, node);
    if ExpressionSafe(survey, node, answers, s.env.host) {
      RelevanceIsPreserved(survey, relevance, createId, answers, s);
    } else {
      BracesDoNotMatter(relevance);
      SingletonMet(c.createId("root.group"), CompileNode(node, c, "root").value, s);
      UnsafeLeafIsWrong(survey, node, createId, "root", answers, s);
    }
  }

  /**
   * For safe leaves, a compiled text decides what it says exactly when its expression and the one without
   * the dropped negations have the same truth value.
   */
  lemma PreservedIffNegationsHarmless(
    survey: CanonicalSurvey, relevance: string, createId: string -> string, answers: Context, s: Situation)
    requires WellIdentified(survey) && ParseExpression(relevance).Ok?
    requires AllLegible(survey, References(ParseExpression(relevance).value), answers, s)
    requires ExpressionSafe(survey, ParseExpression(relevance).value, answers, s.env.host)
    requires Evaluate(ParseExpression(relevance).value, answers, s.env.host).Ok?
    requires Evaluate(WithoutNegations(ParseExpression(relevance).value), answers, s.env.host).Ok?
    requires CompileRelevance(relevance, ContextOf(survey, s.env.host, createId)).Ok?
    ensures Met(CompileRelevance(relevance, ContextOf(survey, s.env.host, createId)).value, s)
              == Holds(relevance, answers, s.env.host)
       <==> Truthy(Evaluate(WithoutNegations(ParseExpression(relevance).value), answers, s.env.host).value)
              == Truthy(Evaluate(ParseExpression(relevance).value, answers, s.env.host).value)
  {
    var c := ContextOf(survey, s.env.host, createId);
    var node := ParseExpression(relevance).value;
    BracesDoNotMatter(relevance);
    SafeLeavesAgree(survey, node, createId, "root", answers, s);
    CompiledMeaning(node, c, "root", answers, s);
    SingletonMet(c.createId("root.group"), CompileNode(node, c, "root").value, s);
  }

  /** The NAOK policy part compiles, but evaluating it always fails: no canonical value has such a property. */
  lemma NaokNeverEvaluates(name: string, policy: string, answers: Context, host: Host)
    requires Upper(policy) == "NAOK"
    ensures ReferenceName(Reference(name, [policy])) == Ok(Some(name))
    ensures Evaluate(Reference(name, [policy]), answers, host) == Err(UnknownReference)
  {
    assert Upper(policy)[0] == 'N' && policy != "length" by { assert Upper("length")[0] == 'L'; }
    if name in answers && answers[name].Strs? {
      NoIndexNamed(policy, |answers[name].items|);
    }
  }

  lemma {:induction false} NoIndexNamed(part: string, n: nat)
    requires part != "" && !('0' <= part[0] <= '9')
    ensures IndexNamed(part, n) == None
  {
    if n > 0 {
      assert Words.Numeral(n - 1)[0] in Words.Numeral(n - 1);
      NoIndexNamed(part, n - 1);
    }
  }

  /**
   * An undeclared choice value is compiled all the same: with no matching option it stands for the first
   * one, and the condition is met by an answer the expression rejects.
   */
  lemma UndeclaredChoiceStandsForFirst(survey: string, q: Question, literal: Value, host: Host)
    requires q.options != []
    requires FirstMatch(q.options, literal, Trim(TextOf(literal, host))) == None
    requires host.parseNumber(Trim(TextOf(literal, host))) == None
    requires q.kind.SingleChoice?
    requires OptionWithValue(q.options, q.options[0].value) == Some(q.options[0])
    ensures ResolveChoice(survey, q, literal, host)
         == Ok(Ids.OptionId(survey, q.externalId, q.options[0].externalId))
    ensures q.options[0].value != literal
    ensures !ComparisonSafe(q, Equal, literal, q.options[0].value, host)
  {
    assert !Matches(q.options[0], literal, Trim(TextOf(literal, host)));
  }
}
