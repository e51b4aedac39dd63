/** How relevance names resolve against a survey, and when compiled leaves read answers faithfully. */
module SurveyReferences {
  import opened Wrappers
  import opened Expressions
  import opened Survey
  import opened Payload
  import opened Runtime
  import opened Compiler
  import opened RelevanceCompiler
  import Ids
  import RelevanceText
  import Sorting

  // ----- Resolution -----

  predicate EndsWith(s: string, suffix: string) {
    |suffix| <= |s| && s[|s| - |suffix|..] == suffix
  }

  predicate Matches(item: Item, value: Value, text: string) {
    item.value == value || item.value == Str(text) || item.externalId == text
    || EndsWith(item.externalId, "_" + text)
    || exists i :: 0 <= i < |item.texts| && RelevanceText.Trim(item.texts[i].1) == text
  }

  function FirstMatch(items: seq<Item>, value: Value, text: string): (r: Option<Item>)
    ensures r.Some? ==> r.value in items && Matches(r.value, value, text)
  {
    if items == [] then None
    else if Matches(items[0], value, text) then Some(items[0])
    else FirstMatch(items[1..], value, text)
  }

  /** The option a compared value stands for: a match, else a one-based index, else the first option. */
  function ResolvedOption(options: seq<Item>, value: Value, host: Host): (r: Option<Item>)
    ensures r.Some? ==> r.value in options
  {
    var text := RelevanceText.Trim(TextOf(value, host));
    var matched := FirstMatch(options, value, text);
    var index := host.parseNumber(text);
    if matched.Some? then matched
    else if index.Some? && index.value == index.value.Floor as real && 1 <= index.value.Floor <= |options| then
      Some(options[index.value.Floor - 1])
    else if options != [] then Some(options[0])
    else None
  }

  /** The four ways to match: by value, by ID, by an ID that ends in "_" and the text, and by a label. */
  lemma MatchesExactly(item: Item, value: Value, text: string)
    ensures Matches(item, value, text)
       <==> item.value == value || item.value == Str(text) || item.externalId == text
            || (exists prefix :: item.externalId == prefix + "_" + text)
            || exists shown :: shown in item.texts && RelevanceText.Trim(shown.1) == text
  {
    hide RelevanceText.Trim;
    var id := item.externalId;
    if EndsWith(id, "_" + text) {
      var prefix := id[..|id| - |text| - 1];
      assert id == prefix + ("_" + text) && prefix + ("_" + text) == prefix + "_" + text;
    }
    if prefix :| id == prefix + "_" + text {
      assert id[|prefix|..] == "_" + text;
    }
    if shown :| shown in item.texts && RelevanceText.Trim(shown.1) == text {
      var i :| 0 <= i < |item.texts| && item.texts[i] == shown;
    }
  }

  /** The match is the first option that matches, and there is one whenever some option does. */
  lemma {:induction false} FirstMatchIsFirst(items: seq<Item>, value: Value, text: string)
    ensures FirstMatch(items, value, text).None? <==> forall i :: 0 <= i < |items| ==> !Matches(items[i], value, text)
    ensures forall k :: (0 <= k < |items| && Matches(items[k], value, text)
                         && (forall i :: 0 <= i < k ==> !Matches(items[i], value, text))) ==>
              FirstMatch(items, value, text) == Some(items[k])
  {
    hide Matches;
    if items != [] && !Matches(items[0], value, text) {
      FirstMatchIsFirst(items[1..], value, text);
      assert forall i :: 0 <= i < |items| - 1 ==> items[1..][i] == items[i + 1];
      forall k | 0 <= k < |items| && Matches(items[k], value, text)
                 && (forall i :: 0 <= i < k ==> !Matches(items[i], value, text))
        ensures FirstMatch(items, value, text) == Some(items[k])
      {
        assert items[1..][k - 1] == items[k];
      }
    }
  }

  predicate SpellsIndex(options: seq<Item>, text: string, host: Host, n: int) {
    1 <= n <= |options| && host.parseNumber(text) == Some(n as real)
  }

  /**
   * A compared value stands for the first option it matches; without one, for the option at the one-based
   * index it spells; without that, for the first option. It stands for nothing only without options.
   */
  lemma ResolutionOrder(options: seq<Item>, value: Value, host: Host)
    ensures ResolvedOption(options, value, host).None? <==> options == []
    ensures var text, r := RelevanceText.Trim(TextOf(value, host)), ResolvedOption(options, value, host);
            (forall k :: (0 <= k < |options| && Matches(options[k], value, text)
                          && (forall i :: 0 <= i < k ==> !Matches(options[i], value, text))) ==>
               r == Some(options[k])) &&
            ((forall i :: 0 <= i < |options| ==> !Matches(options[i], value, text)) ==>
               (forall n :: SpellsIndex(options, text, host, n) ==> r == Some(options[n - 1])) &&
               ((forall n :: !SpellsIndex(options, text, host, n)) && options != [] ==> r == Some(options[0])))
  {
    hide Matches;
    var text := RelevanceText.Trim(TextOf(value, host));
    FirstMatchIsFirst(options, value, text);
    var index := host.parseNumber(text);
    if index.Some? {
      assert SpellsIndex(options, text, host, index.value.Floor)
        <==> index.value == index.value.Floor as real && 1 <= index.value.Floor <= |options|;
    }
  }

  function ResolveChoice(survey: string, q: Question, value: Value, host: Host): Result<string, CompileError> {
    var option := ResolvedOption(q.options, value, host);
    if option.None? then Err(UndefinedChoice) else Ok(Ids.OptionId(survey, q.externalId, option.value.externalId))
  }

  function Resolve(survey: CanonicalSurvey, host: Host, name: string): Result<ReferenceTarget, CompileError> {
    match QuestionNamed(survey.questions, name)
    case None => Err(UnknownQuestion)
    case Some(q) =>
      var s := survey.externalId;
      if q.kind.Equation? then
        Ok(ReferenceTarget(VariableOperand(Ids.EquationVariableId(s, q.externalId)), NumberValue, None))
      else if HasChoices(q.kind) then
        Ok(ReferenceTarget(ElementOperand(Ids.QuestionId(s, q.externalId)), ChoiceValue,
                           Some((v: Value) => ResolveChoice(s, q, v, host))))
      else
        Ok(ReferenceTarget(ElementOperand(Ids.QuestionId(s, q.externalId)),
                           if q.kind.Numeric? || q.kind.Rating? then NumberValue else TextValue, None))
  }

  function ContextOf(survey: CanonicalSurvey, host: Host, createId: string -> string): RelevanceContext {
    RelevanceContext(name => Resolve(survey, host, name), createId)
  }

  // ----- Answers and what the runtime records for them -----

  function ShownText(item: Item, defaultLanguage: string, language: string): string {
    LocalizedValue(CompiledText(item.texts, defaultLanguage), language)
  }

  function OptionWithValue(options: seq<Item>, value: Value): (r: Option<Item>)
    ensures r.Some? ==> r.value in options && r.value.value == value
    ensures r.None? ==> forall o :: o in options ==> o.value != value
  {
    if options == [] then None
    else if options[0].value == value then Some(options[0])
    else OptionWithValue(options[1..], value)
  }

  /** The canonical answers a question of each kind can have; matrix answers are records and left out. */
  predicate Fits(q: Question, answer: Value) {
    match q.kind
    case OpenText => if q.numberInput then answer.Num? else answer.Str?
    case Numeric => answer.Num?
    case Rating => answer.Num?
    case SingleChoice => OptionWithValue(q.options, answer).Some?
    case MultipleChoice =>
      answer.Strs? && forall i :: 0 <= i < |answer.items| ==> OptionWithValue(q.options, Str(answer.items[i])).Some?
    case Ranking => answer.Strs?
    case Display => answer.Str?
    case _ => false
  }

  function ShownAnswer(q: Question, value: Value, defaultLanguage: string, language: string): string {
    var option := OptionWithValue(q.options, value);
    if option.Some? then ShownText(option.value, defaultLanguage, language) else ""
  }

  /** The response the runtime stores: choices by the text shown, everything else as it is. */
  function StoredResponse(q: Question, answer: Value, defaultLanguage: string, language: string): Value
    requires Fits(q, answer)
  {
    if q.kind.SingleChoice? then Str(ShownAnswer(q, answer, defaultLanguage, language))
    else if q.kind.MultipleChoice? then
      Strs(seq(|answer.items|, i requires 0 <= i < |answer.items| =>
        ShownAnswer(q, Str(answer.items[i]), defaultLanguage, language)))
    else answer
  }

  /** The options' values and shown texts tell them apart. */
  ghost predicate ClearOptions(q: Question, defaultLanguage: string, language: string) {
    (forall a, b :: a in q.options && b in q.options && a.value == b.value ==> a == b) &&
    (forall a, b ::
       (a in q.options && b in q.options
        && ShownText(a, defaultLanguage, language) == ShownText(b, defaultLanguage, language)) ==> a == b) &&
    (forall a, b :: a in q.options && b in q.options && a.externalId == b.externalId ==> a == b)
  }

  function CompiledChoices(survey: CanonicalSurvey, q: Question): seq<Choice> {
    var choices := SourceChoices(q.options, survey.defaultLanguage);
    seq(|choices|, i requires 0 <= i < |choices| =>
      choices[i].(id := Ids.OptionId(survey.externalId, q.externalId, choices[i].id)))
  }

  /** The runtime's element for a question, as far as conditions can see it. */
  ghost predicate IsElementOf(survey: CanonicalSurvey, q: Question, element: Element) {
    SourceElement(q, survey.defaultLanguage).Ok? &&
    element.kind == SourceElement(q, survey.defaultLanguage).value.kind &&
    (HasChoices(q.kind) ==> element.choices == CompiledChoices(survey, q))
  }

  /** The runtime holds this question's compiled element and exactly the recorded form of its answer. */
  ghost predicate Recorded(survey: CanonicalSurvey, q: Question, answers: Context, s: Situation) {
    var id := Ids.QuestionId(survey.externalId, q.externalId);
    var element := ElementWithId(s.env.elements, id);
    element.Some? && IsElementOf(survey, q, element.value) &&
    (q.externalId in answers <==> id in s.responses) &&
    (q.externalId in answers ==> (
       Fits(q, answers[q.externalId]) &&
       s.responses[id] == StoredResponse(q, answers[q.externalId], survey.defaultLanguage, s.env.language)))
  }

  ghost predicate WellIdentified(survey: CanonicalSurvey) {
    Ids.Encodable(survey.externalId) &&
    (forall q :: q in survey.questions ==> Ids.Encodable(q.externalId)) &&
    (forall q, o :: q in survey.questions && o in q.options ==> Ids.Encodable(o.externalId))
  }

  // ----- What the runtime reads back -----

  lemma {:induction false} ChoiceShownFinds(
    survey: CanonicalSurvey, q: Question, items: seq<Item>, o: Item, language: string)
    requires ClearOptions(q, survey.defaultLanguage, language)
    requires (forall i :: i in items ==> i in q.options) && o in items
    ensures ChoiceShown(Renamed(survey, q, items), ShownText(o, survey.defaultLanguage, language), language)
         == Some(RenamedChoice(survey, q, o))
  {
    hide Ids.OptionId, CompiledText, LocalizedValue;
    var choices := Renamed(survey, q, items);
    if items[0] != o {
      ChoiceShownFinds(survey, q, items[1..], o, language);
      assert choices[1..] == Renamed(survey, q, items[1..]);
    }
  }

  ghost function RenamedChoice(survey: CanonicalSurvey, q: Question, o: Item): Choice {
    Choice(Ids.OptionId(survey.externalId, q.externalId, o.externalId), CompiledText(o.texts, survey.defaultLanguage))
  }

  ghost function Renamed(survey: CanonicalSurvey, q: Question, items: seq<Item>): seq<Choice> {
    seq(|items|, i requires 0 <= i < |items| => RenamedChoice(survey, q, items[i]))
  }

  /** A recorded option text is read back as that option's compiled ID. */
  lemma ShownOptionReadsBack(survey: CanonicalSurvey, q: Question, value: Value, language: string)
    requires ClearOptions(q, survey.defaultLanguage, language)
    requires OptionWithValue(q.options, value).Some?
    ensures ChoiceShown(CompiledChoices(survey, q), ShownAnswer(q, value, survey.defaultLanguage, language), language)
         == Some(RenamedChoice(survey, q, OptionWithValue(q.options, value).value))
  {
    var items := Sorting.Sort(q.options, ItemOrder);
    Sorting.SortMembers(q.options, ItemOrder);
    assert CompiledChoices(survey, q) == Renamed(survey, q, items);
    ChoiceShownFinds(survey, q, items, OptionWithValue(q.options, value).value, language);
  }

  /** The compiled ID of the option an answer value names. */
  function AnswerId(survey: CanonicalSurvey, q: Question, value: Value): string
    requires OptionWithValue(q.options, value).Some?
  {
    Ids.OptionId(survey.externalId, q.externalId, OptionWithValue(q.options, value).value.externalId)
  }

  lemma AnswerIdsDiffer(survey: CanonicalSurvey, q: Question, value: Value, o: Item)
    requires WellIdentified(survey) && q in survey.questions && o in q.options
    requires OptionWithValue(q.options, value).Some?
    requires forall a, b :: a in q.options && b in q.options && a.externalId == b.externalId ==> a == b
    ensures AnswerId(survey, q, value) == Ids.OptionId(survey.externalId, q.externalId, o.externalId)
       <==> OptionWithValue(q.options, value).value == o
  {
    var p := OptionWithValue(q.options, value).value;
    var s, x := survey.externalId, q.externalId;
    if AnswerId(survey, q, value) == Ids.OptionId(s, x, o.externalId) {
      Ids.CompiledIdsDecodeUniquely(Ids.ChoiceOption(s, x, p.externalId), Ids.ChoiceOption(s, x, o.externalId));
    }
  }

  /** Every selected value names an option, and the texts are the ones shown for them. */
  ghost predicate ShownSelection(
    survey: CanonicalSurvey, q: Question, values: seq<string>, shown: seq<string>, language: string)
  {
    |shown| == |values| &&
    (forall i :: 0 <= i < |values| ==> OptionWithValue(q.options, Str(values[i])).Some?) &&
    (forall i :: 0 <= i < |values| ==>
       shown[i] == ShownAnswer(q, Str(values[i]), survey.defaultLanguage, language))
  }

  function AnswerIds(survey: CanonicalSurvey, q: Question, values: seq<string>): seq<string>
    requires forall i :: 0 <= i < |values| ==> OptionWithValue(q.options, Str(values[i])).Some?
  {
    seq(|values|, i requires 0 <= i < |values| => AnswerId(survey, q, Str(values[i])))
  }

  lemma {:induction false} ChoiceIdsAreDistinct(
    shown: seq<string>, ids: seq<string>, choices: seq<Choice>, language: string)
    requires |shown| == |ids|
    requires forall i :: 0 <= i < |ids| ==> ChoiceShown(choices, shown[i], language).Some?
    requires forall i :: 0 <= i < |ids| ==> ChoiceShown(choices, shown[i], language).value.id == ids[i]
    ensures ChoiceIds(shown, choices, language) == Distinct(ids)
  {
    if ids != [] {
      ChoiceIdsAreDistinct(shown[..|ids| - 1], ids[..|ids| - 1], choices, language);
    }
  }

  /** Selected options are read back as their IDs, each once. */
  lemma SelectionReadsBack(
    survey: CanonicalSurvey, q: Question, values: seq<string>, shown: seq<string>, language: string)
    requires ClearOptions(q, survey.defaultLanguage, language)
    requires ShownSelection(survey, q, values, shown, language)
    ensures ChoiceIds(shown, CompiledChoices(survey, q), language) == Distinct(AnswerIds(survey, q, values))
  {
    var choices := CompiledChoices(survey, q);
    var ids := AnswerIds(survey, q, values);
    forall i | 0 <= i < |ids|
      ensures ChoiceShown(choices, shown[i], language).Some?
      ensures ChoiceShown(choices, shown[i], language).value.id == ids[i]
    {
      ShownOptionReadsBack(survey, q, Str(values[i]), language);
    }
    ChoiceIdsAreDistinct(shown, ids, choices, language);
  }

  lemma {:induction false} DistinctSingle(xs: seq<string>, x: string)
    ensures Distinct(xs) == [] <==> xs == []
    ensures Distinct(xs) == [x] <==> xs != [] && forall i :: 0 <= i < |xs| ==> xs[i] == x
  {
    if xs != [] {
      var start, last := xs[..|xs| - 1], xs[|xs| - 1];
      var front := Distinct(start);
      DistinctSingle(start, x);
      assert (forall i :: 0 <= i < |xs| ==> xs[i] == x)
        <==> last == x && forall i :: 0 <= i < |start| ==> start[i] == x;
      if last in front {
        assert Distinct(xs) == front;
        assert front == [x] ==> last == x;
      } else {
        assert Distinct(xs) == front + [last];
        assert front == [] ==> Distinct(xs) == [last];
        assert front != [] ==> |Distinct(xs)| >= 2;
        assert start != [] && (forall i :: 0 <= i < |start| ==> start[i] == x) ==> x in front;
      }
    }
  }

  /** What the runtime reads for an answered question. */
  function ReadBack(survey: CanonicalSurvey, q: Question, answer: Value, s: Situation): Value
    requires Fits(q, answer)
  {
    if q.kind.SingleChoice? then Str(AnswerId(survey, q, answer))
    else if q.kind.MultipleChoice? then
      var shown := StoredResponse(q, answer, survey.defaultLanguage, s.env.language).items;
      Strs(ChoiceIds(shown, CompiledChoices(survey, q), s.env.language))
    else answer
  }

  function OperandOf(survey: CanonicalSurvey, q: Question): Operand {
    ElementOperand(Ids.QuestionId(survey.externalId, q.externalId))
  }

  lemma RecordedReadsBack(survey: CanonicalSurvey, q: Question, answers: Context, s: Situation)
    requires Recorded(survey, q, answers, s) && ClearOptions(q, survey.defaultLanguage, s.env.language)
    ensures LeftValue(OperandOf(survey, q), s.responses, s.vars, s.env)
         == if q.externalId in answers then Some(ReadBack(survey, q, answers[q.externalId], s)) else None
    ensures IsNumericOperand(OperandOf(survey, q), s.env) ==> q.kind.OpenText? || q.kind.Numeric?
    ensures IsNumericOperand(OperandOf(survey, q), s.env) && q.externalId in answers ==> answers[q.externalId].Num?
  {
    if q.externalId in answers && q.kind.SingleChoice? {
      ShownOptionReadsBack(survey, q, answers[q.externalId], s.env.language);
    }
  }

  // ----- Which relevance compiles -----

  /** A reference to a question of the survey, by its name alone or under the NAOK policy. */
  predicate NamesQuestion(survey: CanonicalSurvey, node: Node) {
    node.Reference? && QuestionNamed(survey.questions, node.head).Some?
    && (node.tail == [] || (|node.tail| == 1 && Upper(node.tail[0]) == "NAOK"))
  }

  predicate IsTextOrNumber(node: Node) {
    node.Literal? && (node.value.Str? || node.value.Num?)
  }

  /** A question that a literal can be compared with: not a choice question without options. */
  predicate CanBeCompared(survey: CanonicalSurvey, node: Node) {
    NamesQuestion(survey, node) &&
    var q := QuestionNamed(survey.questions, node.head).value;
    HasChoices(q.kind) ==> q.options != []
  }

  /** The expressions that relevance may be: presence tests, comparisons with a literal, and, or, not. */
  predicate IsCompilable(survey: CanonicalSurvey, node: Node) {
    match node
    case Reference(_, _) => NamesQuestion(survey, node)
    case Call(name, args) => EmptyCall(name) && args != [] && NamesQuestion(survey, args[0])
    case Unary(uop, operand) => uop.Not? && IsCompilable(survey, operand)
    case Binary(op, left, right) =>
      if op.And? || op.Or? then IsCompilable(survey, left) && IsCompilable(survey, right)
      else
        IsComparison(op)
        && ((CanBeCompared(survey, left) && IsTextOrNumber(right))
            || (IsTextOrNumber(left) && CanBeCompared(survey, right)))
    case Literal(_) => false
  }

  /** An expression compiles exactly when it is of such a form. */
  lemma {:induction false} CompilesExactly(
    survey: CanonicalSurvey, host: Host, node: Node, createId: string -> string, path: string)
    ensures CompileNode(node, ContextOf(survey, host, createId), path).Ok? <==> IsCompilable(survey, node)
  {
    hide FirstMatch, Upper, QuestionNamed;
    match node
    case Unary(_, operand) =>
      if operand.Reference? {
        PresenceCompiles(survey, host, operand, IsSkipped, createId, path);
      } else if IsEmptyCall(operand) {
        PresenceCompiles(survey, host, Argument(operand), IsSubmitted, createId, path);
      } else {
        CompilesExactly(survey, host, operand, createId, path + ".not");
      }
    case Binary(op, left, right) =>
      if op.And? || op.Or? {
        CompilesExactly(survey, host, left, createId, path + ".left");
        CompilesExactly(survey, host, right, createId, path + ".right");
      } else if IsComparison(op) {
        ComparisonCompilesExactly(survey, host, node, createId, path);
      }
    case Reference(_, _) => PresenceCompiles(survey, host, node, IsSubmitted, createId, path);
    case Call(name, args) =>
      if EmptyCall(name) { PresenceCompiles(survey, host, Argument(node), IsSkipped, createId, path); }
    case _ =>
  }

  lemma PresenceCompiles(
    survey: CanonicalSurvey, host: Host, node: Node, operator: Operator, createId: string -> string, path: string)
    ensures CompilePresence(node, operator, ContextOf(survey, host, createId), path).Ok?
       <==> NamesQuestion(survey, node)
  {
    hide FirstMatch, Upper, QuestionNamed;
  }

  lemma ComparedExactly(survey: CanonicalSurvey, host: Host, q: Question, literal: Value)
    requires QuestionNamed(survey.questions, q.externalId) == Some(q)
    ensures var target := Resolve(survey, host, q.externalId);
            target.Ok? && (ComparedValue(target.value, literal).Ok? <==> (HasChoices(q.kind) ==> q.options != []))
  {
    ResolutionOrder(q.options, literal, host);
  }

  lemma ComparisonCompilesExactly(
    survey: CanonicalSurvey, host: Host, node: Node, createId: string -> string, path: string)
    requires node.Binary? && IsComparison(node.op)
    ensures CompileNode(node, ContextOf(survey, host, createId), path).Ok? <==> IsCompilable(survey, node)
  {
    hide ResolvedOption, Upper, QuestionNamed, ComparedValue, Resolve;
    SideCompiles(survey, host, node.left, node.right);
    SideCompiles(survey, host, node.right, node.left);
  }

  lemma SideCompiles(survey: CanonicalSurvey, host: Host, side: Node, other: Node)
    ensures ReferenceName(side).Ok? && ReferenceName(side).value.Some?
            && QuestionNamed(survey.questions, side.head).Some?
       <==> NamesQuestion(survey, side)
    ensures side.Reference? ==>
              (Resolve(survey, host, side.head).Ok? <==> QuestionNamed(survey.questions, side.head).Some?)
    ensures NamesQuestion(survey, side) && other.Literal? ==>
              (ComparedValue(Resolve(survey, host, side.head).value, other.value).Ok? <==> CanBeCompared(survey, side))
  {
    hide ResolvedOption, Upper;
    if NamesQuestion(survey, side) && other.Literal? {
      var q := QuestionNamed(survey.questions, side.head).value;
      ComparedExactly(survey, host, q, other.value);
    }
  }
}
