/** What compiled elements, blocks and equation rules contain, told apart from how they are compiled. */
module ElementContents {
  import opened Wrappers
  import opened Expressions
  import opened Survey
  import opened Payload
  import opened Runtime
  import opened Compiler
  import opened SurveyReferences
  import Calculations
  import Ids
  import Parser
  import Sorting

  // ----- Kinds -----

  /** Which kind of element shows a question, and which questions cannot be compiled. */
  lemma ElementKindExactly(q: Question, defaultLanguage: string)
    ensures var r := SourceElement(q, defaultLanguage);
            (r == Err(UnsupportedQuestionType) <==> q.kind.Date? || q.kind.FileUpload? || q.kind.Consent?) &&
            (r == Err(UnrepresentableOptions) <==> q.kind.Numeric? && q.options != []) &&
            (r == Err(MissingConfiguration)
             <==> (q.kind.Rating? && !q.hasRating) || (q.kind.Matrix? && q.matrix.None?)
                  || (q.kind.Equation? && (q.calculation.None? || q.calculation.value == ""))) &&
            (r.Err? ==> r.error in [UnsupportedQuestionType, UnrepresentableOptions, MissingConfiguration])
    ensures SourceElement(q, defaultLanguage).Ok? ==>
              var e := SourceElement(q, defaultLanguage).value;
              e.id == q.externalId &&
              (e.kind.SingleChoiceElement? <==> q.kind.SingleChoice?) &&
              (e.kind.MultipleChoiceElement? <==> q.kind.MultipleChoice?) &&
              (e.kind.RankingElement? <==> q.kind.Ranking?) && (e.kind.MatrixElement? <==> q.kind.Matrix?) &&
              (e.kind.ScaleElement? <==> q.kind.Rating? || (q.kind.Numeric? && q.isNps)) &&
              (e.kind.CtaElement? <==> q.kind.Display? || q.kind.Equation?) &&
              (e.kind == OpenTextElement(true)
               <==> (q.kind.Numeric? && !q.isNps) || (q.kind.OpenText? && q.numberInput)) &&
              (e.kind == OpenTextElement(false) <==> q.kind.OpenText? && !q.numberInput)
  {
    hide SourceChoices;
  }

  /** Every fitting answer is stored in a shape that the compiled element admits, and no other element kind does. */
  lemma StoredResponseIsAdmitted(q: Question, e: Element, answer: Value, defaultLanguage: string, language: string)
    requires SourceElement(q, defaultLanguage) == Ok(e) && Fits(q, answer)
    ensures Admits(e.kind, StoredResponse(q, answer, defaultLanguage, language))
    ensures HasChoices(q.kind) ==>
              (e.kind.SingleChoiceElement? <==> StoredResponse(q, answer, defaultLanguage, language).Str?) &&
              (e.kind.MultipleChoiceElement? <==> StoredResponse(q, answer, defaultLanguage, language).Strs?)
  {
    hide SourceChoices, ShownAnswer, OptionWithValue;
  }

  // ----- Choices, rows and columns -----

  /** The items in ascending order, each with its own ID and the texts compiled from its own. */
  ghost predicate ListsItems(choices: seq<Choice>, items: seq<Item>, defaultLanguage: string) {
    exists sorted: seq<Item> ::
      multiset(sorted) == multiset(items) && Sorting.Sorted(sorted, ItemOrder) && |choices| == |sorted| &&
      forall i :: 0 <= i < |sorted| ==>
        choices[i].id == sorted[i].externalId
        && choices[i].texts == CompiledText(sorted[i].texts, defaultLanguage)
  }

  lemma SourceChoicesListItems(items: seq<Item>, defaultLanguage: string)
    ensures ListsItems(SourceChoices(items, defaultLanguage), items, defaultLanguage)
  {
    hide CompiledText;
    var sorted := Sorting.Sort(items, ItemOrder);
    Sorting.SortPermutes(items, ItemOrder);
    Sorting.SortSorts(items, ItemOrder);
    assert |SourceChoices(items, defaultLanguage)| == |sorted|;
  }

  /** Choices list the options, rows and columns the two axes, in order; other elements list nothing. */
  lemma ElementsListItems(q: Question, e: Element, defaultLanguage: string)
    requires SourceElement(q, defaultLanguage) == Ok(e)
    ensures if HasChoices(q.kind) || q.kind.Ranking? then ListsItems(e.choices, q.options, defaultLanguage)
            else e.choices == []
    ensures if q.kind.Matrix? then
              q.matrix.Some? && ListsItems(e.rows, q.matrix.value.rows, defaultLanguage)
              && ListsItems(e.columns, q.matrix.value.columns, defaultLanguage)
            else e.rows == [] && e.columns == []
  {
    hide SourceChoices, ListsItems;
    SourceChoicesListItems(q.options, defaultLanguage);
    if q.matrix.Some? {
      SourceChoicesListItems(q.matrix.value.rows, defaultLanguage);
      SourceChoicesListItems(q.matrix.value.columns, defaultLanguage);
    }
  }

  /**
   * A compiled text keeps the text of every language; its default is the one given as such, else that of the
   * survey's default language, else the first one.
   */
  lemma {:induction false} CompiledTextReads(texts: LocalizedText, defaultLanguage: string, key: string)
    ensures Translation(texts, key).Some? ==>
              Translation(CompiledText(texts, defaultLanguage), key) == Translation(texts, key)
    ensures Translation(texts, key).None? && key != "default" ==>
              Translation(CompiledText(texts, defaultLanguage), key) == None
    ensures Translation(texts, "default").None? ==>
              Translation(CompiledText(texts, defaultLanguage), "default")
                == Some(if Translation(texts, defaultLanguage).Some? then Translation(texts, defaultLanguage).value
                        else if texts != [] then texts[0].1 else "")
  {
    var preferred := Translation(texts, defaultLanguage);
    var default := if preferred.Some? then preferred.value else if texts != [] then texts[0].1 else "";
    TranslationBehind(("default", default), texts, key);
    TranslationBehind(("default", default), texts, "default");
  }

  lemma {:induction false} TranslationBehind(first: (string, string), texts: LocalizedText, key: string)
    ensures Translation([first] + texts, key)
         == if Translation(texts, key).Some? then Translation(texts, key)
            else if first.0 == key then Some(first.1) else None
  {
    var all := [first] + texts;
    if texts == [] {
      assert all == [first] && all[..0] == [];
    } else {
      assert all[|all| - 1] == texts[|texts| - 1] && all[..|all| - 1] == [first] + texts[..|texts| - 1];
      TranslationBehind(first, texts[..|texts| - 1], key);
    }
  }

  // ----- The questions of a group -----

  lemma {:induction false} QuestionsInCount(questions: seq<Question>, group: string, q: Question)
    ensures multiset(QuestionsIn(questions, group))[q]
         == if q.groupExternalId == group then multiset(questions)[q] else 0
  {
    if questions != [] {
      QuestionsInCount(questions[1..], group, q);
      assert questions == [questions[0]] + questions[1..];
    }
  }

  /** A group's questions are those that name it, each as often as the survey lists it, in ascending order. */
  lemma GroupQuestionsInOrder(survey: CanonicalSurvey, group: string)
    ensures Sorting.Sorted(GroupQuestions(survey, group), QuestionOrder)
    ensures forall q :: multiset(GroupQuestions(survey, group))[q]
                     == if q.groupExternalId == group then multiset(survey.questions)[q] else 0
  {
    var questions := QuestionsIn(survey.questions, group);
    Sorting.SortPermutes(questions, QuestionOrder);
    Sorting.SortSorts(questions, QuestionOrder);
    forall q: Question
      ensures multiset(questions)[q] == if q.groupExternalId == group then multiset(survey.questions)[q] else 0
    {
      QuestionsInCount(survey.questions, group, q);
    }
  }

  // ----- What an equation rule refers to -----

  /** No part of a reference holds a dot; the parser cuts names at their dots. */
  predicate DotFree(parts: seq<string>) {
    forall i :: 0 <= i < |parts| ==> '.' !in parts[i]
  }

  lemma {:induction false} SplitJoined(parts: seq<string>)
    requires parts != [] && DotFree(parts)
    ensures Parser.SplitDots(JoinItems(parts, ".")) == parts
  {
    if |parts| == 1 {
      SplitWhole(parts[0]);
    } else {
      SplitJoined(parts[1..]);
      SplitAtDot(parts[0], JoinItems(parts[1..], "."));
      assert parts[0] + "." + JoinItems(parts[1..], ".") == JoinItems(parts, ".");
      assert parts == [parts[0]] + parts[1..];
    }
  }

  lemma {:induction false} SplitWhole(part: string)
    requires '.' !in part
    ensures Parser.SplitDots(part) == [part]
  {
    if part != "" {
      SplitWhole(part[1..]);
      assert part[0] != '.' && [part[0]] + part[1..] == part;
      assert [part[1..]][1..] == [] && [part] + [] == [part];
    }
  }

  lemma {:induction false} SplitAtDot(part: string, rest: string)
    requires '.' !in part
    ensures Parser.SplitDots(part + "." + rest) == [part] + Parser.SplitDots(rest)
  {
    var s := part + "." + rest;
    if part == "" {
      assert s[0] == '.' && s[1..] == rest;
    } else {
      assert s[0] == part[0] && part[0] != '.' && s[1..] == part[1..] + "." + rest;
      SplitAtDot(part[1..], rest);
      assert [part[0]] + part[1..] == part;
      assert ([part[1..]] + Parser.SplitDots(rest))[1..] == Parser.SplitDots(rest);
    }
  }

  /** Whether every reference of an expression has dot-free parts, as the parser makes them. */
  predicate ReferencesAreDotFree(node: Node) {
    match node
    case Literal(_) => true
    case Reference(head, tail) => DotFree([head] + tail)
    case Unary(_, operand) => ReferencesAreDotFree(operand)
    case Binary(_, left, right) => ReferencesAreDotFree(left) && ReferencesAreDotFree(right)
    case Call(_, args) => forall i :: 0 <= i < |args| ==> ReferencesAreDotFree(args[i])
  }

  function FirstParts(sources: seq<string>): seq<string> {
    seq(|sources|, i requires 0 <= i < |sources| => Parser.SplitDots(sources[i])[0])
  }

  /** An equation's sources are its references, wherever they stand: their first parts are the names it reads. */
  lemma {:induction false} SourcesAreReferences(node: Node)
    requires ReferencesAreDotFree(node)
    ensures FirstParts(Sources(node)) == Calculations.Heads(node)
    ensures forall x :: x in FirstParts(Sources(node)) <==> x in References(node)
    decreases node, 1
  {
    Calculations.HeadsAreReferences(node);
    match node
    case Reference(head, tail) =>
      SplitJoined([head] + tail);
    case Unary(_, operand) => SourcesAreReferences(operand);
    case Binary(_, left, right) =>
      SourcesAreReferences(left);
      SourcesAreReferences(right);
      FirstPartsAppend(Sources(left), Sources(right));
    case Call(_, args) => AllSourcesAreReferences(args);
    case _ =>
  }

  lemma {:induction false} AllSourcesAreReferences(args: seq<Node>)
    requires forall i :: 0 <= i < |args| ==> ReferencesAreDotFree(args[i])
    ensures FirstParts(AllSources(args)) == Calculations.AllHeads(args)
    decreases args, 0
  {
    if args != [] {
      SourcesAreReferences(args[0]);
      AllSourcesAreReferences(args[1..]);
      FirstPartsAppend(Sources(args[0]), AllSources(args[1..]));
    }
  }

  lemma FirstPartsAppend(a: seq<string>, b: seq<string>)
    ensures FirstParts(a + b) == FirstParts(a) + FirstParts(b)
  {
  }

  /**
   * A compiled reference reads the variable of an equation or of no question at all, and otherwise the element
   * of its question; a missing value counts as zero exactly under the NAOK policy in second place.
   */
  lemma CompiledReferenceReads(survey: CanonicalSurvey, head: string, tail: seq<string>)
    requires DotFree([head] + tail)
    ensures var r := CompiledReference(survey, JoinItems([head] + tail, "."));
            var q := QuestionNamed(survey.questions, head);
            (r.missingIsZero <==> tail != [] && Upper(tail[0]) == "NAOK") &&
            (r.target == ElementOperand(Ids.QuestionId(survey.externalId, head))
             <==> q.Some? && !q.value.kind.Equation?) &&
            (q.Some? && q.value.kind.Equation? ==>
               r.target == VariableOperand(Ids.EquationVariableId(survey.externalId, head))) &&
            (q.None? && VariableNamed(survey.variables, head).Some? ==>
               r.target == VariableOperand(Ids.EquationVariableId(
                 survey.externalId, VariableNamed(survey.variables, head).value.externalId))) &&
            (q.None? && VariableNamed(survey.variables, head).None? ==>
               r.target == VariableOperand(Ids.EquationVariableId(survey.externalId, head)))
  {
    hide Ids.EquationVariableId, Ids.QuestionId, QuestionNamed;
    SplitJoined([head] + tail);
  }

  /** A name stands for the first declared variable that has it as its ID or as its name. */
  lemma {:induction false} VariableNamedIsFirst(variables: seq<Variable>, name: string)
    ensures VariableNamed(variables, name).None?
       <==> forall i :: 0 <= i < |variables| ==> variables[i].externalId != name && variables[i].name != name
    ensures forall k :: (0 <= k < |variables| && (variables[k].externalId == name || variables[k].name == name)
                         && (forall i :: 0 <= i < k ==>
                               variables[i].externalId != name && variables[i].name != name)) ==>
              VariableNamed(variables, name) == Some(variables[k])
  {
    if variables != [] && variables[0].externalId != name && variables[0].name != name {
      VariableNamedIsFirst(variables[1..], name);
      assert forall i :: 0 <= i < |variables| - 1 ==> variables[1..][i] == variables[i + 1];
      forall k | 0 <= k < |variables| && (variables[k].externalId == name || variables[k].name == name)
                 && (forall i :: 0 <= i < k ==> variables[i].externalId != name && variables[i].name != name)
        ensures VariableNamed(variables, name) == Some(variables[k])
      {
        assert variables[1..][k - 1] == variables[k];
      }
    }
  }

  /** The policy is recognised in capitals, in small letters, and in any mixture. */
  lemma PolicyInAnyCase(policy: string)
    ensures Upper(policy) == "NAOK"
       <==> |policy| == 4 && policy[0] in ['n', 'N'] && policy[1] in ['a', 'A'] && policy[2] in ['o', 'O']
            && policy[3] in ['k', 'K']
  {
    if |policy| == 4 {
      assert Upper(policy) == [Upper(policy)[0], Upper(policy)[1], Upper(policy)[2], Upper(policy)[3]];
    }
    if Upper(policy) == "NAOK" {
      assert |Upper(policy)| == 4;
      assert Upper(policy)[0] == 'N' && Upper(policy)[1] == 'A' && Upper(policy)[2] == 'O' && Upper(policy)[3] == 'K';
    }
  }
}
