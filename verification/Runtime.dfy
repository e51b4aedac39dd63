/** The survey runtime: evaluating compiled conditions and choosing the next block. */
module Runtime {
  import opened Wrappers
  import opened Expressions
  import opened Survey
  import opened Payload
  import RelevanceText

  type Responses = map<string, Value>

  datatype Environment = Environment(
    elements: seq<Element>, variables: seq<PayloadVariable>, language: string, host: Host)

  // ----- Values -----

  predicate IsBlankText(s: string) {
    RelevanceText.Trim(s) == ""
  }

  /** The text for a key; a later entry for the same key replaces an earlier one. */
  function Translation(texts: LocalizedText, key: string): Option<string> {
    if texts == [] then None
    else if texts[|texts| - 1].0 == key then Some(texts[|texts| - 1].1)
    else Translation(texts[..|texts| - 1], key)
  }

  function FirstNonBlank(texts: LocalizedText): string {
    if texts == [] then ""
    else if !IsBlankText(texts[0].1) then texts[0].1
    else FirstNonBlank(texts[1..])
  }

  function LocalizedValue(texts: LocalizedText, language: string): string {
    var here, default := Translation(texts, language), Translation(texts, "default");
    if here.Some? && !IsBlankText(here.value) then here.value
    else if default.Some? && !IsBlankText(default.value) then default.value
    else FirstNonBlank(texts)
  }

  /** Number(v); None stands for NaN. */
  function NumberOf(v: Value, host: Host): Option<real> {
    match v
    case Null => Some(0.0)
    case Bool(b) => Some(if b then 1.0 else 0.0)
    case Num(n) => Some(n)
    case Str(s) => host.parseNumber(s)
    case Strs(items) => host.parseNumber(JoinItems(items, ","))
  }

  function ElementWithId(elements: seq<Element>, id: string): Option<Element> {
    if elements == [] then None
    else if elements[0].id == id then Some(elements[0])
    else ElementWithId(elements[1..], id)
  }

  function VariableWithId(variables: seq<PayloadVariable>, id: string): Option<PayloadVariable> {
    if variables == [] then None
    else if variables[0].id == id then Some(variables[0])
    else VariableWithId(variables[1..], id)
  }

  function ChoiceShown(choices: seq<Choice>, text: string, language: string): Option<Choice> {
    if choices == [] then None
    else if LocalizedValue(choices[0].texts, language) == text then Some(choices[0])
    else ChoiceShown(choices[1..], text, language)
  }

  predicate OffersOther(choices: seq<Choice>) {
    exists c :: c in choices && c.id == "other"
  }

  function ChoiceIds(items: seq<string>, choices: seq<Choice>, language: string): seq<string> {
    if items == [] then []
    else
      var front := ChoiceIds(items[..|items| - 1], choices, language);
      var choice := ChoiceShown(choices, items[|items| - 1], language);
      var id :=
        if choice.Some? then Some(choice.value.id) else if OffersOther(choices) then Some("other") else None;
      if id.None? || id.value in front then front else front + [id.value]
  }

  /** The value a condition reads on its left; None stands for undefined. */
  function LeftValue(operand: Operand, responses: Responses, vars: Responses, env: Environment): Option<Value> {
    match operand
    case ElementOperand(id) =>
      (match ElementWithId(env.elements, id)
       case None => None
       case Some(element) =>
         if id !in responses then None else ElementValue(element, responses[id], env))
    case VariableOperand(id) =>
      match VariableWithId(env.variables, id)
      case None => None
      case Some(variable) =>
        if variable.isNumber then
          var n := if id in vars then NumberOf(vars[id], env.host) else None;
          Some(Num(if n.Some? then n.value else 0.0))
        else
          Some(if id in vars && Truthy(vars[id]) then vars[id] else Str(""))
  }

  function ElementValue(element: Element, response: Value, env: Environment): Option<Value> {
    if element.kind == OpenTextElement(true) then
      if response.Str? && IsBlankText(response.s) then None
      else
        var n := NumberOf(response, env.host);
        if n.Some? then Some(Num(n.value)) else None
    else if (element.kind.SingleChoiceElement? || element.kind.MultipleChoiceElement?) && response.Str? then
      var choice := ChoiceShown(element.choices, response.s, env.language);
      if choice.Some? then Some(Str(choice.value.id))
      else if OffersOther(element.choices) then Some(Str("other"))
      else None
    else if (element.kind.SingleChoiceElement? || element.kind.MultipleChoiceElement?) && response.Strs? then
      Some(Strs(ChoiceIds(response.items, element.choices, env.language)))
    else Some(response)
  }

  /**
   * The responses an element can record: one text where one choice is taken, a list where several are, a number
   * on scales and in number inputs; records of matrix answers are not modelled.
   */
  predicate Admits(kind: ElementKind, response: Value) {
    match kind
    case OpenTextElement(number) => if number then response.Num? else response.Str?
    case SingleChoiceElement => response.Str?
    case MultipleChoiceElement => response.Strs?
    case ScaleElement => response.Num?
    case RankingElement => response.Strs?
    case MatrixElement => false
    case CtaElement => response.Str?
  }

  // ----- Conditions -----

  function Coerced(numeric: bool, v: Option<Value>, host: Host): Option<Value> {
    if numeric && v.Some? && v.value.Str? && !IsBlankText(v.value.s) then
      var n := host.parseNumber(v.value.s);
      if n.Some? then Some(Num(n.value)) else v
    else v
  }

  predicate IsNumericOperand(operand: Operand, env: Environment) {
    match operand
    case ElementOperand(id) =>
      var element := ElementWithId(env.elements, id);
      element.Some? && element.value.kind == OpenTextElement(true)
    case VariableOperand(id) =>
      var variable := VariableWithId(env.variables, id);
      variable.Some? && variable.value.isNumber
  }

  function NumberIfAny(v: Option<Value>, host: Host): Option<real> {
    if v.None? then None else NumberOf(v.value, host)
  }

  predicate Compare(operator: Operator, a: Option<real>, b: Option<real>) {
    a.Some? && b.Some? &&
    match operator
    case IsLessThan => a.value < b.value
    case IsLessThanOrEqual => a.value <= b.value
    case IsGreaterThan => a.value > b.value
    case IsGreaterThanOrEqual => a.value >= b.value
    case _ => false
  }

  predicate IsOnly(left: Option<Value>, right: Option<Value>) {
    left.Some? && left.value.Strs? && |left.value.items| == 1 && right.Some? && right.value == Str(left.value.items[0])
  }

  predicate ConditionHolds(
    operator: Operator, leftNumeric: bool, left0: Option<Value>, right0: Option<Value>, host: Host)
  {
    var right := Coerced(leftNumeric || (left0.Some? && left0.value.Num?), right0, host);
    var left := Coerced(right0.Some? && right0.value.Num?, left0, host);
    match operator
    case Equals => IsOnly(left, right) || left == right
    case DoesNotEqual => left != right
    case IsSubmitted =>
      left.Some? &&
      (match left.value
       case Str(s) => s != ""
       case Strs(items) => items != []
       case Num(_) => true
       case _ => false)
    case IsSkipped => left.None? || left.value == Strs([]) || left.value == Str("") || left.value == Null
    case _ => Compare(operator, NumberIfAny(left, host), NumberIfAny(right, host))
  }

  predicate EvaluateCondition(c: Condition, responses: Responses, vars: Responses, env: Environment) {
    match c
    case Single(_, operand, operator, right) =>
      ConditionHolds(operator, IsNumericOperand(operand, env), LeftValue(operand, responses, vars, env),
                     right, env.host)
    case ConditionGroup(_, connector, conditions) =>
      if connector.AnyOf? then
        exists i :: 0 <= i < |conditions| && EvaluateCondition(conditions[i], responses, vars, env)
      else forall i :: 0 <= i < |conditions| ==> EvaluateCondition(conditions[i], responses, vars, env)
  }

  // ----- Navigation -----

  /** The target of the first jump rule whose conditions hold. */
  function FirstJump(logic: seq<Rule>, responses: Responses, vars: Responses, env: Environment): Option<string> {
    if logic == [] then None
    else if logic[0].Jump? && EvaluateCondition(logic[0].conditions, responses, vars, env) then Some(logic[0].target)
    else FirstJump(logic[1..], responses, vars, env)
  }

  predicate AnsweredInput(c: Condition, responses: Responses) {
    c.ConditionGroup? &&
    exists i :: 0 <= i < |c.conditions| && c.conditions[i].Single? && c.conditions[i].leftOperand.ElementOperand?
      && c.conditions[i].leftOperand.id in responses
      && responses[c.conditions[i].leftOperand.id] != Null && responses[c.conditions[i].leftOperand.id] != Str("")
  }

  predicate HasAnsweredConditionInputs(logic: seq<Rule>, responses: Responses) {
    exists i :: 0 <= i < |logic| && logic[i].Jump? && AnsweredInput(logic[i].conditions, responses)
  }

  predicate BlockExists(blocks: seq<Block>, id: string) {
    exists i :: 0 <= i < |blocks| && blocks[i].id == id
  }

  /** The first block after a position that has elements. */
  function NextContent(blocks: seq<Block>, from: nat): Option<string>
    decreases |blocks| - from
  {
    if from >= |blocks| then None
    else if blocks[from].elements != [] then Some(blocks[from].id)
    else NextContent(blocks, from + 1)
  }

  /**
   * Where navigation goes after the block at a position is submitted, given all responses so far and
   * the variable values after the block's calculations. None means the survey has nowhere to go.
   */
  function NextBlockId(payload: Payload, position: nat, responses: Responses, vars: Responses, env: Environment)
    : Option<string>
    requires position < |payload.blocks|
  {
    var block := payload.blocks[position];
    var jump := FirstJump(block.logic, responses, vars, env);
    if jump.Some? then jump
    else if block.logicFallback.Some?
      && (block.elements != [] || HasAnsweredConditionInputs(block.logic, responses))
      && (BlockExists(payload.blocks, block.logicFallback.value) || block.logicFallback.value in payload.endings)
    then block.logicFallback
    else
      var content := NextContent(payload.blocks, position + 1);
      if content.Some? then content
      else if position + 1 < |payload.blocks| then Some(payload.blocks[position + 1].id)
      else if payload.endings != [] then Some(payload.endings[0])
      else None
  }

  function PositionOf(blocks: seq<Block>, id: string): (r: Option<nat>)
    ensures r.Some? ==> r.value < |blocks| && blocks[r.value].id == id
  {
    if blocks == [] then None
    else if blocks[0].id == id then Some(0)
    else
      var rest := PositionOf(blocks[1..], id);
      if rest.Some? then Some(rest.value + 1) else None
  }
}
