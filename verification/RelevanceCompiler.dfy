/** Relevance expressions compiled to condition trees, and the meaning of those trees. */
module RelevanceCompiler {
  import opened Wrappers
  import opened Expressions
  import opened Payload
  import opened Runtime
  import opened Compiler
  import Parser
  import RelevanceText

  datatype ValueType = ChoiceValue | NumberValue | TextValue

  datatype ReferenceTarget = ReferenceTarget(
    operand: Operand, valueType: ValueType, resolveChoice: Option<Value -> Result<string, CompileError>>)

  /** How names resolve and how condition IDs are minted from their path in the tree. */
  datatype RelevanceContext = RelevanceContext(
    resolve: string -> Result<ReferenceTarget, CompileError>, createId: string -> string)

  type Compiled = Result<Condition, CompileError>

  // ----- Compilation -----

  /** The question a reference names; a second path part may only be the NAOK policy. */
  function ReferenceName(node: Node): Result<Option<string>, CompileError> {
    if !node.Reference? then Ok(None)
    else if node.tail == [] then Ok(Some(node.head))
    else if |node.tail| == 1 && Upper(node.tail[0]) == "NAOK" then Ok(Some(node.head))
    else Err(UnsupportedReference)
  }

  predicate IsComparison(op: BinaryOp) {
    op.Equal? || op.NotEqual? || op.Less? || op.AtMost? || op.Greater? || op.AtLeast?
  }

  function ComparisonOperator(op: BinaryOp): Operator
    requires IsComparison(op)
  {
    match op
    case Equal => Equals
    case NotEqual => DoesNotEqual
    case Less => IsLessThan
    case AtMost => IsLessThanOrEqual
    case Greater => IsGreaterThan
    case AtLeast => IsGreaterThanOrEqual
  }

  function Reversed(op: BinaryOp): BinaryOp
    requires IsComparison(op)
    ensures IsComparison(Reversed(op))
  {
    match op
    case Equal => Equal
    case NotEqual => NotEqual
    case Less => Greater
    case AtMost => AtLeast
    case Greater => Less
    case AtLeast => AtMost
  }

  function ComparedValue(target: ReferenceTarget, value: Value): Result<Value, CompileError> {
    if !target.valueType.ChoiceValue? then Ok(value)
    else if target.resolveChoice.None? then Err(UndefinedChoice)
    else
      var id := target.resolveChoice.value(value);
      if id.Err? then Err(id.error) else Ok(Str(id.value))
  }

  function CompileComparison(op: BinaryOp, name: string, literal: Node, c: RelevanceContext, path: string): Compiled
    requires IsComparison(op)
  {
    if !literal.Literal? || !(literal.value.Str? || literal.value.Num?) then Err(InvalidComparison)
    else
      var target := c.resolve(name);
      if target.Err? then Err(target.error)
      else
        var value := ComparedValue(target.value, literal.value);
        if value.Err? then Err(value.error)
        else Ok(Single(c.createId(path + ".condition"), target.value.operand,
                       ComparisonOperator(op), Some(value.value)))
  }

  function CompilePresence(reference: Node, operator: Operator, c: RelevanceContext, path: string): Compiled {
    var name := ReferenceName(reference);
    if name.Err? then Err(name.error)
    else if name.value.None? then Err(InvalidReference)
    else
      var target := c.resolve(name.value.value);
      if target.Err? then Err(target.error)
      else Ok(Single(c.createId(path + ".condition"), target.value.operand, operator, None))
  }

  predicate IsEmptyCall(node: Node) {
    node.Call? && EmptyCall(node.name)
  }

  /** The first argument of an emptiness test; a non-reference stands for a missing one. */
  function Argument(node: Node): Node
    requires node.Call?
  {
    if node.args == [] then Literal(Null) else node.args[0]
  }

  function CompileNode(node: Node, c: RelevanceContext, path: string): Compiled {
    match node
    case Reference(_, _) => CompilePresence(node, IsSubmitted, c, path)
    case Call(name, _) =>
      if EmptyCall(name) then CompilePresence(Argument(node), IsSkipped, c, path) else Err(UnsupportedExpression)
    case Unary(uop, operand) =>
      if !uop.Not? then Err(UnsupportedExpression)
      else if operand.Reference? then CompilePresence(operand, IsSkipped, c, path)
      else if IsEmptyCall(operand) then CompilePresence(Argument(operand), IsSubmitted, c, path)
      else CompileNode(operand, c, path + ".not")
    case Binary(op, left, right) =>
      if op.And? || op.Or? then
        var l := CompileNode(left, c, path + ".left");
        if l.Err? then l
        else
          var r := CompileNode(right, c, path + ".right");
          if r.Err? then r
          else Ok(ConditionGroup(c.createId(path + ".group"), if op.And? then AllOf else AnyOf, [l.value, r.value]))
      else if !IsComparison(op) then Err(UnsupportedExpression)
      else
        var l := ReferenceName(left);
        if l.Err? then Err(l.error)
        else if l.value.Some? then CompileComparison(op, l.value.value, right, c, path)
        else
          var r := ReferenceName(right);
          if r.Err? then Err(r.error)
          else if r.value.None? then Err(InvalidComparison)
          else CompileComparison(Reversed(op), r.value.value, left, c, path)
    case Literal(_) => Err(UnsupportedExpression)
  }

  function StripBraces(s: string): string {
    var front := if s != "" && s[0] == '{' then s[1..] else s;
    if front != "" && front[|front| - 1] == '}' then front[..|front| - 1] else front
  }

  function CompileRelevance(expression: string, c: RelevanceContext): Compiled {
    match Parser.ParseExpression(RelevanceText.Trim(StripBraces(RelevanceText.Trim(expression))))
    case Err(error) => Err(InvalidExpression(error))
    case Ok(node) =>
      var compiled := CompileNode(node, c, "root");
      if compiled.Err? || compiled.value.ConditionGroup? then compiled
      else Ok(ConditionGroup(c.createId("root.group"), AllOf, [compiled.value]))
  }

  // ----- Meaning -----

  /** The expression a compiled tree stands for: negations of anything but a presence test are dropped. */
  function WithoutNegations(node: Node): Node {
    match node
    case Unary(uop, operand) =>
      if uop.Not? && !operand.Reference? && !IsEmptyCall(operand) then WithoutNegations(operand) else node
    case Binary(op, left, right) =>
      if op.And? || op.Or? then Binary(op, WithoutNegations(left), WithoutNegations(right)) else node
    case _ => node
  }

  /** Where a compiled condition is evaluated: the recorded responses and the runtime's view of the survey. */
  datatype Situation = Situation(responses: Responses, vars: Responses, env: Environment)

  predicate Met(c: Condition, s: Situation) {
    EvaluateCondition(c, s.responses, s.vars, s.env)
  }

  /** A leaf agrees when its condition is met exactly if it evaluates to something truthy. */
  ghost predicate LeafAgrees(node: Node, c: RelevanceContext, path: string, ctx: Context, s: Situation) {
    var compiled := CompileNode(node, c, path);
    var value := Evaluate(node, ctx, s.env.host);
    compiled.Ok? && value.Ok? ==> Met(compiled.value, s) == Truthy(value.value)
  }

  ghost predicate LeavesAgree(node: Node, c: RelevanceContext, path: string, ctx: Context, s: Situation) {
    match node
    case Unary(uop, operand) =>
      if uop.Not? && !operand.Reference? && !IsEmptyCall(operand) then LeavesAgree(operand, c, path + ".not", ctx, s)
      else LeafAgrees(node, c, path, ctx, s)
    case Binary(op, left, right) =>
      if op.And? || op.Or? then
        LeavesAgree(left, c, path + ".left", ctx, s) && LeavesAgree(right, c, path + ".right", ctx, s)
      else LeafAgrees(node, c, path, ctx, s)
    case _ => LeafAgrees(node, c, path, ctx, s)
  }

  lemma PairMet(id: string, connector: Connector, l: Condition, r: Condition, s: Situation)
    ensures Met(ConditionGroup(id, connector, [l, r]), s)
         == if connector.AllOf? then Met(l, s) && Met(r, s) else Met(l, s) || Met(r, s)
  {
    var both := [l, r];
    assert both[0] == l && both[1] == r;
  }

  lemma SingletonMet(id: string, l: Condition, s: Situation)
    ensures Met(ConditionGroup(id, AllOf, [l]), s) == Met(l, s)
  {
    var one := [l];
    assert one[0] == l;
  }

  /**
   * A compiled tree means its expression with the dropped negations taken out: whenever that expression
   * evaluates without error and the evaluated leaves agree, the tree is met exactly if it is truthy.
   */
  lemma {:induction false} CompiledMeaning(node: Node, c: RelevanceContext, path: string, ctx: Context, s: Situation)
    requires CompileNode(node, c, path).Ok?
    requires LeavesAgree(node, c, path, ctx, s)
    requires Evaluate(WithoutNegations(node), ctx, s.env.host).Ok?
    ensures Met(CompileNode(node, c, path).value, s)
         == Truthy(Evaluate(WithoutNegations(node), ctx, s.env.host).value)
  {
    hide EvaluateCondition, CompilePresence, CompileComparison;
    match node
    case Unary(uop, operand) =>
      if uop.Not? && !operand.Reference? && !IsEmptyCall(operand) {
        CompiledMeaning(operand, c, path + ".not", ctx, s);
      }
    case Binary(op, left, right) =>
      if op.And? || op.Or? {
        var l, r := CompileNode(left, c, path + ".left").value, CompileNode(right, c, path + ".right").value;
        PairMet(c.createId(path + ".group"), if op.And? then AllOf else AnyOf, l, r, s);
        CompiledMeaning(left, c, path + ".left", ctx, s);
        if Evaluate(WithoutNegations(right), ctx, s.env.host).Ok? {
          CompiledMeaning(right, c, path + ".right", ctx, s);
        }
      }
    case _ =>
  }

  /** A negation that the compiler drops turns the result around: the tree is met exactly when it should not be. */
  lemma DroppedNegationInverts(operand: Node, c: RelevanceContext, path: string, ctx: Context, s: Situation)
    requires !operand.Reference? && !IsEmptyCall(operand) && WithoutNegations(operand) == operand
    requires CompileNode(Unary(Not, operand), c, path).Ok?
    requires LeavesAgree(operand, c, path + ".not", ctx, s)
    requires Evaluate(operand, ctx, s.env.host).Ok?
    ensures Met(CompileNode(Unary(Not, operand), c, path).value, s)
         != Truthy(Evaluate(Unary(Not, operand), ctx, s.env.host).value)
  {
    CompiledMeaning(operand, c, path + ".not", ctx, s);
  }
}
