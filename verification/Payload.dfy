/** The compiled survey: blocks of elements with calculation and jump rules. */
module Payload {
  import opened Wrappers
  import opened Expressions
  import opened Survey

  datatype Operand = ElementOperand(id: string) | VariableOperand(id: string)

  datatype Operator =
    | Equals | DoesNotEqual | IsLessThan | IsLessThanOrEqual | IsGreaterThan | IsGreaterThanOrEqual
    | IsSubmitted | IsSkipped

  datatype Connector = AllOf | AnyOf

  datatype Condition =
    | Single(id: string, leftOperand: Operand, operator: Operator, right: Option<Value>)
    | ConditionGroup(id: string, connector: Connector, conditions: seq<Condition>)

  datatype ExpressionReference = ExpressionReference(source: string, target: Operand, missingIsZero: bool)

  datatype Rule =
    | Calculation(id: string, conditionGroupId: string, actionId: string, variableId: string, expression: string,
                  references: seq<ExpressionReference>)
    | Jump(id: string, conditions: Condition, jumpId: string, target: string)

  /** Rating, NPS, CSAT and CES elements all record a number; a CTA displays text. */
  datatype ElementKind =
    | OpenTextElement(number: bool) | SingleChoiceElement | MultipleChoiceElement | ScaleElement
    | RankingElement | MatrixElement | CtaElement

  datatype Choice = Choice(id: string, texts: LocalizedText)

  datatype Element = Element(
    id: string, kind: ElementKind, choices: seq<Choice>, rows: seq<Choice>, columns: seq<Choice>)

  datatype Block = Block(id: string, elements: seq<Element>, logic: seq<Rule>, logicFallback: Option<string>)

  datatype PayloadVariable = PayloadVariable(id: string, isNumber: bool)

  datatype Payload = Payload(blocks: seq<Block>, variables: seq<PayloadVariable>, endings: seq<string>)
}
