/** Relevance and calculation expressions: syntax trees and their evaluator. */
module Expressions {
  import opened Wrappers
  import Words

  /** Answer and variable values of the canonical survey. */
  datatype Value = Null | Bool(b: bool) | Num(n: real) | Str(s: string) | Strs(items: seq<string>)

  type Context = map<string, Value>

  /** The two ECMAScript conversions the evaluator and the survey runtime rely on. */
  datatype Host = Host(numberText: real -> string, parseNumber: string -> Option<real>)

  datatype UnaryOp = Not | Negate

  datatype BinaryOp = Add | Sub | Mul | Div | Rem | Equal | NotEqual | Less | AtMost | Greater | AtLeast | And | Or

  datatype Node =
    | Literal(value: Value)
    | Reference(head: string, tail: seq<string>)
    | Unary(uop: UnaryOp, operand: Node)
    | Binary(op: BinaryOp, left: Node, right: Node)
    | Call(name: string, args: seq<Node>)

  datatype Error =
    | InvalidToken | UnexpectedToken | UnterminatedString
    | UnknownReference | UnknownFunction | InvalidArgument | DivisionByZero

  type Outcome = Result<Value, Error>

  predicate Truthy(v: Value) {
    match v
    case Null => false
    case Bool(b) => b
    case Num(n) => n != 0.0
    case Str(s) => s != ""
    case Strs(_) => true
  }

  function JoinItems(items: seq<string>, sep: string): string {
    if items == [] then ""
    else if |items| == 1 then items[0]
    else items[0] + sep + JoinItems(items[1..], sep)
  }

  function TextOf(v: Value, host: Host): string {
    match v
    case Null => "null"
    case Bool(b) => if b then "true" else "false"
    case Num(n) => host.numberText(n)
    case Str(s) => s
    case Strs(items) => JoinItems(items, ",")
  }

  predicate ForbiddenPart(part: string) {
    part == "__proto__" || part == "constructor" || part == "prototype"
  }

  /** The index below n whose canonical numeral is the given property name. */
  function IndexNamed(part: string, n: nat): (r: Option<nat>)
    ensures r.Some? ==> r.value < n
  {
    if n == 0 then None
    else if Words.Numeral(n - 1) == part then Some(n - 1)
    else IndexNamed(part, n - 1)
  }

  function Member(v: Value, path: seq<string>): Outcome
    decreases |path|
  {
    if path == [] then Ok(v)
    else if ForbiddenPart(path[0]) || !v.Strs? then Err(UnknownReference)
    else if path[0] == "length" then Member(Num(|v.items| as real), path[1..])
    else match IndexNamed(path[0], |v.items|)
      case None => Err(UnknownReference)
      case Some(i) => Member(Str(v.items[i]), path[1..])
  }

  function Lookup(head: string, tail: seq<string>, ctx: Context): Outcome {
    if ForbiddenPart(head) || head !in ctx then Err(UnknownReference) else Member(ctx[head], tail)
  }

  /** Remainder with the sign of the dividend, as ECMAScript's % computes it. */
  function Remainder(a: real, b: real): real
    requires b != 0.0
  {
    var q := a / b;
    a - b * (if q >= 0.0 then q.Floor else -((-q).Floor)) as real
  }

  function Arithmetic(op: BinaryOp, a: Value, b: Value): Outcome {
    if !a.Num? || !b.Num? then Err(InvalidArgument)
    else match op
      case Add => Ok(Num(a.n + b.n))
      case Sub => Ok(Num(a.n - b.n))
      case Mul => Ok(Num(a.n * b.n))
      case Div => if b.n == 0.0 then Err(DivisionByZero) else Ok(Num(a.n / b.n))
      case Rem => if b.n == 0.0 then Err(DivisionByZero) else Ok(Num(Remainder(a.n, b.n)))
      case Less => Ok(Bool(a.n < b.n))
      case AtMost => Ok(Bool(a.n <= b.n))
      case Greater => Ok(Bool(a.n > b.n))
      case AtLeast => Ok(Bool(a.n >= b.n))
      case _ => Err(InvalidArgument)
  }

  function Apply(op: BinaryOp, a: Value, b: Value, host: Host): Outcome {
    match op
    case And => Ok(Bool(Truthy(b)))
    case Or => Ok(Bool(Truthy(b)))
    case Equal => Ok(Bool(a == b))
    case NotEqual => Ok(Bool(a != b))
    case Add =>
      if a.Str? || b.Str? then Ok(Str(TextOf(a, host) + TextOf(b, host))) else Arithmetic(Add, a, b)
    case _ =>
      // The divisor is checked before the dividend.
      if (op.Div? || op.Rem?) && b == Num(0.0) then Err(DivisionByZero) else Arithmetic(op, a, b)
  }

  /** Array arguments are spliced into the argument list. */
  function Spliced(vs: seq<Value>): seq<Value> {
    if vs == [] then []
    else
      (if vs[0].Strs? then seq(|vs[0].items|, i requires 0 <= i < |vs[0].items| => Str(vs[0].items[i])) else [vs[0]])
      + Spliced(vs[1..])
  }

  function SumOf(vs: seq<Value>): real
    requires forall v :: v in vs ==> v.Num?
  {
    if vs == [] then 0.0 else SumOf(vs[..|vs| - 1]) + vs[|vs| - 1].n
  }

  function Extreme(vs: seq<Value>, largest: bool): real
    requires vs != [] && forall v :: v in vs ==> v.Num?
  {
    if |vs| == 1 then vs[0].n
    else
      var rest := Extreme(vs[1..], largest);
      if (vs[0].n > rest) == largest then vs[0].n else rest
  }

  function TextsOf(vs: seq<Value>, host: Host): string {
    if vs == [] then "" else TextOf(vs[0], host) + TextsOf(vs[1..], host)
  }

  function PowerOfTen(k: nat): real {
    if k == 0 then 1.0 else 10.0 * PowerOfTen(k - 1)
  }

  const EPSILON := 1.0 / 4503599627370496.0

  function Round(vs: seq<Value>): Outcome {
    if |vs| < 1 || |vs| > 2 then Err(InvalidArgument)
    else if |vs| == 2 && !vs[1].Num? then Err(InvalidArgument)
    else
      var precision := if |vs| == 2 then vs[1].n else 0.0;
      if precision.Floor as real != precision || precision < 0.0 || precision > 15.0 || !vs[0].Num? then
        Err(InvalidArgument)
      else
        var factor := PowerOfTen(precision.Floor);
        if factor == 0.0 then Err(InvalidArgument)
        else Ok(Num(((vs[0].n + EPSILON) * factor + 0.5).Floor as real / factor))
  }

  function Aggregate(name: string, vs: seq<Value>, host: Host): Outcome {
    var numeric := forall v :: v in vs ==> v.Num?;
    if name == "sum" then if numeric then Ok(Num(SumOf(vs))) else Err(InvalidArgument)
    else if name == "avg" then
      if vs == [] || !numeric then Err(InvalidArgument) else Ok(Num(SumOf(vs) / |vs| as real))
    else if name == "min" then if vs == [] || !numeric then Err(InvalidArgument) else Ok(Num(Extreme(vs, false)))
    else if name == "max" then if vs == [] || !numeric then Err(InvalidArgument) else Ok(Num(Extreme(vs, true)))
    else if name == "abs" || name == "ceil" || name == "floor" then
      if |vs| != 1 || !vs[0].Num? then Err(InvalidArgument)
      else if name == "abs" then Ok(Num(if vs[0].n < 0.0 then -vs[0].n else vs[0].n))
      else if name == "ceil" then Ok(Num(-((-vs[0].n).Floor as real)))
      else Ok(Num(vs[0].n.Floor as real))
    else if name == "count" then Ok(Num(|vs| as real))
    else if name == "concat" then Ok(Str(TextsOf(vs, host)))
    else if name == "round" then Round(vs)
    else Err(UnknownFunction)
  }

  predicate EmptyCall(name: string) {
    name == "is_empty" || name == "empty"
  }

  predicate IsBlank(v: Value) {
    v == Null || v == Str("") || v == Num(0.0) || v == Bool(false)
  }

  function Evaluate(node: Node, ctx: Context, host: Host): Outcome
    decreases node, 1
  {
    match node
    case Literal(value) => Ok(value)
    case Reference(head, tail) => Lookup(head, tail, ctx)
    case Unary(uop, operand) =>
      var r := Evaluate(operand, ctx, host);
      if r.Err? then r
      else if uop.Not? then Ok(Bool(!Truthy(r.value)))
      else if r.value.Num? then Ok(Num(-r.value.n))
      else Err(InvalidArgument)
    case Binary(op, left, right) =>
      var a := Evaluate(left, ctx, host);
      if a.Err? then a
      else if op.And? && !Truthy(a.value) then Ok(Bool(false))
      else if op.Or? && Truthy(a.value) then Ok(Bool(true))
      else
        var b := Evaluate(right, ctx, host);
        if b.Err? then b else Apply(op, a.value, b.value, host)
    case Call(name, args) =>
      if name == "if" then
        if |args| != 3 then Err(InvalidArgument)
        else
          var c := Evaluate(args[0], ctx, host);
          if c.Err? then c
          else if Truthy(c.value) then Evaluate(args[1], ctx, host)
          else Evaluate(args[2], ctx, host)
      else if EmptyCall(name) then
        if |args| != 1 then Err(InvalidArgument)
        else
          var r := Evaluate(args[0], ctx, host);
          Ok(Bool(r.Err? || IsBlank(r.value)))
      else if name == "coalesce" then FirstNonNull(args, ctx, host)
      else
        var vs := EvaluateAll(args, ctx, host);
        if vs.Err? then Err(vs.error) else Aggregate(name, Spliced(vs.value), host)
  }

  function FirstNonNull(args: seq<Node>, ctx: Context, host: Host): Outcome
    decreases args, 0
  {
    if args == [] then Ok(Null)
    else
      var r := Evaluate(args[0], ctx, host);
      if r.Err? || !r.value.Null? then r else FirstNonNull(args[1..], ctx, host)
  }

  function EvaluateAll(args: seq<Node>, ctx: Context, host: Host): Result<seq<Value>, Error>
    decreases args, 0
  {
    if args == [] then Ok([])
    else
      var r := Evaluate(args[0], ctx, host);
      if r.Err? then Err(r.error)
      else
        var rest := EvaluateAll(args[1..], ctx, host);
        if rest.Err? then rest else Ok([r.value] + rest.value)
  }

  /** The names an expression reads: the first part of every reference path. */
  function References(node: Node): set<string>
    decreases node, 1
  {
    match node
    case Literal(_) => {}
    case Reference(head, _) => {head}
    case Unary(_, operand) => References(operand)
    case Binary(_, left, right) => References(left) + References(right)
    case Call(_, args) => AllReferences(args)
  }

  function AllReferences(args: seq<Node>): set<string>
    decreases args, 0
  {
    if args == [] then {} else References(args[0]) + AllReferences(args[1..])
  }

  ghost predicate AgreeOn(names: set<string>, a: Context, b: Context) {
    forall x :: x in names ==> (x in a <==> x in b) && (x in a ==> a[x] == b[x])
  }

  /** An expression's value depends on nothing but the names it reads. */
  lemma {:induction false} EvaluationIsLocal(node: Node, a: Context, b: Context, host: Host)
    requires AgreeOn(References(node), a, b)
    ensures Evaluate(node, a, host) == Evaluate(node, b, host)
    decreases node, 1
  {
    match node
    case Literal(_) =>
    case Reference(head, _) =>
      assert head in References(node);
    case Unary(_, operand) => EvaluationIsLocal(operand, a, b, host);
    case Binary(_, left, right) =>
      EvaluationIsLocal(left, a, b, host);
      EvaluationIsLocal(right, a, b, host);
    case Call(_, args) => EvaluationIsLocalAll(args, a, b, host);
  }

  lemma {:induction false} EvaluationIsLocalAll(args: seq<Node>, a: Context, b: Context, host: Host)
    requires AgreeOn(AllReferences(args), a, b)
    ensures forall i :: 0 <= i < |args| ==> Evaluate(args[i], a, host) == Evaluate(args[i], b, host)
    ensures FirstNonNull(args, a, host) == FirstNonNull(args, b, host)
    ensures EvaluateAll(args, a, host) == EvaluateAll(args, b, host)
    decreases args, 0
  {
    if args != [] {
      EvaluationIsLocal(args[0], a, b, host);
      EvaluationIsLocalAll(args[1..], a, b, host);
      forall i | 0 <= i < |args|
        ensures Evaluate(args[i], a, host) == Evaluate(args[i], b, host)
      {
        if i > 0 {
          assert args[i] == args[1..][i - 1];
        }
      }
    }
  }

  // ----- What the aggregates compute -----

  predicate AllNumbers(vs: seq<Value>) {
    forall v :: v in vs ==> v.Num?
  }

  lemma {:induction false} ExtremeIsReached(vs: seq<Value>, largest: bool)
    requires vs != [] && AllNumbers(vs)
    ensures Num(Extreme(vs, largest)) in vs
    ensures forall v :: v in vs ==> if largest then v.n <= Extreme(vs, largest) else Extreme(vs, largest) <= v.n
  {
    assert vs[0] in vs && vs[0] == Num(vs[0].n);
    if |vs| > 1 {
      ExtremeIsReached(vs[1..], largest);
      assert vs == [vs[0]] + vs[1..];
      assert forall v :: v in vs <==> v == vs[0] || v in vs[1..];
    } else {
      assert vs == [vs[0]];
    }
  }

  /** "min" and "max" give the least and the greatest of their arguments, and fail without any. */
  lemma MinimumAndMaximum(vs: seq<Value>, host: Host)
    ensures AllNumbers(vs) && vs != [] ==>
              (exists v :: v in vs && Aggregate("min", vs, host) == Ok(v) && forall w :: w in vs ==> v.n <= w.n) &&
              (exists v :: v in vs && Aggregate("max", vs, host) == Ok(v) && forall w :: w in vs ==> w.n <= v.n)
    ensures !AllNumbers(vs) || vs == [] ==>
              Aggregate("min", vs, host) == Err(InvalidArgument) && Aggregate("max", vs, host) == Err(InvalidArgument)
  {
    if AllNumbers(vs) && vs != [] {
      ExtremeIsReached(vs, false);
      ExtremeIsReached(vs, true);
    }
  }

  /** Adding one number adds it to the sum and one to the count; the average is their quotient. */
  lemma SumAndAverage(vs: seq<Value>, v: real, host: Host)
    requires AllNumbers(vs)
    ensures AllNumbers(vs + [Num(v)]) && SumOf(vs + [Num(v)]) == SumOf(vs) + v && SumOf([]) == 0.0
    ensures Aggregate("sum", vs, host) == Ok(Num(SumOf(vs)))
    ensures Aggregate("count", vs, host) == Ok(Num(|vs| as real))
    ensures vs != [] ==> Aggregate("avg", vs, host) == Ok(Num(SumOf(vs) / |vs| as real))
  {
    assert (vs + [Num(v)])[..|vs|] == vs;
  }
}
