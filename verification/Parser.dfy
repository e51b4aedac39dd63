/** The tokenizer and the recursive-descent parser of relevance and calculation texts. */
module Parser {
  import opened Wrappers
  import opened Expressions

  datatype Token =
    | Number(value: real) | Quoted(text: string) | Identifier(name: string) | Operator(symbol: string)
    | LeftParen | RightParen | Comma

  // ----- Tokenizer -----

  predicate IsDigit(c: char) { '0' <= c <= '9' }

  predicate IsIdentifierStart(c: char) { 'A' <= c <= 'Z' || 'a' <= c <= 'z' || c == '_' }

  predicate IsIdentifierPart(c: char) { IsIdentifierStart(c) || IsDigit(c) || c == '.' }

  /** The white space that ECMAScript's \s and trim() share. */
  predicate IsSpace(c: char) {
    var n := c as int;
    9 <= n <= 13 || n == 32 || n == 0xA0 || n == 0x1680 || 0x2000 <= n <= 0x200A
    || n == 0x2028 || n == 0x2029 || n == 0x202F || n == 0x205F || n == 0x3000 || n == 0xFEFF
  }

  /** The length of the longest prefix whose characters all pass a test. */
  function Run(s: string, test: char -> bool): (n: nat)
    ensures n <= |s|
  {
    if s == "" || !test(s[0]) then 0 else 1 + Run(s[1..], test)
  }

  function NumberLength(s: string): (n: nat)
    ensures n <= |s|
  {
    var whole := Run(s, IsDigit);
    if whole < |s| && s[whole] == '.' then whole + 1 + Run(s[whole + 1..], IsDigit) else whole
  }

  function DigitValue(c: char): real {
    (c as int - '0' as int) as real
  }

  function WholeValue(digits: string): real {
    if digits == "" then 0.0 else WholeValue(digits[..|digits| - 1]) * 10.0 + DigitValue(digits[|digits| - 1])
  }

  function FractionValue(digits: string): real {
    if digits == "" then 0.0 else (DigitValue(digits[0]) + FractionValue(digits[1..])) / 10.0
  }

  function NumberValue(s: string): real {
    var whole := Run(s, IsDigit);
    WholeValue(s[..whole]) + (if whole < |s| then FractionValue(s[whole + 1..]) else 0.0)
  }

  /** The text of a string literal after its opening quote, and what follows its closing quote. */
  function LexQuoted(s: string, quote: char): (r: Option<(string, string)>)
    ensures r.Some? ==> |r.value.1| < |s|
  {
    if s == "" then None
    else if s[0] == quote then Some(("", s[1..]))
    else if s[0] == '\\' then
      if |s| == 1 then None
      else
        var c := if s[1] == 'n' then '\n' else if s[1] == 't' then '\t' else s[1];
        var r := LexQuoted(s[2..], quote);
        if r.None? then None else Some(([c] + r.value.0, r.value.1))
    else
      var r := LexQuoted(s[1..], quote);
      if r.None? then None else Some(([s[0]] + r.value.0, r.value.1))
  }

  predicate IsPair(s: string) {
    |s| >= 2 && (s[..2] == "!=" || s[..2] == "<=" || s[..2] == ">="
    || s[..2] == "==" || s[..2] == "&&" || s[..2] == "||")
  }

  function Simple(c: char): Option<Token> {
    if c == '(' then Some(LeftParen)
    else if c == ')' then Some(RightParen)
    else if c == ',' then Some(Comma)
    else if c in "+-*/%=<>!?:" then Some(Operator([c]))
    else None
  }

  type Tokens = Result<seq<Token>, Error>

  function Prepend(t: Token, rest: Tokens): Tokens {
    if rest.Err? then rest else Ok([t] + rest.value)
  }

  predicate StartsNumber(s: string)
    requires s != ""
  {
    IsDigit(s[0]) || (s[0] == '.' && |s| > 1 && IsDigit(s[1]))
  }

  datatype Scanned = Bad(error: Error) | Skip(rest: string) | Emit(token: Token, rest: string)

  /** The white space or token at the front of a text. */
  function Scan(s: string): (r: Scanned)
    requires s != ""
    ensures !r.Bad? ==> |r.rest| < |s|
  {
    if IsSpace(s[0]) then Skip(s[1..])
    else if StartsNumber(s) then
      var n := NumberLength(s);
      if n == 0 then Bad(InvalidToken) else Emit(Number(NumberValue(s[..n])), s[n..])
    else if s[0] == '"' || s[0] == '\'' then
      var r := LexQuoted(s[1..], s[0]);
      if r.None? then Bad(UnterminatedString) else Emit(Quoted(r.value.0), r.value.1)
    else if IsIdentifierStart(s[0]) then
      var n := 1 + Run(s[1..], IsIdentifierPart);
      Emit(Identifier(s[..n]), s[n..])
    else if IsPair(s) then Emit(Operator(s[..2]), s[2..])
    else
      var t := Simple(s[0]);
      if t.None? then Bad(InvalidToken) else Emit(t.value, s[1..])
  }

  /** The tokens of a text; the end of the sequence stands for the end-of-input token. */
  function Lex(s: string): Tokens
    decreases |s|
  {
    if s == "" then Ok([])
    else match Scan(s)
      case Bad(error) => Err(error)
      case Skip(rest) => Lex(rest)
      case Emit(token, rest) => Prepend(token, Lex(rest))
  }

  // ----- Parser -----

  function Lower(s: string): (r: string)
    ensures |r| == |s|
  {
    seq(|s|, i requires 0 <= i < |s| =>
      if 'A' <= s[i] <= 'Z' then (s[i] as int + 32) as char else s[i])
  }

  /** The parts of a text between its dots. */
  function SplitDots(s: string): (parts: seq<string>)
    ensures parts != []
  {
    if s == "" then [""]
    else
      var rest := SplitDots(s[1..]);
      if s[0] == '.' then [""] + rest else [[s[0]] + rest[0]] + rest[1..]
  }

  function PathOf(name: string): Result<Node, Error> {
    var parts := SplitDots(name);
    if "" in parts then Err(UnexpectedToken) else Ok(Reference(parts[0], parts[1..]))
  }

  function Precedence(symbol: string): Option<nat> {
    if symbol == "or" || symbol == "||" then Some(1)
    else if symbol == "and" || symbol == "&&" then Some(2)
    else if symbol == "=" || symbol == "==" || symbol == "!=" || symbol == "<" || symbol == "<=" || symbol == ">"
      || symbol == ">=" then Some(3)
    else if symbol == "+" || symbol == "-" then Some(4)
    else if symbol == "*" || symbol == "/" || symbol == "%" then Some(5)
    else None
  }

  function OperatorNamed(symbol: string): BinaryOp {
    if symbol == "or" || symbol == "||" then Or
    else if symbol == "and" || symbol == "&&" then And
    else if symbol == "!=" then NotEqual
    else if symbol == "<" then Less
    else if symbol == "<=" then AtMost
    else if symbol == ">" then Greater
    else if symbol == ">=" then AtLeast
    else if symbol == "+" then Add
    else if symbol == "-" then Sub
    else if symbol == "*" then Mul
    else if symbol == "/" then Div
    else if symbol == "%" then Rem
    else Equal
  }

  /** The binary operator a token may stand for. */
  function Symbol(t: Token): Option<string> {
    match t
    case Identifier(name) => Some(Lower(name))
    case Operator(symbol) => Some(symbol)
    case _ => None
  }

  datatype Parse<+T> = Fail(error: Error) | Done(node: T, rest: seq<Token>)

  function ParsePrimary(ts: seq<Token>): (r: Parse<Node>)
    ensures r.Done? ==> |r.rest| < |ts|
    decreases |ts|, 0
  {
    if ts == [] then Fail(UnexpectedToken)
    else match ts[0]
      case Number(value) => Done(Literal(Num(value)), ts[1..])
      case Quoted(text) => Done(Literal(Str(text)), ts[1..])
      case LeftParen =>
        var r := ParseTernary(ts[1..]);
        if r.Fail? then r
        else if r.rest == [] || r.rest[0] != RightParen then Fail(UnexpectedToken)
        else Done(r.node, r.rest[1..])
      case Identifier(name) =>
        var lower := Lower(name);
        if lower == "true" then Done(Literal(Bool(true)), ts[1..])
        else if lower == "false" then Done(Literal(Bool(false)), ts[1..])
        else if lower == "null" then Done(Literal(Null), ts[1..])
        else if lower == "not" then
          var r := ParsePrimary(ts[1..]);
          if r.Fail? then r else Done(Unary(Not, r.node), r.rest)
        else if |ts| > 1 && ts[1] == LeftParen then
          var r := ParseArguments(ts[2..]);
          if r.Fail? then Fail(r.error) else Done(Call(lower, r.node), r.rest)
        else
          var path := PathOf(name);
          if path.Err? then Fail(path.error) else Done(path.value, ts[1..])
      case Operator(symbol) =>
        if symbol == "-" || symbol == "!" then
          var r := ParsePrimary(ts[1..]);
          if r.Fail? then r else Done(Unary(if symbol == "!" then Not else Negate, r.node), r.rest)
        else Fail(UnexpectedToken)
      case _ => Fail(UnexpectedToken)
  }

  function ParseArguments(ts: seq<Token>): (r: Parse<seq<Node>>)
    ensures r.Done? ==> |r.rest| < |ts|
    decreases |ts|, 4
  {
    if ts != [] && ts[0] == RightParen then Done([], ts[1..])
    else
      var first := ParseTernary(ts);
      if first.Fail? then Fail(first.error)
      else if first.rest != [] && first.rest[0] == Comma then
        var others := ParseArguments(first.rest[1..]);
        if others.Fail? then others else Done([first.node] + others.node, others.rest)
      else if first.rest != [] && first.rest[0] == RightParen then Done([first.node], first.rest[1..])
      else Fail(UnexpectedToken)
  }

  function ParseBinary(minimum: nat, ts: seq<Token>): (r: Parse<Node>)
    ensures r.Done? ==> |r.rest| < |ts|
    decreases |ts|, 2
  {
    var left := ParsePrimary(ts);
    if left.Fail? then left else ParseOperators(left.node, minimum, left.rest)
  }

  function ParseOperators(left: Node, minimum: nat, ts: seq<Token>): (r: Parse<Node>)
    ensures r.Done? ==> |r.rest| <= |ts|
    decreases |ts|, 1
  {
    if ts == [] || Symbol(ts[0]).None? then Done(left, ts)
    else
      var symbol := Symbol(ts[0]).value;
      var precedence := Precedence(symbol);
      if precedence.None? || precedence.value < minimum then Done(left, ts)
      else
        var right := ParseBinary(precedence.value + 1, ts[1..]);
        if right.Fail? then right
        else ParseOperators(Binary(OperatorNamed(symbol), left, right.node), minimum, right.rest)
  }

  function ParseTernary(ts: seq<Token>): (r: Parse<Node>)
    ensures r.Done? ==> |r.rest| < |ts|
    decreases |ts|, 3
  {
    var condition := ParseBinary(0, ts);
    if condition.Fail? || condition.rest == [] || condition.rest[0] != Operator("?") then condition
    else
      var whenTrue := ParseTernary(condition.rest[1..]);
      if whenTrue.Fail? then whenTrue
      else if whenTrue.rest == [] || whenTrue.rest[0] != Operator(":") then Fail(UnexpectedToken)
      else
        var whenFalse := ParseTernary(whenTrue.rest[1..]);
        if whenFalse.Fail? then whenFalse
        else Done(Call("if", [condition.node, whenTrue.node, whenFalse.node]), whenFalse.rest)
  }

  function ParseExpression(source: string): Result<Node, Error> {
    var tokens := Lex(source);
    if tokens.Err? then Err(tokens.error)
    else
      var r := ParseTernary(tokens.value);
      if r.Fail? then Err(r.error) else if r.rest != [] then Err(UnexpectedToken) else Ok(r.node)
  }

  // ----- A parse is not disturbed by a closing parenthesis after it -----

  ghost predicate Closes(v: seq<Token>) {
    v != [] && v[0] == RightParen
  }

  lemma {:induction false} PrimaryExtends(u: seq<Token>, v: seq<Token>)
    requires Closes(v) && ParsePrimary(u).Done?
    ensures ParsePrimary(u + v) == Done(ParsePrimary(u).node, ParsePrimary(u).rest + v)
    decreases |u|, 0
  {
    hide ParseTernary, ParseArguments;
    assert (u + v)[0] == u[0] && (u + v)[1..] == u[1..] + v;
    match u[0]
    case LeftParen => TernaryExtends(u[1..], v);
    case Identifier(name) =>
      var lower := Lower(name);
      if lower == "true" || lower == "false" || lower == "null" {
      } else if lower == "not" {
        PrimaryExtends(u[1..], v);
      } else if |u| > 1 && u[1] == LeftParen {
        assert (u + v)[2..] == u[2..] + v;
        ArgumentsExtend(u[2..], v);
      } else {
        assert (u + v)[1] != LeftParen;
      }
    case Operator(_) => PrimaryExtends(u[1..], v);
    case _ =>
  }

  lemma {:induction false} ArgumentsExtend(u: seq<Token>, v: seq<Token>)
    requires Closes(v) && ParseArguments(u).Done?
    ensures ParseArguments(u + v) == Done(ParseArguments(u).node, ParseArguments(u).rest + v)
    decreases |u|, 4
  {
    assert u != [] ==> (u + v)[0] == u[0] && (u + v)[1..] == u[1..] + v;
    if u == [] || u[0] != RightParen {
      var first := ParseTernary(u);
      TernaryExtends(u, v);
      assert first.rest != [];
      assert (first.rest + v)[0] == first.rest[0] && (first.rest + v)[1..] == first.rest[1..] + v;
      if first.rest[0] == Comma {
        ArgumentsExtend(first.rest[1..], v);
      }
    }
  }

  lemma {:induction false} BinaryExtends(minimum: nat, u: seq<Token>, v: seq<Token>)
    requires Closes(v) && ParseBinary(minimum, u).Done?
    ensures ParseBinary(minimum, u + v) == Done(ParseBinary(minimum, u).node, ParseBinary(minimum, u).rest + v)
    decreases |u|, 2
  {
    PrimaryExtends(u, v);
    var left := ParsePrimary(u);
    OperatorsExtend(left.node, minimum, left.rest, v);
  }

  lemma {:induction false} OperatorsExtend(left: Node, minimum: nat, u: seq<Token>, v: seq<Token>)
    requires Closes(v) && ParseOperators(left, minimum, u).Done?
    ensures ParseOperators(left, minimum, u + v)
         == Done(ParseOperators(left, minimum, u).node, ParseOperators(left, minimum, u).rest + v)
    decreases |u|, 1
  {
    hide ParsePrimary, ParseTernary;
    if u == [] {
      assert u + v == v;
    } else {
      assert (u + v)[0] == u[0] && (u + v)[1..] == u[1..] + v;
      if Symbol(u[0]).Some? {
        var precedence := Precedence(Symbol(u[0]).value);
        if precedence.Some? && precedence.value >= minimum {
          BinaryExtends(precedence.value + 1, u[1..], v);
          var right := ParseBinary(precedence.value + 1, u[1..]);
          OperatorsExtend(Binary(OperatorNamed(Symbol(u[0]).value), left, right.node), minimum, right.rest, v);
        }
      }
    }
  }

  lemma {:induction false} TernaryExtends(u: seq<Token>, v: seq<Token>)
    requires Closes(v) && ParseTernary(u).Done?
    ensures ParseTernary(u + v) == Done(ParseTernary(u).node, ParseTernary(u).rest + v)
    decreases |u|, 3
  {
    hide ParseBinary;
    BinaryExtends(0, u, v);
    var condition := ParseBinary(0, u);
    if condition.rest == [] {
      assert condition.rest + v == v;
    } else {
      assert (condition.rest + v)[0] == condition.rest[0] && (condition.rest + v)[1..] == condition.rest[1..] + v;
      if condition.rest[0] == Operator("?") {
        TernaryExtends(condition.rest[1..], v);
        var whenTrue := ParseTernary(condition.rest[1..]);
        assert (whenTrue.rest + v)[0] == whenTrue.rest[0] && (whenTrue.rest + v)[1..] == whenTrue.rest[1..] + v;
        TernaryExtends(whenTrue.rest[1..], v);
      }
    }
  }
}
