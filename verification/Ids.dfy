/** Compiled identifiers: a namespace letter and hexadecimal encodings of external IDs, separated by 'g'. */
module Ids {
  import opened Words

  function HexDigit(n: nat): char
    requires n < 16
  {
    if n < 10 then ('0' as int + n) as char else ('a' as int + n - 10) as char
  }

  function Hex(n: nat): (s: string)
    ensures |s| == 1 <==> n < 16
    ensures s != "" && 'g' !in s
  {
    if n < 16 then [HexDigit(n)] else Hex(n / 16) + [HexDigit(n % 16)]
  }

  /** The first UTF-16 code unit of a character. */
  function FirstUnit(c: char): nat {
    var n := c as int;
    if n < 0x10000 then n else 0xD800 + (n - 0x10000) / 0x400
  }

  function EncodeCharacter(c: char): (s: string)
    ensures 'g' !in s
  {
    var h := Hex(FirstUnit(c));
    if |h| < 2 then "0" + h else h
  }

  function Encode(externalId: string): (s: string)
    ensures 'g' !in s
  {
    if externalId == "" then "" else EncodeCharacter(externalId[0]) + Encode(externalId[1..])
  }

  function EncodeAll(parts: seq<string>): (words: seq<string>)
    ensures FreeOf('g', words)
  {
    if parts == [] then [] else [Encode(parts[0])] + EncodeAll(parts[1..])
  }

  function Namespaced(namespace: string, parts: seq<string>): string {
    "al" + namespace + Joined('g', EncodeAll(parts))
  }

  function GroupId(survey: string, group: string): string { Namespaced("b", [survey, group]) }

  function QuestionId(survey: string, question: string): string { Namespaced("q", [survey, question]) }

  function EndingId(survey: string, ending: string): string { Namespaced("e", [survey, ending]) }

  function EquationVariableId(survey: string, question: string): string { Namespaced("v", [survey, question]) }

  function EquationActionId(survey: string, question: string): string { Namespaced("a", [survey, question]) }

  function EquationLogicId(survey: string, question: string): string { Namespaced("l", [survey, question]) }

  function EquationConditionGroupId(survey: string, question: string): string { Namespaced("c", [survey, question]) }

  function OptionId(survey: string, question: string, item: string): string {
    Namespaced("o", [survey, question, item])
  }

  function RankingChoiceId(survey: string, question: string, item: string): string {
    Namespaced("r", [survey, question, item])
  }

  function MatrixRowId(survey: string, question: string, item: string): string {
    Namespaced("mr", [survey, question, item])
  }

  function MatrixColumnId(survey: string, question: string, item: string): string {
    Namespaced("mc", [survey, question, item])
  }

  /** An external ID as the canonical schema accepts it. */
  predicate IsExternalId(s: string) {
    1 <= |s| <= 128
    && ('A' <= s[0] <= 'Z' || 'a' <= s[0] <= 'z')
    && forall c :: c in s ==> 'A' <= c <= 'Z' || 'a' <= c <= 'z' || '0' <= c <= '9' || c == '_' || c == '-'
  }

  /** Texts whose characters encode to exactly two digits each; external IDs and routing paths are such. */
  ghost predicate Encodable(s: string) {
    forall c :: c in s ==> c as int < 0x100
  }

  /** A request for a compiled ID: which builder, and its arguments. */
  datatype Request =
    | Group(survey: string, id: string) | Question(survey: string, id: string) | Ending(survey: string, id: string)
    | EquationVariable(survey: string, id: string) | EquationAction(survey: string, id: string)
    | EquationLogic(survey: string, id: string) | EquationConditionGroup(survey: string, id: string)
    | ChoiceOption(survey: string, id: string, item: string) | RankingChoice(survey: string, id: string, item: string)
    | MatrixRow(survey: string, id: string, item: string) | MatrixColumn(survey: string, id: string, item: string)

  function CompileId(r: Request): string {
    match r
    case Group(s, x) => GroupId(s, x)
    case Question(s, x) => QuestionId(s, x)
    case Ending(s, x) => EndingId(s, x)
    case EquationVariable(s, x) => EquationVariableId(s, x)
    case EquationAction(s, x) => EquationActionId(s, x)
    case EquationLogic(s, x) => EquationLogicId(s, x)
    case EquationConditionGroup(s, x) => EquationConditionGroupId(s, x)
    case ChoiceOption(s, x, y) => OptionId(s, x, y)
    case RankingChoice(s, x, y) => RankingChoiceId(s, x, y)
    case MatrixRow(s, x, y) => MatrixRowId(s, x, y)
    case MatrixColumn(s, x, y) => MatrixColumnId(s, x, y)
  }

  ghost predicate WellFormed(r: Request) {
    match r
    case ChoiceOption(s, x, y) => Encodable(s) && Encodable(x) && Encodable(y)
    case RankingChoice(s, x, y) => Encodable(s) && Encodable(x) && Encodable(y)
    case MatrixRow(s, x, y) => Encodable(s) && Encodable(x) && Encodable(y)
    case MatrixColumn(s, x, y) => Encodable(s) && Encodable(x) && Encodable(y)
    case _ => Encodable(r.survey) && Encodable(r.id)
  }

  lemma ExternalIdsAreEncodable(s: string)
    requires IsExternalId(s)
    ensures Encodable(s)
  {
  }

  lemma TwoDigits(c: char)
    requires c as int < 0x100
    ensures |EncodeCharacter(c)| == 2
    ensures EncodeCharacter(c) == [HexDigit(c as int / 16), HexDigit(c as int % 16)]
  {
    var n := c as int;
    if n >= 16 {
      assert Hex(n / 16) == [HexDigit(n / 16)];
    }
  }

  lemma EncodeCharacterInjective(a: char, b: char)
    requires a as int < 0x100 && b as int < 0x100 && EncodeCharacter(a) == EncodeCharacter(b)
    ensures a == b
  {
    TwoDigits(a);
    TwoDigits(b);
    assert EncodeCharacter(a)[0] == EncodeCharacter(b)[0] && EncodeCharacter(a)[1] == EncodeCharacter(b)[1];
    assert a as int / 16 == b as int / 16 && a as int % 16 == b as int % 16;
  }

  lemma EncodeFront(s: string)
    requires s != "" && Encodable(s)
    ensures Encodable(s[1..]) && s[0] as int < 0x100
    ensures Encode(s)[..2] == EncodeCharacter(s[0]) && Encode(s)[2..] == Encode(s[1..])
  {
    assert s[0] in s && forall c :: c in s[1..] ==> c in s;
    TwoDigits(s[0]);
  }

  /** An external ID is encoded digit by digit: two hexadecimal digits for every character, in order. */
  lemma {:induction false} EncodedInHex(s: string, i: nat)
    requires Encodable(s) && i < |s|
    ensures |Encode(s)| == 2 * |s| && s[i] in s && s[i] as int < 0x100
    ensures Encode(s)[2 * i] == HexDigit(s[i] as int / 16) && Encode(s)[2 * i + 1] == HexDigit(s[i] as int % 16)
  {
    hide HexDigit, Hex, EncodeCharacter, Encode;
    EncodeFront(s);
    TwoDigits(s[0]);
    var rest := s[1..];
    EncodeUnfolds(s);
    if rest == "" {
      EncodeNothing();
    } else {
      EncodedInHex(rest, if i > 0 then i - 1 else 0);
    }
  }

  lemma EncodeUnfolds(s: string)
    requires s != ""
    ensures Encode(s) == EncodeCharacter(s[0]) + Encode(s[1..])
  {
  }

  lemma EncodeNothing()
    ensures Encode("") == ""
  {
  }

  lemma {:induction false} EncodeInjective(a: string, b: string)
    requires Encodable(a) && Encodable(b) && Encode(a) == Encode(b)
    ensures a == b
  {
    if a != "" { EncodeFront(a); }
    if b != "" { EncodeFront(b); }
    if a != "" && b != "" {
      EncodeCharacterInjective(a[0], b[0]);
      EncodeInjective(a[1..], b[1..]);
      assert a == [a[0]] + a[1..] && b == [b[0]] + b[1..];
    }
  }

  lemma {:induction false} EncodeAllInjective(u: seq<string>, v: seq<string>)
    requires (forall x :: x in u ==> Encodable(x)) && (forall x :: x in v ==> Encodable(x))
    requires EncodeAll(u) == EncodeAll(v)
    ensures u == v
  {
    if u != [] && v != [] {
      var wu, wv := EncodeAll(u), EncodeAll(v);
      assert wu[0] == Encode(u[0]) && wv[0] == Encode(v[0]);
      assert wu[1..] == EncodeAll(u[1..]) && wv[1..] == EncodeAll(v[1..]);
      EncodeInjective(u[0], v[0]);
      EncodeAllInjective(u[1..], v[1..]);
      assert u == [u[0]] + u[1..] && v == [v[0]] + v[1..];
    }
  }

  /** A compiled ID determines its namespace and its parts. */
  lemma NamespacedInjective(m: string, u: seq<string>, n: string, v: seq<string>)
    requires 'g' !in m && 'g' !in n
    requires (forall x :: x in u ==> Encodable(x)) && (forall x :: x in v ==> Encodable(x))
    requires Namespaced(m, u) == Namespaced(n, v)
    ensures m == n && u == v
  {
    hide Encode, EncodeAll, Joined;
    var ju, jv := Joined('g', EncodeAll(u)), Joined('g', EncodeAll(v));
    assert m + ju == Namespaced(m, u)[2..] == Namespaced(n, v)[2..] == n + jv;
    JoinedStarts('g', EncodeAll(u));
    JoinedStarts('g', EncodeAll(v));
    SplitHead('g', m, ju, n, jv);
    JoinedInjective('g', EncodeAll(u), EncodeAll(v));
    EncodeAllInjective(u, v);
  }

  function NamespaceOf(r: Request): (n: string)
    ensures 'g' !in n
  {
    match r
    case Group(_, _) => "b"
    case Question(_, _) => "q"
    case Ending(_, _) => "e"
    case EquationVariable(_, _) => "v"
    case EquationAction(_, _) => "a"
    case EquationLogic(_, _) => "l"
    case EquationConditionGroup(_, _) => "c"
    case ChoiceOption(_, _, _) => "o"
    case RankingChoice(_, _, _) => "r"
    case MatrixRow(_, _, _) => "mr"
    case MatrixColumn(_, _, _) => "mc"
  }

  function PartsOf(r: Request): seq<string> {
    match r
    case ChoiceOption(s, x, y) => [s, x, y]
    case RankingChoice(s, x, y) => [s, x, y]
    case MatrixRow(s, x, y) => [s, x, y]
    case MatrixColumn(s, x, y) => [s, x, y]
    case _ => [r.survey, r.id]
  }

  /** No two requests, of the same builder or of different ones, compile to the same ID. */
  lemma CompiledIdsDecodeUniquely(a: Request, b: Request)
    requires WellFormed(a) && WellFormed(b)
    requires CompileId(a) == CompileId(b)
    ensures a == b
  {
    NamespacedInjective(NamespaceOf(a), PartsOf(a), NamespaceOf(b), PartsOf(b));
    assert PartsOf(a)[0] == PartsOf(b)[0] && PartsOf(a)[1] == PartsOf(b)[1];
    if |PartsOf(a)| == 3 { assert PartsOf(a)[2] == PartsOf(b)[2]; }
  }

  /** Beyond two digits the encoding is ambiguous: "123" then "45" reads like "12" then "345". */
  lemma WideCharactersCollide()
    ensures Encode("\U{123}E") == Encode("\U{12}\U{345}")
  {
    var a, b := "\U{123}E", "\U{12}\U{345}";
    assert a[1..] == "E" && b[1..] == "\U{345}" && "E"[1..] == "" && "\U{345}"[1..] == "";
    assert Hex(0x12) == "12" && Hex(0x123) == "123" && Hex(0x45) == "45";
    assert Hex(0x34) == "34" && Hex(0x345) == "345";
  }
}
