/** Relevance as text: normalisation, conjunction of group and question relevance, and its truth. */
module RelevanceText {
  import opened Wrappers
  import opened Expressions
  import opened Parser

  const TRUE_RELEVANCE := "1"

  function TrimStart(s: string): string {
    if s != "" && IsSpace(s[0]) then TrimStart(s[1..]) else s
  }

  function TrimEnd(s: string): string {
    if s != "" && IsSpace(s[|s| - 1]) then TrimEnd(s[..|s| - 1]) else s
  }

  function Trim(s: string): string {
    TrimEnd(TrimStart(s))
  }

  function Normalize(relevance: Option<string>): string {
    if relevance.Some? && Trim(relevance.value) != "" then Trim(relevance.value) else TRUE_RELEVANCE
  }

  function Conjoined(left: string, right: string): string {
    "(" + left + ") and (" + right + ")"
  }

  function Combine(group: Option<string>, question: Option<string>): string {
    var g, q := Normalize(group), Normalize(question);
    if g == TRUE_RELEVANCE then q
    else if q == TRUE_RELEVANCE || q == g then g
    else Conjoined(g, q)
  }

  predicate IsUnconditional(relevance: string) {
    Normalize(Some(relevance)) == TRUE_RELEVANCE
  }

  /** The set of names a relevance text reads; None when it does not parse. */
  function ReferencesOf(relevance: string): Option<set<string>> {
    match ParseExpression(relevance)
    case Err(_) => None
    case Ok(node) => Some(References(node))
  }

  /** An absent or empty relevance asks for nothing. */
  predicate IsPresent(relevance: Option<string>) {
    relevance.Some? && relevance.value != ""
  }

  predicate Parses(relevance: Option<string>) {
    IsPresent(relevance) ==> ParseExpression(relevance.value).Ok?
  }

  /** A relevance text is true when it evaluates, without error, to a truthy value. */
  predicate Holds(relevance: string, ctx: Context, host: Host) {
    match ParseExpression(relevance)
    case Err(_) => false
    case Ok(node) => var r := Evaluate(node, ctx, host); r.Ok? && Truthy(r.value)
  }

  predicate HoldsIfPresent(relevance: Option<string>, ctx: Context, host: Host) {
    IsPresent(relevance) ==> Holds(relevance.value, ctx, host)
  }

  // ----- Tokens of concatenated texts -----

  /** A character that cannot continue any token. */
  predicate Breaks(c: char) {
    c == ')' || IsSpace(c)
  }

  ghost predicate BreaksAt(b: string) {
    b == "" || Breaks(b[0])
  }

  lemma BreaksNoToken(c: char)
    requires Breaks(c)
    ensures !IsIdentifierPart(c) && !IsDigit(c) && c != '=' && c != '&' && c != '|' && c != '\\'
  {
  }

  lemma {:induction false} RunAppend(s: string, b: string, test: char -> bool)
    requires b == "" || !test(b[0])
    ensures Run(s + b, test) == Run(s, test)
  {
    if s == "" {
      assert s + b == b;
    } else {
      assert (s + b)[1..] == s[1..] + b;
      RunAppend(s[1..], b, test);
    }
  }

  lemma {:induction false} NumberLengthAppend(s: string, b: string)
    requires BreaksAt(b)
    ensures NumberLength(s + b) == NumberLength(s)
  {
    RunAppend(s, b, IsDigit);
    var whole := Run(s, IsDigit);
    if whole < |s| {
      assert (s + b)[whole] == s[whole] && (s + b)[whole + 1..] == s[whole + 1..] + b;
      RunAppend(s[whole + 1..], b, IsDigit);
    }
  }

  lemma {:induction false} LexQuotedAppend(s: string, b: string, quote: char)
    requires LexQuoted(s, quote).Some?
    ensures LexQuoted(s + b, quote) == Some((LexQuoted(s, quote).value.0, LexQuoted(s, quote).value.1 + b))
    decreases |s|
  {
    assert (s + b)[0] == s[0] && (s + b)[1..] == s[1..] + b;
    if s[0] != quote {
      if s[0] == '\\' {
        assert (s + b)[1] == s[1] && (s + b)[2..] == s[2..] + b;
        LexQuotedAppend(s[2..], b, quote);
      } else {
        LexQuotedAppend(s[1..], b, quote);
      }
    }
  }

  ghost function Extended(scanned: Scanned, b: string): Scanned {
    match scanned
    case Bad(_) => scanned
    case Skip(rest) => Skip(rest + b)
    case Emit(token, rest) => Emit(token, rest + b)
  }

  /** The front token of a text does not change when a breaking text follows. */
  lemma {:induction false} ScanAppend(a: string, b: string)
    requires a != "" && BreaksAt(b) && !Scan(a).Bad?
    ensures Scan(a + b) == Extended(Scan(a), b)
  {
    assert (a + b)[0] == a[0] && (a + b)[1..] == a[1..] + b;
    NumberAppend(a, b);
    if a[0] == '"' || a[0] == '\'' {
      LexQuotedAppend(a[1..], b, a[0]);
    } else if IsIdentifierStart(a[0]) {
      IdentifierAppend(a, b);
    } else {
      PairAppend(a, b);
    }
  }

  lemma NumberAppend(a: string, b: string)
    requires a != "" && BreaksAt(b)
    ensures StartsNumber(a + b) == StartsNumber(a) && NumberLength(a + b) == NumberLength(a)
    ensures var n := NumberLength(a); (a + b)[..n] == a[..n] && (a + b)[n..] == a[n..] + b
  {
    NumberLengthAppend(a, b);
    assert (a + b)[0] == a[0];
    if |a| > 1 {
      assert (a + b)[1] == a[1];
    } else if b != "" {
      BreaksNoToken(b[0]);
      assert (a + b)[1] == b[0];
    }
    var n := NumberLength(a);
    assert (a + b)[..n] == a[..n] && (a + b)[n..] == a[n..] + b;
  }

  lemma IdentifierAppend(a: string, b: string)
    requires a != "" && BreaksAt(b)
    ensures Run(a[1..] + b, IsIdentifierPart) == Run(a[1..], IsIdentifierPart)
    ensures var m := 1 + Run(a[1..], IsIdentifierPart); (a + b)[..m] == a[..m] && (a + b)[m..] == a[m..] + b
  {
    if b != "" { BreaksNoToken(b[0]); }
    RunAppend(a[1..], b, IsIdentifierPart);
    var m := 1 + Run(a[1..], IsIdentifierPart);
    assert (a + b)[..m] == a[..m] && (a + b)[m..] == a[m..] + b;
  }

  lemma PairAppend(a: string, b: string)
    requires a != "" && BreaksAt(b)
    ensures IsPair(a + b) == IsPair(a)
    ensures IsPair(a) ==> (a + b)[..2] == a[..2] && (a + b)[2..] == a[2..] + b
  {
    if |a| >= 2 {
      assert (a + b)[..2] == a[..2];
    } else if b != "" {
      assert (a + b)[..2] == [a[0], b[0]];
    }
  }

  lemma {:induction false} LexAppend(a: string, b: string)
    requires Lex(a).Ok? && BreaksAt(b)
    ensures Lex(a + b) == if Lex(b).Err? then Lex(b) else Ok(Lex(a).value + Lex(b).value)
    decreases |a|
  {
    if a == "" {
      assert a + b == b;
      assert Lex(b).Ok? ==> [] + Lex(b).value == Lex(b).value;
    } else {
      ScanAppend(a, b);
      match Scan(a)
      case Skip(rest) => LexAppend(rest, b);
      case Emit(token, rest) =>
        LexAppend(rest, b);
        assert Lex(a + b) == Prepend(token, Lex(rest + b));
        if Lex(b).Ok? {
          assert [token] + (Lex(rest).value + Lex(b).value) == ([token] + Lex(rest).value) + Lex(b).value;
        }
    }
  }

  ghost predicate AllSpace(s: string) {
    forall c :: c in s ==> IsSpace(c)
  }

  lemma {:induction false} LexSpace(sp: string)
    requires AllSpace(sp)
    ensures Lex(sp) == Ok([])
  {
    if sp != "" {
      assert IsSpace(sp[0]) by { assert sp[0] in sp; }
      LexSpace(sp[1..]);
    }
  }

  lemma {:induction false} LexQuotedSpace(s: string, sp: string, quote: char)
    requires AllSpace(sp) && !IsSpace(quote) && LexQuoted(s, quote).None?
    ensures LexQuoted(s + sp, quote).None?
    decreases |s| + |sp|
  {
    if sp != "" {
      assert IsSpace(sp[0]) && AllSpace(sp[1..]) by { assert sp[0] in sp; }
    }
    if s == "" {
      assert s + sp == sp;
      if sp != "" {
        LexQuotedSpace("", sp[1..], quote);
        assert "" + sp[1..] == sp[1..];
      }
    } else {
      assert (s + sp)[0] == s[0] && (s + sp)[1..] == s[1..] + sp;
      if s[0] == '\\' {
        if |s| == 1 {
          if sp != "" {
            LexQuotedSpace("", sp[1..], quote);
            assert (s + sp)[2..] == "" + sp[1..];
          }
        } else {
          assert (s + sp)[1] == s[1] && (s + sp)[2..] == s[2..] + sp;
          LexQuotedSpace(s[2..], sp, quote);
        }
      } else {
        LexQuotedSpace(s[1..], sp, quote);
      }
    }
  }

  lemma ScanBadTrailingSpace(a: string, sp: string)
    requires a != "" && AllSpace(sp) && Scan(a).Bad?
    ensures Scan(a + sp) == Scan(a)
  {
    assert BreaksAt(sp) by { assert sp != "" ==> sp[0] in sp; }
    NumberLengthAppend(a, sp);
    assert (a + sp)[0] == a[0] && (a + sp)[1..] == a[1..] + sp;
    assert StartsNumber(a + sp) == StartsNumber(a);
    PairAppend(a, sp);
    if a[0] == '"' || a[0] == '\'' {
      LexQuotedSpace(a[1..], sp, a[0]);
    }
  }

  /** Trailing white space changes neither the tokens nor the error. */
  lemma {:induction false} LexTrailingSpace(a: string, sp: string)
    requires AllSpace(sp)
    ensures Lex(a + sp) == Lex(a)
    decreases |a|
  {
    LexSpace(sp);
    if a == "" {
      assert a + sp == sp;
    } else if Scan(a).Bad? {
      ScanBadTrailingSpace(a, sp);
    } else {
      assert BreaksAt(sp) by { assert sp != "" ==> sp[0] in sp; }
      ScanAppend(a, sp);
      LexTrailingSpace(Scan(a).rest, sp);
    }
  }

  lemma {:induction false} LexTrimStart(s: string)
    ensures Lex(TrimStart(s)) == Lex(s)
  {
    if s != "" && IsSpace(s[0]) {
      LexTrimStart(s[1..]);
    }
  }

  lemma {:induction false} LexTrimEnd(s: string)
    ensures Lex(TrimEnd(s)) == Lex(s)
  {
    hide Lex;
    if s != "" && IsSpace(s[|s| - 1]) {
      var front := s[..|s| - 1];
      LexTrimEnd(front);
      LexTrailingSpace(front, [s[|s| - 1]]);
      assert s == front + [s[|s| - 1]];
    }
  }

  /** Trimming a text does not change how it parses. */
  lemma TrimmingKeepsParse(s: string)
    ensures ParseExpression(Trim(s)) == ParseExpression(s)
  {
    LexTrimStart(s);
    LexTrimEnd(TrimStart(s));
  }

  // ----- Trimming is idempotent -----

  lemma {:induction false} TrimStartEnds(s: string)
    ensures TrimStart(s) != "" ==> !IsSpace(TrimStart(s)[0])
  {
    if s != "" && IsSpace(s[0]) { TrimStartEnds(s[1..]); }
  }

  lemma {:induction false} TrimEndEnds(s: string)
    ensures var t := TrimEnd(s); t != "" ==> !IsSpace(t[|t| - 1]) && t[0] == s[0]
    ensures |TrimEnd(s)| <= |s|
  {
    if s != "" && IsSpace(s[|s| - 1]) { TrimEndEnds(s[..|s| - 1]); }
  }

  lemma TrimIdempotent(s: string)
    ensures Trim(Trim(s)) == Trim(s)
  {
    TrimStartEnds(s);
    TrimEndEnds(TrimStart(s));
  }

  // ----- The conjunction of two relevance texts -----

  lemma LexParenthesis(c: char, rest: string, token: Token)
    requires (c == '(' && token == LeftParen) || (c == ')' && token == RightParen)
    ensures Lex([c] + rest) == Prepend(token, Lex(rest))
  {
    var s := [c] + rest;
    assert s[0] == c && s[1..] == rest;
    assert |s| >= 2 ==> s[..2][0] == c;
    assert Scan(s) == Emit(token, rest);
  }

  lemma LexAfterSpace(rest: string)
    ensures Lex(" " + rest) == Lex(rest)
  {
    var s := " " + rest;
    assert s[0] == ' ' && s[1..] == rest;
    assert Scan(s) == Skip(rest);
  }

  lemma LexConnectiveWord(rest: string)
    ensures Lex("and (" + rest) == Prepend(Identifier("and"), Prepend(LeftParen, Lex(rest)))
  {
    var after, paren := " (" + rest, "(" + rest;
    LexParenthesis('(', rest, LeftParen);
    assert ['('] + rest == paren && " " + paren == after && after[0] == ' ';
    LexAfterSpace(paren);
    assert "and" + after == "and (" + rest;
    ScanAnd(after);
  }

  lemma ScanAnd(after: string)
    requires BreaksAt(after)
    ensures Scan("and" + after) == Emit(Identifier("and"), after)
  {
    var s := "and" + after;
    assert Run("", IsIdentifierPart) == 0 && "d"[1..] == "" && "nd"[1..] == "d";
    assert Run("d", IsIdentifierPart) == 1 && Run("nd", IsIdentifierPart) == 2;
    RunAppend("nd", after, IsIdentifierPart);
    assert s[1..] == "nd" + after;
    assert s[..3] == "and" && s[3..] == after;
  }

  function Connective(tq: seq<Token>): seq<Token> {
    [RightParen, Identifier("and"), LeftParen] + tq + [RightParen]
  }

  lemma ConnectiveText(q: string, last: string)
    ensures ([')'] + (" " + ("and (" + (q + last)))) == ") and (" + q + last
  {
  }

  lemma ConnectiveTokens(tq: seq<Token>)
    ensures [RightParen] + ([Identifier("and")] + ([LeftParen] + (tq + [RightParen]))) == Connective(tq)
  {
  }

  lemma LexConnective(q: string)
    requires Lex(q).Ok?
    ensures Lex(") and (" + q + ")") == Ok(Connective(Lex(q).value))
  {
    var last := ")";
    LexParenthesis(')', "", RightParen);
    assert [')'] + "" == last && [RightParen] + [] == [RightParen];
    LexAppend(q, last);
    var rest := q + last;
    LexConnectiveWord(rest);
    var word := "and (" + rest;
    var spaced := " " + word;
    assert spaced[0] == ' ' && spaced[1..] == word;
    assert Scan(spaced) == Skip(word);
    LexParenthesis(')', spaced, RightParen);
    ConnectiveText(q, last);
    ConnectiveTokens(Lex(q).value);
  }

  lemma LexConjoined(g: string, q: string)
    requires Lex(g).Ok? && Lex(q).Ok?
    ensures Lex(Conjoined(g, q)) == Ok([LeftParen] + (Lex(g).value + Connective(Lex(q).value)))
  {
    hide Connective, Lex;
    var middle := ") and (" + q + ")";
    LexConnective(q);
    LexAppend(g, middle);
    LexParenthesis('(', g + middle, LeftParen);
    assert ['('] + (g + middle) == Conjoined(g, q);
  }

  lemma ParenthesisedPrimary(ts: seq<Token>, v: seq<Token>)
    requires ParseTernary(ts).Done? && ParseTernary(ts).rest == [] && Closes(v)
    ensures ParsePrimary([LeftParen] + (ts + v)) == Done(ParseTernary(ts).node, v[1..])
  {
    TernaryExtends(ts, v);
    assert [] + v == v;
    assert ([LeftParen] + (ts + v))[1..] == ts + v;
  }

  lemma ParseConjoined(tg: seq<Token>, tq: seq<Token>)
    requires ParseTernary(tg).Done? && ParseTernary(tg).rest == []
    requires ParseTernary(tq).Done? && ParseTernary(tq).rest == []
    ensures ParseTernary([LeftParen] + (tg + Connective(tq)))
         == Done(Binary(And, ParseTernary(tg).node, ParseTernary(tq).node), [])
  {
    var right := [LeftParen] + (tq + [RightParen]);
    ParenthesisedPrimary(tq, [RightParen]);
    assert ParseBinary(3, right) == Done(ParseTernary(tq).node, []);
    ParenthesisedPrimary(tg, Connective(tq));
    var word := [Identifier("and")] + right;
    assert Connective(tq)[1..] == word && word[1..] == right;
    assert Lower("and") == "and";
    assert Symbol(word[0]) == Some("and") && Precedence("and") == Some(2);
    assert ParseOperators(ParseTernary(tg).node, 0, word)
        == ParseOperators(Binary(And, ParseTernary(tg).node, ParseTernary(tq).node), 0, []);
  }

  /** "(g) and (q)" parses to the conjunction of the parses of g and q. */
  lemma ConjoinedParses(g: string, q: string)
    requires ParseExpression(g).Ok? && ParseExpression(q).Ok?
    ensures ParseExpression(Conjoined(g, q))
         == Ok(Binary(And, ParseExpression(g).value, ParseExpression(q).value))
  {
    LexConjoined(g, q);
    ParseConjoined(Lex(g).value, Lex(q).value);
  }

  lemma TrueRelevanceParses()
    ensures ParseExpression(TRUE_RELEVANCE) == Ok(Literal(Num(1.0)))
  {
    var s := TRUE_RELEVANCE;
    assert s[1..] == "" && s[..1] == s;
    assert Run("", IsDigit) == 0 && Run(s, IsDigit) == 1;
    assert WholeValue("") == 0.0 && s[..0] == "";
    assert DigitValue('1') == 1.0;
    assert WholeValue(s) == 1.0;
    assert Scan(s) == Emit(Number(1.0), "");
    assert Lex("") == Ok([]);
    var ts := [Number(1.0)];
    assert ts + [] == ts;
    assert Lex(s) == Ok(ts);
    assert ts[1..] == [];
    assert ParsePrimary(ts) == Done(Literal(Num(1.0)), []);
  }

  lemma EmptyTextDoesNotParse()
    ensures ParseExpression("").Err?
  {
    assert ParsePrimary([]) == Fail(UnexpectedToken);
    assert ParseBinary(0, []) == Fail(UnexpectedToken);
  }

  /** A relevance that is there but only white space: the compiler takes it for none, the evaluator rejects it. */
  predicate IsBlankRelevance(relevance: Option<string>) {
    IsPresent(relevance) && Trim(relevance.value) == ""
  }

  predicate ParsesOrBlank(relevance: Option<string>) {
    Parses(relevance) || IsBlankRelevance(relevance)
  }

  /** A blank relevance is compiled like an absent one, but it does not parse, so the simulator never shows it. */
  lemma BlankIsTakenForNone(blank: Option<string>, other: Option<string>, ctx: Context, host: Host)
    requires IsBlankRelevance(blank)
    ensures Combine(blank, other) == Combine(None, other) && Combine(other, blank) == Combine(other, None)
    ensures Combine(None, blank) == TRUE_RELEVANCE && IsUnconditional(Combine(None, blank))
    ensures !Parses(blank) && !HoldsIfPresent(blank, ctx, host)
  {
    TrimmingKeepsParse(blank.value);
    EmptyTextDoesNotParse();
    NormalizeFixed(None);
  }

  lemma NormalizedParses(relevance: Option<string>)
    requires ParsesOrBlank(relevance)
    ensures ParseExpression(Normalize(relevance)).Ok?
    ensures !IsPresent(relevance) || IsBlankRelevance(relevance) ==> Normalize(relevance) == TRUE_RELEVANCE
    ensures IsPresent(relevance) && !IsBlankRelevance(relevance)
       ==> ParseExpression(Normalize(relevance)) == ParseExpression(relevance.value)
  {
    TrueRelevanceParses();
    if relevance.Some? {
      TrimmingKeepsParse(relevance.value);
      EmptyTextDoesNotParse();
    }
  }

  lemma NormalizedHolds(relevance: Option<string>, ctx: Context, host: Host)
    requires ParsesOrBlank(relevance)
    ensures Holds(Normalize(relevance), ctx, host)
         == (IsBlankRelevance(relevance) || HoldsIfPresent(relevance, ctx, host))
  {
    NormalizedParses(relevance);
    TrueRelevanceParses();
  }

  /** The effective relevance is true exactly when each part is, a blank one counting as true. */
  lemma CombineCountsBlankAsTrue(group: Option<string>, question: Option<string>, ctx: Context, host: Host)
    requires ParsesOrBlank(group) && ParsesOrBlank(question)
    ensures ParseExpression(Combine(group, question)).Ok?
    ensures Holds(Combine(group, question), ctx, host)
         == ((IsBlankRelevance(group) || HoldsIfPresent(group, ctx, host))
             && (IsBlankRelevance(question) || HoldsIfPresent(question, ctx, host)))
  {
    NormalizedParses(group);
    NormalizedParses(question);
    NormalizedHolds(group, ctx, host);
    NormalizedHolds(question, ctx, host);
    ConjoinedHolds(Normalize(group), Normalize(question), ctx, host);
  }

  /**
   * Group and question relevance both hold exactly when the effective relevance does and both parse: the two
   * readings part only where a part is there that does not parse, though the combined text holds.
   */
  lemma CombineIsConjunction(group: Option<string>, question: Option<string>, ctx: Context, host: Host)
    ensures HoldsIfPresent(group, ctx, host) && HoldsIfPresent(question, ctx, host)
       <==> Holds(Combine(group, question), ctx, host) && Parses(group) && Parses(question)
  {
    hide ParseExpression, Combine, Evaluate, IsBlankRelevance;
    if Parses(group) && Parses(question) {
      CombineCountsBlankAsTrue(group, question, ctx, host);
      if IsBlankRelevance(group) { BlankIsTakenForNone(group, question, ctx, host); }
      if IsBlankRelevance(question) { BlankIsTakenForNone(question, group, ctx, host); }
    }
  }

  // ----- Texts that parse only together -----

  const SPLICED := "true) or (true"

  /** The token "true", and the three tokens of "(true)". */
  const TRUE_TOKEN := Identifier("true")
  const TRUE_GROUP := [LeftParen, TRUE_TOKEN, RightParen]

  lemma LexTrueWord()
    ensures Lex("true") == Ok([TRUE_TOKEN])
  {
    var s := "true";
    assert s[1..] == "rue" && "rue"[1..] == "ue" && "ue"[1..] == "e" && "e"[1..] == "";
    assert Run("", IsIdentifierPart) == 0 && Run("e", IsIdentifierPart) == 1 && Run("ue", IsIdentifierPart) == 2;
    assert Run("rue", IsIdentifierPart) == 3;
    assert s[..4] == s && s[4..] == "";
    assert Scan(s) == Emit(TRUE_TOKEN, "");
    assert Lex("") == Ok([]);
    assert [TRUE_TOKEN] + [] == [TRUE_TOKEN];
  }

  lemma LexOrWord(rest: string)
    ensures Lex("or (" + rest) == Prepend(Identifier("or"), Prepend(LeftParen, Lex(rest)))
  {
    var after, paren := " (" + rest, "(" + rest;
    LexParenthesis('(', rest, LeftParen);
    assert ['('] + rest == paren && " " + paren == after && after[0] == ' ';
    LexAfterSpace(paren);
    assert "or" + after == "or (" + rest;
    ScanOr(after);
  }

  lemma ScanOr(after: string)
    requires BreaksAt(after)
    ensures Scan("or" + after) == Emit(Identifier("or"), after)
  {
    var s := "or" + after;
    assert s[1..] == "r" + after && "r"[1..] == "";
    assert Run("", IsIdentifierPart) == 0 && Run("r", IsIdentifierPart) == 1;
    RunAppend("r", after, IsIdentifierPart);
    assert s[..2] == "or" && s[2..] == after;
  }

  lemma LexSpliced()
    ensures Lex(SPLICED) == Ok([TRUE_TOKEN, RightParen, Identifier("or"), LeftParen, TRUE_TOKEN])
  {
    hide Lex;
    LexTrueWord();
    LexOrWord("true");
    var word := "or (" + "true";
    var spaced := " " + word;
    var ts := [Identifier("or"), LeftParen, TRUE_TOKEN];
    assert [Identifier("or")] + ([LeftParen] + [TRUE_TOKEN]) == ts;
    LexAfterSpace(word);
    LexParenthesis(')', spaced, RightParen);
    var tail := [')'] + spaced;
    assert [RightParen] + ts == [RightParen, Identifier("or"), LeftParen, TRUE_TOKEN];
    LexAppend("true", tail);
    assert [TRUE_TOKEN] + ([RightParen] + ts) == [TRUE_TOKEN, RightParen, Identifier("or"), LeftParen, TRUE_TOKEN];
    assert Lex("true" + tail) == Ok([TRUE_TOKEN, RightParen, Identifier("or"), LeftParen, TRUE_TOKEN]);
    assert SPLICED == "true" + tail;
  }

  lemma TrueGroup(minimum: nat, rest: seq<Token>)
    ensures ParsePrimary(TRUE_GROUP + rest) == Done(Literal(Bool(true)), rest)
    ensures ParseBinary(minimum, TRUE_GROUP + rest) == ParseOperators(Literal(Bool(true)), minimum, rest)
  {
    var inner := [TRUE_TOKEN, RightParen] + rest;
    assert (TRUE_GROUP + rest)[1..] == inner && inner[1..] == [RightParen] + rest;
    assert ([RightParen] + rest)[1..] == rest;
    assert Lower("true") == "true";
    assert ParsePrimary(inner) == Done(Literal(Bool(true)), [RightParen] + rest);
    assert Symbol(RightParen) == None && ([RightParen] + rest)[0] == RightParen;
    assert ParseBinary(0, inner) == Done(Literal(Bool(true)), [RightParen] + rest);
    assert ParseTernary(inner) == Done(Literal(Bool(true)), [RightParen] + rest);
  }

  lemma SplicedTokens(ts: seq<Token>)
    requires ts == TRUE_GROUP + ([Identifier("or")] + (TRUE_GROUP + ([Identifier("and")] + TRUE_GROUP)))
    ensures ParseTernary(ts)
         == Done(Binary(Or, Literal(Bool(true)), Binary(And, Literal(Bool(true)), Literal(Bool(true)))), [])
  {
    var yes := Literal(Bool(true));
    assert Lower("or") == "or" && Lower("and") == "and";
    assert TRUE_GROUP + [] == TRUE_GROUP;
    TrueGroup(3, []);
    var last := [Identifier("and")] + TRUE_GROUP;
    assert last[1..] == TRUE_GROUP;
    assert ParseOperators(yes, 2, last) == ParseOperators(Binary(And, yes, yes), 2, []);
    var right := TRUE_GROUP + last;
    TrueGroup(2, last);
    var first := [Identifier("or")] + right;
    assert first[1..] == right;
    assert ParseOperators(yes, 0, first) == ParseOperators(Binary(Or, yes, Binary(And, yes, yes)), 0, []);
    TrueGroup(0, first);
  }

  lemma SplicedParses()
    ensures ParseExpression(Conjoined(SPLICED, "true"))
         == Ok(Binary(Or, Literal(Bool(true)), Binary(And, Literal(Bool(true)), Literal(Bool(true)))))
  {
    hide ParseTernary, Lex;
    LexTrueWord();
    LexSpliced();
    LexConjoined(SPLICED, "true");
    var all := [LeftParen] + (Lex(SPLICED).value + Connective([TRUE_TOKEN]));
    assert all == TRUE_GROUP + ([Identifier("or")] + (TRUE_GROUP + ([Identifier("and")] + TRUE_GROUP)));
    SplicedTokens(all);
  }

  lemma SplicedAlone()
    ensures ParseExpression(SPLICED).Err? && ParseExpression("true").Ok?
  {
    hide Lex;
    LexTrueWord();
    LexSpliced();
    var ts := Lex(SPLICED).value;
    assert Lower("true") == "true" && Symbol(RightParen) == None;
    assert ParsePrimary(ts) == Done(Literal(Bool(true)), ts[1..]);
    assert ParseBinary(0, ts) == Done(Literal(Bool(true)), ts[1..]);
    assert [TRUE_TOKEN][1..] == [];
    assert ParsePrimary([TRUE_TOKEN]) == Done(Literal(Bool(true)), []);
  }

  /** A group text that does not parse can combine with a question text into one that parses and holds. */
  lemma SplicedTextHolds(ctx: Context, host: Host)
    ensures !Parses(Some(SPLICED)) && !HoldsIfPresent(Some(SPLICED), ctx, host) && Parses(Some("true"))
    ensures Holds(Combine(Some(SPLICED), Some("true")), ctx, host)
  {
    hide ParseExpression;
    SplicedAlone();
    SplicedParses();
    assert Trim(SPLICED) == SPLICED && Trim("true") == "true";
    assert Evaluate(Literal(Bool(true)), ctx, host) == Ok(Bool(true));
  }

  lemma ConjoinedHolds(g: string, q: string, ctx: Context, host: Host)
    requires ParseExpression(g).Ok? && ParseExpression(q).Ok?
    ensures ParseExpression(Conjoined(g, q)).Ok?
    ensures Holds(Conjoined(g, q), ctx, host) == (Holds(g, ctx, host) && Holds(q, ctx, host))
    ensures Holds(TRUE_RELEVANCE, ctx, host)
  {
    hide Lex, ParseTernary, Conjoined;
    ConjoinedParses(g, q);
    TrueRelevanceParses();
  }

  /** The effective relevance reads exactly the names that group and question relevance read. */
  lemma CombineReferences(group: Option<string>, question: Option<string>)
    requires ParsesOrBlank(group) && ParsesOrBlank(question)
    ensures ReferencesOf(Combine(group, question)).Some?
    ensures ReferencesOf(Normalize(group)).Some? && ReferencesOf(Normalize(question)).Some?
    ensures ReferencesOf(Combine(group, question)).value
         == ReferencesOf(Normalize(group)).value + ReferencesOf(Normalize(question)).value
  {
    NormalizedParses(group);
    NormalizedParses(question);
    CombinedReferences(Normalize(group), Normalize(question));
  }

  lemma CombinedReferences(g: string, q: string)
    requires ReferencesOf(g).Some? && ReferencesOf(q).Some?
    ensures ReferencesOf(TRUE_RELEVANCE) == Some({})
    ensures ReferencesOf(Conjoined(g, q)) == Some(ReferencesOf(g).value + ReferencesOf(q).value)
  {
    TrueRelevanceParses();
    ConjoinedParses(g, q);
    var left, right := ParseExpression(g).value, ParseExpression(q).value;
    assert References(Binary(And, left, right)) == References(left) + References(right);
  }

  /** An effective relevance is unconditional exactly when neither part asks for anything. */
  lemma CombineUnconditional(group: Option<string>, question: Option<string>)
    ensures IsUnconditional(Combine(group, question))
       <==> Normalize(group) == TRUE_RELEVANCE && Normalize(question) == TRUE_RELEVANCE
  {
    NormalizeFixed(group);
    NormalizeFixed(question);
    var c := Conjoined(Normalize(group), Normalize(question));
    assert c[0] == '(' && !IsSpace(c[0]);
    assert TrimStart(c) == c && TrimEnd(c) == c by { assert c[|c| - 1] == ')'; }
  }

  lemma UnconditionalHolds(relevance: string, ctx: Context, host: Host)
    requires ParseExpression(relevance).Ok? && IsUnconditional(relevance)
    ensures Holds(relevance, ctx, host)
  {
    hide Lex, ParseTernary;
    TrimmingKeepsParse(relevance);
    EmptyTextDoesNotParse();
    TrueRelevanceParses();
    assert Trim(relevance) == TRUE_RELEVANCE;
  }

  lemma NormalizeFixed(relevance: Option<string>)
    ensures Normalize(Some(Normalize(relevance))) == Normalize(relevance)
  {
    if relevance.Some? { TrimIdempotent(relevance.value); }
    assert TrimStart("1") == "1" && TrimEnd("1") == "1";
  }

  /** An empty relevance is an absent one, to the compiler and to the simulator. */
  lemma EmptyIsAbsent(other: Option<string>, ctx: Context, host: Host)
    ensures Combine(Some(""), other) == Combine(None, other) && Combine(other, Some("")) == Combine(other, None)
    ensures Parses(Some("")) && HoldsIfPresent(Some(""), ctx, host) && HoldsIfPresent(None, ctx, host)
  {
  }

  /** The effective relevance in every case: nothing asked, one side asked, the same text twice, or two texts joined. */
  lemma CombinedText(group: Option<string>, question: Option<string>)
    ensures Normalize(group) == TRUE_RELEVANCE ==> Combine(group, question) == Normalize(question)
    ensures Normalize(question) == TRUE_RELEVANCE ==> Combine(group, question) == Normalize(group)
    ensures Normalize(group) == Normalize(question) ==> Combine(group, question) == Normalize(group)
    ensures (Normalize(group) != TRUE_RELEVANCE && Normalize(question) != TRUE_RELEVANCE
             && Normalize(group) != Normalize(question)) ==>
              Combine(group, question) == "(" + Normalize(group) + ") and (" + Normalize(question) + ")"
  {
  }
}
