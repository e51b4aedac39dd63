/** The IDs minted for the routing of a survey: pairwise distinct, and none is a block's. */
module RoutingIds {
  import opened Wrappers
  import opened Expressions
  import opened Survey
  import opened Payload
  import opened Compiler
  import opened RelevanceCompiler
  import opened Routing
  import opened Sequences
  import opened Words
  import opened Segments
  import opened SurveySegments
  import opened CompiledSurvey
  import Crosswalk
  import DistinctIds
  import Ids
  import Parser
  import RelevanceText
  import Responding
  import SegmentConservation
  import Validation

  // ----- The IDs of conditions and rules -----

  function ConditionIds(c: Condition): seq<string> {
    match c
    case Single(id, _, _, _) => [id]
    case ConditionGroup(id, _, conditions) => [id] + AllConditionIds(conditions)
  }

  function AllConditionIds(conditions: seq<Condition>): seq<string> {
    if conditions == [] then [] else ConditionIds(conditions[0]) + AllConditionIds(conditions[1..])
  }

  /** A jump's rule ID, its conditions' IDs and its action's ID; calculations are not minted by routing. */
  function JumpIds(rule: Rule): seq<string> {
    match rule
    case Jump(id, conditions, jumpId, _) => [id] + ConditionIds(conditions) + [jumpId]
    case Calculation(_, _, _, _, _, _) => []
  }

  function RuleIds(rules: seq<Rule>): seq<string> {
    if rules == [] then [] else JumpIds(rules[0]) + RuleIds(rules[1..])
  }

  function BlockRoutingIds(blocks: seq<Block>): seq<string> {
    if blocks == [] then []
    else BlockRoutingIds(blocks[..|blocks| - 1]) + RuleIds(blocks[|blocks| - 1].logic)
  }

  // ----- The paths they are minted from -----

  type Path = seq<string>

  function Prefixed(word: string, paths: seq<Path>): seq<Path> {
    seq(|paths|, i requires 0 <= i < |paths| => [word] + paths[i])
  }

  /** Where the conditions compiled from an expression sit, below the expression's own path. */
  function NodePaths(node: Node): seq<Path> {
    match node
    case Unary(_, operand) =>
      if operand.Reference? || IsEmptyCall(operand) then [["condition"]] else Prefixed("not", NodePaths(operand))
    case Binary(op, left, right) =>
      if op.And? || op.Or? then
        [["group"]] + Prefixed("left", NodePaths(left)) + Prefixed("right", NodePaths(right))
      else [["condition"]]
    case _ => [["condition"]]
  }

  function RelevancePaths(node: Node, wrapped: bool): seq<Path> {
    if wrapped then [["group"]] + NodePaths(node) else NodePaths(node)
  }

  function Text(path: Path): string {
    Joined('.', path)
  }

  function Minted(createId: string -> string, prefix: string, paths: seq<Path>): seq<string> {
    seq(|paths|, i requires 0 <= i < |paths| => createId(prefix + Text(paths[i])))
  }

  lemma MintedAppend(createId: string -> string, prefix: string, a: seq<Path>, b: seq<Path>)
    ensures Minted(createId, prefix, a + b) == Minted(createId, prefix, a) + Minted(createId, prefix, b)
  {
    hide Text;
  }

  lemma OneMinted(createId: string -> string, prefix: string, word: string)
    ensures Minted(createId, prefix, [[word]]) == [createId(prefix + "." + word)]
  {
    WordText(word, []);
    assert prefix + ("." + word) == prefix + "." + word;
  }

  lemma MintedBelow(createId: string -> string, prefix: string, word: string, paths: seq<Path>)
    ensures Minted(createId, prefix, Prefixed(word, paths)) == Minted(createId, prefix + "." + word, paths)
  {
    forall i | 0 <= i < |paths|
      ensures prefix + Text(Prefixed(word, paths)[i]) == (prefix + "." + word) + Text(paths[i])
    {
      var path := [word] + paths[i];
      assert path[0] == word && path[1..] == paths[i];
      assert Text(path) == ['.'] + word + Text(paths[i]);
    }
  }

  lemma PairIds(id: string, k: Connector, l: Condition, r: Condition)
    ensures ConditionIds(ConditionGroup(id, k, [l, r])) == [id] + ConditionIds(l) + ConditionIds(r)
  {
    var both := [l, r];
    assert both[0] == l && both[1..] == [r] && [r][1..] == [];
    assert AllConditionIds([r]) == ConditionIds(r) + [];
  }

  lemma OneIds(id: string, k: Connector, l: Condition)
    ensures ConditionIds(ConditionGroup(id, k, [l])) == [id] + ConditionIds(l)
  {
    assert [l][1..] == [];
    assert AllConditionIds([l]) == ConditionIds(l) + [];
  }

  lemma DottedPaths(path: string)
    ensures path + "." + "condition" == path + ".condition" && path + "." + "group" == path + ".group"
    ensures path + "." + "not" == path + ".not"
    ensures path + "." + "left" == path + ".left" && path + "." + "right" == path + ".right"
  {
  }

  /** A compiled tree's IDs are minted from its paths, in order. */
  lemma {:induction false} TreeIds(node: Node, c: RelevanceContext, path: string)
    requires CompileNode(node, c, path).Ok?
    ensures ConditionIds(CompileNode(node, c, path).value) == Minted(c.createId, path, NodePaths(node))
  {
    hide Minted, Text, Prefixed;
    DottedPaths(path);
    OneMinted(c.createId, path, "condition");
    match node
    case Unary(_, operand) =>
      if !operand.Reference? && !IsEmptyCall(operand) {
        TreeIds(operand, c, path + ".not");
        MintedBelow(c.createId, path, "not", NodePaths(operand));
      }
    case Binary(op, left, right) =>
      if op.And? || op.Or? {
        TreeIds(left, c, path + ".left");
        TreeIds(right, c, path + ".right");
        MintedBelow(c.createId, path, "left", NodePaths(left));
        MintedBelow(c.createId, path, "right", NodePaths(right));
        OneMinted(c.createId, path, "group");
        var l, r := Prefixed("left", NodePaths(left)), Prefixed("right", NodePaths(right));
        MintedAppend(c.createId, path, [["group"]], l);
        MintedAppend(c.createId, path, [["group"]] + l, r);
        var k := if op.And? then AllOf else AnyOf;
        var a, b := CompileNode(left, c, path + ".left").value, CompileNode(right, c, path + ".right").value;
        PairIds(c.createId(path + ".group"), k, a, b);
      }
    case _ =>
  }

  lemma RelevanceIds(relevance: string, c: RelevanceContext) returns (paths: seq<Path>)
    requires CompileRelevance(relevance, c).Ok?
    ensures ConditionIds(CompileRelevance(relevance, c).value) == Minted(c.createId, "root", paths)
    ensures DistinctPaths(paths)
  {
    hide Minted, Text, Parser.ParseExpression, RelevanceText.Trim, StripBraces;
    var node := Parser.ParseExpression(RelevanceText.Trim(StripBraces(RelevanceText.Trim(relevance)))).value;
    var compiled := CompileNode(node, c, "root").value;
    TreeIds(node, c, "root");
    NodePathsDistinct(node);
    paths := RelevancePaths(node, !compiled.ConditionGroup?);
    if !compiled.ConditionGroup? {
      assert "root" + "." + "group" == "root.group";
      OneMinted(c.createId, "root", "group");
      MintedAppend(c.createId, "root", [["group"]], NodePaths(node));
      OneIds(c.createId("root.group"), AllOf, compiled);
      SinglePath(node, c, "root");
      NoDuplicatesCons(["group"], NodePaths(node));
      OnePath("group");
      assert ["group"] in [["group"]];
    }
  }

  // ----- Paths are distinct -----

  predicate IsPathWord(w: string) {
    w == "condition" || w == "group" || w == "not" || w == "left" || w == "right"
  }

  ghost predicate IsPath(path: Path) {
    path != [] && forall w :: w in path ==> IsPathWord(w)
  }

  ghost predicate DistinctPaths(paths: seq<Path>) {
    NoDuplicates(paths) && forall p :: p in paths ==> IsPath(p)
  }

  lemma PrefixedDistinct(word: string, paths: seq<Path>)
    requires DistinctPaths(paths) && IsPathWord(word)
    ensures DistinctPaths(Prefixed(word, paths))
    ensures forall p :: p in Prefixed(word, paths) ==> |p| > 1 && p[0] == word
  {
    var all := Prefixed(word, paths);
    forall i, j | 0 <= i < j < |all|
      ensures all[i] != all[j]
    {
      assert all[i][1..] == paths[i] && all[j][1..] == paths[j];
    }
    forall p | p in all
      ensures IsPath(p) && |p| > 1 && p[0] == word
    {
      var i :| 0 <= i < |all| && all[i] == p;
      assert paths[i] in paths;
    }
  }

  lemma {:induction false} NodePathsDistinct(node: Node)
    ensures DistinctPaths(NodePaths(node)) && NodePaths(node) != []
  {
    hide Prefixed, IsPathWord;
    OnePath("condition");
    OnePath("group");
    match node
    case Unary(_, operand) =>
      NodePathsDistinct(operand);
      PrefixedDistinct("not", NodePaths(operand)) by { assert IsPathWord("not") by { AllPathWords(); } }
      PrefixedLength("not", NodePaths(operand));
    case Binary(op, left, right) =>
      if op.And? || op.Or? {
        NodePathsDistinct(left);
        NodePathsDistinct(right);
        AllPathWords();
        PrefixedDistinct("left", NodePaths(left));
        PrefixedDistinct("right", NodePaths(right));
        NoDuplicatesAppend([["group"]], Prefixed("left", NodePaths(left)));
        NoDuplicatesAppend([["group"]] + Prefixed("left", NodePaths(left)), Prefixed("right", NodePaths(right)));
      }
    case _ =>
  }

  lemma AllPathWords()
    ensures IsPathWord("not") && IsPathWord("left") && IsPathWord("right")
    ensures IsPathWord("condition") && IsPathWord("group")
  {
  }

  lemma OnePath(word: string)
    requires word == "condition" || word == "group"
    ensures DistinctPaths([[word]])
  {
  }

  lemma PrefixedLength(word: string, paths: seq<Path>)
    ensures |Prefixed(word, paths)| == |paths|
  {
  }

  /** A tree that is a single condition has one path, and it ends in "condition". */
  lemma {:induction false} SinglePath(node: Node, c: RelevanceContext, path: string)
    requires CompileNode(node, c, path).Ok? && CompileNode(node, c, path).value.Single?
    ensures |NodePaths(node)| == 1 && NodePaths(node)[0] != []
      && NodePaths(node)[0][|NodePaths(node)[0]| - 1] == "condition"
    ensures ["group"] !in NodePaths(node)
  {
    if node.Unary? && !node.operand.Reference? && !IsEmptyCall(node.operand) {
      SinglePath(node.operand, c, path + ".not");
    }
  }

  // ----- The paths of a whole route -----

  /** The routing paths of one jump rule. */
  function JumpPaths(from: nat, target: nat, paths: seq<Path>): seq<Path> {
    [RulePath(from, target) + ["rule"]] + Rooted(RulePath(from, target), paths) + [RulePath(from, target) + ["jump"]]
  }

  function RulePath(from: nat, target: nat): Path {
    ["block", Numeral(from), "target", Numeral(target)]
  }

  function Rooted(rule: Path, paths: seq<Path>): seq<Path> {
    seq(|paths|, i requires 0 <= i < |paths| => rule + ["root"] + paths[i])
  }

  lemma {:induction false} TextAppend(a: Path, b: Path)
    ensures Text(a + b) == Text(a) + Text(b)
  {
    if a == [] {
      assert a + b == b;
    } else {
      TextAppend(a[1..], b);
      assert (a + b)[0] == a[0] && (a + b)[1..] == a[1..] + b;
      Associative(['.'] + a[0], Text(a[1..]), Text(b));
    }
  }

  lemma RulePathText(from: nat, target: nat)
    ensures "routing" + Text(RulePath(from, target)) == RoutePath(from, target)
  {
    hide Text;
    var f, t := Numeral(from), Numeral(target);
    WordText(t, []);
    WordText("target", [t]);
    WordText(f, ["target", t]);
    WordText("block", [f, "target", t]);
    assert [t] + [] == [t] && ["target"] + [t] == ["target", t] && [f] + ["target", t] == [f, "target", t];
    assert ["block"] + [f, "target", t] == RulePath(from, target);
  }

  lemma WordText(word: string, rest: Path)
    ensures Text([word] + rest) == "." + word + Text(rest)
    ensures Text([word]) == "." + word
  {
    var path := [word] + rest;
    assert path[0] == word && path[1..] == rest;
    assert [word][1..] == [];
    assert Joined('.', [word]) == ['.'] + word + Joined('.', []);
    assert "." == ['.'];
  }

  lemma BelowRule(from: nat, target: nat, word: string)
    ensures "routing" + Text(RulePath(from, target) + [word]) == RoutePath(from, target) + "." + word
  {
    hide RoutePath, Text, RulePath;
    RulePathText(from, target);
    TextAppend(RulePath(from, target), [word]);
    WordText(word, []);
  }

  lemma RootedText(from: nat, target: nat, path: Path)
    ensures "routing" + Text(RulePath(from, target) + ["root"] + path)
         == RoutePath(from, target) + "." + ("root" + Text(path))
  {
    hide RoutePath, Text, RulePath;
    BelowRule(from, target, "root");
    var rule := RulePath(from, target) + ["root"];
    TextAppend(rule, path);
    Associative("routing", Text(rule), Text(path));
    Associative(RoutePath(from, target) + ".", "root", Text(path));
  }

  /** A jump rule's IDs are minted from its paths, in order. */
  lemma JumpRuleIds(r: Route, from: nat, target: nat) returns (paths: seq<Path>)
    requires target < |r.blocks| && target < |r.relevance| && JumpRule(r, from, target).Ok?
    ensures JumpIds(JumpRule(r, from, target).value) == Minted(r.c.createId, "routing", JumpPaths(from, target, paths))
    ensures DistinctPaths(paths)
  {
    hide Text, RoutePath, CompileRelevance, RulePath;
    var route := RoutePath(from, target);
    var d := PrefixedContext(r.c, route);
    paths := RelevanceIds(r.relevance[target], d);
    BelowRule(from, target, "rule");
    BelowRule(from, target, "jump");
    DottedRule(route);
    forall i | 0 <= i < |paths|
      ensures "routing" + Text(Rooted(RulePath(from, target), paths)[i]) == route + "." + ("root" + Text(paths[i]))
    {
      RootedText(from, target, paths[i]);
    }
    assert Minted(d.createId, "root", paths) == Minted(r.c.createId, "routing", Rooted(RulePath(from, target), paths));
  }

  lemma DottedRule(route: string)
    ensures route + "." + "rule" == route + ".rule" && route + "." + "jump" == route + ".jump"
  {
  }

  /** A word that neither contains the separator nor needs a wide encoding. */
  ghost predicate Plain(w: string) {
    '.' !in w && Ids.Encodable(w)
  }

  ghost predicate PlainPath(p: Path) {
    forall w :: w in p ==> Plain(w)
  }

  /** A path of the jump rule from one position to another, with words free of dots. */
  ghost predicate Leads(p: Path, from: nat, target: nat) {
    |p| > 4 && p[..4] == RulePath(from, target) && PlainPath(p)
  }

  ghost predicate LeadsFrom(p: Path, from: nat, least: nat) {
    exists target: nat :: target >= least && Leads(p, from, target)
  }

  lemma LeadsOneWay(p: Path, a: nat, b: nat, c: nat, d: nat)
    requires Leads(p, a, b) && Leads(p, c, d)
    ensures a == c && b == d
  {
    assert p[..4][1] == Numeral(a) == Numeral(c) && p[..4][3] == Numeral(b) == Numeral(d);
    NumeralInjective(a, c);
    NumeralInjective(b, d);
  }

  lemma PathWordsFree(path: Path)
    requires IsPath(path)
    ensures PlainPath(path)
  {
    forall w | w in path
      ensures Plain(w)
    {
      assert IsPathWord(w);
    }
  }

  lemma TailLeads(from: nat, target: nat, tail: Path)
    requires tail != [] && PlainPath(tail)
    ensures Leads(RulePath(from, target) + tail, from, target)
  {
    var p := RulePath(from, target) + tail;
    assert p[..4] == RulePath(from, target);
    forall w | w in p
      ensures Plain(w)
    {
      assert w in tail || w == "block" || w == Numeral(from) || w == "target" || w == Numeral(target);
    }
  }

  /** Below one rule, paths are told apart by what follows the rule's own path. */
  lemma JumpPathsDistinct(from: nat, target: nat, paths: seq<Path>)
    requires DistinctPaths(paths)
    ensures NoDuplicates(JumpPaths(from, target, paths))
    ensures forall p :: p in JumpPaths(from, target, paths) ==> Leads(p, from, target)
  {
    hide RulePath, DistinctPaths, Leads, NoDuplicates;
    var rule, rooted := RulePath(from, target), Rooted(RulePath(from, target), paths);
    RootedDistinct(from, target, paths);
    FreeWords();
    TailLeads(from, target, ["rule"]);
    TailLeads(from, target, ["jump"]);
    OneDistinct(rule + ["rule"]);
    OneDistinct(rule + ["jump"]);
    forall p | p in rooted
      ensures p != rule + ["rule"] && p != rule + ["jump"]
    {
      assert |p| > |rule| && p[|rule|] == "root";
      assert (rule + ["rule"])[|rule|] == "rule" && (rule + ["jump"])[|rule|] == "jump";
    }
    assert (rule + ["rule"])[|rule|] == "rule" && (rule + ["jump"])[|rule|] == "jump";
    NoDuplicatesAppend([rule + ["rule"]], rooted);
    NoDuplicatesAppend([rule + ["rule"]] + rooted, [rule + ["jump"]]);
  }

  lemma FreeWords()
    ensures PlainPath(["rule"]) && PlainPath(["jump"]) && PlainPath(["root"])
  {
  }

  lemma OneDistinct(p: Path)
    ensures NoDuplicates([p])
  {
  }

  lemma RootedDistinct(from: nat, target: nat, paths: seq<Path>)
    requires DistinctPaths(paths)
    ensures var rooted := Rooted(RulePath(from, target), paths);
            NoDuplicates(rooted) &&
            forall p :: p in rooted ==>
              (|p| > |RulePath(from, target)| && p[|RulePath(from, target)|] == "root" && Leads(p, from, target))
  {
    hide RulePath, IsPath, Leads;
    var rule := RulePath(from, target);
    var rooted := Rooted(rule, paths);
    forall i, j | 0 <= i < j < |rooted|
      ensures rooted[i] != rooted[j]
    {
      assert rooted[i][|rule| + 1..] == paths[i] && rooted[j][|rule| + 1..] == paths[j];
    }
    forall p | p in rooted
      ensures |p| > |rule| && p[|rule|] == "root" && Leads(p, from, target)
    {
      var i :| 0 <= i < |rooted| && rooted[i] == p;
      assert paths[i] in paths;
      PathWordsFree(paths[i]);
      FreeWords();
      var tail := ["root"] + paths[i];
      assert forall w :: w in tail ==> w in ["root"] || w in paths[i];
      TailLeads(from, target, tail);
      assert p == rule + tail;
    }
  }

  lemma {:induction false} RuleIdsAppend(a: seq<Rule>, b: seq<Rule>)
    ensures RuleIds(a + b) == RuleIds(a) + RuleIds(b)
  {
    hide JumpIds;
    if a == [] {
      assert a + b == b;
    } else {
      RuleIdsAppend(a[1..], b);
      assert (a + b)[0] == a[0] && (a + b)[1..] == a[1..] + b;
      Associative(JumpIds(a[0]), RuleIds(a[1..]), RuleIds(b));
    }
  }

  /** Paths that mint these IDs, each leading from a position to some target at least as late as given. */
  ghost predicate MintsFrom(r: Route, ids: seq<string>, paths: seq<Path>, from: nat, least: nat) {
    ids == Minted(r.c.createId, "routing", paths) && NoDuplicates(paths) &&
    forall p :: p in paths ==> LeadsFrom(p, from, least)
  }

  lemma {:induction false} PlanIds(r: Route, from: nat, target: nat, seen: set<string>, plan: Plan)
    returns (paths: seq<Path>)
    requires Aligned(r) && from < |r.blocks| && PlanFrom(r, from, target, seen) == Ok(plan)
    ensures MintsFrom(r, RuleIds(plan.rules), paths, from, target)
    decreases |r.blocks| - target
  {
    hide RelevanceText.IsUnconditional, JumpIds, LeadsFrom, NoDuplicates;
    NothingMinted(r, from, target);
    paths := [];
    if target < |r.blocks| && !RelevanceText.IsUnconditional(r.relevance[target]) {
      var relevance := r.relevance[target];
      if relevance in seen || !ReferencesAvailable(r, from, target) {
        paths := PlanIds(r, from, target + 1, seen, plan);
        LaterStill(r, RuleIds(plan.rules), paths, from, target);
      } else {
        var rest := PlanFrom(r, from, target + 1, seen + {relevance}).value;
        var rule := JumpRule(r, from, target).value;
        var later := PlanIds(r, from, target + 1, seen + {relevance}, rest);
        paths := RuleThenRest(r, from, target, rule, rest.rules, later);
      }
    }
  }

  lemma NothingMinted(r: Route, from: nat, least: nat)
    ensures MintsFrom(r, RuleIds([]), [], from, least)
  {
  }

  lemma LaterStill(r: Route, ids: seq<string>, paths: seq<Path>, from: nat, target: nat)
    requires MintsFrom(r, ids, paths, from, target + 1)
    ensures MintsFrom(r, ids, paths, from, target)
  {
    hide Leads, NoDuplicates;
    forall p | p in paths
      ensures LeadsFrom(p, from, target)
    {
      assert LeadsFrom(p, from, target + 1);
    }
  }

  lemma RuleThenRest(r: Route, from: nat, target: nat, rule: Rule, rest: seq<Rule>, later: seq<Path>)
    returns (paths: seq<Path>)
    requires target < |r.blocks| && target < |r.relevance| && JumpRule(r, from, target) == Ok(rule)
    requires MintsFrom(r, RuleIds(rest), later, from, target + 1)
    ensures MintsFrom(r, RuleIds([rule] + rest), paths, from, target)
  {
    hide Leads, NoDuplicates, JumpIds, JumpRule, Minted;
    var own := JumpRuleIds(r, from, target);
    JumpPathsDistinct(from, target, own);
    paths := JumpPaths(from, target, own) + later;
    forall p | p in later
      ensures p !in JumpPaths(from, target, own) && LeadsFrom(p, from, target)
    {
      var t: nat :| t >= target + 1 && Leads(p, from, t);
      if p in JumpPaths(from, target, own) { LeadsOneWay(p, from, t, from, target); }
    }
    forall p | p in JumpPaths(from, target, own)
      ensures LeadsFrom(p, from, target)
    {
      assert Leads(p, from, target);
    }
    NoDuplicatesAppend(JumpPaths(from, target, own), later);
    MintedAppend(r.c.createId, "routing", JumpPaths(from, target, own), later);
    assert ([rule] + rest)[1..] == rest;
  }

  ghost predicate LeadsWithin(p: Path, n: nat) {
    exists from: nat, target: nat :: from < n && Leads(p, from, target)
  }

  ghost predicate MintsUpTo(r: Route, ids: seq<string>, paths: seq<Path>, n: nat) {
    ids == Minted(r.c.createId, "routing", paths) && NoDuplicates(paths) &&
    forall p :: p in paths ==> LeadsWithin(p, n)
  }

  lemma {:induction false} CalculationsMintNothing(rules: seq<Rule>)
    requires forall rule :: rule in rules ==> rule.Calculation?
    ensures RuleIds(rules) == []
  {
    if rules != [] {
      assert rules[0] in rules && forall rule :: rule in rules[1..] ==> rule in rules;
      CalculationsMintNothing(rules[1..]);
    }
  }

  lemma PlannedBlockIds(block: Block, plan: Plan)
    requires forall rule :: rule in block.logic ==> rule.Calculation?
    ensures RuleIds(WithPlan(block, plan).logic) == RuleIds(plan.rules)
  {
    hide JumpIds;
    CalculationsMintNothing(block.logic);
    RuleIdsAppend(block.logic, plan.rules);
    assert [] + RuleIds(plan.rules) == RuleIds(plan.rules);
    assert RuleIds([]) == [];
  }

  lemma {:induction false} RoutedIds(r: Route, n: nat, blocks: seq<Block>) returns (paths: seq<Path>)
    requires Aligned(r) && n <= |r.blocks| && RouteUpTo(r, n) == Ok(blocks)
    requires forall i, rule :: 0 <= i < n && rule in r.blocks[i].logic ==> rule.Calculation?
    ensures MintsUpTo(r, BlockRoutingIds(blocks), paths, n)
  {
    hide PlanFrom, WithPlan, BlockRoutingIds, MintsUpTo;
    paths := [];
    if n == 0 {
      NoBlocksMinted(r);
    } else {
      var before := RouteUpTo(r, n - 1).value;
      var earlier := RoutedIds(r, n - 1, before);
      paths := OneBlockMore(r, n, before, earlier, blocks);
    }
  }

  lemma OneBlockMore(r: Route, n: nat, before: seq<Block>, earlier: seq<Path>, blocks: seq<Block>)
    returns (paths: seq<Path>)
    requires Aligned(r) && 0 < n <= |r.blocks| && PlanFrom(r, n - 1, n, {}).Ok?
    requires blocks == before + [WithPlan(r.blocks[n - 1], PlanFrom(r, n - 1, n, {}).value)]
    requires forall rule :: rule in r.blocks[n - 1].logic ==> rule.Calculation?
    requires MintsUpTo(r, BlockRoutingIds(before), earlier, n - 1)
    ensures MintsUpTo(r, BlockRoutingIds(blocks), paths, n)
  {
    hide MintsUpTo, MintsFrom, PlanFrom, WithPlan, RuleIds;
    var plan := PlanFrom(r, n - 1, n, {}).value;
    var b := WithPlan(r.blocks[n - 1], plan);
    var own := PlanIds(r, n - 1, n, {}, plan);
    PlannedBlockIds(r.blocks[n - 1], plan);
    BlockThenPlan(r, n, BlockRoutingIds(before), earlier, RuleIds(plan.rules), own);
    assert blocks[..|blocks| - 1] == before && blocks[|blocks| - 1] == b;
    paths := earlier + own;
  }

  lemma NoBlocksMinted(r: Route)
    ensures MintsUpTo(r, BlockRoutingIds([]), [], 0)
  {
  }

  lemma BlockThenPlan(
    r: Route, n: nat, before: seq<string>, earlier: seq<Path>, planned: seq<string>, own: seq<Path>)
    requires n > 0 && MintsUpTo(r, before, earlier, n - 1) && MintsFrom(r, planned, own, n - 1, n)
    ensures MintsUpTo(r, before + planned, earlier + own, n)
  {
    hide Minted, NoDuplicates, Leads;
    MintedAppend(r.c.createId, "routing", earlier, own);
    forall p | p in earlier
      ensures p !in own && LeadsWithin(p, n)
    {
      var from: nat, target: nat :| from < n - 1 && Leads(p, from, target);
      if p in own {
        var t: nat :| t >= n && Leads(p, n - 1, t);
        LeadsOneWay(p, from, target, n - 1, t);
      }
    }
    forall p | p in own
      ensures LeadsWithin(p, n)
    {
      var t: nat :| t >= n && Leads(p, n - 1, t);
    }
    NoDuplicatesAppend(earlier, own);
  }

  // ----- Distinct paths, distinct IDs -----

  function PathName(p: Path): string {
    "routing_" + ("routing" + Text(p))
  }

  lemma PathNameInjective(p: Path, q: Path)
    requires PlainPath(p) && PlainPath(q) && PathName(p) == PathName(q)
    ensures p == q
  {
    assert PathName(p) == "routing_routing" + Text(p) && PathName(q) == "routing_routing" + Text(q);
    assert PathName(p)[15..] == Text(p) && PathName(q)[15..] == Text(q);
    JoinedInjective('.', p, q);
  }

  lemma {:induction false} TextEncodable(p: Path)
    requires PlainPath(p)
    ensures Ids.Encodable(Text(p))
  {
    if p != [] {
      assert PlainPath(p[1..]) && p[0] in p;
      TextEncodable(p[1..]);
      forall c | c in Text(p)
        ensures c as int < 0x100
      {
        assert c == '.' || c in p[0] || c in Text(p[1..]);
      }
    }
  }

  lemma PathNameEncodable(p: Path)
    requires PlainPath(p)
    ensures Ids.Encodable(PathName(p))
  {
    hide Text;
    TextEncodable(p);
    forall c | c in PathName(p)
      ensures c as int < 0x100
    {
      assert c in "routing_" || c in "routing" || c in Text(p);
    }
  }

  /** A routing ID is the group ID of a path's name. */
  lemma RoutingIdsAreGroupIds(survey: CanonicalSurvey, host: Host, p: Path)
    ensures RoutingContext(survey, host).createId("routing" + Text(p)) == Ids.GroupId(survey.externalId, PathName(p))
  {
    hide Text;
  }

  lemma MintedDistinct(survey: CanonicalSurvey, host: Host, paths: seq<Path>)
    requires Ids.Encodable(survey.externalId) && NoDuplicates(paths) && forall p :: p in paths ==> PlainPath(p)
    ensures NoDuplicates(Minted(RoutingContext(survey, host).createId, "routing", paths))
  {
    hide Text, PathName, RoutingContext, Plain, Ids.GroupId;
    var ids := Minted(RoutingContext(survey, host).createId, "routing", paths);
    var s := survey.externalId;
    forall i, j | 0 <= i < j < |ids|
      ensures ids[i] != ids[j]
    {
      assert paths[i] in paths && paths[j] in paths;
      RoutingIdsAreGroupIds(survey, host, paths[i]);
      RoutingIdsAreGroupIds(survey, host, paths[j]);
      PathNameEncodable(paths[i]);
      PathNameEncodable(paths[j]);
      if ids[i] == ids[j] {
        Ids.CompiledIdsDecodeUniquely(Ids.Group(s, PathName(paths[i])), Ids.Group(s, PathName(paths[j])));
        PathNameInjective(paths[i], paths[j]);
      }
    }
  }

  /** No request made for a payload entity yields an ID minted for routing: block names have no dots. */
  lemma RequestIsNotRouting(survey: CanonicalSurvey, host: Host, p: Path, r: Ids.Request)
    requires Ids.Encodable(survey.externalId) && PlainPath(p) && p != [] && Ids.WellFormed(r)
    requires r.Group? ==> '.' !in r.id
    ensures RoutingContext(survey, host).createId("routing" + Text(p)) != Ids.CompileId(r)
  {
    hide Ids.GroupId, Ids.WellFormed, RoutingContext, Plain;
    RoutingIdsAreGroupIds(survey, host, p);
    PathNameEncodable(p);
    DotInName(p);
    if Ids.GroupId(survey.externalId, PathName(p)) == Ids.CompileId(r) {
      GroupWellFormed(survey.externalId, PathName(p));
      Ids.CompiledIdsDecodeUniquely(Ids.Group(survey.externalId, PathName(p)), r);
    }
  }

  lemma GroupWellFormed(survey: string, name: string)
    requires Ids.Encodable(survey) && Ids.Encodable(name)
    ensures Ids.WellFormed(Ids.Group(survey, name))
      && Ids.CompileId(Ids.Group(survey, name)) == Ids.GroupId(survey, name)
  {
  }

  lemma DotInName(p: Path)
    requires p != []
    ensures '.' in PathName(p)
  {
    var name := PathName(p);
    assert Text(p)[0] == '.';
    assert name[15] == '.';
  }

  lemma {:induction false} GroupsAreBlockNames(survey: string, segments: seq<Segment>, r: Ids.Request)
    requires r in DistinctIds.SegmentsRequested(survey, segments) && r.Group?
    ensures r.id in BlockNamesOf(segments)
  {
    hide BlockName, DistinctIds.ElementsRequested;
    var front, last := segments[..|segments| - 1], segments[|segments| - 1];
    assert BlockNamesOf(segments) == BlockNamesOf(front) + [BlockName(last)];
    DistinctIds.ElementsRequestNoGroups(survey, last.block.elements);
    if r in DistinctIds.SegmentsRequested(survey, front) {
      GroupsAreBlockNames(survey, front, r);
    }
  }

  lemma BlockNamesHaveNoDots(survey: CanonicalSurvey, segments: seq<Segment>)
    requires Validation.CleanlyValidated(survey) && SegmentConservation.DistinctSurvey(survey)
    requires SegmentsOf(survey, segments)
    ensures forall name :: name in BlockNamesOf(segments) ==> '.' !in name
  {
    hide IsSourceOf, BlockName;
    SurveyIsSegmented(survey, segments);
    Validation.ListedIds(survey);
    forall i | 0 <= i < |segments|
      ensures '.' !in BlockName(segments[i])
    {
      assert IsSurveySegment(survey, segments[i]);
      var group :| IsSegmentOf(survey, group, segments[i]);
      assert Ids.IsExternalId(group.externalId);
      NoDotInName(segments[i]);
    }
  }

  lemma NoDotInName(s: Segment)
    requires Ids.IsExternalId(s.group)
    ensures '.' !in BlockName(s)
  {
    var numeral := Numeral(s.index + 1);
    forall c | c in SegmentName(s.group, s.index)
      ensures c != '.'
    {
      assert c in s.group || c in "_segment_" || c in numeral;
    }
  }

  /** The routing IDs of a compiled survey are minted from distinct plain paths. */
  lemma CompiledRoutingIds(survey: CanonicalSurvey, host: Host, c: Compilation, segments: seq<Segment>)
    returns (paths: seq<Path>)
    requires SegmentConservation.DistinctSurvey(survey) && SegmentsOf(survey, segments)
    requires CompilesTo(survey, host, c)
    ensures BlockRoutingIds(c.payload.blocks) == Minted(RoutingContext(survey, host).createId, "routing", paths)
    ensures NoDuplicates(paths) && forall p :: p in paths ==> p != [] && PlainPath(p)
  {
    hide SegmentGroups, SourceBlocks, RouteUpTo, WithMissingEntries, BlockRoutingIds, RewrittenBlock, EndingIds,
      NoDuplicates, Minted, RoutingContext, Plain, IsSurveySegment;
    CompilesToExactly(survey, host, c);
    SegmentsOfExactly(survey, segments);
    var r := RouteOf(survey, host, segments);
    Crosswalk.RouteIsAligned(survey, host, segments);
    SurveyIsSegmented(survey, segments);
    forall i, rule | 0 <= i < |r.blocks| && rule in r.blocks[i].logic
      ensures rule.Calculation?
    {
      Responding.RewrittenBlockShape(survey, segments[i]);
    }
    paths := RoutedIds(r, |r.blocks|, c.payload.blocks);
    forall p | p in paths
      ensures p != [] && PlainPath(p)
    {
      assert LeadsWithin(p, |r.blocks|);
    }
  }

  /**
   * All rule, jump, group and condition IDs minted for the routing of a clean survey are pairwise distinct,
   * and none of them is the ID of a block, question, item or ending.
   */
  lemma RoutingIdsAreDistinct(survey: CanonicalSurvey, host: Host, c: Compilation, segments: seq<Segment>)
    requires Validation.CleanlyValidated(survey) && SegmentsOf(survey, segments)
    requires CompilesTo(survey, host, c)
    ensures NoDuplicates(BlockRoutingIds(c.payload.blocks))
    ensures forall e :: e in Crosswalk.EmittedIds(c.payload) ==> e.id !in BlockRoutingIds(c.payload.blocks)
  {
    hide Validation.CleanlyValidated, NoDuplicates, Minted, RoutingContext, PlainPath, Crosswalk.EmittedIds,
      BlockRoutingIds, DistinctIds.EncodableSegment, DistinctIds.AllFulfilled, DistinctIds.AllRequested, Text,
      Ids.WellFormed, Ids.CompileId;
    DistinctIds.CleanSegments(survey, segments);
    CleanIsDistinct(survey);
    Validation.CleanSurveyIsIdentified(survey);
    var paths := CompiledRoutingIds(survey, host, c, segments);
    MintedDistinct(survey, host, paths);
    DistinctIds.AllIdsFulfilled(survey, host, c, segments);
    DistinctIds.AllWellFormed(survey, segments);
    forall e | e in Crosswalk.EmittedIds(c.payload)
      ensures e.id !in BlockRoutingIds(c.payload.blocks)
    {
      var request := EmittedRequest(survey, segments, e);
      NoDotRequested(survey, segments, request);
      if e.id in BlockRoutingIds(c.payload.blocks) {
        var p := MintingPath(RoutingContext(survey, host).createId, paths, e.id);
        RequestIsNotRouting(survey, host, p, request);
      }
    }
  }

  lemma CleanIsDistinct(survey: CanonicalSurvey)
    requires Validation.CleanlyValidated(survey)
    ensures SegmentConservation.DistinctSurvey(survey)
  {
    Validation.CleanSurveyIsDistinct(survey);
  }

  lemma MintingPath(createId: string -> string, paths: seq<Path>, id: string) returns (p: Path)
    requires id in Minted(createId, "routing", paths)
    ensures p in paths && createId("routing" + Text(p)) == id
  {
    var ids := Minted(createId, "routing", paths);
    var i :| 0 <= i < |ids| && ids[i] == id;
    p := paths[i];
  }

  lemma EmittedRequest(survey: CanonicalSurvey, segments: seq<Segment>, e: Crosswalk.Emitted) returns (r: Ids.Request)
    requires e in DistinctIds.AllFulfilled(DistinctIds.AllRequested(survey, segments))
    ensures r in DistinctIds.AllRequested(survey, segments) && e.id == Ids.CompileId(r)
  {
    hide DistinctIds.AllRequested, Ids.CompileId;
    var rs := DistinctIds.AllRequested(survey, segments);
    var i :| 0 <= i < |rs| && DistinctIds.AllFulfilled(rs)[i] == e;
    r := rs[i];
  }

  lemma NoDotRequested(survey: CanonicalSurvey, segments: seq<Segment>, r: Ids.Request)
    requires Validation.CleanlyValidated(survey) && SegmentConservation.DistinctSurvey(survey)
    requires SegmentsOf(survey, segments) && r in DistinctIds.AllRequested(survey, segments)
    ensures r.Group? ==> '.' !in r.id
  {
    hide Validation.CleanlyValidated, SegmentConservation.DistinctSurvey, DistinctIds.SegmentsRequested,
      BlockNamesOf;
    BlockNamesHaveNoDots(survey, segments);
    if r.Group? {
      GroupsAreBlockNames(survey.externalId, segments, r);
    }
  }
}
