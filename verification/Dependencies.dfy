/** The dependency graph of calculated variables, its cycles, and the consistent values of the rest. */
module Dependencies {
  import opened Wrappers
  import opened Expressions
  import opened Sequences

  /** A calculated variable whose expression parsed, with the calculated variables it reads. */
  datatype Definition = Definition(id: string, expression: string, node: Node, dependencies: seq<string>)

  function DefinitionIds(defs: seq<Definition>): set<string> {
    set d | d in defs :: d.id
  }

  ghost predicate DistinctDefinitions(defs: seq<Definition>) {
    forall a, b :: a in defs && b in defs && a.id == b.id ==> a == b
  }

  /** Dependencies are the referenced names that belong to calculated variables, parsed or not. */
  ghost predicate DependenciesOver(defs: seq<Definition>, variableIds: set<string>) {
    DefinitionIds(defs) <= variableIds &&
    forall d, x :: d in defs ==> (x in d.dependencies <==> x in References(d.node) && x in variableIds)
  }

  /** x reads y, and both parsed. */
  ghost predicate Edge(defs: seq<Definition>, x: string, y: string) {
    y in DefinitionIds(defs) && exists d :: d in defs && d.id == x && y in d.dependencies
  }

  ghost predicate Walk(defs: seq<Definition>, path: seq<string>) {
    path != [] && (forall x :: x in path ==> x in DefinitionIds(defs)) &&
    forall i :: 0 <= i < |path| - 1 ==> Edge(defs, path[i], path[i + 1])
  }

  /** A variable lies on a dependency cycle or depends on one: some walk from it comes back to a variable. */
  ghost predicate ReachesCycle(defs: seq<Definition>, x: string) {
    exists path :: Walk(defs, path) && path[0] == x && !NoDuplicates(path)
  }

  // ----- Variables that wait for each other reach a cycle -----

  ghost predicate Blocked(defs: seq<Definition>, waiting: set<string>, x: string) {
    exists y :: y in waiting && Edge(defs, x, y)
  }

  ghost predicate Stuck(defs: seq<Definition>, waiting: set<string>) {
    waiting <= DefinitionIds(defs) &&
    forall x {:trigger Blocked(defs, waiting, x)} :: x in waiting ==> Blocked(defs, waiting, x)
  }

  lemma Prepend(defs: seq<Definition>, x: string, rest: seq<string>)
    requires Walk(defs, rest) && x in DefinitionIds(defs) && Edge(defs, x, rest[0])
    ensures Walk(defs, [x] + rest)
  {
    var path := [x] + rest;
    forall i | 0 <= i < |path| - 1
      ensures Edge(defs, path[i], path[i + 1])
    {
      if i > 0 {
        assert path[i] == rest[i - 1] && path[i + 1] == rest[i];
        assert Edge(defs, rest[i - 1], rest[i]);
      }
    }
  }

  ghost predicate Within(path: seq<string>, names: set<string>) {
    forall y :: y in path ==> y in names
  }

  lemma {:induction false} WalkAmongStuck(defs: seq<Definition>, waiting: set<string>, x: string, n: nat)
    returns (path: seq<string>)
    requires Stuck(defs, waiting) && x in waiting
    ensures Walk(defs, path) && path[0] == x && |path| == n + 1 && Within(path, waiting)
    decreases n
  {
    if n == 0 {
      path := [x];
    } else {
      var y := Blocker(defs, waiting, x);
      var rest := WalkAmongStuck(defs, waiting, y, n - 1);
      Prepend(defs, x, rest);
      path := [x] + rest;
    }
  }

  lemma Blocker(defs: seq<Definition>, waiting: set<string>, x: string) returns (y: string)
    requires Stuck(defs, waiting) && x in waiting
    ensures y in waiting && Edge(defs, x, y)
  {
    assert Blocked(defs, waiting, x);
    y :| y in waiting && Edge(defs, x, y);
  }

  lemma StuckReachesCycle(defs: seq<Definition>, waiting: set<string>, x: string)
    requires Stuck(defs, waiting) && x in waiting
    ensures ReachesCycle(defs, x)
  {
    var path := WalkAmongStuck(defs, waiting, x, |waiting|);
    LongWalkRepeats(path, waiting);
  }

  lemma LongWalkRepeats(path: seq<string>, names: set<string>)
    requires Within(path, names) && |path| > |names|
    ensures !NoDuplicates(path)
  {
    Pigeonhole(path, names);
  }

  // ----- Variables that can be put in dependency order do not -----

  /** Every dependency edge from the order leads to an earlier place in it. */
  ghost predicate Ordered(defs: seq<Definition>, order: seq<string>) {
    forall i, y :: 0 <= i < |order| && Edge(defs, order[i], y) ==> y in order[..i]
  }

  lemma {:induction false} WalksDescend(defs: seq<Definition>, order: seq<string>, path: seq<string>, i: nat)
    requires Ordered(defs, order) && Walk(defs, path) && i < |order| && path[0] == order[i]
    ensures forall k :: 0 < k < |path| ==> path[k] in order[..i]
    ensures NoDuplicates(order) ==> NoDuplicates(path)
    decreases i
  {
    if |path| > 1 {
      assert Edge(defs, path[0], path[1]);
      var rest := path[1..];
      var j :| 0 <= j < i && order[j] == path[1];
      assert Walk(defs, rest) by {
        forall k | 0 <= k < |rest| - 1
          ensures Edge(defs, rest[k], rest[k + 1])
        {
          assert Edge(defs, path[k + 1], path[k + 2]);
        }
      }
      WalksDescend(defs, order, rest, j);
      forall k | 0 < k < |path|
        ensures path[k] in order[..i]
      {
        if k > 1 {
          assert path[k] == rest[k - 1] && rest[k - 1] in order[..j];
          var m :| 0 <= m < j && order[m] == rest[k - 1];
          assert order[..i][m] == path[k];
        } else {
          assert order[..i][j] == path[k];
        }
      }
      if NoDuplicates(order) {
        forall k | 0 < k < |path|
          ensures path[k] != path[0]
        {
          var m :| 0 <= m < i && order[m] == path[k];
        }
        forall a, b | 0 <= a < b < |path|
          ensures path[a] != path[b]
        {
          if a > 0 { assert path[a] == rest[a - 1] && path[b] == rest[b - 1]; }
        }
      }
    }
  }

  lemma OrderedReachesNoCycle(defs: seq<Definition>, order: seq<string>, x: string)
    requires Ordered(defs, order) && NoDuplicates(order) && x in order
    ensures !ReachesCycle(defs, x)
  {
    var i :| 0 <= i < |order| && order[i] == x;
    forall path | Walk(defs, path) && path[0] == x
      ensures NoDuplicates(path)
    {
      WalksDescend(defs, order, path, i);
    }
  }

  // ----- Consistent values -----

  /** A variable holds the value of its expression over the answers and all variables, or nothing if that fails. */
  ghost predicate Settled(d: Definition, answers: Context, variables: Context, host: Host) {
    var r := Evaluate(d.node, answers + variables, host);
    if r.Ok? then d.id in variables && variables[d.id] == r.value else d.id !in variables
  }

  /** A consistent assignment: every variable free of cycles is settled, and nothing else has a value. */
  ghost predicate Solution(defs: seq<Definition>, answers: Context, variables: Context, host: Host) {
    (forall x :: x in variables ==> x in DefinitionIds(defs) && !ReachesCycle(defs, x)) &&
    forall d :: d in defs && !ReachesCycle(defs, d.id) ==> Settled(d, answers, variables, host)
  }

  /** Two consistent assignments give the last variable of a walk from a cycle-free variable the same value. */
  lemma {:induction false} SolutionsAgreeAt(
    defs: seq<Definition>, variableIds: set<string>, answers: Context, v: Context, w: Context, host: Host,
    path: seq<string>)
    requires DistinctDefinitions(defs) && DependenciesOver(defs, variableIds)
    requires Solution(defs, answers, v, host) && Solution(defs, answers, w, host)
    requires Walk(defs, path) && !ReachesCycle(defs, path[0])
    ensures var x := path[|path| - 1]; (x in v <==> x in w) && (x in v ==> v[x] == w[x])
    decreases |DefinitionIds(defs)| + 1 - |path|
  {
    var last := |path| - 1;
    var x := path[last];
    WalkIsShort(defs, path);
    CycleFreeAlongWalk(defs, path);
    assert x in path;
    var d :| d in defs && d.id == x;
    forall y | y in References(d.node)
      ensures (y in v <==> y in w) && (y in v ==> v[y] == w[y])
    {
      if y in DefinitionIds(defs) {
        assert y in d.dependencies;
        assert Edge(defs, x, y);
        var longer := path + [y];
        forall i | 0 <= i < |longer| - 1
          ensures Edge(defs, longer[i], longer[i + 1])
        {
          if i < last { assert Edge(defs, path[i], path[i + 1]); }
        }
        assert Walk(defs, longer);
        WalkIsShort(defs, longer);
        SolutionsAgreeAt(defs, variableIds, answers, v, w, host, longer);
      }
    }
    EvaluationIsLocal(d.node, answers + v, answers + w, host);
  }

  lemma WalkIsShort(defs: seq<Definition>, path: seq<string>)
    requires Walk(defs, path) && !ReachesCycle(defs, path[0])
    ensures |path| <= |DefinitionIds(defs)|
  {
    if |path| > |DefinitionIds(defs)| {
      LongWalkRepeats(path, DefinitionIds(defs));
    }
  }

  /** What a cycle-free variable depends on, however far, is cycle-free. */
  lemma CycleFreeAlongWalk(defs: seq<Definition>, path: seq<string>)
    requires Walk(defs, path) && !ReachesCycle(defs, path[0])
    ensures !ReachesCycle(defs, path[|path| - 1])
  {
    var last := |path| - 1;
    if tail :| Walk(defs, tail) && tail[0] == path[last] && !NoDuplicates(tail) {
      var joined := path[..last] + tail;
      forall i | 0 <= i < |joined| - 1
        ensures Edge(defs, joined[i], joined[i + 1])
      {
        if i < last {
          assert Edge(defs, path[i], path[i + 1]);
        } else {
          assert Edge(defs, tail[i - last], tail[i - last + 1]);
        }
      }
      var a, b :| 0 <= a < b < |tail| && tail[a] == tail[b];
      assert joined[last + a] == joined[last + b];
      assert joined[0] == path[0];
      assert Walk(defs, joined);
    }
  }

  /** There is at most one consistent assignment. */
  lemma SolutionIsUnique(
    defs: seq<Definition>, variableIds: set<string>, answers: Context, v: Context, w: Context, host: Host)
    requires DistinctDefinitions(defs) && DependenciesOver(defs, variableIds)
    requires Solution(defs, answers, v, host) && Solution(defs, answers, w, host)
    ensures v == w
  {
    forall x | x in v || x in w
      ensures x in v && x in w && v[x] == w[x]
    {
      assert Walk(defs, [x]);
      SolutionsAgreeAt(defs, variableIds, answers, v, w, host, [x]);
    }
  }

  /** Declaration order does not matter: permuting the definitions leaves the consistent assignment unchanged. */
  lemma OrderDoesNotMatter(
    defs: seq<Definition>, permuted: seq<Definition>, variableIds: set<string>, answers: Context,
    v: Context, w: Context, host: Host)
    requires forall d :: d in defs <==> d in permuted
    requires DistinctDefinitions(defs) && DependenciesOver(defs, variableIds)
    requires Solution(defs, answers, v, host) && Solution(permuted, answers, w, host)
    ensures v == w
  {
    assert DefinitionIds(defs) == DefinitionIds(permuted);
    forall x, y
      ensures Edge(defs, x, y) <==> Edge(permuted, x, y)
    {
    }
    forall path
      ensures Walk(defs, path) <==> Walk(permuted, path)
    {
    }
    assert Solution(defs, answers, w, host);
    SolutionIsUnique(defs, variableIds, answers, v, w, host);
  }
}
