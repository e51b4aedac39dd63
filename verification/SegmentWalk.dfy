/** Which interactions with which surveys can change a live survey's audience: a walk through segment filters. */
module SegmentWalk {
  import opened Wrappers

  datatype Operator = HaveSeen | HaveNotSeen | HaveStartedRespondingTo | HaveCompleted | HaveNotCompleted

  datatype Event = OnDisplay | OnResponse | OnFinished

  datatype Scope = AnySurvey | Specific(surveyIds: seq<string>)

  datatype Leaf = Leaf(operator: Operator, scope: Scope)

  /** One filter of a tree; other filters are about attributes, devices and the like. */
  datatype Filter = Nested(filters: seq<Filter>) | Interaction(leaf: Leaf) | Reference(segmentId: string) | Other

  /** The filter trees of the segments that can be resolved. */
  type Segments = map<string, seq<Filter>>

  datatype Refresh = Refresh(onDisplay: bool, onResponse: bool, onFinished: bool)

  datatype LiveSurvey = LiveSurvey(id: string, filters: Option<seq<Filter>>)

  const NO_REFRESH := Refresh(false, false, false)

  /** Opposite operators change membership on the same event. */
  function Source(operator: Operator): Event {
    match operator
    case HaveSeen => OnDisplay
    case HaveNotSeen => OnDisplay
    case HaveStartedRespondingTo => OnResponse
    case HaveCompleted => OnFinished
    case HaveNotCompleted => OnFinished
  }

  /** What one contact has done with the target survey. */
  datatype Contact = Contact(displayed: bool, responded: bool, finished: bool)

  predicate Selects(operator: Operator, c: Contact) {
    match operator
    case HaveSeen => c.displayed
    case HaveNotSeen => !c.displayed
    case HaveStartedRespondingTo => c.responded
    case HaveCompleted => c.finished
    case HaveNotCompleted => !c.finished
  }

  function Recorded(c: Contact, e: Event): Contact {
    match e
    case OnDisplay => c.(displayed := true)
    case OnResponse => c.(responded := true)
    case OnFinished => c.(finished := true)
  }

  /** The event noted for an operator is the one, and the only one, that can change whom it selects. */
  lemma SourceFlips(operator: Operator, e: Event)
    ensures Source(operator) == e <==> exists c :: Selects(operator, Recorded(c, e)) != Selects(operator, c)
  {
    var before := Contact(false, false, false);
    assert Source(operator) == e ==> Selects(operator, Recorded(before, e)) != Selects(operator, before);
  }

  predicate Bit(r: Refresh, e: Event) {
    match e
    case OnDisplay => r.onDisplay
    case OnResponse => r.onResponse
    case OnFinished => r.onFinished
  }

  function WithBit(r: Refresh, e: Event): (s: Refresh)
    ensures forall f :: Bit(s, f) <==> f == e || Bit(r, f)
  {
    match e
    case OnDisplay => r.(onDisplay := true)
    case OnResponse => r.(onResponse := true)
    case OnFinished => r.(onFinished := true)
  }

  // ----- What filters reach -----

  /** The interaction filters of a tree, through nested groups but not through references. */
  function Leaves(filters: seq<Filter>): set<Leaf> {
    if filters == [] then {} else Leaves(filters[..|filters| - 1]) + LeavesOf(filters[|filters| - 1])
  }

  function LeavesOf(f: Filter): set<Leaf> {
    match f
    case Nested(filters) => Leaves(filters)
    case Interaction(leaf) => {leaf}
    case _ => {}
  }

  /** The segments a tree refers to, through nested groups. */
  function References(filters: seq<Filter>): set<string> {
    if filters == [] then {} else References(filters[..|filters| - 1]) + ReferencesOf(filters[|filters| - 1])
  }

  function ReferencesOf(f: Filter): set<string> {
    match f
    case Nested(filters) => References(filters)
    case Reference(id) => {id}
    case _ => {}
  }

  // ----- Where leaves and references stand -----

  /** The filter at the end of a path of positions through nested groups. */
  ghost function FilterAt(filters: seq<Filter>, path: seq<nat>): Option<Filter>
    decreases |path|
  {
    if path == [] || path[0] >= |filters| then None
    else if |path| == 1 then Some(filters[path[0]])
    else if filters[path[0]].Nested? then FilterAt(filters[path[0]].filters, path[1..])
    else None
  }

  ghost predicate StandsIn(filters: seq<Filter>, f: Filter) {
    exists path :: FilterAt(filters, path) == Some(f)
  }

  /** The leaves and references of a tree are the interactions and references at some path in it. */
  lemma {:induction false} LeavesStandSomewhere(filters: seq<Filter>, leaf: Leaf, id: string)
    ensures leaf in Leaves(filters) <==> StandsIn(filters, Interaction(leaf))
    ensures id in References(filters) <==> StandsIn(filters, Reference(id))
    decreases filters
  {
    forall f | f == Interaction(leaf) || f == Reference(id)
      ensures StandsIn(filters, f) <==> exists i :: 0 <= i < |filters| && StandsAt(filters[i], f)
    {
      StandsInSome(filters, f);
    }
    forall i | 0 <= i < |filters|
      ensures leaf in LeavesOf(filters[i]) <==> StandsAt(filters[i], Interaction(leaf))
      ensures id in ReferencesOf(filters[i]) <==> StandsAt(filters[i], Reference(id))
    {
      if filters[i].Nested? { LeavesStandSomewhere(filters[i].filters, leaf, id); }
    }
    PartsMakeWhole(filters, leaf, id);
  }

  /** A filter is this one, or stands in its group. */
  ghost predicate StandsAt(g: Filter, f: Filter) {
    g == f || (g.Nested? && StandsIn(g.filters, f))
  }

  lemma StandsInSome(filters: seq<Filter>, f: Filter)
    ensures StandsIn(filters, f) <==> exists i :: 0 <= i < |filters| && StandsAt(filters[i], f)
  {
    if path :| FilterAt(filters, path) == Some(f) {
      if |path| > 1 { assert FilterAt(filters[path[0]].filters, path[1..]) == Some(f); }
      assert StandsAt(filters[path[0]], f);
    }
    if i :| 0 <= i < |filters| && StandsAt(filters[i], f) {
      if filters[i] == f {
        assert FilterAt(filters, [i]) == Some(f);
      } else {
        var path :| FilterAt(filters[i].filters, path) == Some(f);
        assert path != [] && ([i] + path)[1..] == path;
        assert FilterAt(filters, [i] + path) == Some(f);
      }
    }
  }

  lemma {:induction false} PartsMakeWhole(filters: seq<Filter>, leaf: Leaf, id: string)
    ensures leaf in Leaves(filters) <==> exists i :: 0 <= i < |filters| && leaf in LeavesOf(filters[i])
    ensures id in References(filters) <==> exists i :: 0 <= i < |filters| && id in ReferencesOf(filters[i])
  {
    hide LeavesOf, ReferencesOf;
    if filters != [] {
      var front := filters[..|filters| - 1];
      PartsMakeWhole(front, leaf, id);
      assert forall i :: 0 <= i < |front| ==> front[i] == filters[i];
    }
  }

  // ----- Reaching through references -----

  /** Resolvable segments, each referred to by the one before and the first by the filters. */
  ghost predicate Chain(segments: Segments, filters: seq<Filter>, chain: seq<string>) {
    chain != [] && chain[0] in References(filters) && (forall k :: 0 <= k < |chain| ==> chain[k] in segments) &&
    forall k :: 0 < k < |chain| ==> chain[k] in References(segments[chain[k - 1]])
  }

  ghost predicate ReachesSegment(segments: Segments, filters: seq<Filter>, id: string) {
    exists chain :: Chain(segments, filters, chain) && chain[|chain| - 1] == id
  }

  /** A leaf of the filters themselves or of a segment they lead to. */
  ghost predicate ReachesLeaf(segments: Segments, filters: seq<Filter>, leaf: Leaf) {
    leaf in Leaves(filters)
    || exists id :: id in segments && ReachesSegment(segments, filters, id) && leaf in Leaves(segments[id])
  }

  predicate Covers(scope: Scope, target: string) {
    scope.AnySurvey? || target in scope.surveyIds
  }

  /** Some interaction with the target, of this kind, can change who the filters select. */
  ghost predicate Affects(segments: Segments, filters: seq<Filter>, target: string, e: Event) {
    exists leaf :: ReachesLeaf(segments, filters, leaf) && Source(leaf.operator) == e && Covers(leaf.scope, target)
  }

  // ----- Reachability -----

  lemma LeafOfPart(filters: seq<Filter>, i: nat)
    requires i < |filters|
    ensures LeavesOf(filters[i]) <= Leaves(filters) && ReferencesOf(filters[i]) <= References(filters)
  {
    if i < |filters| - 1 {
      LeafOfPart(filters[..|filters| - 1], i);
    }
  }

  lemma NextPart(filters: seq<Filter>, i: nat)
    requires i < |filters|
    ensures Leaves(filters[..i + 1]) == Leaves(filters[..i]) + LeavesOf(filters[i])
    ensures References(filters[..i + 1]) == References(filters[..i]) + ReferencesOf(filters[i])
  {
    assert filters[..i + 1][..i] == filters[..i];
  }

  lemma ReferenceReaches(segments: Segments, filters: seq<Filter>, id: string)
    requires id in References(filters) && id in segments
    ensures ReachesSegment(segments, filters, id)
  {
    assert Chain(segments, filters, [id]);
  }

  /** What a part of the filters reaches, the filters reach. */
  lemma PartReaches(segments: Segments, part: seq<Filter>, filters: seq<Filter>, leaf: Leaf)
    requires Leaves(part) <= Leaves(filters) && References(part) <= References(filters)
    requires ReachesLeaf(segments, part, leaf)
    ensures ReachesLeaf(segments, filters, leaf)
  {
    if leaf !in Leaves(part) {
      var id :| id in segments && ReachesSegment(segments, part, id) && leaf in Leaves(segments[id]);
      var chain :| Chain(segments, part, chain) && chain[|chain| - 1] == id;
      assert Chain(segments, filters, chain);
    }
  }

  /** What a referenced segment reaches, the filters reach. */
  lemma ReferencedReaches(segments: Segments, filters: seq<Filter>, id: string, leaf: Leaf)
    requires id in References(filters) && id in segments && ReachesLeaf(segments, segments[id], leaf)
    ensures ReachesLeaf(segments, filters, leaf)
  {
    if leaf in Leaves(segments[id]) {
      ReferenceReaches(segments, filters, id);
    } else {
      var last :| last in segments && ReachesSegment(segments, segments[id], last) && leaf in Leaves(segments[last]);
      var chain :| Chain(segments, segments[id], chain) && chain[|chain| - 1] == last;
      var longer := [id] + chain;
      forall k | 0 < k < |longer|
        ensures longer[k] in References(segments[longer[k - 1]])
      {
        if k > 1 { assert chain[k - 1] in References(segments[chain[k - 2]]); }
      }
      assert Chain(segments, filters, longer);
    }
  }

  /** Each of these segments has its leaves collected and its references among those visited. */
  ghost predicate Closed(segments: Segments, ids: set<string>, visited: set<string>, leaves: set<Leaf>) {
    forall id :: id in ids && id in segments ==> References(segments[id]) <= visited && Leaves(segments[id]) <= leaves
  }

  lemma ClosedGrows(segments: Segments, ids: set<string>, v: set<string>, l: set<Leaf>, w: set<string>, m: set<Leaf>)
    requires Closed(segments, ids, v, l) && v <= w && l <= m
    ensures Closed(segments, ids, w, m)
  {
  }

  lemma {:induction false} ChainVisited(
    segments: Segments, filters: seq<Filter>, visited: set<string>, leaves: set<Leaf>, chain: seq<string>)
    requires References(filters) <= visited && Closed(segments, visited, visited, leaves)
    requires Chain(segments, filters, chain)
    ensures chain[|chain| - 1] in visited && Leaves(segments[chain[|chain| - 1]]) <= leaves
  {
    if |chain| > 1 {
      var front := chain[..|chain| - 1];
      assert Chain(segments, filters, front);
      ChainVisited(segments, filters, visited, leaves, front);
      assert chain[|chain| - 1] in References(segments[chain[|chain| - 2]]);
      assert front[|front| - 1] == chain[|chain| - 2];
    }
  }

  /** A closed collection that starts from the filters misses nothing they reach. */
  lemma ClosedIsComplete(
    segments: Segments, filters: seq<Filter>, visited: set<string>, leaves: set<Leaf>, leaf: Leaf)
    requires References(filters) <= visited && Leaves(filters) <= leaves
    requires Closed(segments, visited, visited, leaves) && ReachesLeaf(segments, filters, leaf)
    ensures leaf in leaves
  {
    if leaf !in Leaves(filters) {
      var id :| id in segments && ReachesSegment(segments, filters, id) && leaf in Leaves(segments[id]);
      var chain :| Chain(segments, filters, chain) && chain[|chain| - 1] == id;
      ChainVisited(segments, filters, visited, leaves, chain);
    }
  }

  // ----- The walk -----

  function Untouched(segments: Segments, visited: set<string>): nat {
    |segments.Keys - visited|
  }

  lemma TouchingShrinks(segments: Segments, visited: set<string>, more: set<string>)
    requires visited <= more
    ensures Untouched(segments, more) <= Untouched(segments, visited)
    ensures (exists id :: id in segments && id in more && id !in visited) ==>
              Untouched(segments, more) < Untouched(segments, visited)
  {
    var a, b := segments.Keys - more, segments.Keys - visited;
    SubsetIsSmaller(a, b);
    if id :| id in segments && id in more && id !in visited {
      SubsetIsSmaller(a, b - {id});
    }
  }

  lemma SubsetIsSmaller<T>(a: set<T>, b: set<T>)
    requires a <= b
    ensures |a| <= |b|
  {
    if x :| x in a {
      SubsetIsSmaller(a - {x}, b - {x});
    }
  }

  /** The bits are exactly those of the leaves applied so far. */
  ghost predicate Reflects(delivered: seq<string>, applied: set<Leaf>, bits: map<string, Refresh>, hasAny: bool) {
    (forall id :: id in bits <==> id in delivered) &&
    (forall id, e :: id in bits ==>
       (Bit(bits[id], e) <==>
          exists leaf :: leaf in applied && Source(leaf.operator) == e && Covers(leaf.scope, id))) &&
    (hasAny <==> exists id, e :: id in bits && Bit(bits[id], e))
  }

  class RefreshMap {
    const delivered: seq<string>
    const segments: Segments
    var bits: map<string, Refresh>
    var hasAny: bool
    var visited: set<string>
    ghost var applied: set<Leaf>

    ghost predicate Valid()
      reads this
    {
      Reflects(delivered, applied, bits, hasAny)
    }

    constructor (surveyIds: seq<string>, known: Segments)
      ensures Valid() && delivered == surveyIds && segments == known && applied == {} && visited == {}
    {
      delivered := surveyIds;
      segments := known;
      bits := map id | id in surveyIds :: NO_REFRESH;
      hasAny := false;
      visited := {};
      applied := {};
    }

    /** Sets the leaf's bit on every delivered survey it covers. */
    method ApplyLeaf(leaf: Leaf)
      requires Valid()
      modifies this`bits, this`hasAny, this`applied
      ensures Valid() && applied == old(applied) + {leaf}
    {
      hide Reflects, Source, Bit;
      var source := Source(leaf.operator);
      var targets := if leaf.scope.AnySurvey? then delivered else leaf.scope.surveyIds;
      var before := bits;
      ghost var any := hasAny;
      for i := 0 to |targets|
        invariant applied == old(applied)
        invariant forall id :: id in bits <==> id in before
        invariant forall id, e :: id in bits ==>
                    (Bit(bits[id], e) <==> Bit(before[id], e) || (e == source && id in targets[..i]))
        invariant hasAny <==> any || exists id :: id in bits && id in targets[..i]
      {
        assert targets[..i + 1] == targets[..i] + [targets[i]];
        DeliveredHasBits(delivered, applied, before, any, targets[i]);
        if targets[i] in delivered {
          bits := bits[targets[i] := WithBit(bits[targets[i]], source)];
          hasAny := true;
        }
      }
      assert targets[..|targets|] == targets;
      CoversTargets(delivered, old(applied), before, any, leaf.scope);
      applied := applied + {leaf};
      AppliedReflects(delivered, old(applied), leaf, before, any, bits, hasAny);
    }

    /** Walks a filter tree, entering every segment at most once. */
    method Walk(filters: seq<Filter>)
      requires Valid()
      modifies this`bits, this`hasAny, this`applied, this`visited
      ensures Valid() && old(visited) <= visited && old(applied) <= applied
      ensures References(filters) <= visited && Leaves(filters) <= applied
      ensures Closed(segments, visited - old(visited), visited, applied)
      ensures forall leaf :: leaf in applied && leaf !in old(applied) ==> ReachesLeaf(segments, filters, leaf)
      decreases Untouched(segments, visited), filters
    {
      hide Reflects, ReachesLeaf, Closed, Untouched;
      NothingClosed(segments, visited, applied);
      for i := 0 to |filters|
        invariant Valid() && old(visited) <= visited && old(applied) <= applied
        invariant References(filters[..i]) <= visited && Leaves(filters[..i]) <= applied
        invariant Closed(segments, visited - old(visited), visited, applied)
        invariant forall leaf :: leaf in applied && leaf !in old(applied) ==> ReachesLeaf(segments, filters, leaf)
      {
        NextPart(filters, i);
        LeafOfPart(filters, i);
        ghost var visitedBefore, appliedBefore := visited, applied;
        TouchingShrinks(segments, old(visited), visited);
        match filters[i]
        case Nested(nested) =>
          Walk(nested);
          forall leaf | leaf in applied && leaf !in appliedBefore
            ensures ReachesLeaf(segments, filters, leaf)
          {
            PartReaches(segments, nested, filters, leaf);
          }
          ClosedTogether(segments, old(visited), visitedBefore, visited, appliedBefore, applied);
        case Interaction(leaf) =>
          ApplyLeaf(leaf);
          OwnLeaf(segments, filters, leaf);
          ClosedGrows(segments, visited - old(visited), visited, appliedBefore, visited, applied);
        case Reference(id) =>
          if id !in visited {
            visited := visited + {id};
            if id in segments {
              ghost var entered := visited;
              TouchingShrinks(segments, old(visited), visited);
              Walk(segments[id]);
              forall leaf | leaf in applied && leaf !in appliedBefore
                ensures ReachesLeaf(segments, filters, leaf)
              {
                ReferencedReaches(segments, filters, id, leaf);
              }
              ClosedWithEntered(segments, old(visited), visitedBefore, id, visited, appliedBefore, applied);
            } else {
              ClosedWithUnknown(segments, old(visited), visitedBefore, id, applied);
            }
          }
        case Other =>
      }
      assert filters[..|filters|] == filters;
    }

    /** Adds everything one survey's filters reach. */
    method AddFilters(filters: seq<Filter>)
      requires Valid()
      modifies this`bits, this`hasAny, this`applied, this`visited
      ensures Valid()
      ensures forall leaf :: leaf in applied <==> leaf in old(applied) || ReachesLeaf(segments, filters, leaf)
    {
      visited := {};
      Walk(filters);
      forall leaf | ReachesLeaf(segments, filters, leaf)
        ensures leaf in applied
      {
        assert visited - {} == visited;
        ClosedIsComplete(segments, filters, visited, applied, leaf);
      }
    }
  }

  lemma DeliveredHasBits(
    delivered: seq<string>, applied: set<Leaf>, bits: map<string, Refresh>, hasAny: bool, id: string)
    requires Reflects(delivered, applied, bits, hasAny)
    ensures id in delivered <==> id in bits
  {
  }

  lemma CoversTargets(
    delivered: seq<string>, applied: set<Leaf>, bits: map<string, Refresh>, hasAny: bool, scope: Scope)
    requires Reflects(delivered, applied, bits, hasAny)
    ensures forall id :: id in bits ==>
              (Covers(scope, id) <==> id in (if scope.AnySurvey? then delivered else scope.surveyIds))
  {
  }

  lemma AppliedReflects(
    delivered: seq<string>, applied: set<Leaf>, leaf: Leaf, before: map<string, Refresh>, any: bool,
    after: map<string, Refresh>, hasAny: bool)
    requires Reflects(delivered, applied, before, any)
    requires forall id :: id in after <==> id in before
    requires forall id, e :: id in after ==>
               (Bit(after[id], e) <==> Bit(before[id], e) || (e == Source(leaf.operator) && Covers(leaf.scope, id)))
    requires hasAny <==> any || exists id :: id in after && Covers(leaf.scope, id)
    ensures Reflects(delivered, applied + {leaf}, after, hasAny)
  {
    if id :| id in after && Covers(leaf.scope, id) {
      assert Bit(after[id], Source(leaf.operator));
    }
    if any {
      var id, e :| id in before && Bit(before[id], e);
      assert Bit(after[id], e);
    }
  }

  lemma NothingClosed(segments: Segments, visited: set<string>, leaves: set<Leaf>)
    ensures Closed(segments, visited - visited, visited, leaves)
  {
  }

  lemma OwnLeaf(segments: Segments, filters: seq<Filter>, leaf: Leaf)
    requires leaf in Leaves(filters)
    ensures ReachesLeaf(segments, filters, leaf)
  {
  }

  lemma ClosedTogether(
    segments: Segments, start: set<string>, middle: set<string>, end: set<string>, some: set<Leaf>, all: set<Leaf>)
    requires start <= middle <= end && some <= all
    requires Closed(segments, middle - start, middle, some) && Closed(segments, end - middle, end, all)
    ensures Closed(segments, end - start, end, all)
  {
  }

  lemma ClosedWithUnknown(
    segments: Segments, start: set<string>, middle: set<string>, id: string, leaves: set<Leaf>)
    requires Closed(segments, middle - start, middle, leaves) && id !in segments
    ensures Closed(segments, (middle + {id}) - start, middle + {id}, leaves)
  {
  }

  lemma ClosedWithEntered(
    segments: Segments, start: set<string>, middle: set<string>, id: string, end: set<string>, some: set<Leaf>,
    all: set<Leaf>)
    requires start <= middle <= end && some <= all && id in segments
    requires Closed(segments, middle - start, middle, some) && Closed(segments, end - (middle + {id}), end, all)
    requires References(segments[id]) <= end && Leaves(segments[id]) <= all
    ensures Closed(segments, end - start, end, all)
  {
  }

  // ----- The whole map -----

  function SurveyIds(surveys: seq<LiveSurvey>): seq<string> {
    seq(|surveys|, i requires 0 <= i < |surveys| => surveys[i].id)
  }

  /** Some survey's filters can be affected by this kind of interaction with the target. */
  ghost predicate Refreshes(surveys: seq<LiveSurvey>, segments: Segments, target: string, e: Event) {
    exists i :: 0 <= i < |surveys| && surveys[i].filters.Some? && Affects(segments, surveys[i].filters.value, target, e)
  }

  ghost predicate ReachedBySome(surveys: seq<LiveSurvey>, n: nat, segments: Segments, leaf: Leaf)
    requires n <= |surveys|
  {
    exists i :: 0 <= i < n && surveys[i].filters.Some? && ReachesLeaf(segments, surveys[i].filters.value, leaf)
  }

  /**
   * A delivered survey carries an event's bit exactly when that interaction with it can affect some survey,
   * however deep or cyclic the segment references are; the summary flag says whether any bit is set.
   */
  method BuildSurveyInteractionRefreshMap(surveys: seq<LiveSurvey>, segments: Segments)
    returns (refresh: map<string, Refresh>, hasAny: bool)
    ensures forall id :: id in refresh <==> id in SurveyIds(surveys)
    ensures forall id, e :: id in refresh ==> (Bit(refresh[id], e) <==> Refreshes(surveys, segments, id, e))
    ensures hasAny <==> exists id, e :: id in refresh && Bit(refresh[id], e)
  {
    var m := new RefreshMap(SurveyIds(surveys), segments);
    for i := 0 to |surveys|
      invariant m.Valid() && m.delivered == SurveyIds(surveys) && m.segments == segments && fresh(m)
      invariant forall leaf :: leaf in m.applied <==> ReachedBySome(surveys, i, segments, leaf)
    {
      if surveys[i].filters.Some? {
        m.AddFilters(surveys[i].filters.value);
      }
    }
    refresh, hasAny := m.bits, m.hasAny;
    forall id, e | id in refresh
      ensures Bit(refresh[id], e) <==> Refreshes(surveys, segments, id, e)
    {
      if leaf :| leaf in m.applied && Source(leaf.operator) == e && Covers(leaf.scope, id) {
        assert ReachedBySome(surveys, |surveys|, segments, leaf);
      }
      if Refreshes(surveys, segments, id, e) {
        var i :| 0 <= i < |surveys| && surveys[i].filters.Some?
          && Affects(segments, surveys[i].filters.value, id, e);
        var leaf :| ReachesLeaf(segments, surveys[i].filters.value, leaf) && Source(leaf.operator) == e
          && Covers(leaf.scope, id);
        assert ReachedBySome(surveys, |surveys|, segments, leaf);
      }
    }
  }
}
