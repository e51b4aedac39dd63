/** Runs of routed blocks: where the runtime goes, block after block, for any respondent. */
module Runs {
  import opened Wrappers
  import opened Payload
  import opened Runtime
  import opened RelevanceCompiler
  import opened Routing
  import RelevanceText

  /** The recorded responses and variable values after the blocks visited so far were submitted. */
  type History = seq<nat> -> Situation

  ghost predicate DistinctBlocks(r: Route) {
    (forall i, j :: 0 <= i < j < |r.blocks| ==> r.blocks[i].id != r.blocks[j].id) &&
    (forall i :: 0 <= i < |r.blocks| ==> r.blocks[i].id != r.endingId)
  }

  /** Where the runtime goes after the last of the visited blocks. */
  ghost function Destination(payload: Payload, history: History, visited: seq<nat>): Option<string>
    requires visited != [] && visited[|visited| - 1] < |payload.blocks|
  {
    NextOf(payload, visited[|visited| - 1], history(visited))
  }

  /** The positions a run has visited: it starts at the first block and follows the runtime. */
  ghost predicate IsRun(payload: Payload, history: History, visited: seq<nat>) {
    visited != [] && visited[0] == 0 &&
    (forall k :: 0 <= k < |visited| ==> visited[k] < |payload.blocks|) &&
    forall k :: 0 < k < |visited| ==> Arrives(payload, history, visited, k)
  }

  /** The runtime's destination after a prefix of the visited blocks is the next visited block. */
  ghost predicate Arrives(payload: Payload, history: History, visited: seq<nat>, k: nat)
    requires 0 < k < |visited| && visited[k - 1] < |payload.blocks|
  {
    var destination := Destination(payload, history, visited[..k]);
    destination.Some? && PositionOf(payload.blocks, destination.value) == Some(visited[k])
  }

  /** A run that has reached the ending. */
  ghost predicate IsComplete(payload: Payload, r: Route, history: History, visited: seq<nat>) {
    IsRun(payload, history, visited) && Destination(payload, history, visited) == Some(r.endingId)
  }

  ghost predicate Decidable(r: Route)
    requires Aligned(r)
  {
    forall i :: 0 <= i < |r.blocks| ==> NextIsDecidable(r, i)
  }

  ghost predicate Runnable(r: Route, payload: Payload) {
    Routable(r, payload) && DistinctBlocks(r) && Decidable(r) && |payload.blocks| == |r.blocks|
  }

  lemma {:induction false} PositionOfDistinct(blocks: seq<Block>, k: nat)
    requires k < |blocks| && forall i, j :: 0 <= i < j < |blocks| ==> blocks[i].id != blocks[j].id
    ensures PositionOf(blocks, blocks[k].id) == Some(k)
  {
    if k > 0 {
      PositionOfDistinct(blocks[1..], k - 1);
    }
  }

  lemma {:induction false} NoPosition(blocks: seq<Block>, id: string)
    requires forall i :: 0 <= i < |blocks| ==> blocks[i].id != id
    ensures PositionOf(blocks, id) == None
  {
    if blocks != [] {
      NoPosition(blocks[1..], id);
    }
  }

  /** The next block of a run is the least open one; a run that ends has no open block left. */
  lemma RunTakesLeastOpen(r: Route, payload: Payload, history: History, visited: seq<nat>, k: nat)
    requires Runnable(r, payload) && IsRun(payload, history, visited) && k < |visited|
    ensures k + 1 < |visited| ==>
              visited[k + 1] == LeastOpen(r, visited[k], visited[k] + 1, history(visited[..k + 1]))
    ensures Destination(payload, history, visited[..k + 1]) == Some(r.endingId)
       <==> LeastOpen(r, visited[k], visited[k] + 1, history(visited[..k + 1])) == |r.blocks|
  {
    hide RouteUpTo, LeastOpen, PositionOf, NextOf, Open;
    var from, s := visited[k], history(visited[..k + 1]);
    RoutingKeepsIds(r, payload);
    assert visited[..k + 1][k] == from;
    RuntimePicksLeastOpen(r, payload, from, s);
    var target := LeastOpen(r, from, from + 1, s);
    if target < |r.blocks| {
      PositionOfDistinct(payload.blocks, target);
    } else {
      NoPosition(payload.blocks, r.endingId);
    }
    if k + 1 < |visited| {
      assert Arrives(payload, history, visited, k + 1);
    }
  }

  /** Between these positions every block is conditional. */
  ghost predicate NoneUnconditional(r: Route, from: nat, to: nat)
    requires Aligned(r) && to <= |r.blocks|
  {
    forall j :: from < j < to ==> !RelevanceText.IsUnconditional(r.relevance[j])
  }

  lemma NoneUnconditionalBefore(r: Route, from: nat, to: nat, s: Situation)
    requires Aligned(r) && from < |r.blocks| && to <= |r.blocks|
    requires forall j :: from < j < to ==> !Open(r, from, j, s)
    ensures NoneUnconditional(r, from, to)
  {
    forall j | from < j < to
      ensures !RelevanceText.IsUnconditional(r.relevance[j])
    {
      assert !Open(r, from, j, s);
    }
  }

  lemma StepIsSafe(r: Route, payload: Payload, history: History, visited: seq<nat>, k: nat)
    requires Runnable(r, payload) && IsRun(payload, history, visited) && k + 1 < |visited|
    ensures visited[k] < visited[k + 1] < |r.blocks|
    ensures NoneUnconditional(r, visited[k], visited[k + 1])
    ensures Open(r, visited[k], visited[k + 1], history(visited[..k + 1]))
  {
    var from, to, s := visited[k], visited[k + 1], history(visited[..k + 1]);
    assert to < |r.blocks|;
    RunTakesLeastOpen(r, payload, history, visited, k);
    assert to == LeastOpen(r, from, from + 1, s);
    NoneUnconditionalBefore(r, from, to, s);
  }

  lemma EndIsSafe(r: Route, payload: Payload, history: History, visited: seq<nat>)
    requires Runnable(r, payload) && IsComplete(payload, r, history, visited)
    ensures NoneUnconditional(r, visited[|visited| - 1], |r.blocks|)
  {
    var last := |visited| - 1;
    assert visited[..last + 1] == visited;
    RunTakesLeastOpen(r, payload, history, visited, last);
    NoneUnconditionalBefore(r, visited[last], |r.blocks|, history(visited));
  }

  /**
   * Every run moves strictly forward, so it visits each block at most once; it never passes an
   * unconditional block; and it enters a conditional block only when that block's references are
   * available and its conditions are met at that point.
   */
  lemma RunIsSafe(r: Route, payload: Payload, history: History, visited: seq<nat>)
    requires Runnable(r, payload) && IsRun(payload, history, visited)
    ensures |visited| <= |r.blocks|
    ensures forall k :: 0 < k < |visited| ==> visited[k - 1] < visited[k] < |r.blocks|
    ensures forall k :: 0 < k < |visited| ==> NoneUnconditional(r, visited[k - 1], visited[k])
    ensures forall k :: 0 < k < |visited| ==> Open(r, visited[k - 1], visited[k], history(visited[..k]))
    ensures IsComplete(payload, r, history, visited) ==>
              NoneUnconditional(r, visited[|visited| - 1], |r.blocks|)
  {
    hide RouteUpTo, LeastOpen, PositionOf, NextOf, Open, NoneUnconditional;
    forall k | 0 < k < |visited|
      ensures visited[k - 1] < visited[k] < |r.blocks|
      ensures NoneUnconditional(r, visited[k - 1], visited[k])
      ensures Open(r, visited[k - 1], visited[k], history(visited[..k]))
    {
      StepIsSafe(r, payload, history, visited, k - 1);
    }
    assert visited[|visited| - 1] < |payload.blocks|;
    AscendingIsShort(visited, |r.blocks|);
    if IsComplete(payload, r, history, visited) {
      EndIsSafe(r, payload, history, visited);
    }
  }

  lemma {:induction false} AscendingIsShort(visited: seq<nat>, n: nat)
    requires visited != [] && visited[|visited| - 1] < n
    requires forall k :: 0 < k < |visited| ==> visited[k - 1] < visited[k]
    ensures |visited| <= visited[|visited| - 1] + 1 <= n
  {
    if |visited| > 1 {
      AscendingIsShort(visited[..|visited| - 1], n);
    }
  }

  /** A run is never stuck: it has reached the ending or goes on to a later block. */
  lemma RunGoesOn(r: Route, payload: Payload, history: History, visited: seq<nat>)
    requires Runnable(r, payload) && IsRun(payload, history, visited)
    ensures IsComplete(payload, r, history, visited)
         || exists next :: visited[|visited| - 1] < next < |r.blocks| && IsRun(payload, history, visited + [next])
  {
    hide RouteUpTo, LeastOpen, PositionOf, NextOf, Open;
    var from, s := visited[|visited| - 1], history(visited);
    RunTakesLeastOpen(r, payload, history, visited, |visited| - 1);
    assert visited[..|visited|] == visited;
    var next := LeastOpen(r, from, from + 1, s);
    if next < |r.blocks| {
      NextArrives(r, payload, history, visited);
      RunExtends(payload, history, visited, next);
    }
  }

  lemma NextArrives(r: Route, payload: Payload, history: History, visited: seq<nat>)
    requires Runnable(r, payload) && IsRun(payload, history, visited)
    requires LeastOpen(r, visited[|visited| - 1], visited[|visited| - 1] + 1, history(visited)) < |r.blocks|
    ensures Destination(payload, history, visited).Some?
    ensures PositionOf(payload.blocks, Destination(payload, history, visited).value)
         == Some(LeastOpen(r, visited[|visited| - 1], visited[|visited| - 1] + 1, history(visited)))
  {
    hide RouteUpTo, LeastOpen, PositionOf, NextOf, Open;
    var from, s := visited[|visited| - 1], history(visited);
    var next := LeastOpen(r, from, from + 1, s);
    RoutingKeepsIds(r, payload);
    assert from < |r.blocks|;
    RuntimePicksLeastOpen(r, payload, from, s);
    PositionOfDistinct(payload.blocks, next);
  }

  lemma RunExtends(payload: Payload, history: History, visited: seq<nat>, next: nat)
    requires IsRun(payload, history, visited) && next < |payload.blocks|
    requires Destination(payload, history, visited).Some?
    requires PositionOf(payload.blocks, Destination(payload, history, visited).value) == Some(next)
    ensures IsRun(payload, history, visited + [next])
  {
    hide PositionOf, NextOf;
    var longer := visited + [next];
    assert longer[..|visited|] == visited;
    forall k | 0 < k < |longer|
      ensures Arrives(payload, history, longer, k)
    {
      if k < |visited| {
        assert longer[..k] == visited[..k];
        assert Arrives(payload, history, visited, k);
      }
    }
  }

  /** Whatever the respondent does, there is a complete run. */
  lemma {:induction false} RunExists(r: Route, payload: Payload, history: History, visited: seq<nat>)
    returns (complete: seq<nat>)
    requires Runnable(r, payload) && IsRun(payload, history, visited)
    ensures IsComplete(payload, r, history, complete) && visited <= complete
    decreases |r.blocks| - visited[|visited| - 1]
  {
    RunGoesOn(r, payload, history, visited);
    if IsComplete(payload, r, history, visited) {
      complete := visited;
    } else {
      var next :| visited[|visited| - 1] < next < |r.blocks| && IsRun(payload, history, visited + [next]);
      complete := RunExists(r, payload, history, visited + [next]);
    }
  }
}
