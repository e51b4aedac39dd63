/** Small facts about sequences that several modules need. */
module Sequences {
  ghost predicate NoDuplicates<T>(xs: seq<T>) {
    forall i, j :: 0 <= i < j < |xs| ==> xs[i] != xs[j]
  }

  lemma NoDuplicatesAppend<T>(xs: seq<T>, ys: seq<T>)
    requires NoDuplicates(xs) && NoDuplicates(ys) && forall x :: x in xs ==> x !in ys
    ensures NoDuplicates(xs + ys)
  {
    forall i, j | 0 <= i < j < |xs + ys|
      ensures (xs + ys)[i] != (xs + ys)[j]
    {
      if i < |xs| <= j {
        assert xs[i] in xs && ys[j - |xs|] in ys;
      }
    }
  }

  lemma NoDuplicatesCons<T>(x: T, xs: seq<T>)
    ensures NoDuplicates([x] + xs) <==> x !in xs && NoDuplicates(xs)
  {
    var all := [x] + xs;
    if NoDuplicates(all) {
      forall j | 0 <= j < |xs|
        ensures xs[j] != x
      {
        assert all[0] != all[j + 1];
      }
      forall i, j | 0 <= i < j < |xs|
        ensures xs[i] != xs[j]
      {
        assert all[i + 1] != all[j + 1];
      }
    }
    if x !in xs && NoDuplicates(xs) {
      forall i, j | 0 <= i < j < |all|
        ensures all[i] != all[j]
      {
        assert all[j] == xs[j - 1];
        if i > 0 { assert all[i] == xs[i - 1]; }
      }
    }
  }

  lemma Associative<T>(xs: seq<T>, ys: seq<T>, zs: seq<T>)
    ensures (xs + ys) + zs == xs + (ys + zs)
  {
  }

  lemma OnceInDistinct<T>(xs: seq<T>, i: nat)
    requires NoDuplicates(xs) && i < |xs|
    ensures multiset(xs)[xs[i]] == 1
  {
    var rest := xs[..i] + xs[i + 1..];
    assert xs == xs[..i] + [xs[i]] + xs[i + 1..];
    assert multiset(xs) == multiset(rest) + multiset{xs[i]};
    assert xs[i] !in rest by {
      forall k | 0 <= k < |rest|
        ensures rest[k] != xs[i]
      {
        if k >= i { assert rest[k] == xs[k + 1]; }
      }
    }
    assert xs[i] !in multiset(rest);
  }

  lemma TwiceWhenRepeated<T>(xs: seq<T>, i: nat, j: nat)
    requires i < j < |xs| && xs[i] == xs[j]
    ensures multiset(xs)[xs[i]] >= 2
  {
    assert xs == xs[..i] + [xs[i]] + xs[i + 1..j] + [xs[j]] + xs[j + 1..];
    assert multiset(xs)
        == multiset(xs[..i]) + multiset{xs[i]} + multiset(xs[i + 1..j]) + multiset{xs[j]} + multiset(xs[j + 1..]);
  }

  lemma PermutationKeepsDistinct<T>(xs: seq<T>, ys: seq<T>)
    requires NoDuplicates(xs) && multiset(xs) == multiset(ys)
    ensures NoDuplicates(ys)
  {
    forall i, j | 0 <= i < j < |ys|
      ensures ys[i] != ys[j]
    {
      assert ys[i] in multiset(ys);
      var k :| 0 <= k < |xs| && xs[k] == ys[i];
      OnceInDistinct(xs, k);
      if ys[i] == ys[j] { TwiceWhenRepeated(ys, i, j); }
    }
  }

  lemma SameMembersExactly<T(!new)>(xs: seq<T>, ys: seq<T>)
    requires NoDuplicates(xs) && NoDuplicates(ys)
    ensures multiset(xs) == multiset(ys) <==> forall x :: x in xs <==> x in ys
  {
    if multiset(xs) == multiset(ys) {
      assert forall x :: x in xs <==> x in multiset(xs);
      assert forall x :: x in ys <==> x in multiset(ys);
    }
    if forall x :: x in xs <==> x in ys {
      SameMembers(xs, ys);
    }
  }

  lemma SameMembers<T(!new)>(xs: seq<T>, ys: seq<T>)
    requires NoDuplicates(xs) && NoDuplicates(ys) && forall x :: x in xs <==> x in ys
    ensures multiset(xs) == multiset(ys)
  {
    forall x
      ensures multiset(xs)[x] == multiset(ys)[x]
    {
      if x in xs {
        var i :| 0 <= i < |xs| && xs[i] == x;
        var j :| 0 <= j < |ys| && ys[j] == x;
        OnceInDistinct(xs, i);
        OnceInDistinct(ys, j);
      } else {
        assert x !in multiset(xs) && x !in multiset(ys);
      }
    }
  }

  /** The elements of a sequence that satisfy a test, in order. */
  function Filter<T>(xs: seq<T>, keep: T -> bool): seq<T> {
    if xs == [] then []
    else (if keep(xs[0]) then [xs[0]] else []) + Filter(xs[1..], keep)
  }

  lemma {:induction false} FilterMember<T>(xs: seq<T>, keep: T -> bool, x: T)
    ensures x in Filter(xs, keep) <==> x in xs && keep(x)
  {
    if xs != [] {
      FilterMember(xs[1..], keep, x);
      assert x in xs <==> x == xs[0] || x in xs[1..];
    }
  }

  lemma {:induction false} FilterAppend<T>(xs: seq<T>, ys: seq<T>, keep: T -> bool)
    ensures Filter(xs + ys, keep) == Filter(xs, keep) + Filter(ys, keep)
  {
    if xs == [] {
      assert xs + ys == ys;
    } else {
      var head := if keep(xs[0]) then [xs[0]] else [];
      var rest, tail := Filter(xs[1..], keep), Filter(ys, keep);
      assert (xs + ys)[0] == xs[0] && (xs + ys)[1..] == xs[1..] + ys;
      FilterAppend(xs[1..], ys, keep);
      assert Filter(xs + ys, keep) == head + (rest + tail);
      assert head + (rest + tail) == (head + rest) + tail;
    }
  }

  lemma {:induction false} FilterNoDuplicates<T>(xs: seq<T>, keep: T -> bool)
    requires NoDuplicates(xs)
    ensures NoDuplicates(Filter(xs, keep))
  {
    if xs != [] {
      FilterNoDuplicates(xs[1..], keep);
      FilterMember(xs[1..], keep, xs[0]);
    }
  }

  /** A sequence longer than the set it draws from repeats an element. */
  lemma {:induction false} Pigeonhole<T>(xs: seq<T>, pool: set<T>)
    requires forall x :: x in xs ==> x in pool
    requires |xs| > |pool|
    ensures !NoDuplicates(xs)
    decreases |xs|
  {
    var last := xs[|xs| - 1];
    var front := xs[..|xs| - 1];
    if last in front {
      var i :| 0 <= i < |front| && front[i] == last;
      assert xs[i] == xs[|xs| - 1];
    } else {
      Pigeonhole(front, pool - {last});
      var i, j :| 0 <= i < j < |front| && front[i] == front[j];
      assert xs[i] == xs[j];
    }
  }
}
