/** Sorting strings by their characters, as Array.prototype.sort does by default. */
module Strings {
  predicate AtMost(a: string, b: string) {
    a == "" || (b != "" && (a[0] < b[0] || (a[0] == b[0] && AtMost(a[1..], b[1..]))))
  }

  function Insert(x: string, xs: seq<string>): (r: seq<string>)
    ensures forall y :: y in r <==> y == x || y in xs
  {
    if xs == [] || AtMost(x, xs[0]) then [x] + xs else [xs[0]] + Insert(x, xs[1..])
  }

  function Sort(xs: seq<string>): (r: seq<string>)
    ensures forall y :: y in r <==> y in xs
  {
    if xs == [] then [] else Insert(xs[0], Sort(xs[1..]))
  }

  ghost predicate Ascending(xs: seq<string>) {
    forall i, j :: 0 <= i < j < |xs| ==> AtMost(xs[i], xs[j])
  }

  lemma {:induction false} Total(a: string, b: string)
    ensures AtMost(a, b) || AtMost(b, a)
  {
    if a != "" && b != "" && a[0] == b[0] {
      Total(a[1..], b[1..]);
    }
  }

  lemma {:induction false} Transitive(a: string, b: string, c: string)
    requires AtMost(a, b) && AtMost(b, c)
    ensures AtMost(a, c)
  {
    if a != "" && a[0] == b[0] && b[0] == c[0] {
      Transitive(a[1..], b[1..], c[1..]);
    }
  }

  lemma {:induction false} InsertPermutes(x: string, xs: seq<string>)
    ensures multiset(Insert(x, xs)) == multiset(xs) + multiset{x}
  {
    if xs != [] && !AtMost(x, xs[0]) {
      InsertPermutes(x, xs[1..]);
      assert xs == [xs[0]] + xs[1..];
    }
  }

  lemma {:induction false} InsertAscends(x: string, xs: seq<string>)
    requires Ascending(xs)
    ensures Ascending(Insert(x, xs))
  {
    if xs != [] {
      if AtMost(x, xs[0]) {
        forall j | 0 <= j < |xs|
          ensures AtMost(x, xs[j])
        {
          if j > 0 { Transitive(x, xs[0], xs[j]); }
        }
      } else {
        Total(x, xs[0]);
        InsertAscends(x, xs[1..]);
        InsertPermutes(x, xs[1..]);
        var rest := Insert(x, xs[1..]);
        forall j | 0 <= j < |rest|
          ensures AtMost(xs[0], rest[j])
        {
          assert rest[j] in multiset(rest);
        }
      }
    }
  }

  lemma NoneAscends()
    ensures Ascending([])
  {
  }

  /** Sorting yields an ascending permutation. */
  lemma {:induction false} SortSorts(xs: seq<string>)
    ensures Ascending(Sort(xs)) && multiset(Sort(xs)) == multiset(xs)
  {
    hide Ascending, Insert;
    if xs == [] {
      assert Ascending([]) by { NoneAscends(); }
    } else {
      SortSorts(xs[1..]);
      InsertAscends(xs[0], Sort(xs[1..]));
      InsertPermutes(xs[0], Sort(xs[1..]));
      assert xs == [xs[0]] + xs[1..];
    }
  }

  lemma {:induction false} Antisymmetric(a: string, b: string)
    requires AtMost(a, b) && AtMost(b, a)
    ensures a == b
  {
    if a != "" && b != "" {
      Antisymmetric(a[1..], b[1..]);
      assert a == [a[0]] + a[1..] && b == [b[0]] + b[1..];
    }
  }

  lemma LeastIsFirst(xs: seq<string>, y: string)
    requires Ascending(xs) && y in xs
    ensures AtMost(xs[0], y)
  {
    var j :| 0 <= j < |xs| && xs[j] == y;
    Total(y, y);
  }

  lemma WithoutFirst(xs: seq<string>)
    requires xs != [] && Ascending(xs)
    ensures Ascending(xs[1..]) && multiset(xs[1..]) == multiset(xs) - multiset{xs[0]} && xs == [xs[0]] + xs[1..]
  {
    assert xs == [xs[0]] + xs[1..];
  }

  /** A collection of strings has one ascending order. */
  lemma {:induction false} AscendingIsUnique(xs: seq<string>, ys: seq<string>)
    requires Ascending(xs) && Ascending(ys) && multiset(xs) == multiset(ys)
    ensures xs == ys
  {
    hide Ascending, AtMost;
    assert |multiset(xs)| == |xs| && |multiset(ys)| == |ys|;
    if xs != [] {
      assert xs[0] in multiset(ys) && ys[0] in multiset(xs);
      LeastIsFirst(xs, ys[0]);
      LeastIsFirst(ys, xs[0]);
      Antisymmetric(xs[0], ys[0]);
      WithoutFirst(xs);
      WithoutFirst(ys);
      AscendingIsUnique(xs[1..], ys[1..]);
    }
  }

  lemma SortIsCanonical(xs: seq<string>, ys: seq<string>)
    requires multiset(xs) == multiset(ys)
    ensures Sort(xs) == Sort(ys)
  {
    SortSorts(xs);
    SortSorts(ys);
    AscendingIsUnique(Sort(xs), Sort(ys));
  }
}
