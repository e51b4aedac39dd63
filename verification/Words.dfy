/** Words separated by a character that no word contains, and decimal numerals. */
module Words {
  /** Every word preceded by the separator. */
  function Joined(sep: char, words: seq<string>): string {
    if words == [] then "" else [sep] + words[0] + Joined(sep, words[1..])
  }

  ghost predicate FreeOf(sep: char, words: seq<string>) {
    forall w :: w in words ==> sep !in w
  }

  ghost predicate StartsOrEnds(sep: char, rest: string) {
    rest == "" || rest[0] == sep
  }

  lemma JoinedStarts(sep: char, words: seq<string>)
    ensures StartsOrEnds(sep, Joined(sep, words))
  {
  }

  lemma {:induction false} SplitHead(sep: char, a: string, x: string, b: string, y: string)
    requires sep !in a && sep !in b
    requires StartsOrEnds(sep, x) && StartsOrEnds(sep, y)
    requires a + x == b + y
    ensures a == b && x == y
  {
    var s := a + x;
    assert forall i :: 0 <= i < |a| ==> s[i] != sep by { assert forall i :: 0 <= i < |a| ==> s[i] in a; }
    assert forall i :: 0 <= i < |b| ==> s[i] != sep by { assert forall i :: 0 <= i < |b| ==> s[i] in b; }
    assert |a| < |s| ==> s[|a|] == sep;
    assert |b| < |s| ==> s[|b|] == sep;
    assert |a| == |b|;
    assert a == s[..|a|] == b && x == s[|a|..] == y;
  }

  /** A text is cut at its last separator in one way only. */
  lemma SplitLast(sep: char, a: string, x: string, b: string, y: string)
    requires sep !in x && sep !in y && a + [sep] + x == b + [sep] + y
    ensures a == b && x == y
  {
    var s := a + [sep] + x;
    assert forall i :: |a| < i < |s| ==> s[i] != sep by { assert forall i :: |a| < i < |s| ==> s[i] in x; }
    assert forall i :: |b| < i < |s| ==> s[i] != sep by { assert forall i :: |b| < i < |s| ==> s[i] in y; }
    assert s[|a|] == sep && s[|b|] == sep;
    assert |a| == |b|;
    assert a == s[..|a|] == b && x == s[|a| + 1..] == y;
  }

  lemma {:induction false} JoinedInjective(sep: char, u: seq<string>, v: seq<string>)
    requires FreeOf(sep, u) && FreeOf(sep, v)
    requires Joined(sep, u) == Joined(sep, v)
    ensures u == v
  {
    if u != [] && v != [] {
      var ru, rv := Joined(sep, u[1..]), Joined(sep, v[1..]);
      assert u[0] + ru == Joined(sep, u)[1..] == Joined(sep, v)[1..] == v[0] + rv;
      SplitHead(sep, u[0], ru, v[0], rv);
      JoinedInjective(sep, u[1..], v[1..]);
      assert u == [u[0]] + u[1..] && v == [v[0]] + v[1..];
    }
  }

  function Digit(n: nat): char
    requires n < 10
  {
    ('0' as int + n) as char
  }

  /** The decimal numeral of a natural number, without leading zeros. */
  function Numeral(n: nat): (s: string)
    ensures s != "" && (|s| == 1 <==> n < 10)
    ensures forall c :: c in s ==> '0' <= c <= '9'
  {
    if n < 10 then [Digit(n)] else Numeral(n / 10) + [Digit(n % 10)]
  }

  lemma {:induction false} NumeralInjective(m: nat, n: nat)
    requires Numeral(m) == Numeral(n)
    ensures m == n
  {
    var s := Numeral(m);
    if m >= 10 {
      assert Numeral(m / 10) == s[..|s| - 1] == Numeral(n / 10);
      NumeralInjective(m / 10, n / 10);
    }
  }
}
