/** The check that a compiled artifact's payload and crosswalk name the same entities, each once. */
module Artifact {
  import opened Wrappers
  import opened Expressions
  import opened Survey
  import opened Segments
  import opened SurveySegments
  import opened CompiledSurvey
  import opened Crosswalk
  import opened Sequences
  import BlockNames
  import DistinctIds
  import Payload
  import Validation
  import Words

  datatype Side = Payload | Crosswalk

  /** A key that occurs more than once on one side, or does not occur exactly once on the other. */
  datatype Issue = Repeated(side: Side, key: string) | Unmatched(side: Side, key: string)

  function KindName(kind: EntryKind): string {
    match kind
    case GroupKind => "group"
    case QuestionKind => "question"
    case EndingKind => "ending"
    case OptionKind => "option"
    case RankingChoiceKind => "rankingChoice"
    case MatrixRowKind => "matrixRow"
    case MatrixColumnKind => "matrixColumn"
  }

  function FormatEntry(e: Emitted): string {
    KindName(e.kind) + ":" + e.id
  }

  function Keys(es: seq<Emitted>): seq<string> {
    seq(|es|, i requires 0 <= i < |es| => FormatEntry(es[i]))
  }

  lemma KindNamesDiffer(a: EntryKind, b: EntryKind)
    requires KindName(a) == KindName(b)
    ensures a == b
  {
    assert |KindName(a)| == |KindName(b)| && KindName(a)[0] == KindName(b)[0];
  }

  lemma KindHasNoColon(kind: EntryKind)
    ensures ':' !in KindName(kind)
  {
  }

  /** A key determines the kind and the ID it was made from. */
  lemma FormatInjective(a: Emitted, b: Emitted)
    requires FormatEntry(a) == FormatEntry(b)
    ensures a == b
  {
    hide KindName;
    KindHasNoColon(a.kind);
    KindHasNoColon(b.kind);
    assert KindName(a.kind) + (":" + a.id) == FormatEntry(a) && KindName(b.kind) + (":" + b.id) == FormatEntry(b);
    Words.SplitHead(':', KindName(a.kind), ":" + a.id, KindName(b.kind), ":" + b.id);
    KindNamesDiffer(a.kind, b.kind);
    assert a.id == (":" + a.id)[1..] && b.id == (":" + b.id)[1..];
  }

  /** How often a key occurs. */
  function Occurrences(keys: seq<string>, key: string): nat {
    multiset(keys)[key]
  }

  /** The distinct keys in order of first occurrence, with their counts. */
  ghost predicate Counts(keys: seq<string>, order: seq<string>, counts: map<string, nat>) {
    NoDuplicates(order) && (forall k :: k in order <==> k in keys) && (forall k :: k in counts <==> k in keys) &&
    forall k :: k in counts ==> counts[k] == Occurrences(keys, k)
  }

  method CountKeys(keys: seq<string>) returns (order: seq<string>, counts: map<string, nat>)
    ensures Counts(keys, order, counts)
  {
    order, counts := [], map[];
    for i := 0 to |keys|
      invariant Counts(keys[..i], order, counts)
    {
      var key := keys[i];
      assert keys[..i + 1] == keys[..i] + [key];
      if key in counts {
        counts := counts[key := counts[key] + 1];
      } else {
        NoDuplicatesAppend(order, [key]);
        order := order + [key];
        counts := counts[key := 1];
      }
    }
    assert keys[..|keys|] == keys;
  }

  /** What one side's loop reports about its keys. */
  ghost predicate Reports(issues: seq<Issue>, side: Side, keys: seq<string>, others: seq<string>) {
    (forall issue :: issue in issues ==> issue.side == side) &&
    (forall k :: Repeated(side, k) in issues <==> Occurrences(keys, k) > 1) &&
    (forall k :: Unmatched(side, k) in issues <==> k in keys && Occurrences(others, k) != 1)
  }

  method CheckSide(side: Side, order: seq<string>, counts: map<string, nat>, otherCounts: map<string, nat>)
    returns (issues: seq<Issue>)
    requires forall k :: k in order ==> k in counts
    ensures forall issue :: issue in issues ==> issue.side == side
    ensures forall k :: Repeated(side, k) in issues <==> k in order && counts[k] != 1
    ensures forall k :: Unmatched(side, k) in issues <==> k in order && !(k in otherCounts && otherCounts[k] == 1)
  {
    issues := [];
    for i := 0 to |order|
      invariant forall issue :: issue in issues ==> issue.side == side
      invariant forall k :: Repeated(side, k) in issues <==> k in order[..i] && counts[k] != 1
      invariant forall k :: Unmatched(side, k) in issues
                       <==> k in order[..i] && !(k in otherCounts && otherCounts[k] == 1)
    {
      var key := order[i];
      assert order[..i + 1] == order[..i] + [key];
      if counts[key] != 1 {
        issues := issues + [Repeated(side, key)];
      }
      if !(key in otherCounts && otherCounts[key] == 1) {
        issues := issues + [Unmatched(side, key)];
      }
    }
    assert order[..|order|] == order;
  }

  lemma CountedKeys(keys: seq<string>)
    ensures forall k :: k in keys <==> Occurrences(keys, k) > 0
  {
    assert forall k :: k in keys <==> k in multiset(keys);
  }

  lemma SideReports(
    issues: seq<Issue>, side: Side, keys: seq<string>, order: seq<string>, counts: map<string, nat>,
    others: seq<string>, otherOrder: seq<string>, otherCounts: map<string, nat>)
    requires Counts(keys, order, counts) && Counts(others, otherOrder, otherCounts)
    requires forall issue :: issue in issues ==> issue.side == side
    requires forall k :: Repeated(side, k) in issues <==> k in order && counts[k] != 1
    requires forall k :: Unmatched(side, k) in issues <==> k in order && !(k in otherCounts && otherCounts[k] == 1)
    ensures Reports(issues, side, keys, others)
  {
    hide Occurrences;
    CountedKeys(keys);
    CountedKeys(others);
  }

  /** Payload and crosswalk name the same entities, each once. */
  ghost predicate Matched(payload: Payload.Payload, entries: seq<Entry>) {
    NoDuplicates(EmittedIds(payload)) && NoDuplicates(Listed(entries)) &&
    forall e :: e in EmittedIds(payload) <==> e in Listed(entries)
  }

  lemma KeysDistinct(es: seq<Emitted>)
    ensures NoDuplicates(Keys(es)) <==> NoDuplicates(es)
  {
    hide FormatEntry;
    forall i, j | 0 <= i < j < |es|
      ensures Keys(es)[i] == Keys(es)[j] <==> es[i] == es[j]
    {
      if Keys(es)[i] == Keys(es)[j] { FormatInjective(es[i], es[j]); }
    }
  }

  lemma KeysMember(es: seq<Emitted>, e: Emitted)
    ensures FormatEntry(e) in Keys(es) <==> e in es
  {
    hide FormatEntry;
    if FormatEntry(e) in Keys(es) {
      var i :| 0 <= i < |es| && Keys(es)[i] == FormatEntry(e);
      FormatInjective(e, es[i]);
    }
    if e in es {
      var i :| 0 <= i < |es| && es[i] == e;
      assert Keys(es)[i] == FormatEntry(e);
    }
  }

  lemma KeyOfMember(es: seq<Emitted>, k: string) returns (e: Emitted)
    requires k in Keys(es)
    ensures e in es && FormatEntry(e) == k
  {
    var i :| 0 <= i < |es| && Keys(es)[i] == k;
    e := es[i];
  }

  lemma SameKeysExactly(es: seq<Emitted>, fs: seq<Emitted>)
    ensures (forall k :: k in Keys(es) <==> k in Keys(fs)) <==> forall e :: e in es <==> e in fs
  {
    hide Keys, FormatEntry;
    if forall k :: k in Keys(es) <==> k in Keys(fs) {
      forall e
        ensures e in es <==> e in fs
      {
        KeysMember(es, e);
        KeysMember(fs, e);
      }
    }
    if forall e :: e in es <==> e in fs {
      forall k
        ensures k in Keys(es) <==> k in Keys(fs)
      {
        if k in Keys(es) {
          var e := KeyOfMember(es, k);
          KeysMember(fs, e);
        }
        if k in Keys(fs) {
          var e := KeyOfMember(fs, k);
          KeysMember(es, e);
        }
      }
    }
  }

  lemma OnceExactly(keys: seq<string>)
    ensures NoDuplicates(keys) <==> forall k :: Occurrences(keys, k) <= 1
  {
    if NoDuplicates(keys) {
      forall k
        ensures Occurrences(keys, k) <= 1
      {
        if k in keys {
          var i :| 0 <= i < |keys| && keys[i] == k;
          OnceInDistinct(keys, i);
        } else {
          assert k !in multiset(keys);
        }
      }
    } else {
      var i, j :| 0 <= i < j < |keys| && keys[i] == keys[j];
      TwiceWhenRepeated(keys, i, j);
      assert Occurrences(keys, keys[i]) >= 2;
    }
  }

  /** Neither side reports anything exactly when both lists are distinct and have the same keys. */
  lemma SilentExactly(mine: seq<Issue>, theirs: seq<Issue>, keys: seq<string>, others: seq<string>)
    requires Reports(mine, Side.Payload, keys, others) && Reports(theirs, Side.Crosswalk, others, keys)
    ensures mine == [] && theirs == []
       <==> NoDuplicates(keys) && NoDuplicates(others) && forall k :: k in keys <==> k in others
  {
    hide Occurrences, NoDuplicates;
    OnceExactly(keys);
    OnceExactly(others);
    CountedKeys(keys);
    CountedKeys(others);
    if mine == [] && theirs == [] {
      assert forall k :: Repeated(Side.Payload, k) !in mine && Unmatched(Side.Payload, k) !in mine;
      assert forall k :: Repeated(Side.Crosswalk, k) !in theirs && Unmatched(Side.Crosswalk, k) !in theirs;
    }
    if NoDuplicates(keys) && NoDuplicates(others) && forall k :: k in keys <==> k in others {
      if mine != [] { SomethingReported(mine, Side.Payload, keys, others); }
      if theirs != [] { SomethingReported(theirs, Side.Crosswalk, others, keys); }
    }
  }

  lemma SomethingReported(issues: seq<Issue>, side: Side, keys: seq<string>, others: seq<string>)
    requires Reports(issues, side, keys, others) && issues != []
    ensures exists k :: Occurrences(keys, k) > 1 || (k in keys && Occurrences(others, k) != 1)
  {
    hide Occurrences;
    var issue := issues[0];
    assert issue == Repeated(side, issue.key) || issue == Unmatched(side, issue.key);
  }

  /** Counts emitted and listed keys, compares the counts in both directions, and accepts what matches. */
  method CheckArtifact(payload: Payload.Payload, entries: seq<Entry>) returns (issues: seq<Issue>)
    ensures issues == [] <==> Matched(payload, entries)
    ensures forall k :: Repeated(Side.Payload, k) in issues <==> Occurrences(Keys(EmittedIds(payload)), k) > 1
    ensures forall k :: Repeated(Side.Crosswalk, k) in issues <==> Occurrences(Keys(Listed(entries)), k) > 1
    ensures forall k :: Unmatched(Side.Payload, k) in issues
                   <==> k in Keys(EmittedIds(payload)) && Occurrences(Keys(Listed(entries)), k) != 1
    ensures forall k :: Unmatched(Side.Crosswalk, k) in issues
                   <==> k in Keys(Listed(entries)) && Occurrences(Keys(EmittedIds(payload)), k) != 1
  {
    hide Keys, Listed, EmittedIds, Occurrences, NoDuplicates, Counts;
    var emitted, listed := Keys(EmittedIds(payload)), Keys(Listed(entries));
    var emittedOrder, emittedCounts := CountKeys(emitted);
    var listedOrder, listedCounts := CountKeys(listed);
    CountsCover(emitted, emittedOrder, emittedCounts);
    CountsCover(listed, listedOrder, listedCounts);
    var mine := CheckSide(Side.Payload, emittedOrder, emittedCounts, listedCounts);
    var theirs := CheckSide(Side.Crosswalk, listedOrder, listedCounts, emittedCounts);
    SideReports(mine, Side.Payload, emitted, emittedOrder, emittedCounts, listed, listedOrder, listedCounts);
    SideReports(theirs, Side.Crosswalk, listed, listedOrder, listedCounts, emitted, emittedOrder, emittedCounts);
    SilentExactly(mine, theirs, emitted, listed);
    KeysDistinct(EmittedIds(payload));
    KeysDistinct(Listed(entries));
    SameKeysExactly(EmittedIds(payload), Listed(entries));
    issues := mine + theirs;
  }

  lemma CountsCover(keys: seq<string>, order: seq<string>, counts: map<string, nat>)
    requires Counts(keys, order, counts)
    ensures forall k :: k in order ==> k in counts
  {
  }

  /** The artifact of a clean survey is accepted exactly when no group is named like a piece of another group. */
  lemma CleanArtifactAccepted(survey: CanonicalSurvey, host: Host, c: Compilation, segments: seq<Segment>)
    requires Validation.CleanlyValidated(survey) && SegmentsOf(survey, segments)
    requires CompilesTo(survey, host, c)
    ensures Matched(c.payload, c.entries)
       <==> forall i, j :: 0 <= i < |segments| && 0 <= j < |segments|
              ==> !BlockNames.NameTaken(segments[i], segments[j])
  {
    hide Validation.CleanlyValidated, EmittedIds, Listed, NoDuplicates, BlockNames.NameTaken, BlockNamesOf;
    Validation.CleanSurveyIsDistinct(survey) by { CleanReferencesOf(survey); }
    DistinctIds.EmittedOnceExactly(survey, host, c, segments);
    BlockNames.NamesDistinctExactly(survey, segments);
  }

  lemma CleanReferencesOf(survey: CanonicalSurvey)
    requires Validation.CleanlyValidated(survey)
    ensures Validation.CleanReferences(survey)
  {
  }
}
