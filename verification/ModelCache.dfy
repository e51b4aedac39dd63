/** The cache of language models: an insertion-ordered map that keeps the most recently used entries. */
module ModelCache {
  import opened Wrappers
  import opened Sequences

  const MAX_LANGUAGE_MODEL_CACHE_ENTRIES: nat := 50

  /** Models are told apart by when they were created. */
  datatype Entry = Entry(key: string, model: nat)

  datatype Cache = Cache(entries: seq<Entry>, created: nat)

  const EMPTY := Cache([], 0)

  // ----- The map -----

  function Keys(entries: seq<Entry>): seq<string> {
    seq(|entries|, i requires 0 <= i < |entries| => entries[i].key)
  }

  function Find(entries: seq<Entry>, key: string): (r: Option<nat>)
    ensures r.Some? <==> key in Keys(entries)
    ensures r.Some? ==> Entry(key, r.value) in entries
  {
    if entries == [] then None
    else
      assert Keys(entries) == [entries[0].key] + Keys(entries[1..]);
      if entries[0].key == key then Some(entries[0].model) else Find(entries[1..], key)
  }

  function Deleted(entries: seq<Entry>, key: string): seq<Entry> {
    if entries == [] then []
    else (if entries[0].key == key then [] else [entries[0]]) + Deleted(entries[1..], key)
  }

  /** Setting a key that the map does not have puts it last. */
  function Stored(entries: seq<Entry>, key: string, model: nat): seq<Entry> {
    var rest :=
      if Find(entries, key).Some? then Deleted(entries, key)
      else if |entries| >= MAX_LANGUAGE_MODEL_CACHE_ENTRIES then entries[1..]
      else entries;
    rest + [Entry(key, model)]
  }

  /** A call that finds or creates the model for a key: the cache afterwards and the model returned. */
  function Used(c: Cache, key: string): (Cache, nat) {
    var found := Find(c.entries, key);
    if found.Some? then (c.(entries := Deleted(c.entries, key) + [Entry(key, found.value)]), found.value)
    else (Cache(Stored(c.entries, key, c.created), c.created + 1), c.created)
  }

  class LanguageModelCache {
    var entries: seq<Entry>
    var created: nat

    ghost function Current(): Cache
      reads this
    {
      Cache(entries, created)
    }

    constructor ()
      ensures Current() == EMPTY
    {
      entries, created := [], 0;
    }

    /** A hit moves the entry to the end. */
    method GetCached(key: string) returns (model: Option<nat>)
      modifies this`entries
      ensures model == Find(old(entries), key)
      ensures entries == match model
                         case None => old(entries)
                         case Some(m) => Deleted(old(entries), key) + [Entry(key, m)]
    {
      model := Find(entries, key);
      if model.None? {
        return;
      }
      entries := Deleted(entries, key);
      entries := entries + [Entry(key, model.value)];
    }

    /** A new entry evicts the first one when the map is full. */
    method SetCached(key: string, model: nat)
      modifies this`entries
      ensures entries == Stored(old(entries), key, model)
    {
      if Find(entries, key).Some? {
        entries := Deleted(entries, key);
      } else if |entries| >= MAX_LANGUAGE_MODEL_CACHE_ENTRIES {
        entries := entries[1..];
      }
      entries := entries + [Entry(key, model)];
    }

    /** The model for a key; None when it has to be created and that fails, which leaves the cache as it is. */
    method GetAiModel(key: string, creates: bool) returns (model: Option<nat>)
      modifies this
      ensures model.None? <==> !creates && Find(old(entries), key).None?
      ensures model.None? ==> Current() == old(Current())
      ensures model.Some? ==> (Current(), model.value) == Used(old(Current()), key)
    {
      model := GetCached(key);
      if model.None? && creates {
        model := Some(created);
        created := created + 1;
        SetCached(key, model.value);
      }
    }

    method Reset()
      modifies this`entries
      ensures entries == []
    {
      entries := [];
    }
  }

  // ----- Any sequence of calls and resets -----

  datatype Event = Use(key: string) | Reset

  function After(c: Cache, events: seq<Event>): Cache {
    if events == [] then c
    else
      var before := After(c, events[..|events| - 1]);
      match events[|events| - 1]
      case Use(key) => Used(before, key).0
      case Reset => before.(entries := [])
  }

  /** The keys used since the last reset, in order. */
  function KeysUsed(events: seq<Event>): seq<string> {
    if events == [] then []
    else
      match events[|events| - 1]
      case Use(key) => KeysUsed(events[..|events| - 1]) + [key]
      case Reset => []
  }

  function Without(keys: seq<string>, key: string): seq<string> {
    if keys == [] then [] else (if keys[0] == key then [] else [keys[0]]) + Without(keys[1..], key)
  }

  /** The distinct keys by their last use, the most recent one last. */
  function Recent(keys: seq<string>): seq<string> {
    if keys == [] then []
    else Without(Recent(keys[..|keys| - 1]), keys[|keys| - 1]) + [keys[|keys| - 1]]
  }

  function LastOf(keys: seq<string>, n: nat): seq<string> {
    if |keys| <= n then keys else keys[|keys| - n..]
  }

  // ----- What removing a key does -----

  lemma {:induction false} WithoutMember(keys: seq<string>, key: string, x: string)
    ensures x in Without(keys, key) <==> x in keys && x != key
    ensures |Without(keys, key)| <= |keys|
  {
    if keys != [] {
      WithoutMember(keys[1..], key, x);
      assert x in keys <==> x == keys[0] || x in keys[1..];
    }
  }

  lemma {:induction false} WithoutDistinct(keys: seq<string>, key: string)
    requires NoDuplicates(keys)
    ensures NoDuplicates(Without(keys, key))
    ensures |Without(keys, key)| == |keys| - (if key in keys then 1 else 0)
  {
    if keys != [] {
      assert keys == [keys[0]] + keys[1..];
      NoDuplicatesCons(keys[0], keys[1..]);
      WithoutDistinct(keys[1..], key);
      WithoutMember(keys[1..], key, keys[0]);
      if keys[0] != key { NoDuplicatesCons(keys[0], Without(keys[1..], key)); }
    }
  }

  lemma {:induction false} WithoutAppend(a: seq<string>, b: seq<string>, key: string)
    ensures Without(a + b, key) == Without(a, key) + Without(b, key)
  {
    if a == [] {
      assert a + b == b;
    } else {
      WithoutAppend(a[1..], b, key);
      assert (a + b)[0] == a[0] && (a + b)[1..] == a[1..] + b;
      Associative(if a[0] == key then [] else [a[0]], Without(a[1..], key), Without(b, key));
    }
  }

  lemma {:induction false} WithoutAbsent(keys: seq<string>, key: string)
    requires key !in keys
    ensures Without(keys, key) == keys
  {
    if keys != [] {
      WithoutAbsent(keys[1..], key);
      assert keys == [keys[0]] + keys[1..];
    }
  }

  lemma {:induction false} DeletedKeys(entries: seq<Entry>, key: string)
    ensures Keys(Deleted(entries, key)) == Without(Keys(entries), key)
  {
    if entries != [] {
      DeletedKeys(entries[1..], key);
      assert Keys(entries)[1..] == Keys(entries[1..]);
    }
  }

  // ----- Most recent keys -----

  lemma {:induction false} RecentDistinct(keys: seq<string>)
    ensures NoDuplicates(Recent(keys))
    ensures forall x :: x in Recent(keys) <==> x in keys
  {
    if keys != [] {
      var front, last := keys[..|keys| - 1], keys[|keys| - 1];
      RecentDistinct(front);
      WithoutDistinct(Recent(front), last);
      forall x
        ensures x in Without(Recent(front), last) <==> x in front && x != last
      {
        WithoutMember(Recent(front), last, x);
      }
      NoDuplicatesAppend(Without(Recent(front), last), [last]);
      assert keys == front + [last];
    }
  }

  lemma LastOfSuffix(front: seq<string>, last: seq<string>, n: nat)
    requires |last| <= n && (front == [] || |last| == n)
    ensures LastOf(front + last, n) == last
  {
  }

  /** The older keys and the kept ones, which fill the cache unless there are no older ones. */
  lemma SplitRecent(recent: seq<string>, n: nat) returns (older: seq<string>, kept: seq<string>)
    ensures recent == older + kept && kept == LastOf(recent, n)
    ensures |kept| <= n && (older == [] || |kept| == n)
  {
    kept := LastOf(recent, n);
    older := recent[..|recent| - |kept|];
  }

  /** Using a key that is kept moves it to the end. */
  lemma HitKeepsMostRecent(recent: seq<string>, kept: seq<string>, key: string, n: nat)
    requires NoDuplicates(recent) && kept == LastOf(recent, n) && key in kept
    ensures Without(kept, key) + [key] == LastOf(Without(recent, key) + [key], n)
  {
    hide LastOf, Without;
    var older, _ := SplitRecent(recent, n);
    KeyInOnePart(older, kept, key);
    WithoutAppend(older, kept, key);
    WithoutAbsent(older, key);
    Distinct(older, kept);
    WithoutDistinct(kept, key);
    Associative(older, Without(kept, key), [key]);
    LastOfSuffix(older, Without(kept, key) + [key], n);
  }

  /** Using another key drops the first kept one when there is no room. */
  lemma MissKeepsMostRecent(recent: seq<string>, kept: seq<string>, key: string, n: nat)
    requires NoDuplicates(recent) && kept == LastOf(recent, n) && key !in kept && n > 0
    ensures (if |kept| >= n then kept[1..] else kept) + [key] == LastOf(Without(recent, key) + [key], n)
  {
    hide LastOf, Without;
    var older, _ := SplitRecent(recent, n);
    WithoutAppend(older, kept, key);
    WithoutAbsent(kept, key);
    if |kept| >= n {
      var dropped := Without(older, key) + [kept[0]];
      assert kept == [kept[0]] + kept[1..];
      assert (Without(older, key) + kept) + [key] == dropped + (kept[1..] + [key]);
      LastOfSuffix(dropped, kept[1..] + [key], n);
    } else {
      WithoutAbsent(older, key);
      assert [] + kept == kept && [] + (kept + [key]) == kept + [key];
      LastOfSuffix([], kept + [key], n);
    }
  }

  lemma Distinct(a: seq<string>, b: seq<string>)
    requires NoDuplicates(a + b)
    ensures NoDuplicates(b)
  {
    forall i, j | 0 <= i < j < |b|
      ensures b[i] != b[j]
    {
      assert (a + b)[|a| + i] != (a + b)[|a| + j];
    }
  }

  lemma KeyInOnePart(a: seq<string>, b: seq<string>, key: string)
    requires NoDuplicates(a + b) && key in b
    ensures key !in a
  {
    var j :| 0 <= j < |b| && b[j] == key;
    forall i | 0 <= i < |a|
      ensures a[i] != key
    {
      assert (a + b)[i] != (a + b)[|a| + j];
    }
  }

  /**
   * After any calls and resets the cache holds exactly the most recently used distinct keys since the last
   * reset, up to its capacity, in the order of their last use.
   */
  lemma {:induction false} CacheHoldsMostRecent(events: seq<Event>)
    ensures Keys(After(EMPTY, events).entries) == LastOf(Recent(KeysUsed(events)), MAX_LANGUAGE_MODEL_CACHE_ENTRIES)
  {
    hide Find, Deleted, Without;
    if events != [] {
      var front := events[..|events| - 1];
      CacheHoldsMostRecent(front);
      if events[|events| - 1].Use? {
        var key := events[|events| - 1].key;
        var used := KeysUsed(front);
        RecentDistinct(used);
        UsedKeys(After(EMPTY, front), key);
        var kept := Keys(After(EMPTY, front).entries);
        if key in kept {
          HitKeepsMostRecent(Recent(used), kept, key, MAX_LANGUAGE_MODEL_CACHE_ENTRIES);
        } else {
          MissKeepsMostRecent(Recent(used), kept, key, MAX_LANGUAGE_MODEL_CACHE_ENTRIES);
        }
        assert (used + [key])[..|used|] == used;
      }
    }
  }

  lemma UsedKeys(c: Cache, key: string)
    ensures var kept := Keys(c.entries);
            Keys(Used(c, key).0.entries)
              == (if key in kept then Without(kept, key)
                  else if |kept| >= MAX_LANGUAGE_MODEL_CACHE_ENTRIES then kept[1..] else kept) + [key]
  {
    hide Find;
    DeletedKeys(c.entries, key);
  }

  // ----- Which model is returned -----

  ghost predicate OneEach(c: Cache) {
    NoDuplicates(Keys(c.entries)) && forall e :: e in c.entries ==> e.model < c.created
  }

  lemma {:induction false} FoundEntry(entries: seq<Entry>, e: Entry)
    requires NoDuplicates(Keys(entries)) && e in entries
    ensures Find(entries, e.key) == Some(e.model)
  {
    var ks := Keys(entries);
    assert ks == [entries[0].key] + Keys(entries[1..]);
    NoDuplicatesCons(entries[0].key, Keys(entries[1..]));
    if entries[0] != e {
      var i :| 0 <= i < |entries| && entries[i] == e;
      assert entries[1..][i - 1] == e && Keys(entries[1..])[i - 1] == e.key;
      FoundEntry(entries[1..], e);
    }
  }

  lemma {:induction false} DeletedMember(entries: seq<Entry>, key: string, e: Entry)
    ensures e in Deleted(entries, key) <==> e in entries && e.key != key
  {
    if entries != [] {
      DeletedMember(entries[1..], key, e);
      assert e in entries <==> e == entries[0] || e in entries[1..];
    }
  }

  lemma RestIsDistinct(kept: seq<string>, key: string)
    requires NoDuplicates(kept)
    ensures NoDuplicates(Without(kept, key) + [key])
    ensures key !in kept ==> NoDuplicates(kept + [key]) && (kept != [] ==> NoDuplicates(kept[1..] + [key]))
  {
    WithoutDistinct(kept, key);
    WithoutMember(kept, key, key);
    NoDuplicatesAppend(Without(kept, key), [key]);
    if key !in kept {
      NoDuplicatesAppend(kept, [key]);
      if kept != [] {
        assert kept == kept[..1] + kept[1..];
        Distinct(kept[..1], kept[1..]);
        NoDuplicatesAppend(kept[1..], [key]);
      }
    }
  }

  lemma FreshEntryIsThere(c: Cache, key: string)
    ensures Entry(key, Used(c, key).1) in Used(c, key).0.entries
  {
    hide Find, Deleted;
    var after := Used(c, key).0.entries;
    assert after[|after| - 1] == Entry(key, Used(c, key).1);
  }

  lemma UsedKeepsOneEach(c: Cache, key: string)
    requires OneEach(c)
    ensures OneEach(Used(c, key).0) && Entry(key, Used(c, key).1) in Used(c, key).0.entries
    ensures c.created <= Used(c, key).0.created
    ensures forall e :: e in Used(c, key).0.entries && e.key != key ==> e in c.entries
  {
    hide Without;
    var after := Used(c, key).0;
    UsedKeys(c, key);
    RestIsDistinct(Keys(c.entries), key);
    FreshEntryIsThere(c, key);
    forall e | e in after.entries
      ensures e.key != key ==> e in c.entries
      ensures e.model < after.created
    {
      DeletedMember(c.entries, key, e);
    }
  }

  lemma {:induction false} RunKeepsOneEach(c: Cache, events: seq<Event>)
    requires OneEach(c)
    ensures OneEach(After(c, events)) && c.created <= After(c, events).created
  {
    hide Used;
    if events != [] {
      RunKeepsOneEach(c, events[..|events| - 1]);
      match events[|events| - 1]
      case Use(key) => UsedKeepsOneEach(After(c, events[..|events| - 1]), key);
      case Reset =>
    }
  }

  lemma {:induction false} AfterAppend(c: Cache, a: seq<Event>, b: seq<Event>)
    ensures After(c, a + b) == After(After(c, a), b)
  {
    hide Used;
    if b == [] {
      assert a + b == a;
    } else {
      AfterAppend(c, a, b[..|b| - 1]);
      assert (a + b)[..|a + b| - 1] == a + b[..|b| - 1] && (a + b)[|a + b| - 1] == b[|b| - 1];
    }
  }

  lemma {:induction false} KeysUsedAppend(a: seq<Event>, b: seq<Event>)
    ensures KeysUsed(a + b) == if Reset in b then KeysUsed(b) else KeysUsed(a) + KeysUsed(b)
  {
    if b == [] {
      assert a + b == a;
    } else {
      var front := b[..|b| - 1];
      KeysUsedAppend(a, front);
      assert (a + b)[..|a + b| - 1] == a + front && (a + b)[|a + b| - 1] == b[|b| - 1];
      assert b == front + [b[|b| - 1]];
      if b[|b| - 1].Use? {
        Associative(KeysUsed(a), KeysUsed(front), [b[|b| - 1].key]);
      }
    }
  }

  lemma {:induction false} KeysUsedMember(events: seq<Event>, key: string)
    requires Use(key) !in events
    ensures key !in KeysUsed(events)
  {
    if events != [] {
      assert events == events[..|events| - 1] + [events[|events| - 1]];
      KeysUsedMember(events[..|events| - 1], key);
    }
  }

  /** Where a key stands among the most recent ones: right before those used since. */
  lemma {:induction false} RecentEnds(a: seq<string>, key: string, b: seq<string>) returns (front: seq<string>)
    requires key !in b
    ensures Recent(a + [key] + b) == front + ([key] + Recent(b))
  {
    hide Without;
    var all := a + [key] + b;
    if b == [] {
      assert all == a + [key] && all[..|all| - 1] == a;
      front := Without(Recent(a), key);
    } else {
      var earlier, last := b[..|b| - 1], b[|b| - 1];
      assert b == earlier + [last];
      var before := RecentEnds(a, key, earlier);
      assert all[..|all| - 1] == a + [key] + earlier && all[|all| - 1] == last;
      WithoutAppend(before, [key] + Recent(earlier), last);
      WithoutAppend([key], Recent(earlier), last);
      WithoutAbsent([key], last);
      front := Without(before, last);
      assert (front + ([key] + Without(Recent(earlier), last))) + [last] == front + ([key] + Recent(b));
    }
  }

  lemma KeptExactly(front: seq<string>, key: string, since: seq<string>, n: nat)
    requires NoDuplicates(front + ([key] + since))
    ensures key in LastOf(front + ([key] + since), n) <==> |since| < n
  {
    var all := front + ([key] + since);
    var kept := LastOf(all, n);
    assert all[|front|] == key;
    if |since| < n {
      assert kept[|kept| - |since| - 1] == key;
    } else {
      forall i | 0 <= i < |kept|
        ensures kept[i] != key
      {
        assert kept[i] == all[|all| - n + i];
      }
    }
  }

  /** A key stays cached exactly while there was no reset and fewer other keys than the capacity were used. */
  lemma StaysCachedExactly(before: seq<Event>, key: string, between: seq<Event>)
    requires Use(key) !in between
    ensures key in Keys(After(EMPTY, before + [Use(key)] + between).entries)
       <==> Reset !in between && |Recent(KeysUsed(between))| < MAX_LANGUAGE_MODEL_CACHE_ENTRIES
  {
    hide LastOf, Without, After, Keys, Recent;
    var first := before + [Use(key)];
    var all := first + between;
    CacheHoldsMostRecent(all);
    KeysUsedAppend(first, between);
    KeysUsedMember(between, key);
    RecentDistinct(KeysUsed(all));
    assert first[..|first| - 1] == before;
    if Reset in between {
      NotKept(KeysUsed(all), key);
    } else {
      var front := RecentEnds(KeysUsed(before), key, KeysUsed(between));
      KeptExactly(front, key, Recent(KeysUsed(between)), MAX_LANGUAGE_MODEL_CACHE_ENTRIES);
    }
  }

  lemma NotKept(used: seq<string>, key: string)
    requires key !in used
    ensures key !in LastOf(Recent(used), MAX_LANGUAGE_MODEL_CACHE_ENTRIES)
  {
    RecentDistinct(used);
    var recent := Recent(used);
    var kept := LastOf(recent, MAX_LANGUAGE_MODEL_CACHE_ENTRIES);
    forall i | 0 <= i < |kept|
      ensures kept[i] != key
    {
      assert kept[i] in recent;
    }
  }

  lemma {:induction false} EntryKept(c: Cache, key: string, model: nat, between: seq<Event>)
    requires OneEach(c) && Find(c.entries, key) == Some(model) && Use(key) !in between
    requires key in Keys(After(c, between).entries)
    ensures Find(After(c, between).entries, key) == Some(model)
  {
    hide Used, Keys, NoDuplicates;
    if between != [] {
      var front := between[..|between| - 1];
      var last := between[|between| - 1];
      assert between == front + [last];
      var middle := After(c, front);
      RunKeepsOneEach(c, front);
      if last.Use? {
        var found := Find(After(c, between).entries, key).value;
        UsedKeepsOneEach(middle, last.key);
        assert Entry(key, found) in middle.entries;
        FoundEntry(middle.entries, Entry(key, found));
        EntryKept(c, key, model, front);
      } else {
        NothingKept(key);
      }
    }
  }

  lemma NothingKept(key: string)
    ensures key !in Keys([])
  {
  }

  /**
   * Two successive uses of a key return the same model exactly when no reset came in between and fewer
   * distinct other keys than the capacity were used; otherwise the second model is newly created.
   */
  lemma SameModelExactly(before: seq<Event>, key: string, between: seq<Event>)
    requires Use(key) !in between
    ensures var c := After(EMPTY, before);
            var (c1, model) := Used(c, key);
            (Used(After(c1, between), key).1 == model)
              <==> (Reset !in between && |Recent(KeysUsed(between))| < MAX_LANGUAGE_MODEL_CACHE_ENTRIES)
  {
    hide Recent, Keys, NoDuplicates;
    var c := After(EMPTY, before);
    var c1, model := Used(c, key).0, Used(c, key).1;
    EmptyOneEach();
    RunKeepsOneEach(EMPTY, before);
    UsedKeepsOneEach(c, key);
    FoundEntry(c1.entries, Entry(key, model));
    RunKeepsOneEach(c1, between);
    StaysCachedExactly(before, key, between);
    AfterUse(before, key);
    AfterAppend(EMPTY, before + [Use(key)], between);
    if key in Keys(After(c1, between).entries) {
      EntryKept(c1, key, model, between);
    }
  }

  lemma EmptyOneEach()
    ensures OneEach(EMPTY)
  {
  }

  lemma AfterUse(before: seq<Event>, key: string)
    ensures After(EMPTY, before + [Use(key)]) == Used(After(EMPTY, before), key).0
  {
    hide Used;
    var events := before + [Use(key)];
    assert events[..|events| - 1] == before;
  }
}
