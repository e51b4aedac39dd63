/** Caching results that may be null: concurrent calls against a store that expires, fails and is shared. */
module NullableCache {
  import opened Wrappers

  datatype Json =
    | JNull | JBool(b: bool) | JNumber(n: real) | JString(s: string) | JArray(items: seq<Json>)
    | JObject(fields: map<string, Json>)

  const NULLABLE_BOX_MARKER := "__fb_nullable_v1"

  /** What a key holds: text that parses, or text that does not. */
  datatype Stored = Text(json: Json) | Corrupt

  function Box(value: Json): Json {
    JObject(map[NULLABLE_BOX_MARKER := JBool(true), "value" := value])
  }

  predicate IsNullableCacheBox(j: Json) {
    j.JObject? && NULLABLE_BOX_MARKER in j.fields && j.fields[NULLABLE_BOX_MARKER] == JBool(true)
    && "value" in j.fields
  }

  function Unboxed(j: Json): Json
    requires IsNullableCacheBox(j)
  {
    j.fields["value"]
  }

  // ----- Calls in progress -----

  /** What a function resolves to; undefined only by type erasure. */
  datatype Answer = Value(json: Json) | Undefined

  datatype Phase = Reading | Computing(caching: bool) | Returned(answer: Answer) | Rejected

  datatype Call = Call(key: string, phase: Phase)

  /** A write sent to the store; a timeout does not take it back, so it may land late or never. */
  datatype Write = Write(key: string, json: Json)

  datatype Production = Production(key: string, answer: Answer)

  datatype State = State(
    store: map<string, Stored>, calls: seq<Call>, writes: seq<Write>, produced: set<Production>)

  datatype Event =
    | Begin(key: string, usable: bool) | Read(call: nat, succeeds: bool)
    | FunctionReturns(call: nat, answer: Answer) | FunctionThrows(call: nat)
    | Land(write: nat) | Drop(write: nat) | Expire(key: string) | ForeignWrite(key: string, stored: Stored)

  /** Entries of other writers may be anything but a marked box. */
  predicate Unmarked(stored: Stored) {
    stored.Text? ==> !IsNullableCacheBox(stored.json)
  }

  predicate Possible(s: State, e: Event) {
    match e
    case Read(i, _) => i < |s.calls| && s.calls[i].phase.Reading?
    case FunctionReturns(i, _) => i < |s.calls| && s.calls[i].phase.Computing?
    case FunctionThrows(i) => i < |s.calls| && s.calls[i].phase.Computing?
    case Land(w) => w < |s.writes|
    case Drop(w) => w < |s.writes|
    case ForeignWrite(_, stored) => Unmarked(stored)
    case _ => true
  }

  /** A missing, corrupt or null entry is a miss. */
  function CachedValue(store: map<string, Stored>, key: string): Option<Json> {
    if key !in store || store[key].Corrupt? || store[key].json.JNull? then None else Some(store[key].json)
  }

  function AfterRead(cached: Option<Json>): Phase {
    if cached.Some? && IsNullableCacheBox(cached.value) then Returned(Value(Unboxed(cached.value)))
    else Computing(true)
  }

  /** Nothing nullish is sent to the store. */
  function Sent(writes: seq<Write>, key: string, json: Json): seq<Write> {
    if json.JNull? then writes else writes + [Write(key, json)]
  }

  function InPhase(s: State, i: nat, phase: Phase): State
    requires i < |s.calls|
  {
    s.(calls := s.calls[i := Call(s.calls[i].key, phase)])
  }

  function Without(writes: seq<Write>, w: nat): seq<Write>
    requires w < |writes|
  {
    writes[..w] + writes[w + 1..]
  }

  function Step(s: State, e: Event): State
    requires Possible(s, e)
  {
    match e
    case Begin(key, usable) => s.(calls := s.calls + [Call(key, if usable then Reading else Computing(false))])
    case Read(i, succeeds) =>
      InPhase(s, i, if succeeds then AfterRead(CachedValue(s.store, s.calls[i].key)) else Computing(true))
    case FunctionReturns(i, answer) =>
      var key, caching := s.calls[i].key, s.calls[i].phase.caching;
      InPhase(s, i, Returned(answer)).(
        produced := s.produced + {Production(key, answer)},
        writes := if caching && answer.Value? then Sent(s.writes, key, Box(answer.json)) else s.writes)
    case FunctionThrows(i) => InPhase(s, i, Rejected)
    case Land(w) =>
      s.(store := s.store[s.writes[w].key := Text(s.writes[w].json)], writes := Without(s.writes, w))
    case Drop(w) => s.(writes := Without(s.writes, w))
    case Expire(key) => s.(store := s.store - {key})
    case ForeignWrite(key, stored) => s.(store := s.store[key := stored])
  }

  /** The store as the service's own code reads and writes it, one atomic piece of a call at a time. */
  class CacheService {
    var store: map<string, Stored>
    var calls: seq<Call>
    var writes: seq<Write>
    ghost var produced: set<Production>

    ghost function Current(): State
      reads this
    {
      State(store, calls, writes, produced)
    }

    constructor ()
      ensures Current() == State(map[], [], [], {})
    {
      store, calls, writes, produced := map[], [], [], {};
    }

    method BeginCall(key: string, usable: bool) returns (call: nat)
      modifies this`calls
      ensures call == |old(calls)| && Current() == Step(old(Current()), Begin(key, usable))
    {
      call := |calls|;
      calls := calls + [Call(key, if usable then Reading else Computing(false))];
    }

    /** Reads the entry; a marked box is the answer, anything else means computing it. */
    method CompleteRead(call: nat, succeeds: bool)
      requires Possible(Current(), Read(call, succeeds))
      modifies this`calls
      ensures Current() == Step(old(Current()), Read(call, succeeds))
    {
      var key := calls[call].key;
      var phase := Computing(true);
      if succeeds {
        var cached := CachedValue(store, key);
        if cached.Some? && IsNullableCacheBox(cached.value) {
          phase := Returned(Value(Unboxed(cached.value)));
        }
      }
      calls := calls[call := Call(key, phase)];
    }

    /** Returns the fresh answer, and sends it to the store in a box unless it is undefined. */
    method CompleteFunction(call: nat, answer: Answer)
      requires Possible(Current(), FunctionReturns(call, answer))
      modifies this
      ensures Current() == Step(old(Current()), FunctionReturns(call, answer))
    {
      var key := calls[call].key;
      produced := produced + {Production(key, answer)};
      if calls[call].phase.caching && answer.Value? {
        TrySetCache(key, Box(answer.json));
      }
      calls := calls[call := Call(key, Returned(answer))];
    }

    method TrySetCache(key: string, json: Json)
      modifies this`writes
      ensures writes == Sent(old(writes), key, json)
    {
      if json.JNull? {
        return;
      }
      writes := writes + [Write(key, json)];
    }
  }

  // ----- Every interleaving -----

  ghost predicate Happens(s: State, events: seq<Event>)
    decreases |events|
  {
    events == [] || (Possible(s, events[0]) && Happens(Step(s, events[0]), events[1..]))
  }

  ghost function After(s: State, events: seq<Event>): State
    requires Happens(s, events)
    decreases |events|
  {
    if events == [] then s else After(Step(s, events[0]), events[1..])
  }

  /** A text that is a marked box holds something produced for its key. */
  ghost predicate HoldsProduced(produced: set<Production>, key: string, json: Json) {
    IsNullableCacheBox(json) ==> Production(key, Value(Unboxed(json))) in produced
  }

  /** Boxes in the store and in flight, and all answers returned, were produced for their key. */
  ghost predicate Faithful(s: State) {
    (forall key :: key in s.store && s.store[key].Text? ==> HoldsProduced(s.produced, key, s.store[key].json)) &&
    (forall w :: 0 <= w < |s.writes| ==> HoldsProduced(s.produced, s.writes[w].key, s.writes[w].json)) &&
    (forall i :: 0 <= i < |s.calls| && s.calls[i].phase.Returned? ==>
       Production(s.calls[i].key, s.calls[i].phase.answer) in s.produced)
  }

  /** A store that starts without marked boxes. */
  ghost predicate Initial(s: State) {
    (forall key :: key in s.store ==> Unmarked(s.store[key])) && s.calls == [] && s.writes == []
  }

  lemma StepIsFaithful(s: State, e: Event)
    requires Faithful(s) && Possible(s, e)
    ensures Faithful(Step(s, e)) && s.produced <= Step(s, e).produced
  {
    hide IsNullableCacheBox, Box;
    if e.FunctionReturns? && e.answer.Value? { BoxReadsBack(e.answer.json); }
  }

  lemma {:induction false} RunIsFaithful(s: State, events: seq<Event>)
    requires Faithful(s) && Happens(s, events)
    ensures Faithful(After(s, events))
    decreases |events|
  {
    if events != [] {
      StepIsFaithful(s, events[0]);
      RunIsFaithful(Step(s, events[0]), events[1..]);
    }
  }

  /**
   * Caching is transparent: in every interleaving of calls, expiries, failures, late and lost writes, corrupt
   * entries and unmarked foreign writes, whatever a call returns, null included, was returned by some call's
   * function for the same key.
   */
  lemma ReturnedWasProduced(s: State, events: seq<Event>, call: nat)
    requires Initial(s) && Happens(s, events)
    requires call < |After(s, events).calls| && After(s, events).calls[call].phase.Returned?
    ensures Production(After(s, events).calls[call].key, After(s, events).calls[call].phase.answer)
         in After(s, events).produced
  {
    hide IsNullableCacheBox;
    RunIsFaithful(s, events);
  }

  ghost predicate HoldsNull(s: State, key: string) {
    key in s.store && s.store[key] == Text(JNull)
  }

  ghost predicate NoNullPending(s: State) {
    forall w :: 0 <= w < |s.writes| ==> !s.writes[w].json.JNull?
  }

  lemma StepStoresNoNull(s: State, e: Event, key: string)
    requires Possible(s, e) && NoNullPending(s)
    ensures NoNullPending(Step(s, e))
    ensures HoldsNull(Step(s, e), key) ==> e == ForeignWrite(key, Text(JNull)) || HoldsNull(s, key)
  {
    hide IsNullableCacheBox;
  }

  /** In every interleaving, a key comes to hold a raw null only by a foreign write of one, never by this service. */
  lemma {:induction false} NullIsNeverStored(s: State, events: seq<Event>, key: string)
    requires Happens(s, events) && NoNullPending(s)
    requires !HoldsNull(s, key) && ForeignWrite(key, Text(JNull)) !in events
    ensures NoNullPending(After(s, events)) && !HoldsNull(After(s, events), key)
    decreases |events|
  {
    hide HoldsNull, NoNullPending, Step;
    if events != [] {
      StepStoresNoNull(s, events[0], key);
      NullIsNeverStored(Step(s, events[0]), events[1..], key);
    }
  }

  /** A box is recognised by the two fields that boxing writes: the marker as boxing writes it, and some value. */
  lemma RecognisedExactly(j: Json)
    ensures IsNullableCacheBox(j)
       <==> j.JObject? && exists value ::
              "value" in j.fields && j.fields["value"] == value &&
              NULLABLE_BOX_MARKER in j.fields && j.fields[NULLABLE_BOX_MARKER] == Box(value).fields[NULLABLE_BOX_MARKER]
  {
    if j.JObject? && "value" in j.fields { assert Box(j.fields["value"]).fields[NULLABLE_BOX_MARKER] == JBool(true); }
  }

  lemma BoxReadsBack(value: Json)
    ensures IsNullableCacheBox(Box(value)) && Unboxed(Box(value)) == value
    ensures Box(value) != JNull
  {
    assert NULLABLE_BOX_MARKER != "value";
  }

  /** Events that leave a key's entry alone. */
  predicate LeavesAlone(s: State, e: Event, key: string) {
    match e
    case Land(w) => w < |s.writes| && s.writes[w].key != key
    case Expire(k) => k != key
    case ForeignWrite(k, _) => k != key
    case _ => true
  }

  ghost predicate AllLeaveAlone(s: State, events: seq<Event>, key: string)
    decreases |events|
  {
    Happens(s, events) &&
    (events == [] || (LeavesAlone(s, events[0], key) && AllLeaveAlone(Step(s, events[0]), events[1..], key)))
  }

  lemma {:induction false} EntryStays(s: State, events: seq<Event>, key: string)
    requires AllLeaveAlone(s, events, key)
    ensures (key in After(s, events).store <==> key in s.store)
    ensures key in s.store ==> After(s, events).store[key] == s.store[key]
    decreases |events|
  {
    if events != [] {
      EntryStays(Step(s, events[0]), events[1..], key);
    }
  }

  // ----- What is written, and what it is good for -----

  /** The box that a call's function leaves to be written: one for every value of a caching call, null included. */
  ghost function BoxFor(s: State, e: Event): multiset<Write>
    requires Possible(s, e)
  {
    if e.FunctionReturns? && s.calls[e.call].phase.caching && e.answer.Value? then
      multiset{Write(s.calls[e.call].key, Box(e.answer.json))}
    else multiset{}
  }

  ghost function Gone(s: State, e: Event): multiset<Write>
    requires Possible(s, e)
  {
    match e
    case Land(w) => multiset{s.writes[w]}
    case Drop(w) => multiset{s.writes[w]}
    case _ => multiset{}
  }

  /** Every event accounts for the pending writes: a box for each fresh value, less what lands or is lost. */
  lemma WritesAreAccountedFor(s: State, e: Event)
    requires Possible(s, e)
    ensures multiset(Step(s, e).writes) == multiset(s.writes) - Gone(s, e) + BoxFor(s, e)
  {
    hide IsNullableCacheBox;
    if e.Land? { OneLess(s.writes, e.write); }
    if e.Drop? { OneLess(s.writes, e.write); }
    if e.FunctionReturns? && e.answer.Value? { BoxReadsBack(e.answer.json); }
  }

  lemma OneLess(writes: seq<Write>, w: nat)
    requires w < |writes|
    ensures multiset(Without(writes, w)) == multiset(writes) - multiset{writes[w]}
  {
    assert writes == writes[..w] + [writes[w]] + writes[w + 1..];
  }

  ghost predicate HoldsBox(s: State, key: string) {
    key in s.store && s.store[key].Text? && IsNullableCacheBox(s.store[key].json)
  }

  /** A call may write what it computes exactly if it began with a usable cache. */
  lemma {:induction false} CachesExactly(s: State, key: string, usable: bool, events: seq<Event>)
    requires Happens(Step(s, Begin(key, usable)), events)
    ensures var after, call := After(Step(s, Begin(key, usable)), events), |s.calls|;
            call < |after.calls| && after.calls[call].key == key &&
            (after.calls[call].phase.Reading? ==> usable) &&
            (after.calls[call].phase.Computing? ==> after.calls[call].phase.caching == usable)
  {
    var first := Step(s, Begin(key, usable));
    CachingStays(first, |s.calls|, usable, events);
  }

  ghost predicate CachesIf(c: Call, usable: bool) {
    (c.phase.Reading? ==> usable) && (c.phase.Computing? ==> c.phase.caching == usable)
  }

  lemma {:induction false} CachingStays(s: State, call: nat, usable: bool, events: seq<Event>)
    requires call < |s.calls| && CachesIf(s.calls[call], usable) && Happens(s, events)
    ensures call < |After(s, events).calls| && After(s, events).calls[call].key == s.calls[call].key
    ensures CachesIf(After(s, events).calls[call], usable)
    decreases |events|
  {
    if events != [] {
      CallsKeepToThemselves(s, events[0], call);
      CachingStays(Step(s, events[0]), call, usable, events[1..]);
    }
  }

  /** A call goes through its phases on its own: only its own events touch it, and it ends as its function does. */
  lemma CallsKeepToThemselves(s: State, e: Event, call: nat)
    requires Possible(s, e) && call < |s.calls|
    ensures Step(s, e).calls[call].key == s.calls[call].key
    ensures e.FunctionReturns? && e.call == call ==> Step(s, e).calls[call].phase == Returned(e.answer)
    ensures e.FunctionThrows? && e.call == call ==> Step(s, e).calls[call].phase == Rejected
    ensures e.Read? && e.call == call ==>
              Step(s, e).calls[call].phase
                == if e.succeeds && HoldsBox(s, s.calls[call].key)
                   then Returned(Value(s.store[s.calls[call].key].json.fields["value"]))
                   else Computing(true)
    ensures !((e.Read? || e.FunctionReturns? || e.FunctionThrows?) && e.call == call)
         ==> Step(s, e).calls[call] == s.calls[call]
  {
    hide Box;
  }

  /**
   * Caching is effective: what a caching call's function returns, null included, is sent; and once that write
   * lands, every successful read returns that very value until something touches the key.
   */
  lemma FreshAnswerIsServed(s: State, call: nat, value: Json, events: seq<Event>, reader: nat)
    requires Possible(s, FunctionReturns(call, Value(value))) && s.calls[call].phase.caching
    ensures var sent := Step(s, FunctionReturns(call, Value(value)));
            var w := |sent.writes| - 1;
            w >= 0 && sent.writes[w] == Write(s.calls[call].key, Box(value)) &&
            (AllLeaveAlone(Step(sent, Land(w)), events, s.calls[call].key) ==>
               var later := After(Step(sent, Land(w)), events);
               Possible(later, Read(reader, true)) && later.calls[reader].key == s.calls[call].key ==>
                 Step(later, Read(reader, true)).calls[reader].phase == Returned(Value(value)))
  {
    hide IsNullableCacheBox, Box, CachedValue, AfterRead;
    BoxReadsBack(value);
    var sent := Step(s, FunctionReturns(call, Value(value)));
    var w := |sent.writes| - 1;
    assert sent.writes == s.writes + [Write(s.calls[call].key, Box(value))];
    if AllLeaveAlone(Step(sent, Land(w)), events, s.calls[call].key) {
      var later := After(Step(sent, Land(w)), events);
      if Possible(later, Read(reader, true)) && later.calls[reader].key == s.calls[call].key {
        LandedAnswerIsReturned(sent, w, value, events, reader);
      }
    }
  }

  /** Once an answer has landed, null included, reads return it until something touches the key. */
  lemma LandedAnswerIsReturned(s: State, write: nat, value: Json, events: seq<Event>, call: nat)
    requires write < |s.writes| && s.writes[write].json == Box(value)
    requires AllLeaveAlone(Step(s, Land(write)), events, s.writes[write].key)
    requires Possible(After(Step(s, Land(write)), events), Read(call, true))
    requires After(Step(s, Land(write)), events).calls[call].key == s.writes[write].key
    ensures Step(After(Step(s, Land(write)), events), Read(call, true)).calls[call].phase == Returned(Value(value))
  {
    hide IsNullableCacheBox, Box;
    BoxReadsBack(value);
    EntryStays(Step(s, Land(write)), events, s.writes[write].key);
  }
}
