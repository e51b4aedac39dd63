/** The IDs a compiled survey emits are distinct exactly when no two blocks have the same name. */
module DistinctIds {
  import opened Wrappers
  import opened Expressions
  import opened Survey
  import opened Payload
  import opened Compiler
  import opened Segments
  import opened SegmentConservation
  import opened SurveySegments
  import opened CompiledSurvey
  import opened Sequences
  import Validation
  import Crosswalk
  import Ids
  import Routing
  import Sorting

  // ----- The IDs a compilation asks for -----

  function ItemRequest(kind: EntryKind, survey: string, question: string, item: string): Ids.Request {
    match kind
    case RankingChoiceKind => Ids.RankingChoice(survey, question, item)
    case MatrixRowKind => Ids.MatrixRow(survey, question, item)
    case MatrixColumnKind => Ids.MatrixColumn(survey, question, item)
    case _ => Ids.ChoiceOption(survey, question, item)
  }

  function ItemRequests(kind: EntryKind, survey: string, question: string, items: seq<Choice>): seq<Ids.Request> {
    seq(|items|, i requires 0 <= i < |items| => ItemRequest(kind, survey, question, items[i].id))
  }

  function ItemsRequested(survey: string, e: Element): seq<Ids.Request> {
    match e.kind
    case RankingElement => ItemRequests(RankingChoiceKind, survey, e.id, e.choices)
    case MatrixElement =>
      ItemRequests(MatrixRowKind, survey, e.id, e.rows) + ItemRequests(MatrixColumnKind, survey, e.id, e.columns)
    case SingleChoiceElement => ItemRequests(OptionKind, survey, e.id, e.choices)
    case MultipleChoiceElement => ItemRequests(OptionKind, survey, e.id, e.choices)
    case _ => []
  }

  function ElementRequests(survey: string, e: Element): seq<Ids.Request> {
    [Ids.Question(survey, e.id)] + ItemsRequested(survey, e)
  }

  function ElementsRequested(survey: string, elements: seq<Element>): seq<Ids.Request> {
    if elements == [] then []
    else
      ElementsRequested(survey, elements[..|elements| - 1]) + ElementRequests(survey, elements[|elements| - 1])
  }

  function SegmentsRequested(survey: string, segments: seq<Segment>): seq<Ids.Request> {
    if segments == [] then []
    else
      var s := segments[|segments| - 1];
      SegmentsRequested(survey, segments[..|segments| - 1]) + [Ids.Group(survey, BlockName(s))]
      + ElementsRequested(survey, s.block.elements)
  }

  function EndingsRequested(survey: CanonicalSurvey): seq<Ids.Request> {
    seq(|survey.endings|, i requires 0 <= i < |survey.endings| =>
      Ids.Ending(survey.externalId, survey.endings[i].externalId))
  }

  function AllRequested(survey: CanonicalSurvey, segments: seq<Segment>): seq<Ids.Request> {
    SegmentsRequested(survey.externalId, segments) + EndingsRequested(survey)
  }

  function KindOf(r: Ids.Request): EntryKind {
    match r
    case Question(_, _) => QuestionKind
    case Ending(_, _) => EndingKind
    case ChoiceOption(_, _, _) => OptionKind
    case RankingChoice(_, _, _) => RankingChoiceKind
    case MatrixRow(_, _, _) => MatrixRowKind
    case MatrixColumn(_, _, _) => MatrixColumnKind
    case _ => GroupKind
  }

  function Fulfilled(r: Ids.Request): Crosswalk.Emitted {
    Crosswalk.Emitted(KindOf(r), Ids.CompileId(r))
  }

  function AllFulfilled(rs: seq<Ids.Request>): seq<Crosswalk.Emitted> {
    seq(|rs|, i requires 0 <= i < |rs| => Fulfilled(rs[i]))
  }

  lemma FulfilledAppend(a: seq<Ids.Request>, b: seq<Ids.Request>)
    ensures AllFulfilled(a + b) == AllFulfilled(a) + AllFulfilled(b)
  {
    hide Fulfilled;
  }

  lemma OneFulfilled(r: Ids.Request)
    ensures AllFulfilled([r]) == [Fulfilled(r)] && AllFulfilled([]) == []
  {
    hide Fulfilled;
  }

  lemma ItemsFulfilled(kind: EntryKind, survey: string, question: string, items: seq<Choice>)
    requires kind.OptionKind? || kind.RankingChoiceKind? || kind.MatrixRowKind? || kind.MatrixColumnKind?
    ensures AllFulfilled(ItemRequests(kind, survey, question, items))
         == Crosswalk.ItemsEmitted(kind, RewrittenItems(kind, survey, question, items))
  {
  }

  lemma ElementFulfilled(survey: string, e: Element)
    ensures AllFulfilled(ElementRequests(survey, e)) == Crosswalk.ElementEmitted(RewrittenElement(survey, e))
  {
    hide AllFulfilled, ItemRequests, RewrittenItems, Crosswalk.ItemsEmitted, Ids.QuestionId;
    var question := Ids.Question(survey, e.id);
    OneFulfilled(question);
    FulfilledAppend([question], ItemsRequested(survey, e));
    ItemsFulfilled(OptionKind, survey, e.id, e.choices);
    ItemsFulfilled(RankingChoiceKind, survey, e.id, e.choices);
    ItemsFulfilled(MatrixRowKind, survey, e.id, e.rows);
    ItemsFulfilled(MatrixColumnKind, survey, e.id, e.columns);
    FulfilledAppend(ItemRequests(MatrixRowKind, survey, e.id, e.rows),
                    ItemRequests(MatrixColumnKind, survey, e.id, e.columns));
  }

  lemma {:induction false} ElementsFulfilled(survey: string, elements: seq<Element>)
    ensures AllFulfilled(ElementsRequested(survey, elements))
         == Crosswalk.ElementsEmitted(RewrittenElements(survey, elements))
  {
    hide AllFulfilled, ElementRequests, Crosswalk.ElementEmitted, RewrittenElement;
    if elements == [] {
      OneFulfilled(Ids.Question("", ""));
    } else {
      var front, last := elements[..|elements| - 1], elements[|elements| - 1];
      var rewritten := RewrittenElements(survey, elements);
      ElementsFulfilled(survey, front);
      ElementFulfilled(survey, last);
      FulfilledAppend(ElementsRequested(survey, front), ElementRequests(survey, last));
      assert rewritten[..|elements| - 1] == RewrittenElements(survey, front);
    }
  }

  lemma {:induction false} SegmentsFulfilled(survey: string, segments: seq<Segment>, blocks: seq<Block>)
    requires Crosswalk.LooksLike(survey, segments, blocks)
    ensures AllFulfilled(SegmentsRequested(survey, segments)) == Crosswalk.BlocksEmitted(blocks)
  {
    hide AllFulfilled, ElementsRequested, Crosswalk.ElementsEmitted, RewrittenElements, Ids.GroupId, BlockName;
    if segments == [] {
      OneFulfilled(Ids.Question("", ""));
    } else {
      var front, last := segments[..|segments| - 1], segments[|segments| - 1];
      SegmentsFulfilled(survey, front, blocks[..|segments| - 1]);
      ElementsFulfilled(survey, last.block.elements);
      var group := Ids.Group(survey, BlockName(last));
      OneFulfilled(group);
      FulfilledAppend(SegmentsRequested(survey, front), [group]);
      FulfilledAppend(SegmentsRequested(survey, front) + [group], ElementsRequested(survey, last.block.elements));
    }
  }

  lemma EndingsFulfilled(survey: CanonicalSurvey)
    ensures AllFulfilled(EndingsRequested(survey))
         == seq(|EndingIds(survey)|, i requires 0 <= i < |EndingIds(survey)| =>
              Crosswalk.Emitted(EndingKind, EndingIds(survey)[i]))
  {
    hide Ids.EndingId;
  }

  // ----- Which requests there are -----

  predicate IsGroup(r: Ids.Request) { r.Group? }

  ghost predicate AboutQuestion(r: Ids.Request, x: string) {
    r.id == x && !r.Group? && !r.Ending?
  }

  /** The items of an element are told apart by their IDs. */
  ghost predicate DistinctItems(e: Element) {
    NoDuplicates(ChoiceItemIds(e.choices)) && NoDuplicates(ChoiceItemIds(e.rows))
    && NoDuplicates(ChoiceItemIds(e.columns))
  }

  function ChoiceItemIds(items: seq<Choice>): seq<string> {
    seq(|items|, i requires 0 <= i < |items| => items[i].id)
  }

  lemma ItemRequestsDistinct(kind: EntryKind, survey: string, question: string, items: seq<Choice>)
    requires NoDuplicates(ChoiceItemIds(items))
    ensures NoDuplicates(ItemRequests(kind, survey, question, items))
  {
    var rs := ItemRequests(kind, survey, question, items);
    forall i, j | 0 <= i < j < |rs|
      ensures rs[i] != rs[j]
    {
      assert ChoiceItemIds(items)[i] != ChoiceItemIds(items)[j];
    }
  }

  lemma ElementRequestsDistinct(survey: string, e: Element)
    requires DistinctItems(e)
    ensures NoDuplicates(ElementRequests(survey, e))
    ensures forall r :: r in ElementRequests(survey, e) ==> AboutQuestion(r, e.id)
  {
    hide NoDuplicates, ChoiceItemIds;
    NoDuplicatesCons(Ids.Question(survey, e.id), ItemsRequested(survey, e));
    ItemRequestsDistinct(OptionKind, survey, e.id, e.choices);
    ItemRequestsDistinct(RankingChoiceKind, survey, e.id, e.choices);
    ItemRequestsDistinct(MatrixRowKind, survey, e.id, e.rows);
    ItemRequestsDistinct(MatrixColumnKind, survey, e.id, e.columns);
    if e.kind.MatrixElement? {
      NoDuplicatesAppend(ItemRequests(MatrixRowKind, survey, e.id, e.rows),
                         ItemRequests(MatrixColumnKind, survey, e.id, e.columns));
    }
    NothingTwice();
  }

  lemma NothingTwice()
    ensures NoDuplicates<Ids.Request>([])
  {
  }

  ghost predicate AboutSome(r: Ids.Request, ids: seq<string>) {
    exists x :: x in ids && AboutQuestion(r, x)
  }

  lemma {:induction false} ElementsRequestedDistinct(survey: string, elements: seq<Element>)
    requires NoDuplicates(ElementIds(elements)) && forall e :: e in elements ==> DistinctItems(e)
    ensures NoDuplicates(ElementsRequested(survey, elements))
    ensures forall r :: r in ElementsRequested(survey, elements) ==> AboutSome(r, ElementIds(elements))
  {
    hide DistinctItems, ElementRequests;
    if elements != [] {
      var front, last := elements[..|elements| - 1], elements[|elements| - 1];
      assert ElementIds(elements) == ElementIds(front) + [last.id];
      Validation.DistinctParts(ElementIds(front), [last.id]);
      ElementsRequestedDistinct(survey, front);
      ElementRequestsDistinct(survey, last);
      NoDuplicatesAppend(ElementsRequested(survey, front), ElementRequests(survey, last));
      assert last.id in ElementIds(elements) by { assert ElementIds(elements)[|front|] == last.id; }
      forall r | r in ElementsRequested(survey, elements)
        ensures AboutSome(r, ElementIds(elements))
      {
        if r in ElementsRequested(survey, front) {
          var x :| x in ElementIds(front) && AboutQuestion(r, x);
          assert x in ElementIds(elements);
        }
      }
    }
  }

  ghost predicate GroupOrAbout(r: Ids.Request, survey: string, names: seq<string>, ids: seq<string>) {
    if r.Group? then r.survey == survey && r.id in names else AboutSome(r, ids)
  }

  ghost predicate DistinctElements(segments: seq<Segment>) {
    forall i, e :: 0 <= i < |segments| && e in segments[i].block.elements ==> DistinctItems(e)
  }

  ghost predicate QuestionsAreElements(segments: seq<Segment>) {
    forall i :: 0 <= i < |segments| ==> segments[i].questions == ElementIds(segments[i].block.elements)
  }

  lemma {:induction false} SegmentsRequestedDistinct(survey: string, segments: seq<Segment>)
    requires QuestionsAreElements(segments) && DistinctElements(segments)
    requires NoDuplicates(QuestionIdsOf(segments)) && NoDuplicates(BlockNamesOf(segments))
    ensures NoDuplicates(SegmentsRequested(survey, segments))
    ensures forall r :: r in SegmentsRequested(survey, segments) ==>
              GroupOrAbout(r, survey, BlockNamesOf(segments), QuestionIdsOf(segments))
  {
    hide BlockName, ElementsRequested, DistinctItems;
    if segments != [] {
      var front, last := segments[..|segments| - 1], segments[|segments| - 1];
      var name, names := BlockName(last), BlockNamesOf(front);
      assert BlockNamesOf(segments) == names + [name];
      Validation.DistinctParts(names, [name]);
      Validation.DistinctParts(QuestionIdsOf(front), last.questions);
      SegmentsRequestedDistinct(survey, front);
      ElementsRequestedDistinct(survey, last.block.elements);
      var before, group := SegmentsRequested(survey, front), [Ids.Group(survey, name)];
      NoDuplicatesAppend(before, group);
      NoDuplicatesAppend(before + group, ElementsRequested(survey, last.block.elements));
      forall r | r in SegmentsRequested(survey, segments)
        ensures GroupOrAbout(r, survey, names + [name], QuestionIdsOf(front) + last.questions)
      {
        assert r in before || r in group || r in ElementsRequested(survey, last.block.elements);
      }
    }
  }

  lemma AllRequestedDistinct(survey: CanonicalSurvey, segments: seq<Segment>)
    requires QuestionsAreElements(segments) && DistinctElements(segments)
    requires NoDuplicates(QuestionIdsOf(segments)) && NoDuplicates(BlockNamesOf(segments))
    requires NoDuplicates(Validation.EndingExternalIds(survey.endings))
    ensures NoDuplicates(AllRequested(survey, segments))
  {
    hide SegmentsRequested, QuestionsAreElements, DistinctElements, QuestionIdsOf, BlockNamesOf;
    SegmentsRequestedDistinct(survey.externalId, segments);
    var endings := EndingsRequested(survey);
    forall i, j | 0 <= i < j < |endings|
      ensures endings[i] != endings[j]
    {
      assert Validation.EndingExternalIds(survey.endings)[i] != Validation.EndingExternalIds(survey.endings)[j];
    }
    NoDuplicatesAppend(SegmentsRequested(survey.externalId, segments), endings);
  }

  // ----- A repeated block name repeats an ID -----

  function GroupRequests(survey: string, names: seq<string>): seq<Ids.Request> {
    seq(|names|, i requires 0 <= i < |names| => Ids.Group(survey, names[i]))
  }

  lemma {:induction false} NoGroups(rs: seq<Ids.Request>)
    requires forall r :: r in rs ==> !r.Group?
    ensures Filter(rs, IsGroup) == []
  {
    if rs != [] {
      assert rs[0] in rs && forall r :: r in rs[1..] ==> r in rs;
      NoGroups(rs[1..]);
    }
  }

  lemma {:induction false} ElementsRequestNoGroups(survey: string, elements: seq<Element>)
    ensures forall r :: r in ElementsRequested(survey, elements) ==> !r.Group?
  {
    hide ItemRequests;
    if elements != [] {
      ElementsRequestNoGroups(survey, elements[..|elements| - 1]);
      ElementRequestsNoGroups(survey, elements[|elements| - 1]);
    }
  }

  lemma ElementRequestsNoGroups(survey: string, e: Element)
    ensures forall r :: r in ElementRequests(survey, e) ==> !r.Group?
  {
  }

  lemma {:induction false} GroupsRequested(survey: string, segments: seq<Segment>)
    ensures Filter(SegmentsRequested(survey, segments), IsGroup)
         == GroupRequests(survey, BlockNamesOf(segments))
  {
    hide BlockName, ElementsRequested;
    if segments != [] {
      var front, last := segments[..|segments| - 1], segments[|segments| - 1];
      var group, elements := [Ids.Group(survey, BlockName(last))], ElementsRequested(survey, last.block.elements);
      GroupsRequested(survey, front);
      ElementsRequestNoGroups(survey, last.block.elements);
      NoGroups(elements);
      FilterAppend(SegmentsRequested(survey, front), group, IsGroup);
      FilterAppend(SegmentsRequested(survey, front) + group, elements, IsGroup);
      assert Filter(group, IsGroup) == group;
      assert BlockNamesOf(segments) == BlockNamesOf(front) + [BlockName(last)];
    }
  }

  lemma DistinctRequestsDistinctNames(survey: CanonicalSurvey, segments: seq<Segment>)
    requires NoDuplicates(AllRequested(survey, segments))
    ensures NoDuplicates(BlockNamesOf(segments))
  {
    hide SegmentsRequested, Filter;
    var rs := SegmentsRequested(survey.externalId, segments);
    Validation.DistinctParts(rs, EndingsRequested(survey));
    FilterNoDuplicates(rs, IsGroup);
    GroupsRequested(survey.externalId, segments);
    var names := BlockNamesOf(segments);
    forall i, j | 0 <= i < j < |names|
      ensures names[i] != names[j]
    {
      assert GroupRequests(survey.externalId, names)[i] != GroupRequests(survey.externalId, names)[j];
    }
  }

  // ----- Distinct requests, distinct IDs -----

  lemma DistinctWhenFulfilled(rs: seq<Ids.Request>)
    requires forall r :: r in rs ==> Ids.WellFormed(r)
    ensures NoDuplicates(AllFulfilled(rs)) <==> NoDuplicates(rs)
  {
    hide Ids.CompileId, KindOf, Ids.WellFormed;
    var es := AllFulfilled(rs);
    forall i, j | 0 <= i < j < |rs|
      ensures rs[i] == rs[j] <==> es[i] == es[j]
    {
      assert rs[i] in rs && rs[j] in rs;
      if es[i] == es[j] { Ids.CompiledIdsDecodeUniquely(rs[i], rs[j]); }
    }
  }

  // ----- Clean surveys -----

  ghost predicate EncodableItems(items: seq<Choice>) {
    forall i :: 0 <= i < |items| ==> Ids.Encodable(items[i].id)
  }

  ghost predicate EncodableElement(e: Element) {
    Ids.Encodable(e.id) && EncodableItems(e.choices) && EncodableItems(e.rows) && EncodableItems(e.columns)
  }

  lemma {:induction false} ElementsWellFormed(survey: string, elements: seq<Element>)
    requires Ids.Encodable(survey) && forall e :: e in elements ==> EncodableElement(e)
    ensures forall r :: r in ElementsRequested(survey, elements) ==> Ids.WellFormed(r)
  {
    hide Ids.Encodable;
    if elements != [] {
      var front, last := elements[..|elements| - 1], elements[|elements| - 1];
      ElementsWellFormed(survey, front);
      forall r | r in ElementRequests(survey, last)
        ensures Ids.WellFormed(r)
      {
        ElementWellFormed(survey, last, r);
      }
    }
  }

  lemma ElementWellFormed(survey: string, e: Element, r: Ids.Request)
    requires Ids.Encodable(survey) && EncodableElement(e) && r in ElementRequests(survey, e)
    ensures Ids.WellFormed(r)
  {
    hide Ids.Encodable;
  }

  ghost predicate EncodableSegment(s: Segment) {
    Ids.Encodable(BlockName(s)) && forall e :: e in s.block.elements ==> EncodableElement(e)
  }

  lemma {:induction false} SegmentsWellFormed(survey: string, segments: seq<Segment>)
    requires Ids.Encodable(survey) && forall i :: 0 <= i < |segments| ==> EncodableSegment(segments[i])
    ensures forall r :: r in SegmentsRequested(survey, segments) ==> Ids.WellFormed(r)
  {
    hide Ids.Encodable, EncodableElement, BlockName;
    if segments != [] {
      var front, last := segments[..|segments| - 1], segments[|segments| - 1];
      assert EncodableSegment(last);
      SegmentsWellFormed(survey, front);
      ElementsWellFormed(survey, last.block.elements);
      assert Ids.WellFormed(Ids.Group(survey, BlockName(last)));
    }
  }

  lemma SortedItems(items: seq<Item>, defaultLanguage: string)
    requires NoDuplicates(Validation.ItemIds(items))
    ensures NoDuplicates(ChoiceItemIds(SourceChoices(items, defaultLanguage)))
    ensures |SourceChoices(items, defaultLanguage)| == |items|
    ensures forall i :: 0 <= i < |items| ==>
              exists k :: 0 <= k < |items| && SourceChoices(items, defaultLanguage)[i].id == items[k].externalId
  {
    hide CompiledText;
    var sorted := Sorting.Sort(items, ItemOrder);
    var ids, given := ChoiceItemIds(SourceChoices(items, defaultLanguage)), Validation.ItemIds(items);
    Sorting.SortMembers(items, ItemOrder);
    Sorting.SortPermutes(items, ItemOrder);
    forall i, j | 0 <= i < j < |items|
      ensures items[i] != items[j]
    {
      assert given[i] != given[j];
    }
    PermutationKeepsDistinct(items, sorted);
    forall i, j | 0 <= i < j < |sorted|
      ensures ids[i] != ids[j]
    {
      assert sorted[i] in items && sorted[j] in items && sorted[i] != sorted[j];
      var a :| 0 <= a < |items| && items[a] == sorted[i];
      var b :| 0 <= b < |items| && items[b] == sorted[j];
      assert given[a] == ids[i] && given[b] == ids[j];
    }
    forall i | 0 <= i < |items|
      ensures exists k :: 0 <= k < |items| && SourceChoices(items, defaultLanguage)[i].id == items[k].externalId
    {
      assert sorted[i] in items;
      var k :| 0 <= k < |items| && items[k] == sorted[i];
      assert SourceChoices(items, defaultLanguage)[i].id == items[k].externalId;
    }
  }

  lemma ValidItemsEncode(items: seq<Item>, defaultLanguage: string)
    requires NoDuplicates(Validation.ItemIds(items)) && Validation.ValidItems(items)
    ensures NoDuplicates(ChoiceItemIds(SourceChoices(items, defaultLanguage)))
    ensures EncodableItems(SourceChoices(items, defaultLanguage))
  {
    hide Ids.Encodable, Ids.IsExternalId, CompiledText;
    SortedItems(items, defaultLanguage);
    Sorting.SortMembers(items, ItemOrder);
    forall i | 0 <= i < |items|
      ensures Ids.Encodable(SourceChoices(items, defaultLanguage)[i].id)
    {
      var k :| 0 <= k < |items| && SourceChoices(items, defaultLanguage)[i].id == items[k].externalId;
      Ids.ExternalIdsAreEncodable(items[k].externalId);
    }
  }

  lemma SourceIsClean(survey: CanonicalSurvey, q: Question, e: Element)
    requires Validation.CleanlyValidated(survey) && q in survey.questions
    requires SourceElement(q, survey.defaultLanguage) == Ok(e)
    ensures DistinctItems(e) && EncodableElement(e)
  {
    hide Ids.Encodable, Ids.IsExternalId, SourceChoices, ChoiceItemIds, Validation.AllIds, Validation.ItemIds,
      Validation.ValidItems, Validation.GroupIds;
    var i :| 0 <= i < |survey.questions| && survey.questions[i] == q;
    assert Validation.ValidQuestion(survey.questions[i]) && Validation.CleanQuestion(survey, survey.questions[i]);
    Ids.ExternalIdsAreEncodable(q.externalId);
    ValidItemsEncode(q.options, survey.defaultLanguage);
    if q.matrix.Some? {
      var axes := q.matrix.value;
      Validation.DistinctParts(Validation.ItemIds(axes.rows), Validation.ItemIds(axes.columns));
      ValidItemsEncode(axes.rows, survey.defaultLanguage);
      ValidItemsEncode(axes.columns, survey.defaultLanguage);
    }
    NoItems();
  }

  lemma NoItems()
    ensures NoDuplicates(ChoiceItemIds([]))
  {
  }

  lemma SegmentIsClean(survey: CanonicalSurvey, segments: seq<Segment>, i: nat)
    requires Validation.CleanlyValidated(survey) && DistinctSurvey(survey) && SegmentsOf(survey, segments)
    requires i < |segments|
    ensures segments[i].questions == ElementIds(segments[i].block.elements) && EncodableSegment(segments[i])
    ensures forall e :: e in segments[i].block.elements ==> DistinctItems(e)
  {
    hide Validation.CleanlyValidated, DistinctItems, EncodableElement, ElementIds, SourceElement;
    var s := segments[i];
    SurveyIsSegmented(survey, segments);
    Validation.CleanSurveyIsIdentified(survey);
    assert IsSurveySegment(survey, s);
    var group :| IsSegmentOf(survey, group, s);
    SegmentNameEncodable(group.externalId, s.index);
    forall e | e in s.block.elements
      ensures DistinctItems(e) && EncodableElement(e)
    {
      var q :| IsSourceOf(survey, group, s.relevance, e, q);
      SourceIsClean(survey, q, e);
    }
  }

  /**
   * For a clean survey the emitted kinds and IDs, and with them the crosswalk entries, are free of
   * duplicates exactly when no two blocks have the same name.
   */
  lemma EmittedOnceExactly(survey: CanonicalSurvey, host: Host, c: Compilation, segments: seq<Segment>)
    requires Validation.CleanlyValidated(survey) && SegmentsOf(survey, segments)
    requires CompilesTo(survey, host, c)
    ensures NoDuplicates(Crosswalk.EmittedIds(c.payload)) <==> NoDuplicates(BlockNamesOf(segments))
    ensures Crosswalk.Listed(c.entries) == Crosswalk.EmittedIds(c.payload)
  {
    hide Validation.CleanlyValidated, DistinctItems, EncodableSegment, AllFulfilled, NoDuplicates, SegmentsRequested,
      BlockNamesOf, Crosswalk.EmittedIds;
    Crosswalk.CrosswalkListsPayload(survey, host, c);
    CleanSegments(survey, segments);
    AllIdsFulfilled(survey, host, c, segments);
    AllWellFormed(survey, segments);
    DistinctWhenFulfilled(AllRequested(survey, segments));
    if NoDuplicates(BlockNamesOf(segments)) {
      AllRequestedDistinct(survey, segments);
    }
    if NoDuplicates(AllRequested(survey, segments)) {
      DistinctRequestsDistinctNames(survey, segments);
    }
  }

  lemma CleanSegments(survey: CanonicalSurvey, segments: seq<Segment>)
    requires Validation.CleanlyValidated(survey) && SegmentsOf(survey, segments)
    ensures QuestionsAreElements(segments) && DistinctElements(segments)
    ensures NoDuplicates(QuestionIdsOf(segments)) && NoDuplicates(Validation.EndingExternalIds(survey.endings))
    ensures forall i :: 0 <= i < |segments| ==> EncodableSegment(segments[i])
  {
    hide DistinctItems, EncodableSegment, QuestionIdsOf, ElementIds, Validation.ValidSchema;
    Validation.CleanSurveyIsDistinct(survey);
    SurveyIsSegmented(survey, segments);
    forall i | 0 <= i < |segments|
      ensures segments[i].questions == ElementIds(segments[i].block.elements) && EncodableSegment(segments[i])
      ensures forall e :: e in segments[i].block.elements ==> DistinctItems(e)
    {
      SegmentIsClean(survey, segments, i);
    }
  }

  lemma AllWellFormed(survey: CanonicalSurvey, segments: seq<Segment>)
    requires Validation.CleanlyValidated(survey)
    requires forall i :: 0 <= i < |segments| ==> EncodableSegment(segments[i])
    ensures forall r :: r in AllRequested(survey, segments) ==> Ids.WellFormed(r)
  {
    hide EncodableSegment, SegmentsRequested, Validation.CleanlyValidated, Ids.Encodable;
    Validation.CleanSurveyIsIdentified(survey);
    SegmentsWellFormed(survey.externalId, segments);
  }

  lemma AllIdsFulfilled(survey: CanonicalSurvey, host: Host, c: Compilation, segments: seq<Segment>)
    requires SegmentsOf(survey, segments) && CompilesTo(survey, host, c)
    ensures AllFulfilled(AllRequested(survey, segments)) == Crosswalk.EmittedIds(c.payload)
  {
    hide SegmentGroups, SourceBlocks, Routing.RouteUpTo, WithMissingEntries, AllFulfilled, SegmentsRequested,
      Crosswalk.BlocksEmitted, RewrittenBlocks, Crosswalk.LooksLike, EndingIds;
    CompilesToExactly(survey, host, c);
    SegmentsOfExactly(survey, segments);
    var r := RouteOf(survey, host, segments);
    Crosswalk.RouteIsAligned(survey, host, segments);
    Crosswalk.RoutedLooksLike(r, survey.externalId, segments, c.payload.blocks);
    SegmentsFulfilled(survey.externalId, segments, c.payload.blocks);
    EndingsFulfilled(survey);
    FulfilledAppend(SegmentsRequested(survey.externalId, segments), EndingsRequested(survey));
  }
}
