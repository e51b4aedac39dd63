/** The ID crosswalk of a compiled survey against the IDs its payload emits. */
module Crosswalk {
  import opened Wrappers
  import opened Expressions
  import opened Survey
  import opened Payload
  import opened Compiler
  import opened Segments
  import opened CompiledSurvey
  import opened Routing
  import opened Sequences
  import Ids
  import Sorting
  import SurveySegments

  datatype Emitted = Emitted(kind: EntryKind, id: string)

  // ----- What the payload emits -----

  function ItemsEmitted(kind: EntryKind, items: seq<Choice>): seq<Emitted> {
    seq(|items|, i requires 0 <= i < |items| => Emitted(kind, items[i].id))
  }

  function ElementEmitted(e: Element): seq<Emitted> {
    [Emitted(QuestionKind, e.id)] +
    match e.kind
    case SingleChoiceElement => ItemsEmitted(OptionKind, e.choices)
    case MultipleChoiceElement => ItemsEmitted(OptionKind, e.choices)
    case RankingElement => ItemsEmitted(RankingChoiceKind, e.choices)
    case MatrixElement => ItemsEmitted(MatrixRowKind, e.rows) + ItemsEmitted(MatrixColumnKind, e.columns)
    case _ => []
  }

  function ElementsEmitted(elements: seq<Element>): seq<Emitted> {
    if elements == [] then []
    else ElementsEmitted(elements[..|elements| - 1]) + ElementEmitted(elements[|elements| - 1])
  }

  function BlocksEmitted(blocks: seq<Block>): seq<Emitted> {
    if blocks == [] then []
    else
      var b := blocks[|blocks| - 1];
      BlocksEmitted(blocks[..|blocks| - 1]) + [Emitted(GroupKind, b.id)] + ElementsEmitted(b.elements)
  }

  function EmittedIds(p: Payload): seq<Emitted> {
    BlocksEmitted(p.blocks) + seq(|p.endings|, i requires 0 <= i < |p.endings| => Emitted(EndingKind, p.endings[i]))
  }

  /** What crosswalk entries say is emitted. */
  function Listed(entries: seq<Entry>): seq<Emitted> {
    seq(|entries|, i requires 0 <= i < |entries| => Emitted(entries[i].kind, entries[i].formbricksId))
  }

  // ----- Crosswalk entries are what the payload emits, in order -----

  lemma ListedAppend(a: seq<Entry>, b: seq<Entry>)
    ensures Listed(a + b) == Listed(a) + Listed(b)
  {
  }

  lemma ElementListed(survey: string, e: Element)
    ensures Listed(ElementEntries(survey, e)) == ElementEmitted(RewrittenElement(survey, e))
  {
    hide Ids.QuestionId, ItemId;
  }

  lemma {:induction false} ElementsListed(survey: string, elements: seq<Element>)
    ensures Listed(AllElementEntries(survey, elements)) == ElementsEmitted(RewrittenElements(survey, elements))
  {
    hide ElementEntries, RewrittenElement, ElementEmitted, Listed;
    if elements == [] {
      assert Listed([]) == [] by { NothingListed(); }
    } else {
      var front, last := elements[..|elements| - 1], elements[|elements| - 1];
      var rewritten := RewrittenElements(survey, elements);
      ElementsListed(survey, front);
      ElementListed(survey, last);
      ListedAppend(AllElementEntries(survey, front), ElementEntries(survey, last));
      assert rewritten[..|elements| - 1] == RewrittenElements(survey, front);
    }
  }

  lemma NothingListed()
    ensures Listed([]) == []
  {
  }

  /** Blocks with the IDs and elements of rewritten segments, whatever their logic. */
  ghost predicate LooksLike(survey: string, segments: seq<Segment>, blocks: seq<Block>) {
    |blocks| == |segments| &&
    forall i :: 0 <= i < |segments| ==>
      blocks[i].id == Ids.GroupId(survey, BlockName(segments[i])) &&
      blocks[i].elements == RewrittenElements(survey, segments[i].block.elements)
  }

  lemma {:induction false} SegmentsListed(survey: string, segments: seq<Segment>, blocks: seq<Block>)
    requires LooksLike(survey, segments, blocks)
    ensures Listed(SegmentEntries(survey, segments)) == BlocksEmitted(blocks)
  {
    hide AllElementEntries, RewrittenElements, ElementsEmitted, Listed, Ids.GroupId, BlockName;
    if segments == [] {
      NothingListed();
    } else {
      var front, last := segments[..|segments| - 1], segments[|segments| - 1];
      var before, b := blocks[..|segments| - 1], blocks[|segments| - 1];
      SegmentsListed(survey, front, before);
      ElementsListed(survey, last.block.elements);
      var entry := Entry(GroupKind, "", last.group, b.id);
      OneListed(entry);
      ListedAppend(SegmentEntries(survey, front), [entry]);
      ListedAppend(SegmentEntries(survey, front) + [entry], AllElementEntries(survey, last.block.elements));
    }
  }

  lemma OneListed(entry: Entry)
    ensures Listed([entry]) == [Emitted(entry.kind, entry.formbricksId)]
  {
  }

  lemma {:induction false} SegmentHasEntry(survey: string, segments: seq<Segment>, i: nat)
    requires i < |segments|
    ensures HasGroupEntry(SegmentEntries(survey, segments), Ids.GroupId(survey, BlockName(segments[i])))
  {
    hide AllElementEntries, Ids.GroupId, BlockName;
    var front, last := segments[..|segments| - 1], segments[|segments| - 1];
    var before := SegmentEntries(survey, front);
    var entry := Entry(GroupKind, "", last.group, Ids.GroupId(survey, BlockName(last)));
    var entries := SegmentEntries(survey, segments);
    assert entry in entries by { assert entries[|before|] == entry; }
    if i < |segments| - 1 {
      SegmentHasEntry(survey, front, i);
      var e :| e in before && e.kind == GroupKind && e.formbricksId == Ids.GroupId(survey, BlockName(front[i]));
      assert e in entries;
    }
  }

  /** Routing adds no entries: every block has one already. */
  lemma {:induction false} NothingMissing(
    survey: string, segments: seq<Segment>, blocks: seq<Block>, more: seq<Entry>, n: nat)
    requires LooksLike(survey, segments, blocks) && n <= |blocks|
    ensures WithMissingEntries(SegmentEntries(survey, segments) + more, blocks[..n])
         == SegmentEntries(survey, segments) + more
  {
    hide SegmentEntries, BlockName, Ids.GroupId;
    if n > 0 {
      NothingMissing(survey, segments, blocks, more, n - 1);
      assert blocks[..n][..n - 1] == blocks[..n - 1];
      SegmentHasEntry(survey, segments, n - 1);
      var entries := SegmentEntries(survey, segments) + more;
      var e :| e in SegmentEntries(survey, segments) && e.kind == GroupKind && e.formbricksId == blocks[n - 1].id;
      assert e in entries;
    }
  }

  lemma RoutedLooksLike(r: Route, survey: string, segments: seq<Segment>, blocks: seq<Block>)
    requires Aligned(r) && r.blocks == RewrittenBlocks(survey, segments) && RouteUpTo(r, |r.blocks|) == Ok(blocks)
    ensures LooksLike(survey, segments, blocks)
  {
    hide RouteUpTo, PlanFrom, WithPlan, RewrittenElements, BlockName, Ids.GroupId;
    RoutedLength(r, |r.blocks|, blocks);
    forall i | 0 <= i < |segments|
      ensures blocks[i].id == r.blocks[i].id && blocks[i].elements == r.blocks[i].elements
    {
      RoutedBlock(r, |r.blocks|, blocks, i);
    }
  }

  lemma EndingsListed(survey: CanonicalSurvey)
    ensures Listed(EndingEntries(survey, |survey.endings|))
         == seq(|EndingIds(survey)|, i requires 0 <= i < |EndingIds(survey)|
                => Emitted(EndingKind, EndingIds(survey)[i]))
  {
    hide Ids.EndingId;
  }

  /** Whatever compiles, its crosswalk lists exactly the kinds and IDs its payload emits, in the same order. */
  lemma CrosswalkListsPayload(survey: CanonicalSurvey, host: Host, c: Compilation)
    requires CompilesTo(survey, host, c)
    ensures Listed(c.entries) == EmittedIds(c.payload)
  {
    hide SegmentGroups, SourceBlocks, RouteUpTo, WithMissingEntries, SegmentEntries, EndingEntries, BlocksEmitted,
      RewrittenBlocks, EndingIds, Listed, LooksLike;
    CompilesToExactly(survey, host, c);
    var segments := SegmentGroups(survey, SourceBlocks(survey).value, Sorting.Sort(survey.groups, GroupOrder)).value;
    var r := RouteOf(survey, host, segments);
    RouteIsAligned(survey, host, segments);
    RoutedLooksLike(r, survey.externalId, segments, c.payload.blocks);
    var more := EndingEntries(survey, |survey.endings|);
    AllListed(survey.externalId, segments, c.payload.blocks, more);
    EndingsListed(survey);
  }

  lemma RouteIsAligned(survey: CanonicalSurvey, host: Host, segments: seq<Segment>)
    requires survey.endings != []
    ensures Aligned(RouteOf(survey, host, segments))
  {
  }

  lemma AllListed(survey: string, segments: seq<Segment>, blocks: seq<Block>, more: seq<Entry>)
    requires LooksLike(survey, segments, blocks)
    ensures Listed(WithMissingEntries(SegmentEntries(survey, segments) + more, blocks))
         == BlocksEmitted(blocks) + Listed(more)
  {
    hide SegmentEntries, BlocksEmitted, Listed, WithMissingEntries, LooksLike;
    NothingMissing(survey, segments, blocks, more, |blocks|);
    assert blocks[..|blocks|] == blocks;
    SegmentsListed(survey, segments, blocks);
    ListedAppend(SegmentEntries(survey, segments), more);
  }

  // ----- What entries say -----

  ghost predicate NamesItem(items: seq<Choice>, id: string) {
    exists i :: 0 <= i < |items| && items[i].id == id
  }

  /** An entry about an element or one of its items: the canonical ID, the question it belongs to, the compiled ID. */
  ghost predicate TellsOfElement(survey: string, e: Element, x: Entry) {
    match x.kind
    case QuestionKind =>
      x.parent == "" && x.canonicalId == e.id && x.formbricksId == Ids.QuestionId(survey, x.canonicalId)
    case OptionKind =>
      (e.kind.SingleChoiceElement? || e.kind.MultipleChoiceElement?) && x.parent == e.id
      && NamesItem(e.choices, x.canonicalId) && x.formbricksId == Ids.OptionId(survey, x.parent, x.canonicalId)
    case RankingChoiceKind =>
      e.kind.RankingElement? && x.parent == e.id && NamesItem(e.choices, x.canonicalId)
      && x.formbricksId == Ids.RankingChoiceId(survey, x.parent, x.canonicalId)
    case MatrixRowKind =>
      e.kind.MatrixElement? && x.parent == e.id && NamesItem(e.rows, x.canonicalId)
      && x.formbricksId == Ids.MatrixRowId(survey, x.parent, x.canonicalId)
    case MatrixColumnKind =>
      e.kind.MatrixElement? && x.parent == e.id && NamesItem(e.columns, x.canonicalId)
      && x.formbricksId == Ids.MatrixColumnId(survey, x.parent, x.canonicalId)
    case _ => false
  }

  ghost predicate TellsOfSegment(survey: string, s: Segment, x: Entry) {
    (x.kind.GroupKind? && x.parent == "" && x.canonicalId == s.group
     && x.formbricksId == Ids.GroupId(survey, BlockName(s)))
    || exists e :: e in s.block.elements && TellsOfElement(survey, e, x)
  }

  ghost predicate TellsOfEnding(survey: CanonicalSurvey, x: Entry) {
    x.kind.EndingKind? && x.parent == "" && x.formbricksId == Ids.EndingId(survey.externalId, x.canonicalId)
    && exists i :: 0 <= i < |survey.endings| && survey.endings[i].externalId == x.canonicalId
  }

  lemma ItemEntriesTell(kind: EntryKind, survey: string, e: Element, items: seq<Choice>, x: Entry)
    requires x in ItemEntries(kind, survey, e.id, items)
    ensures x.kind == kind && x.parent == e.id && NamesItem(items, x.canonicalId)
    ensures x.formbricksId == ItemId(kind, survey, e.id, x.canonicalId)
  {
    hide ItemId;
    var i :| 0 <= i < |items| && ItemEntries(kind, survey, e.id, items)[i] == x;
  }

  lemma ElementEntriesTell(survey: string, e: Element, x: Entry)
    requires x in ElementEntries(survey, e)
    ensures TellsOfElement(survey, e, x)
  {
    hide ItemEntries, NamesItem, Ids.QuestionId, Ids.OptionId, Ids.RankingChoiceId, Ids.MatrixRowId, Ids.MatrixColumnId;
    var own := Entry(QuestionKind, "", e.id, Ids.QuestionId(survey, e.id));
    if x != own {
      match e.kind
      case RankingElement => ItemEntriesTell(RankingChoiceKind, survey, e, e.choices, x);
      case MatrixElement =>
        if x in ItemEntries(MatrixRowKind, survey, e.id, e.rows) {
          ItemEntriesTell(MatrixRowKind, survey, e, e.rows, x);
        } else {
          ItemEntriesTell(MatrixColumnKind, survey, e, e.columns, x);
        }
      case SingleChoiceElement => ItemEntriesTell(OptionKind, survey, e, e.choices, x);
      case MultipleChoiceElement => ItemEntriesTell(OptionKind, survey, e, e.choices, x);
      case _ => assert false;
    }
  }

  lemma {:induction false} AllElementEntriesTell(survey: string, elements: seq<Element>, x: Entry)
    requires x in AllElementEntries(survey, elements)
    ensures exists e :: e in elements && TellsOfElement(survey, e, x)
  {
    hide ElementEntries, TellsOfElement;
    var front, last := elements[..|elements| - 1], elements[|elements| - 1];
    if x in ElementEntries(survey, last) {
      ElementEntriesTell(survey, last, x);
    } else {
      AllElementEntriesTell(survey, front, x);
    }
  }

  lemma {:induction false} SegmentEntriesTell(survey: string, segments: seq<Segment>, x: Entry)
    requires x in SegmentEntries(survey, segments)
    ensures exists s :: s in segments && TellsOfSegment(survey, s, x)
  {
    hide AllElementEntries, TellsOfElement, BlockName, Ids.GroupId;
    var front, last := segments[..|segments| - 1], segments[|segments| - 1];
    if x in SegmentEntries(survey, front) {
      SegmentEntriesTell(survey, front, x);
    } else {
      if x in AllElementEntries(survey, last.block.elements) {
        AllElementEntriesTell(survey, last.block.elements, x);
      }
      assert TellsOfSegment(survey, last, x);
    }
  }

  /**
   * Every entry of a compiled survey's crosswalk tells the truth: it names a group, question, item or ending that
   * was compiled, the question that an item belongs to, and the very ID compiled for it.
   */
  lemma EntriesTellTheTruth(survey: CanonicalSurvey, host: Host, c: Compilation, segments: seq<Segment>, x: Entry)
    requires CompilesTo(survey, host, c) && SurveySegments.SegmentsOf(survey, segments) && x in c.entries
    ensures TellsOfEnding(survey, x) || exists s :: s in segments && TellsOfSegment(survey.externalId, s, x)
  {
    hide SegmentGroups, SourceBlocks, RouteUpTo, WithMissingEntries, SegmentEntries, EndingEntries, RewrittenBlocks,
      EndingIds, LooksLike, TellsOfSegment, TellsOfEnding;
    CompilesToExactly(survey, host, c);
    SurveySegments.SegmentsOfExactly(survey, segments);
    var r := RouteOf(survey, host, segments);
    RouteIsAligned(survey, host, segments);
    RoutedLooksLike(r, survey.externalId, segments, c.payload.blocks);
    var more := EndingEntries(survey, |survey.endings|);
    NothingMissing(survey.externalId, segments, c.payload.blocks, more, |c.payload.blocks|);
    assert c.payload.blocks[..|c.payload.blocks|] == c.payload.blocks;
    if x in SegmentEntries(survey.externalId, segments) {
      SegmentEntriesTell(survey.externalId, segments, x);
    } else {
      EndingEntriesTell(survey, x);
    }
  }

  lemma EndingEntriesTell(survey: CanonicalSurvey, x: Entry)
    requires x in EndingEntries(survey, |survey.endings|)
    ensures TellsOfEnding(survey, x)
  {
    hide Ids.EndingId;
    var i :| 0 <= i < |survey.endings| && EndingEntries(survey, |survey.endings|)[i] == x;
  }
}
