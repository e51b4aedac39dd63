/** Compiling a whole survey: rewriting IDs, recording the crosswalk, and routing the segments. */
module CompiledSurvey {
  import opened Wrappers
  import opened Expressions
  import opened Survey
  import opened Payload
  import opened Compiler
  import opened Segments
  import opened RelevanceCompiler
  import opened Routing
  import Ids
  import Sorting
  import SurveyReferences
  import Variables

  datatype EntryKind =
    | GroupKind | QuestionKind | EndingKind | OptionKind | RankingChoiceKind | MatrixRowKind | MatrixColumnKind

  /** One crosswalk entry; the parent is the question of a choice, row or column. */
  datatype Entry = Entry(kind: EntryKind, parent: string, canonicalId: string, formbricksId: string)

  datatype Compilation = Compilation(payload: Payload, entries: seq<Entry>)

  // ----- Elements -----

  function ItemId(kind: EntryKind, survey: string, question: string, item: string): string {
    match kind
    case RankingChoiceKind => Ids.RankingChoiceId(survey, question, item)
    case MatrixRowKind => Ids.MatrixRowId(survey, question, item)
    case MatrixColumnKind => Ids.MatrixColumnId(survey, question, item)
    case _ => Ids.OptionId(survey, question, item)
  }

  function RewrittenItems(kind: EntryKind, survey: string, question: string, items: seq<Choice>): seq<Choice> {
    seq(|items|, i requires 0 <= i < |items| => items[i].(id := ItemId(kind, survey, question, items[i].id)))
  }

  function ItemEntries(kind: EntryKind, survey: string, question: string, items: seq<Choice>): seq<Entry> {
    seq(|items|, i requires 0 <= i < |items| =>
      Entry(kind, question, items[i].id, ItemId(kind, survey, question, items[i].id)))
  }

  function RewrittenElement(survey: string, e: Element): Element {
    var rewritten := e.(id := Ids.QuestionId(survey, e.id));
    match e.kind
    case RankingElement => rewritten.(choices := RewrittenItems(RankingChoiceKind, survey, e.id, e.choices))
    case MatrixElement =>
      rewritten.(rows := RewrittenItems(MatrixRowKind, survey, e.id, e.rows),
                 columns := RewrittenItems(MatrixColumnKind, survey, e.id, e.columns))
    case SingleChoiceElement => rewritten.(choices := RewrittenItems(OptionKind, survey, e.id, e.choices))
    case MultipleChoiceElement => rewritten.(choices := RewrittenItems(OptionKind, survey, e.id, e.choices))
    case _ => rewritten
  }

  function ElementEntries(survey: string, e: Element): seq<Entry> {
    [Entry(QuestionKind, "", e.id, Ids.QuestionId(survey, e.id))] +
    match e.kind
    case RankingElement => ItemEntries(RankingChoiceKind, survey, e.id, e.choices)
    case MatrixElement =>
      ItemEntries(MatrixRowKind, survey, e.id, e.rows) + ItemEntries(MatrixColumnKind, survey, e.id, e.columns)
    case SingleChoiceElement => ItemEntries(OptionKind, survey, e.id, e.choices)
    case MultipleChoiceElement => ItemEntries(OptionKind, survey, e.id, e.choices)
    case _ => []
  }

  function RewrittenElements(survey: string, elements: seq<Element>): seq<Element> {
    seq(|elements|, i requires 0 <= i < |elements| => RewrittenElement(survey, elements[i]))
  }

  function AllElementEntries(survey: string, elements: seq<Element>): seq<Entry> {
    if elements == [] then []
    else AllElementEntries(survey, elements[..|elements| - 1]) + ElementEntries(survey, elements[|elements| - 1])
  }

  // ----- Blocks and endings -----

  function BlockName(s: Segment): string {
    if s.count == 1 then s.group else SegmentName(s.group, s.index)
  }

  function BlockNamesOf(segments: seq<Segment>): seq<string> {
    seq(|segments|, i requires 0 <= i < |segments| => BlockName(segments[i]))
  }

  lemma SegmentNameEncodable(group: string, index: nat)
    requires Ids.Encodable(group)
    ensures Ids.Encodable(SegmentName(group, index))
  {
    var name := SegmentName(group, index);
    forall c | c in name
      ensures c as int < 0x100
    {
      assert c in group || c in "_segment_" || '0' <= c <= '9';
    }
  }

  function RewrittenBlock(survey: string, s: Segment): Block {
    s.block.(id := Ids.GroupId(survey, BlockName(s)), elements := RewrittenElements(survey, s.block.elements))
  }

  function RewrittenBlocks(survey: string, segments: seq<Segment>): seq<Block> {
    seq(|segments|, i requires 0 <= i < |segments| => RewrittenBlock(survey, segments[i]))
  }

  function SegmentEntries(survey: string, segments: seq<Segment>): seq<Entry> {
    if segments == [] then []
    else
      var s := segments[|segments| - 1];
      SegmentEntries(survey, segments[..|segments| - 1])
      + [Entry(GroupKind, "", s.group, Ids.GroupId(survey, BlockName(s)))]
      + AllElementEntries(survey, s.block.elements)
  }

  function EndingIds(survey: CanonicalSurvey): seq<string> {
    seq(|survey.endings|, i requires 0 <= i < |survey.endings| =>
      Ids.EndingId(survey.externalId, survey.endings[i].externalId))
  }

  function EndingEntries(survey: CanonicalSurvey, n: nat): seq<Entry>
    requires n <= |survey.endings|
  {
    seq(n, i requires 0 <= i < n =>
      Entry(EndingKind, "", survey.endings[i].externalId,
            Ids.EndingId(survey.externalId, survey.endings[i].externalId)))
  }

  /** The names available once the segments up to a position are done. */
  function AvailableAfter(segments: seq<Segment>, n: nat): set<string>
    requires n <= |segments|
  {
    if n == 0 then {}
    else
      var questions, calculated := segments[n - 1].questions, segments[n - 1].calculated;
      AvailableAfter(segments, n - 1) + (set x | x in questions) + (set x | x in calculated)
  }

  function Availability(segments: seq<Segment>): seq<set<string>> {
    seq(|segments|, i requires 0 <= i < |segments| => AvailableAfter(segments, i + 1))
  }

  function RoutingId(survey: string, path: string): string {
    Ids.GroupId(survey, "routing_" + path)
  }

  function RoutingContext(survey: CanonicalSurvey, host: Host): RelevanceContext {
    SurveyReferences.ContextOf(survey, host, path => RoutingId(survey.externalId, path))
  }

  function RouteOf(survey: CanonicalSurvey, host: Host, segments: seq<Segment>): Route
    requires survey.endings != []
  {
    Route(RewrittenBlocks(survey.externalId, segments),
          seq(|segments|, i requires 0 <= i < |segments| => segments[i].relevance),
          Availability(segments), EndingIds(survey)[0], RoutingContext(survey, host))
  }

  predicate HasGroupEntry(entries: seq<Entry>, id: string) {
    exists e :: e in entries && e.kind == GroupKind && e.formbricksId == id
  }

  /** Group entries for routed blocks that have none yet. */
  function WithMissingEntries(entries: seq<Entry>, blocks: seq<Block>): seq<Entry> {
    if blocks == [] then entries
    else
      var before := WithMissingEntries(entries, blocks[..|blocks| - 1]);
      var id := blocks[|blocks| - 1].id;
      if HasGroupEntry(before, id) then before else before + [Entry(GroupKind, "", id, id)]
  }

  function Compile(survey: CanonicalSurvey, host: Host): Result<Compilation, CompileError> {
    var source := SourceBlocks(survey);
    if source.Err? then Err(source.error)
    else
      var segments := SegmentGroups(survey, source.value, Sorting.Sort(survey.groups, GroupOrder));
      if segments.Err? then Err(segments.error)
      else if survey.endings == [] then Err(MissingEnding)
      else
        var route := RouteOf(survey, host, segments.value);
        var routed := RouteUpTo(route, |route.blocks|);
        if routed.Err? then Err(routed.error)
        else
          var entries :=
            SegmentEntries(survey.externalId, segments.value) + EndingEntries(survey, |survey.endings|);
          Ok(Compilation(
            Payload(routed.value, Variables.PayloadVariables(survey), EndingIds(survey)),
            WithMissingEntries(entries, routed.value)))
  }

  predicate IsCompilation(survey: CanonicalSurvey, host: Host, r: Result<Compilation, CompileError>) {
    r == Compile(survey, host)
  }

  /** The survey compiles to c. Stated over results, so that proofs unfold the compiler only where they name one. */
  ghost predicate CompilesTo(survey: CanonicalSurvey, host: Host, c: Compilation) {
    forall r :: IsCompilation(survey, host, r) ==> r == Ok(c)
  }

  lemma CompilesToExactly(survey: CanonicalSurvey, host: Host, c: Compilation)
    ensures CompilesTo(survey, host, c) <==> Compile(survey, host) == Ok(c)
  {
    hide Compile;
    assert IsCompilation(survey, host, Compile(survey, host));
  }

  /** Compiles a survey, pushing crosswalk entries as IDs are rewritten. */
  method CompileCanonicalToFormbricks(survey: CanonicalSurvey, host: Host)
    returns (r: Result<Compilation, CompileError>)
    ensures r == Compile(survey, host)
  {
    var source := SourceBlocks(survey);
    if source.Err? {
      return Err(source.error);
    }
    var variables := Variables.DeclareVariables(survey);
    var segmented := SegmentCanonicalBlocks(survey, source.value);
    if segmented.Err? {
      return Err(segmented.error);
    }
    var segments := segmented.value;
    var blocks, entries := RewriteSegments(survey.externalId, segments);
    entries := PushEndingEntries(survey, entries);
    if survey.endings == [] {
      return Err(MissingEnding);
    }
    var routed := ApplyAdaptiveSegmentRouting(RouteOf(survey, host, segments));
    if routed.Failed? {
      return Err(routed.error);
    }
    entries := PushMissingEntries(routed.blocks, entries);
    r := Ok(Compilation(Payload(routed.blocks, variables, EndingIds(survey)), entries));
  }

  method RewriteSegments(survey: string, segments: seq<Segment>) returns (blocks: seq<Block>, entries: seq<Entry>)
    ensures blocks == RewrittenBlocks(survey, segments)
    ensures entries == SegmentEntries(survey, segments)
  {
    hide Ids.GroupId, BlockName, AllElementEntries, RewrittenElements;
    blocks, entries := [], [];
    for i := 0 to |segments|
      invariant blocks == RewrittenBlocks(survey, segments[..i])
      invariant entries == SegmentEntries(survey, segments[..i])
    {
      var s := segments[i];
      assert segments[..i + 1][..i] == segments[..i];
      entries := entries + [Entry(GroupKind, "", s.group, Ids.GroupId(survey, BlockName(s)))];
      var elements := RewriteElements(survey, s.block.elements);
      entries := PushElementEntries(survey, s.block.elements, entries);
      blocks := blocks + [s.block.(id := Ids.GroupId(survey, BlockName(s)), elements := elements)];
    }
    assert segments[..|segments|] == segments;
  }

  method PushEndingEntries(survey: CanonicalSurvey, entries: seq<Entry>) returns (r: seq<Entry>)
    ensures r == entries + EndingEntries(survey, |survey.endings|)
  {
    r := entries;
    for i := 0 to |survey.endings|
      invariant r == entries + EndingEntries(survey, i)
    {
      var ending := survey.endings[i].externalId;
      r := r + [Entry(EndingKind, "", ending, Ids.EndingId(survey.externalId, ending))];
    }
  }

  method PushMissingEntries(blocks: seq<Block>, entries: seq<Entry>) returns (r: seq<Entry>)
    ensures r == WithMissingEntries(entries, blocks)
  {
    r := entries;
    for i := 0 to |blocks|
      invariant r == WithMissingEntries(entries, blocks[..i])
    {
      assert blocks[..i + 1][..i] == blocks[..i];
      var id := blocks[i].id;
      if !HasGroupEntry(r, id) {
        r := r + [Entry(GroupKind, "", id, id)];
      }
    }
    assert blocks[..|blocks|] == blocks;
  }

  method RewriteElements(survey: string, elements: seq<Element>) returns (r: seq<Element>)
    ensures r == RewrittenElements(survey, elements)
  {
    r := [];
    for i := 0 to |elements|
      invariant r == RewrittenElements(survey, elements[..i])
    {
      r := r + [RewrittenElement(survey, elements[i])];
    }
    assert elements[..|elements|] == elements;
  }

  method PushElementEntries(survey: string, elements: seq<Element>, entries: seq<Entry>) returns (r: seq<Entry>)
    ensures r == entries + AllElementEntries(survey, elements)
  {
    hide ElementEntries;
    r := entries;
    for i := 0 to |elements|
      invariant r == entries + AllElementEntries(survey, elements[..i])
    {
      assert elements[..i + 1][..i] == elements[..i];
      r := r + ElementEntries(survey, elements[i]);
    }
    assert elements[..|elements|] == elements;
  }
}
