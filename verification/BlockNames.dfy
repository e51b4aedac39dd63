/** When two compiled blocks get the same name. */
module BlockNames {
  import opened Wrappers
  import opened Survey
  import opened Payload
  import opened Compiler
  import opened Segments
  import opened SegmentConservation
  import opened SurveySegments
  import opened CompiledSurvey
  import Sequences
  import Sorting
  import Words

  lemma SegmentNameInjective(g: string, i: nat, h: string, j: nat)
    requires SegmentName(g, i) == SegmentName(h, j)
    ensures g == h && i == j
  {
    var a, b := Words.Numeral(i + 1), Words.Numeral(j + 1);
    assert SegmentName(g, i) == (g + "_segment") + ['_'] + a;
    assert SegmentName(h, j) == (h + "_segment") + ['_'] + b;
    Words.SplitLast('_', g + "_segment", a, h + "_segment", b);
    Words.NumeralInjective(i + 1, j + 1);
    assert g == (g + "_segment")[..|g|] && h == (h + "_segment")[..|h|];
  }

  /** Two segments differ in group, or are numbered differently within a group of several. */
  ghost predicate PlacedApart(a: Segment, b: Segment) {
    a.group != b.group || (a.index != b.index && a.count == b.count != 1)
  }

  ghost predicate AllPlacedApart(segments: seq<Segment>) {
    forall i, j :: 0 <= i < j < |segments| ==> PlacedApart(segments[i], segments[j])
  }

  ghost predicate GroupsAmong(segments: seq<Segment>, groups: seq<Group>) {
    forall i :: 0 <= i < |segments| ==> exists g :: g in groups && g.externalId == segments[i].group
  }

  lemma GroupPlacedApart(survey: CanonicalSurvey, blocks: seq<Block>, group: Group, segments: seq<Segment>)
    requires SourceBlocks(survey) == Ok(blocks) && DistinctSurvey(survey) && group in survey.groups
    requires SegmentGroup(survey, blocks, group) == Ok(segments)
    ensures AllPlacedApart(segments)
    ensures forall i :: 0 <= i < |segments| ==> segments[i].group == group.externalId
  {
    hide SourceBlocks, DistinctSurvey, SegmentGroup, IsSourceOf;
    GroupSegmentsAreSegments(survey, blocks, group, segments);
    forall i | 0 <= i < |segments|
      ensures segments[i].group == group.externalId
    {
      assert IsSegmentOf(survey, group, segments[i]);
    }
  }

  lemma {:induction false} SegmentsPlacedApart(
    survey: CanonicalSurvey, blocks: seq<Block>, groups: seq<Group>, segments: seq<Segment>)
    requires SourceBlocks(survey) == Ok(blocks) && DistinctSurvey(survey) && DistinctGroups(groups)
    requires forall g :: g in groups ==> g in survey.groups
    requires SegmentGroups(survey, blocks, groups) == Ok(segments)
    ensures AllPlacedApart(segments) && GroupsAmong(segments, groups)
  {
    hide SourceBlocks, DistinctSurvey, SegmentGroup;
    if groups != [] {
      var front, group := groups[..|groups| - 1], groups[|groups| - 1];
      var before := SegmentGroups(survey, blocks, front).value;
      var last := SegmentGroup(survey, blocks, group).value;
      SegmentsPlacedApart(survey, blocks, front, before);
      GroupPlacedApart(survey, blocks, group, last);
      LaterGroupApart(front, group, before, last);
      assert groups == front + [group];
    }
  }

  lemma LaterGroupApart(front: seq<Group>, group: Group, before: seq<Segment>, last: seq<Segment>)
    requires AllPlacedApart(before) && AllPlacedApart(last) && GroupsAmong(before, front)
    requires forall g :: g in front ==> g.externalId != group.externalId
    requires forall i :: 0 <= i < |last| ==> last[i].group == group.externalId
    ensures AllPlacedApart(before + last) && GroupsAmong(before + last, front + [group])
  {
    hide PlacedApart;
    var all := before + last;
    forall i, j | 0 <= i < j < |all|
      ensures PlacedApart(all[i], all[j])
    {
      if i < |before| <= j {
        DifferentGroups(all[i], all[j]);
      }
    }
    forall i | 0 <= i < |all|
      ensures exists g :: g in front + [group] && g.externalId == all[i].group
    {
      if i < |before| {
        assert all[i] == before[i];
        var g :| g in front && g.externalId == before[i].group;
        assert g in front + [group];
      } else {
        assert group in front + [group];
      }
    }
  }

  lemma DifferentGroups(a: Segment, b: Segment)
    requires a.group != b.group
    ensures PlacedApart(a, b)
  {
  }

  /** A group that stays in one piece is named like a piece of another group. */
  ghost predicate NameTaken(whole: Segment, piece: Segment) {
    whole.count == 1 && piece.count != 1 && whole.group == SegmentName(piece.group, piece.index)
  }

  lemma SameNameExactly(a: Segment, b: Segment)
    requires PlacedApart(a, b)
    ensures BlockName(a) == BlockName(b) <==> NameTaken(a, b) || NameTaken(b, a)
  {
    if a.count != 1 && b.count != 1 && BlockName(a) == BlockName(b) {
      SegmentNameInjective(a.group, a.index, b.group, b.index);
    }
  }

  /** Block names are distinct exactly when no group is named like a piece of another group. */
  lemma NamesDistinctExactly(survey: CanonicalSurvey, segments: seq<Segment>)
    requires DistinctSurvey(survey) && SegmentsOf(survey, segments)
    ensures Sequences.NoDuplicates(BlockNamesOf(segments))
       <==> forall i, j :: 0 <= i < |segments| && 0 <= j < |segments| ==> !NameTaken(segments[i], segments[j])
  {
    hide SourceBlocks, SegmentGroups, NameTaken, BlockName, PlacedApart;
    var groups := Sorting.Sort(survey.groups, GroupOrder);
    SortedGroups(survey);
    SegmentsOfExactly(survey, segments);
    SegmentsPlacedApart(survey, SourceBlocks(survey).value, groups, segments);
    var names := BlockNamesOf(segments);
    forall i, j | 0 <= i < j < |segments|
      ensures names[i] == names[j] <==> NameTaken(segments[i], segments[j]) || NameTaken(segments[j], segments[i])
    {
      SameNameExactly(segments[i], segments[j]);
    }
    forall i | 0 <= i < |segments|
      ensures !NameTaken(segments[i], segments[i])
    {
      NotTakenByItself(segments[i]);
    }
  }

  lemma NotTakenByItself(s: Segment)
    ensures !NameTaken(s, s)
  {
  }
}
