/** `flatten_amr` of the filtering script. A record that is not multi-sentence
    is kept whole when its graph passes the keyword filter and dropped
    otherwise. A multi-sentence record is cut by the depth-counting extractor;
    branch i (counted from 1 over all extracted branches) becomes a derived
    record with id `<parent id>.i`, and only the branches whose text passes the
    filter are kept, so the ordinals of the kept records can have gaps. */
module FilterFlatten {
  import opened Text
  import opened AmrRecord
  import opened MultiSentence
  import opened JusticeFilter
  import opened DepthSegmenter

  /** A derived record is kept when its graph, the branch text, passes. */
  predicate Kept(r: Record) {
    ContainsJustice(r.graph)
  }

  /** What the filtering `flatten_amr` returns for one record. */
  function FilteredFlatten(amr: Record): seq<Record> {
    if !IsMultiSentence(amr.graph) then
      if ContainsJustice(amr.graph) then [amr] else []
    else
      Filter(DeriveAll(amr, DepthBranches(amr.graph)), Kept)
  }

  /** One more branch: its derived record is appended when its text passes. */
  lemma KeptStep(amr: Record, done: seq<Branch>, b: Branch)
    ensures Filter(DeriveAll(amr, done + [b]), Kept)
      == Filter(DeriveAll(amr, done), Kept) + (if ContainsJustice(b.content) then [Derive(amr, |done| + 1, b)] else [])
  {
    var r := Derive(amr, |done| + 1, b);
    DeriveAllSnoc(amr, done, b);
    FilterSnoc(DeriveAll(amr, done), r, Kept);
    assert r.graph == b.content;
  }

  /** The same step, stated for the prefixes of a list of branches. */
  lemma KeptStepAt(amr: Record, bs: seq<Branch>, i: nat)
    requires i < |bs|
    ensures Filter(DeriveAll(amr, bs[..i + 1]), Kept)
      == Filter(DeriveAll(amr, bs[..i]), Kept) + (if ContainsJustice(bs[i].content) then [Derive(amr, i + 1, bs[i])] else [])
  {
    TakeSnoc(bs, i);
    KeptStep(amr, bs[..i], bs[i]);
  }

  /** The function: a record that is not multi-sentence is returned alone
      when it passes the filter; otherwise its branches are extracted and
      those that pass become derived records. */
  method FlattenAmrFiltered(amrData: Record) returns (flattened: seq<Record>)
    ensures flattened == FilteredFlatten(amrData)
  {
    if !IsMultiSentence(amrData.graph) {
      var hasJustice := ContainsJustice(amrData.graph);
      if hasJustice {
        return [amrData];
      } else {
        return [];
      }
    }
    var subsentences := ExtractSubsentencesDepth(amrData.graph);
    flattened := KeepPassingBranches(amrData, subsentences);
  }

  /** The function's loop: number every extracted branch from 1, skip those
      that fail the filter, build the derived record for the others. */
  method KeepPassingBranches(amrData: Record, subsentences: seq<Branch>) returns (flattened: seq<Record>)
    ensures flattened == Filter(DeriveAll(amrData, subsentences), Kept)
  {
    flattened := [];
    var i := 0;
    while i < |subsentences|
      invariant 0 <= i <= |subsentences|
      invariant flattened == Filter(DeriveAll(amrData, subsentences[..i]), Kept)
    {
      var b := subsentences[i];
      var hasJustice := ContainsJustice(b.content);
      var newAmr := Derive(amrData, i + 1, b);
      KeptStepAt(amrData, subsentences, i);
      i := i + 1;
      if !hasJustice {
        continue;
      }
      flattened := flattened + [newAmr];
    }
    assert subsentences[..i] == subsentences;
  }

  /** Every record the filtering flatten returns passes the keyword filter. */
  lemma FilteredRecordsPass(amr: Record)
    ensures forall r :: r in FilteredFlatten(amr) ==> ContainsJustice(r.graph)
  {
    if IsMultiSentence(amr.graph) {
      FilterMembers(DeriveAll(amr, DepthBranches(amr.graph)), Kept);
    }
  }

  /** `out` is what keeping the derived records of `bs` that pass gives, with
      `pos` the branch positions they come from: the k-th record is the one
      built for branch `pos[k]`, numbered `pos[k] + 1`; the positions increase,
      each names a branch that passes the filter, and every branch that passes
      is among them. */
  predicate KeptAt(amr: Record, bs: seq<Branch>, out: seq<Record>, pos: seq<nat>) {
    |out| == |pos| <= |bs|
    && (forall k :: 0 <= k < |out| ==>
          pos[k] < |bs| && out[k] == Derive(amr, pos[k] + 1, bs[pos[k]]) && ContainsJustice(bs[pos[k]].content))
    && (forall a, b :: 0 <= a < b < |pos| ==> pos[a] < pos[b])
    && (forall i :: 0 <= i < |bs| && ContainsJustice(bs[i].content) ==> i in pos)
  }

  /** Keeping the derived records of `bs` that pass gives them as `KeptAt`
      describes. */
  lemma KeptDerivedShape(amr: Record, bs: seq<Branch>)
    ensures KeptAt(amr, bs, Filter(DeriveAll(amr, bs), Kept), Positions(DeriveAll(amr, bs), Kept))
  {
    var all := DeriveAll(amr, bs);
    FilterByPositions(all, Kept);
    forall i | 0 <= i < |bs| ensures Kept(all[i]) == ContainsJustice(bs[i].content) {
      assert all[i].graph == bs[i].content;
    }
  }

  /** Kept records built from one parent have pairwise different ids. */
  lemma KeptDerivedIdsDistinct(amr: Record, bs: seq<Branch>)
    ensures var out := Filter(DeriveAll(amr, bs), Kept);
      forall a, b :: 0 <= a < b < |out| ==> out[a].id != out[b].id
  {
    DeriveAllIdsDistinct(amr, bs);
    FilterKeepsDistinct(DeriveAll(amr, bs), Kept, RecordId);
  }

  /** For a multi-sentence record: the kept records, in branch order, each
      numbered by its position among all extracted branches. */
  lemma FilteredMultiSentence(amr: Record)
    requires IsMultiSentence(amr.graph)
    ensures var bs := DepthBranches(amr.graph);
      KeptAt(amr, bs, FilteredFlatten(amr), Positions(DeriveAll(amr, bs), Kept))
  {
    var out := FilteredFlatten(amr);
    var bs := DepthBranches(amr.graph);
    KeptDerivedShape(amr, bs);
    assert out == Filter(DeriveAll(amr, bs), Kept);
  }

  /** The ids of the records one call returns are all different. */
  lemma FilteredIdsDistinct(amr: Record)
    ensures var out := FilteredFlatten(amr);
      forall a, b :: 0 <= a < b < |out| ==> out[a].id != out[b].id
  {
    var out := FilteredFlatten(amr);
    if IsMultiSentence(amr.graph) {
      var bs := DepthBranches(amr.graph);
      KeptDerivedIdsDistinct(amr, bs);
      assert out == Filter(DeriveAll(amr, bs), Kept);
    } else {
      assert |out| <= 1;
    }
  }

  /** Dropping a branch leaves a gap: when the first branch fails the filter
      and the second passes, the first record returned is numbered 2. */
  lemma DroppedBranchLeavesGap(amr: Record)
    requires IsMultiSentence(amr.graph)
    requires var bs := DepthBranches(amr.graph);
      |bs| >= 2 && !ContainsJustice(bs[0].content) && ContainsJustice(bs[1].content)
    ensures FilteredFlatten(amr) != [] && FilteredFlatten(amr)[0].id == Some(DerivedId(amr, 2))
  {
    FilteredMultiSentence(amr);
    var bs := DepthBranches(amr.graph);
    FirstKeptIsSecond(amr, bs, FilteredFlatten(amr), Positions(DeriveAll(amr, bs), Kept));
  }

  lemma FirstKeptIsSecond(amr: Record, bs: seq<Branch>, out: seq<Record>, pos: seq<nat>)
    requires KeptAt(amr, bs, out, pos)
    requires |bs| >= 2 && !ContainsJustice(bs[0].content) && ContainsJustice(bs[1].content)
    ensures out != [] && out[0] == Derive(amr, 2, bs[1])
  {
    assert 1 in pos;
    var k :| 0 <= k < |pos| && pos[k] == 1;
    assert pos[0] != 0 && pos[0] <= pos[k];
  }
}
