/** `flatten_amr` of the plain script: a record that is not multi-sentence is
    returned unchanged; a multi-sentence record is cut by the slice extractor
    and every branch i (from 1) becomes a derived record with id
    `<parent id>.i`. Nothing is filtered. */
module PlainFlatten {
  import opened Text
  import opened AmrRecord
  import opened MultiSentence
  import opened SliceSegmenter

  /** What the plain `flatten_amr` returns for one record. */
  function UnfilteredFlatten(amr: Record): seq<Record> {
    if !IsMultiSentence(amr.graph) then [amr] else DeriveAll(amr, SliceBranches(amr.graph))
  }

  /** The function: the record alone when it is not multi-sentence, otherwise
      one derived record per extracted branch. */
  method FlattenAmrPlain(amrData: Record) returns (flattened: seq<Record>)
    ensures flattened == UnfilteredFlatten(amrData)
  {
    if !IsMultiSentence(amrData.graph) {
      return [amrData];
    }
    var subsentences := ExtractSubsentencesSlice(amrData.graph);
    flattened := DeriveBranches(amrData, subsentences);
  }

  /** The function's loop: one derived record per branch, numbered from 1. */
  method DeriveBranches(amrData: Record, subsentences: seq<Branch>) returns (flattened: seq<Record>)
    ensures flattened == DeriveAll(amrData, subsentences)
  {
    flattened := [];
    var i := 0;
    while i < |subsentences|
      invariant 0 <= i <= |subsentences|
      invariant flattened == DeriveAll(amrData, subsentences[..i])
    {
      var b := subsentences[i];
      var newAmr := Derive(amrData, i + 1, b);
      DeriveAllSnoc(amrData, subsentences[..i], b);
      assert subsentences[..i + 1] == subsentences[..i] + [b];
      flattened := flattened + [newAmr];
      i := i + 1;
    }
    assert subsentences[..i] == subsentences;
  }

  /** A record that is not multi-sentence comes back as itself; a
      multi-sentence one gives exactly one record per branch, in branch order:
      the k-th has id `<parent id>.<k + 1>` (whose digits read back as k + 1),
      sentence `[<label>] <parent sentence>`, the two metadata lines for these,
      and the branch text, never empty, as its graph. */
  lemma UnfilteredFlattenShape(amr: Record)
    ensures !IsMultiSentence(amr.graph) ==> UnfilteredFlatten(amr) == [amr]
    ensures IsMultiSentence(amr.graph) ==>
      var out := UnfilteredFlatten(amr); var bs := SliceBranches(amr.graph);
      |out| == |bs|
      && forall k :: 0 <= k < |out| ==>
        var p := Render(amr.id); var id := out[k].id.value;
        out[k].id == Some(p + "." + NatStr(k + 1))
        && DecimalValue(id[|p| + 1..]) == k + 1
        && out[k].sentence == Some("[" + bs[k].sntLabel + "] " + Render(amr.sentence))
        && out[k].metadata == ["# ::id " + id, "# ::snt " + out[k].sentence.value]
        && out[k].graph == bs[k].content && out[k].graph != []
  {
    if IsMultiSentence(amr.graph) {
      DeriveAllShape(amr, SliceBranches(amr.graph));
      SliceBranchesNonEmpty(amr.graph);
    }
  }

  /** A multi-sentence record gives the empty list exactly when every slice
      between its tags is blank (or it has no tag at all). */
  lemma NoBranchesGiveNothing(amr: Record)
    requires IsMultiSentence(amr.graph)
    ensures var g := amr.graph;
      UnfilteredFlatten(amr) == [] <==> forall i :: 0 <= i < |Tags(g)| ==> AllSpace(g[Tags(g)[i].end..SliceEnd(g, i)])
  {
    NoSliceBranches(amr.graph);
  }

  /** The ids of the records one call returns are all different. */
  lemma UnfilteredIdsDistinct(amr: Record)
    ensures var out := UnfilteredFlatten(amr);
      forall a, b :: 0 <= a < b < |out| ==> out[a].id != out[b].id
  {
    if IsMultiSentence(amr.graph) {
      var all := DeriveAll(amr, SliceBranches(amr.graph));
      DeriveAllIdsDistinct(amr, SliceBranches(amr.graph));
      forall a, b | 0 <= a < b < |all| ensures all[a].id != all[b].id {
        assert RecordId(all[a]) != RecordId(all[b]);
      }
    }
  }
}
