/** The branch extractor `flatten_amr` of the plain script uses: branch i is
    the text from the end of tag i to the start of tag i + 1, or to the end of
    the graph for the last tag, stripped; empty ones are dropped. */
module SliceSegmenter {
  import opened Text
  import opened AmrRecord
  import opened MultiSentence

  /** Where the text taken for tag `i` stops. */
  function SliceEnd(g: string, i: nat): (r: nat)
    requires i < |Tags(g)|
    ensures Tags(g)[i].end <= r <= |g|
  {
    if i + 1 < |Tags(g)| then Tags(g)[i + 1].start else |g|
  }

  /** The label and stripped slice for tag `i`, before empty ones are dropped. */
  function SliceCandidate(g: string, i: nat): Branch
    requires i < |Tags(g)|
  {
    var t := Tags(g)[i];
    Branch(TagText(g, t), Strip(g[t.end..SliceEnd(g, i)]))
  }

  function SliceCandidatesUpTo(g: string, n: nat): (r: seq<Branch>)
    requires n <= |Tags(g)|
    ensures |r| == n && forall i :: 0 <= i < n ==> r[i] == SliceCandidate(g, i)
  {
    seq(n, i requires 0 <= i < n => SliceCandidate(g, i))
  }

  lemma SliceCandidatesSnoc(g: string, n: nat)
    requires n < |Tags(g)|
    ensures SliceCandidatesUpTo(g, n + 1) == SliceCandidatesUpTo(g, n) + [SliceCandidate(g, n)]
  {
    SnocEq(SliceCandidatesUpTo(g, n), SliceCandidatesUpTo(g, n + 1), SliceCandidate(g, n));
  }

  /** The branches the extractor returns. */
  function SliceBranches(g: string): seq<Branch> {
    Filter(SliceCandidatesUpTo(g, |Tags(g)|), HasContent)
  }

  /** The extractor's loop. */
  method ExtractSubsentencesSlice(graph: string) returns (subsentences: seq<Branch>)
    ensures subsentences == SliceBranches(graph)
  {
    var sntMatches := Tags(graph);
    subsentences := [];
    var i := 0;
    while i < |sntMatches|
      invariant 0 <= i <= |sntMatches|
      invariant subsentences == Filter(SliceCandidatesUpTo(graph, i), HasContent)
    {
      var m := sntMatches[i];
      var sntLabel := TagText(graph, m);
      var startPos := m.end;
      var endPos;
      if i + 1 < |sntMatches| {
        endPos := sntMatches[i + 1].start;
      } else {
        endPos := |graph|;
      }
      var content := Strip(graph[startPos..endPos]);
      var branch := Branch(sntLabel, content);
      assert SliceCandidate(graph, i) == branch;
      SliceCandidatesSnoc(graph, i);
      FilterSnoc(SliceCandidatesUpTo(graph, i), branch, HasContent);
      if content != [] {
        subsentences := subsentences + [branch];
      }
      i := i + 1;
    }
  }

  /** The slices lie one after another: the slice of tag i ends no later than
      where any later slice starts, and each holds no part of a tag. */
  lemma SlicesInOrder(g: string)
    ensures forall i, j :: 0 <= i < j < |Tags(g)| ==> SliceEnd(g, i) <= Tags(g)[j].start < Tags(g)[j].end
    ensures forall i :: 0 <= i < |Tags(g)| ==>
      forall j :: 0 <= j < |Tags(g)| ==> !(Tags(g)[i].end <= Tags(g)[j].start < SliceEnd(g, i))
  {
    var tags := Tags(g);
    forall i, j | 0 <= i < j < |tags| ensures SliceEnd(g, i) <= tags[j].start {
      if i + 1 < j {
        assert tags[i + 1].end <= tags[j].start;
      }
    }
  }

  /** Branch `k` comes from tag `Positions(...)[k]`: at most one branch per
      tag, in tag order, each labelled with its tag's text (colon included) and
      holding non-empty stripped text; a tag whose slice is not blank has its
      branch. */
  lemma SliceBranchesShape(g: string)
    ensures var r := SliceBranches(g); var c := SliceCandidatesUpTo(g, |Tags(g)|);
      var pos := Positions(c, HasContent);
      |r| == |pos| <= |Tags(g)|
      && (forall k :: 0 <= k < |r| ==> pos[k] < |Tags(g)| && r[k] == SliceCandidate(g, pos[k]) && r[k].content != [])
      && (forall a, b :: 0 <= a < b < |pos| ==> pos[a] < pos[b])
      && (forall i :: 0 <= i < |Tags(g)| && SliceCandidate(g, i).content != [] ==> i in pos)
  {
    FilterByPositions(SliceCandidatesUpTo(g, |Tags(g)|), HasContent);
  }

  /** No branch is empty. */
  lemma SliceBranchesNonEmpty(g: string)
    ensures forall k :: 0 <= k < |SliceBranches(g)| ==> SliceBranches(g)[k].content != []
  {
    FilterAllPass(SliceCandidatesUpTo(g, |Tags(g)|), HasContent);
  }

  /** The last branch runs to the end of the graph, so it keeps the root's
      closing parenthesis (or whatever else ends the graph). */
  lemma LastSliceKeepsEnd(g: string)
    requires |Tags(g)| > 0 && Tags(g)[|Tags(g)| - 1].end < |g| && !IsSpace(g[|g| - 1])
    ensures var c := SliceCandidate(g, |Tags(g)| - 1).content;
      c != [] && c[|c| - 1] == g[|g| - 1]
  {
    var n := |Tags(g)| - 1;
    var a := Tags(g)[n].end;
    assert SliceEnd(g, n) == |g|;
    TailKeepsLast(g, a);
  }

  lemma TailKeepsLast(g: string, a: nat)
    requires a < |g| && !IsSpace(g[|g| - 1])
    ensures Strip(g[a..|g|]) != [] && Strip(g[a..|g|])[|Strip(g[a..|g|])| - 1] == g[|g| - 1]
  {
    var s := g[a..|g|];
    assert s[|s| - 1] == g[|g| - 1];
    StripKeepsLast(s);
  }

  /** There are no branches exactly when every slice is blank. */
  lemma NoSliceBranches(g: string)
    ensures SliceBranches(g) == [] <==> forall i :: 0 <= i < |Tags(g)| ==> AllSpace(g[Tags(g)[i].end..SliceEnd(g, i)])
  {
    var c := SliceCandidatesUpTo(g, |Tags(g)|);
    FilterEmptyIff(c, HasContent);
    forall i | 0 <= i < |Tags(g)| ensures HasContent(c[i]) == !AllSpace(g[Tags(g)[i].end..SliceEnd(g, i)]) {
      StripEmptyIffAllSpace(g[Tags(g)[i].end..SliceEnd(g, i)]);
    }
  }
}
