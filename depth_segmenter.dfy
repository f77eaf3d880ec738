/** The branch extractor of the filtering script: for each `:snt<digits>` tag
    it scans forward from the end of the tag, counting parentheses, and ends the
    branch right after the first `)` that brings the count back to zero once a
    `(` has been seen. The scan is not stopped by the next tag. When no such
    `)` exists the branch runs to the start of the next tag, or to the end of
    the graph for the last tag. Each branch is stripped; empty ones are
    dropped. */
module DepthSegmenter {
  import opened Text
  import opened AmrRecord
  import opened MultiSentence

  /** The scan from position `j`, with the count so far and whether a `(` has
      been seen: the position just after the closing parenthesis, if any. */
  function ScanClose(g: string, j: nat, depth: int, seen: bool): (r: Option<nat>)
    requires j <= |g|
    ensures r.Some? ==> j < r.value <= |g| && g[r.value - 1] == ')'
    decreases |g| - j
  {
    if j == |g| then None
    else if g[j] == '(' then ScanClose(g, j + 1, depth + 1, true)
    else if g[j] == ')' then
      if depth - 1 == 0 && seen then Some(j + 1) else ScanClose(g, j + 1, depth - 1, seen)
    else ScanClose(g, j + 1, depth, seen)
  }

  /** The text from `start` up to `e` ends with a `)`, holds a `(`, and is
      balanced. */
  ghost predicate ClosesAt(g: string, start: nat, e: nat) {
    start < e <= |g| && g[e - 1] == ')' && Depth(g[start..e]) == 0 && Count(g[start..e], '(') > 0
  }

  /** One more character of scanned text. */
  lemma CountStep(g: string, start: nat, j: nat, c: char)
    requires start <= j < |g|
    ensures Count(g[start..j + 1], c) == Count(g[start..j], c) + (if g[j] == c then 1 else 0)
  {
    assert g[start..j + 1][..j - start] == g[start..j];
  }

  /** The scan's invariant: what it returns from `j` is the first place the
      text from `start` closes, given that it has not closed before `j`. */
  lemma {:induction false} ScanCloseFrom(g: string, start: nat, j: nat, depth: int, seen: bool)
    requires start <= j <= |g|
    requires depth == Depth(g[start..j]) && seen == (Count(g[start..j], '(') > 0)
    requires forall e :: start < e <= j ==> !ClosesAt(g, start, e)
    ensures ScanClose(g, j, depth, seen).Some? ==>
      ClosesAt(g, start, ScanClose(g, j, depth, seen).value)
      && forall e :: start < e < ScanClose(g, j, depth, seen).value ==> !ClosesAt(g, start, e)
    ensures ScanClose(g, j, depth, seen).None? ==> forall e :: start < e <= |g| ==> !ClosesAt(g, start, e)
    decreases |g| - j
  {
    if j < |g| {
      CountStep(g, start, j, '(');
      CountStep(g, start, j, ')');
      var depth' := Depth(g[start..j + 1]);
      var seen' := Count(g[start..j + 1], '(') > 0;
      if g[j] == ')' && depth - 1 == 0 && seen {
        assert ScanClose(g, j, depth, seen) == Some(j + 1);
        assert ClosesAt(g, start, j + 1);
      } else {
        assert ScanClose(g, j, depth, seen) == ScanClose(g, j + 1, depth', seen');
        assert !ClosesAt(g, start, j + 1);
        ScanCloseFrom(g, start, j + 1, depth', seen');
      }
    }
  }

  /** Where the balanced part after `start` ends, if it does. */
  function BalancedEnd(g: string, start: nat): (r: Option<nat>)
    requires start <= |g|
  {
    ScanClose(g, start, 0, false)
  }

  /** The scan finds the first balanced stretch that holds a parenthesis, and
      finds nothing only when there is none. */
  lemma BalancedEndIsFirstClose(g: string, start: nat)
    requires start <= |g|
    ensures BalancedEnd(g, start).Some? ==>
      ClosesAt(g, start, BalancedEnd(g, start).value)
      && forall e :: start < e < BalancedEnd(g, start).value ==> !ClosesAt(g, start, e)
    ensures BalancedEnd(g, start).None? ==> forall e :: start < e <= |g| ==> !ClosesAt(g, start, e)
  {
    assert g[start..start] == [];
    ScanCloseFrom(g, start, start, 0, false);
  }

  /** End of the text taken for tag `i`. */
  function SpanEnd(g: string, i: nat): (r: nat)
    requires i < |Tags(g)|
    ensures Tags(g)[i].end <= r <= |g|
  {
    var tags := Tags(g);
    match BalancedEnd(g, tags[i].end)
    case Some(e) => e
    case None => if i + 1 < |tags| then tags[i + 1].start else |g|
  }

  /** The label and stripped text for tag `i`, before empty ones are dropped. */
  function Candidate(g: string, i: nat): Branch
    requires i < |Tags(g)|
  {
    var t := Tags(g)[i];
    Branch(TagText(g, t), Strip(g[t.end..SpanEnd(g, i)]))
  }

  /** The candidates of the first `n` tags, in tag order. */
  function CandidatesUpTo(g: string, n: nat): (r: seq<Branch>)
    requires n <= |Tags(g)|
    ensures |r| == n && forall i :: 0 <= i < n ==> r[i] == Candidate(g, i)
  {
    seq(n, i requires 0 <= i < n => Candidate(g, i))
  }

  lemma CandidatesSnoc(g: string, n: nat)
    requires n < |Tags(g)|
    ensures CandidatesUpTo(g, n + 1) == CandidatesUpTo(g, n) + [Candidate(g, n)]
  {
    SnocEq(CandidatesUpTo(g, n), CandidatesUpTo(g, n + 1), Candidate(g, n));
  }

  function Candidates(g: string): (r: seq<Branch>) {
    CandidatesUpTo(g, |Tags(g)|)
  }

  /** The branches the extractor returns. */
  function DepthBranches(g: string): seq<Branch> {
    Filter(Candidates(g), HasContent)
  }

  /** Branch `k` comes from tag `Positions(...)[k]`: at most one branch per tag,
      in tag order, each labelled with its tag's text (colon included) and
      holding non-empty stripped text; every tag whose text is not blank has its
      branch. */
  lemma DepthBranchesShape(g: string)
    ensures var r := DepthBranches(g); var pos := Positions(Candidates(g), HasContent);
      |r| == |pos| <= |Tags(g)|
      && (forall k :: 0 <= k < |r| ==>
            pos[k] < |Tags(g)| && r[k] == Candidate(g, pos[k])
            && r[k].sntLabel == TagText(g, Tags(g)[pos[k]]) && r[k].content != [] && Strip(r[k].content) == r[k].content)
      && (forall a, b :: 0 <= a < b < |pos| ==> pos[a] < pos[b])
      && (forall i :: 0 <= i < |Tags(g)| && Candidate(g, i).content != [] ==> i in pos)
  {
    var c := Candidates(g);
    var pos := Positions(c, HasContent);
    FilterAtPositions(c, HasContent);
    FilterMembers(c, HasContent);
    forall k | 0 <= k < |DepthBranches(g)|
      ensures Strip(DepthBranches(g)[k].content) == DepthBranches(g)[k].content
    {
      var i := pos[k];
      StripIdempotent(g[Tags(g)[i].end..SpanEnd(g, i)]);
    }
    forall i | 0 <= i < |Tags(g)| && Candidate(g, i).content != [] ensures i in pos {
      PositionsComplete(c, HasContent, i);
    }
  }

  /** The span rule: when the scan closes, the branch text is the balanced
      stretch, so it ends with `)` and has as many `(` as `)`; when it does
      not, the text runs to the next tag or to the end of the graph. */
  lemma SpanRule(g: string, i: nat)
    requires i < |Tags(g)|
    ensures var start := Tags(g)[i].end;
      match BalancedEnd(g, start)
      case Some(e) =>
        SpanEnd(g, i) == e && ClosesAt(g, start, e)
        && var content := Candidate(g, i).content;
           content != [] && content[|content| - 1] == ')' && Depth(content) == 0
      case None =>
        SpanEnd(g, i) == (if i + 1 < |Tags(g)| then Tags(g)[i + 1].start else |g|)
  {
    var start := Tags(g)[i].end;
    BalancedEndIsFirstClose(g, start);
    if BalancedEnd(g, start).Some? {
      var e := BalancedEnd(g, start).value;
      var span := g[start..e];
      assert span[|span| - 1] == ')';
      StripKeepsLast(span);
      StripKeepsCount(span, '(');
      StripKeepsCount(span, ')');
    }
  }

  lemma CrossingExampleLaterTags()
    ensures TagsFrom(":snt1 x :snt2 (a)", 5) == [Tag(8, 13)]
  {
    var g := ":snt1 x :snt2 (a)";
    assert |g| == 17 && g[13] == ' ';
    assert TagsFrom(g, 17) == [];
    assert TagsFrom(g, 16) == [];
    assert TagsFrom(g, 15) == [];
    assert TagsFrom(g, 14) == [];
    assert TagsFrom(g, 13) == [];
    assert DigitRunEnd(g, 13) == 13;
    assert DigitRunEnd(g, 12) == 13;
    assert TagAt(g, 8);
    assert TagsFrom(g, 8) == [Tag(8, 13)];
    assert !TagAt(g, 7) && !TagAt(g, 6) && !TagAt(g, 5);
    assert TagsFrom(g, 7) == [Tag(8, 13)];
    assert TagsFrom(g, 6) == [Tag(8, 13)];
  }

  lemma CrossingExampleTags()
    ensures Tags(":snt1 x :snt2 (a)") == [Tag(0, 5), Tag(8, 13)]
  {
    var g := ":snt1 x :snt2 (a)";
    CrossingExampleLaterTags();
    assert TagAt(g, 0) && g[5] == ' ';
    assert DigitRunEnd(g, 5) == 5;
    assert DigitRunEnd(g, 4) == 5;
    assert TagsFrom(g, 0) == [Tag(0, 5)] + TagsFrom(g, 5);
  }

  lemma CrossingExampleScan()
    ensures BalancedEnd(":snt1 x :snt2 (a)", 5) == Some(17)
  {
    var g := ":snt1 x :snt2 (a)";
    assert ScanClose(g, 14, 0, false) == Some(17);
    assert ScanClose(g, 10, 0, false) == Some(17);
  }

  lemma CrossingExampleStrip()
    ensures Strip(" x :snt2 (a)") == "x :snt2 (a)"
  {
    var s, t := " x :snt2 (a)", "x :snt2 (a)";
    assert s[1..] == t && IsSpace(s[0]) && !IsSpace(t[0]) && !IsSpace(t[|t| - 1]);
    assert TrimStart(t) == t;
    assert TrimStart(s) == t;
    assert TrimEnd(t) == t;
  }

  lemma CrossingExampleSpan()
    ensures |Tags(":snt1 x :snt2 (a)")| == 2 && SpanEnd(":snt1 x :snt2 (a)", 0) == 17
  {
    CrossingExampleTags();
    CrossingExampleScan();
  }

  /** The scan is not bounded by the next tag: in `:snt1 x :snt2 (a)` the
      first branch runs to the end of the graph, past the start of `:snt2`,
      so its text is `x :snt2 (a)` and overlaps the second branch. */
  lemma ScanRunsPastNextTag()
    ensures var g := ":snt1 x :snt2 (a)";
      |Tags(g)| == 2 && SpanEnd(g, 0) == |g| > Tags(g)[1].start
      && Candidate(g, 0).content == "x :snt2 (a)"
      && DepthBranches(g) != [] && DepthBranches(g)[0].content == "x :snt2 (a)"
  {
    var g := ":snt1 x :snt2 (a)";
    CrossingExampleTags();
    CrossingExampleSpan();
    assert Tags(g)[0].end == 5 && Tags(g)[1].start == 8;
    assert Candidate(g, 0).content == Strip(g[5..17]);
    CrossingExampleSlice();
    CrossingExampleStrip();
    FirstCandidateKept(g);
  }

  /** A non-empty first candidate is the first branch. */
  lemma FirstCandidateKept(g: string)
    requires |Tags(g)| >= 1 && Candidate(g, 0).content != []
    ensures DepthBranches(g) != [] && DepthBranches(g)[0] == Candidate(g, 0)
  {
    var c := Candidates(g);
    assert c[0] == Candidate(g, 0);
    FilterKeepsPassingHead(c, HasContent);
  }

  lemma CrossingExampleSlice()
    ensures ":snt1 x :snt2 (a)"[5..17] == " x :snt2 (a)"
  {
  }

  /** The inner loop of the extractor: the end of the balanced stretch after
      `startPos`, or `startPos` itself when the scan reaches the end of the
      graph without closing. */
  method ScanForClose(graph: string, startPos: nat) returns (endPos: nat)
    requires startPos <= |graph|
    ensures BalancedEnd(graph, startPos) == if endPos == startPos then None else Some(endPos)
  {
    var parenCount := 0;
    var inSubgraph := false;
    endPos := startPos;
    var j := startPos;
    while j < |graph|
      invariant startPos <= j <= |graph|
      invariant ScanClose(graph, j, parenCount, inSubgraph) == BalancedEnd(graph, startPos)
      invariant endPos == startPos
    {
      var c := graph[j];
      if c == '(' {
        parenCount := parenCount + 1;
        inSubgraph := true;
      } else if c == ')' {
        parenCount := parenCount - 1;
        if parenCount == 0 && inSubgraph {
          endPos := j + 1;
          break;
        }
      }
      j := j + 1;
    }
  }

  /** The extractor's loops: for each tag, scan for the balanced end, fall
      back to the next tag or the end of the graph, strip, and keep the text
      when it is not empty. */
  method ExtractSubsentencesDepth(graph: string) returns (subsentences: seq<Branch>)
    ensures subsentences == DepthBranches(graph)
  {
    var sntMatches := Tags(graph);
    subsentences := [];
    var i := 0;
    while i < |sntMatches|
      invariant 0 <= i <= |sntMatches|
      invariant subsentences == Filter(CandidatesUpTo(graph, i), HasContent)
    {
      var m := sntMatches[i];
      var sntLabel := TagText(graph, m);
      var startPos := m.end;
      var endPos := ScanForClose(graph, startPos);
      if endPos == startPos {
        if i + 1 < |sntMatches| {
          endPos := sntMatches[i + 1].start;
        } else {
          endPos := |graph|;
        }
      }
      assert endPos == SpanEnd(graph, i);
      var content := Strip(graph[startPos..endPos]);
      var branch := Branch(sntLabel, content);
      assert Candidate(graph, i) == branch;
      CandidatesSnoc(graph, i);
      FilterSnoc(CandidatesUpTo(graph, i), branch, HasContent);
      if content != [] {
        subsentences := subsentences + [branch];
      }
      i := i + 1;
    }
  }
}
