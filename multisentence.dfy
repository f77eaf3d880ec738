/** What both scripts use to recognise and cut a multi-sentence graph: the
    detector (a case-insensitive search for `(m`, optional whitespace, `/`,
    optional whitespace, `multi-sentence`) and the list of `:snt<digits>` role
    tags in text order, which every branch extractor starts from. */
module MultiSentence {
  import opened Text

  // ---------------------------------------------------------------------------
  // Detection

  /** One way the detector's pattern can match lower-cased text `t` at `i`:
      `(m` at `i`, whitespace up to the slash at `j`, whitespace up to `k`, and
      `multi-sentence` at `k`. */
  ghost predicate MarkerMatch(t: string, i: nat, j: nat, k: nat) {
    i + 2 <= j < k && k + 14 <= |t| && t[i] == '(' && t[i + 1] == 'm'
    && (forall x :: i + 2 <= x < j ==> IsSpace(t[x]))
    && t[j] == '/'
    && (forall x :: j < x < k ==> IsSpace(t[x]))
    && t[k..k + 14] == "multi-sentence"
  }

  /** The pattern matched at `i` with each whitespace run taken whole; the
      slash and the `m` of `multi` are not whitespace, so no other split can
      succeed. */
  predicate MarkerAt(t: string, i: nat) {
    i + 2 <= |t| && t[i] == '(' && t[i + 1] == 'm'
    && var j := SpaceRunEnd(t, i + 2);
    j < |t| && t[j] == '/' && StartsAt(t, SpaceRunEnd(t, j + 1), "multi-sentence")
  }

  /** The detector: the pattern occurs somewhere, ignoring ASCII case. */
  predicate IsMultiSentence(graph: string) {
    var t := Lower(graph);
    exists i :: 0 <= i < |t| && MarkerAt(t, i)
  }

  /** Taking the whitespace runs whole finds a match exactly when some split of
      them does. */
  lemma MarkerAtIffMatch(t: string, i: nat)
    ensures MarkerAt(t, i) <==> exists j, k :: MarkerMatch(t, i, j, k)
  {
    if MarkerAt(t, i) {
      MarkerAtGivesMatch(t, i);
    }
    if j: nat, k: nat :| MarkerMatch(t, i, j, k) {
      MatchGivesMarkerAt(t, i, j, k);
    }
  }

  lemma MarkerAtGivesMatch(t: string, i: nat)
    requires MarkerAt(t, i)
    ensures MarkerMatch(t, i, SpaceRunEnd(t, i + 2), SpaceRunEnd(t, SpaceRunEnd(t, i + 2) + 1))
  {
    var j := SpaceRunEnd(t, i + 2);
    var k := SpaceRunEnd(t, j + 1);
    assert t[k..k + 14] == "multi-sentence";
  }

  lemma MatchGivesMarkerAt(t: string, i: nat, j: nat, k: nat)
    requires MarkerMatch(t, i, j, k)
    ensures MarkerAt(t, i)
  {
    SpaceRunEndAt(t, i + 2, j);
    assert t[k..k + 14][0] == 'm';
    SpaceRunEndAt(t, j + 1, k);
    assert StartsAt(t, k, "multi-sentence");
  }

  /** The detector holds exactly when the pattern can match the lower-cased
      graph somewhere. */
  lemma DetectionIffPatternMatches(graph: string)
    ensures IsMultiSentence(graph) <==> exists i, j, k :: MarkerMatch(Lower(graph), i, j, k)
  {
    var t := Lower(graph);
    if IsMultiSentence(graph) {
      var i :| 0 <= i < |t| && MarkerAt(t, i);
      MarkerAtIffMatch(t, i);
    }
    if i: nat, j: nat, k: nat :| MarkerMatch(t, i, j, k) {
      MarkerAtIffMatch(t, i);
    }
  }

  /** The declared variable must be the letter m, in either case: a `(x /
      multi-sentence` node is not detected. */
  lemma DetectedVariableIsM(graph: string, i: nat, j: nat, k: nat)
    requires MarkerMatch(Lower(graph), i, j, k)
    ensures graph[i] == '(' && (graph[i + 1] == 'm' || graph[i + 1] == 'M')
  {
  }

  /** Case does not matter: a graph and its lower-cased form are detected alike. */
  lemma DetectionIgnoresCase(graph: string)
    ensures IsMultiSentence(graph) == IsMultiSentence(Lower(graph))
  {
    LowerIdempotent(graph);
  }

  // ---------------------------------------------------------------------------
  // The `:snt<digits>` tags

  /** `:snt` followed by at least one digit starts at `p`. */
  predicate TagAt(g: string, p: nat) {
    p + 4 < |g| && g[p] == ':' && g[p + 1] == 's' && g[p + 2] == 'n' && g[p + 3] == 't' && IsDigit(g[p + 4])
  }

  /** A match of the tag pattern: where it starts and where its digits end. */
  datatype Tag = Tag(start: nat, end: nat)

  predicate WellFormedTag(g: string, t: Tag) {
    TagAt(g, t.start) && t.end == DigitRunEnd(g, t.start + 4)
  }

  /** What the tag pattern matched, colon included. */
  function TagText(g: string, t: Tag): string
    requires WellFormedTag(g, t)
  {
    g[t.start..t.end]
  }

  /** The matches at or after `p`, left to right, each search resuming where
      the previous match ended. */
  function TagsFrom(g: string, p: nat): (r: seq<Tag>)
    requires p <= |g|
    ensures forall n :: 0 <= n < |r| ==> WellFormedTag(g, r[n]) && p <= r[n].start
    ensures forall n :: 0 <= n < |r| ==> r[n].start + 5 <= r[n].end <= |g|
    ensures forall m, n :: 0 <= m < n < |r| ==> r[m].end <= r[n].start
    decreases |g| - p
  {
    if p == |g| then []
    else if TagAt(g, p) then [Tag(p, DigitRunEnd(g, p + 4))] + TagsFrom(g, DigitRunEnd(g, p + 4))
    else TagsFrom(g, p + 1)
  }

  /** All tag matches in the graph, in text order. */
  function Tags(g: string): seq<Tag> {
    TagsFrom(g, 0)
  }

  /** Every occurrence of the tag pattern at or after `p` is found. */
  lemma {:induction false} TagsFromComplete(g: string, p: nat, q: nat)
    requires p <= q <= |g| && TagAt(g, q)
    ensures exists n :: 0 <= n < |TagsFrom(g, p)| && TagsFrom(g, p)[n].start == q
    decreases |g| - p
  {
    var r := TagsFrom(g, p);
    if TagAt(g, p) {
      var e := DigitRunEnd(g, p + 4);
      if q == p {
        assert r[0].start == q;
      } else {
        forall x | p < x < e ensures !TagAt(g, x) {
          NoTagInsideTag(g, p, x);
        }
        TagsFromComplete(g, e, q);
        var n :| 0 <= n < |TagsFrom(g, e)| && TagsFrom(g, e)[n].start == q;
        assert r[n + 1] == TagsFrom(g, e)[n];
      }
    } else {
      TagsFromComplete(g, p + 1, q);
    }
  }

  /** No match starts inside another: every character after the colon is a
      letter of `snt` or a digit. */
  lemma NoTagInsideTag(g: string, p: nat, x: nat)
    requires TagAt(g, p) && p < x < DigitRunEnd(g, p + 4)
    ensures !TagAt(g, x)
  {
    if x > p + 3 {
      assert IsDigit(g[x]);
    }
  }

  /** The tag list holds exactly the occurrences of the pattern: each entry is
      one, and each one is an entry. Entries never overlap and come in text
      order. */
  lemma TagsAreAllOccurrences(g: string)
    ensures forall n :: 0 <= n < |Tags(g)| ==> TagAt(g, Tags(g)[n].start)
    ensures forall q :: 0 <= q <= |g| && TagAt(g, q) ==> exists n :: 0 <= n < |Tags(g)| && Tags(g)[n].start == q
    ensures forall m, n :: 0 <= m < n < |Tags(g)| ==> Tags(g)[m].end <= Tags(g)[n].start
  {
    forall q | 0 <= q <= |g| && TagAt(g, q)
      ensures exists n :: 0 <= n < |Tags(g)| && Tags(g)[n].start == q
    {
      TagsFromComplete(g, 0, q);
      assert Tags(g) == TagsFrom(g, 0);
    }
  }

  /** A tag's text is `:snt` and its digits. */
  lemma TagTextShape(g: string, t: Tag)
    requires WellFormedTag(g, t)
    ensures var s := TagText(g, t);
      |s| >= 5 && s[..4] == ":snt" && forall x :: 4 <= x < |s| ==> IsDigit(s[x])
  {
  }
}
