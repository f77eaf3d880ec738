/** The keyword filter of the filtering script: a graph is kept when, ignoring
    ASCII case, it has a `justice` concept (a slash, optional whitespace, then
    `justice` not followed by a word character) or a double-quoted string with
    `justice` in it. A blank graph is never kept. */
module JusticeFilter {
  import opened Text

  // ---------------------------------------------------------------------------
  // The concept pattern: `/`, whitespace, `justice`, a word boundary

  /** `justice` starts at `k` and is not followed by a word character. */
  predicate WordAt(t: string, k: nat) {
    StartsAt(t, k, "justice") && (k + 7 == |t| || !IsWordChar(t[k + 7]))
  }

  /** A match of the concept pattern at `i`, written as the split the
      pattern allows: the slash at `i`, whitespace up to `k`, the word at `k`. */
  ghost predicate ConceptMatch(t: string, i: nat, k: nat) {
    i < k <= |t| && t[i] == '/' && (forall x :: i < x < k ==> IsSpace(t[x])) && WordAt(t, k)
  }

  /** The concept pattern at `i` with the whitespace run taken whole; `j` is
      not whitespace, so this is the only split that can succeed. */
  predicate ConceptAt(t: string, i: nat) {
    i < |t| && t[i] == '/' && WordAt(t, SpaceRunEnd(t, i + 1))
  }

  predicate HasConcept(t: string) {
    exists i :: 0 <= i < |t| && ConceptAt(t, i)
  }

  lemma ConceptAtIffMatch(t: string, i: nat)
    ensures ConceptAt(t, i) <==> exists k :: ConceptMatch(t, i, k)
  {
    if ConceptAt(t, i) {
      assert ConceptMatch(t, i, SpaceRunEnd(t, i + 1));
    }
    if k: nat :| ConceptMatch(t, i, k) {
      assert t[k..k + 7][0] == 'j';
      SpaceRunEndAt(t, i + 1, k);
    }
  }

  // ---------------------------------------------------------------------------
  // The quoted pattern: a quote, no quote, `justice`, no quote, a quote

  /** The first double quote at or after `p`, or `|t|` when there is none. */
  function NextQuote(t: string, p: nat): (q: nat)
    requires p <= |t|
    ensures p <= q <= |t|
    ensures forall x :: p <= x < q ==> t[x] != '"'
    ensures q < |t| ==> t[q] == '"'
    decreases |t| - p
  {
    if p == |t| || t[p] == '"' then p else NextQuote(t, p + 1)
  }

  /** A match of the quoted pattern: quotes at `a` and `c`, `justice` at `b`,
      and no quote in between. */
  ghost predicate QuotedMatch(t: string, a: nat, b: nat, c: nat) {
    a < b && b + 7 <= c < |t| && t[a] == '"' && t[c] == '"'
    && (forall x :: a < x < b ==> t[x] != '"')
    && StartsAt(t, b, "justice")
    && (forall x :: b + 7 <= x < c ==> t[x] != '"')
  }

  /** The quoted pattern from the quote at `a` with `justice` at `b`: the
      closing quote can only be the first one after the word. */
  predicate QuotedAt(t: string, a: nat, b: nat) {
    a < b <= |t| && t[a] == '"' && (forall x :: a < x < b ==> t[x] != '"')
    && StartsAt(t, b, "justice") && NextQuote(t, b + 7) < |t|
  }

  predicate HasQuoted(t: string) {
    exists a, b :: 0 <= a < b <= |t| && QuotedAt(t, a, b)
  }

  lemma QuotedAtIffMatch(t: string, a: nat, b: nat)
    ensures QuotedAt(t, a, b) <==> exists c :: QuotedMatch(t, a, b, c)
  {
    if QuotedAt(t, a, b) {
      assert QuotedMatch(t, a, b, NextQuote(t, b + 7));
    }
  }

  // ---------------------------------------------------------------------------
  // The filter

  /** Whether the graph is kept: never when it is blank, otherwise when the
      lower-cased graph has the concept or the quoted pattern. The plain
      substring test that follows in the script only prints, so it does not
      take part. */
  predicate ContainsJustice(graph: string) {
    if Strip(graph) == [] then false
    else
      var t := Lower(graph);
      HasConcept(t) || HasQuoted(t)
  }

  /** The filter as the two patterns say: not blank, and one of them matches
      somewhere in the lower-cased graph. */
  lemma ContainsJusticeIffPattern(graph: string)
    ensures ContainsJustice(graph) <==>
      !AllSpace(graph)
      && ((exists i, k :: ConceptMatch(Lower(graph), i, k))
          || (exists a, b, c :: QuotedMatch(Lower(graph), a, b, c)))
  {
    var t := Lower(graph);
    StripEmptyIffAllSpace(graph);
    if HasConcept(t) {
      var i :| 0 <= i < |t| && ConceptAt(t, i);
      ConceptAtIffMatch(t, i);
    }
    if i: nat, k: nat :| ConceptMatch(t, i, k) {
      ConceptAtIffMatch(t, i);
    }
    if HasQuoted(t) {
      var a, b :| 0 <= a < b <= |t| && QuotedAt(t, a, b);
      QuotedAtIffMatch(t, a, b);
    }
    if a: nat, b: nat, c: nat :| QuotedMatch(t, a, b, c) {
      QuotedAtIffMatch(t, a, b);
    }
  }

  /** The blank-graph guard changes nothing: both patterns need a slash or a
      quote, which blank text does not have. */
  lemma BlankGuardIsRedundant(graph: string)
    ensures ContainsJustice(graph) == (HasConcept(Lower(graph)) || HasQuoted(Lower(graph)))
  {
    var t := Lower(graph);
    if Strip(graph) == [] {
      StripEmptyIffAllSpace(graph);
      forall i | 0 <= i < |t| ensures t[i] != '/' && t[i] != '"' {
        assert IsSpace(graph[i]);
      }
    }
  }

  /** A kept graph always has `justice` in it; the script's last, plain
      substring test can never be the one that decides. */
  lemma {:induction false} KeptGraphHasWord(graph: string)
    requires ContainsJustice(graph)
    ensures Contains(Lower(graph), "justice")
  {
    var t := Lower(graph);
    if HasConcept(t) {
      var i :| 0 <= i < |t| && ConceptAt(t, i);
      var k := SpaceRunEnd(t, i + 1);
      assert StartsAt(t, k, "justice");
    } else {
      var a, b :| 0 <= a < b <= |t| && QuotedAt(t, a, b);
      assert StartsAt(t, b, "justice");
    }
  }

  /** Lower-casing keeps whitespace whitespace and everything else not. */
  lemma LowerKeepsBlank(graph: string)
    ensures AllSpace(Lower(graph)) == AllSpace(graph)
  {
    forall i | 0 <= i < |graph| ensures IsSpace(graph[i]) == IsSpace(Lower(graph)[i]) {
    }
  }

  /** Case does not matter. */
  lemma FilterIgnoresCase(graph: string)
    ensures ContainsJustice(graph) == ContainsJustice(Lower(graph))
  {
    LowerIdempotent(graph);
    StripEmptyIffAllSpace(graph);
    StripEmptyIffAllSpace(Lower(graph));
    LowerKeepsBlank(graph);
  }

  /** `(c / justice)` is kept. */
  lemma ConceptExample()
    ensures ContainsJustice("(c / justice)")
  {
    var g := "(c / justice)";
    var t := Lower(g);
    assert t == g;
    assert g[4] == ' ';
    assert SpaceRunEnd(t, 4) == 5;
    assert ConceptAt(t, 3);
    assert !IsSpace(g[0]);
  }

  /** `(c / justice99)` is not kept: the word boundary rules out `justice99`. */
  lemma WordBoundaryExample()
    ensures !ContainsJustice("(c / justice99)")
  {
    var g := "(c / justice99)";
    var t := Lower(g);
    assert t == g;
    forall i | 0 <= i < |t| ensures !ConceptAt(t, i) {
      if i == 3 {
        assert SpaceRunEnd(t, 4) == 5;
        assert IsWordChar(t[12]);
      } else {
        assert t[i] != '/';
      }
    }
    forall a | 0 <= a < |t| ensures t[a] != '"' {
    }
  }

  /** Lower-casing the name string of the example below. */
  lemma LowerNameExample()
    ensures Lower("\"International Criminal Justice\"") == "\"international criminal justice\""
  {
  }

  /** A name string such as `"International Criminal Justice"` is kept. */
  lemma QuotedNameExample()
    ensures ContainsJustice("\"International Criminal Justice\"")
  {
    var g := "\"International Criminal Justice\"";
    var t := "\"international criminal justice\"";
    LowerNameExample();
    assert NextQuote(t, 31) == 31;
    assert QuotedAt(t, 0, 24);
    assert !IsSpace(g[0]);
  }
}
