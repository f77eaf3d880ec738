/** The values both scripts pass around: one AMR record (the dictionary with
    keys 'id', 'sentence', 'metadata', 'graph') and one branch of a
    multi-sentence graph, plus the record that both `flatten_amr` variants build
    for a branch. The two scripts are identical here. */
module AmrRecord {
  import opened Text

  /** `id` and `sentence` are None when the block had no such metadata field. */
  datatype Record = Record(id: Option<string>, sentence: Option<string>, metadata: seq<string>, graph: string)

  /** A label and its trimmed branch text, as a branch extractor returns them. */
  datatype Branch = Branch(sntLabel: string, content: string)

  /** The extractors keep a branch only when its stripped text is not empty. */
  predicate HasContent(b: Branch) {
    b.content != []
  }

  /** Id of a derived record: the parent's id as printed, a dot, the ordinal. */
  function DerivedId(parent: Record, ordinal: nat): string {
    Render(parent.id) + "." + NatStr(ordinal)
  }

  /** Sentence of a derived record: the branch label in brackets, a space, the
      parent's sentence as printed. */
  function DerivedSentence(parent: Record, b: Branch): string {
    "[" + b.sntLabel + "] " + Render(parent.sentence)
  }

  /** The record built for branch `b` at 1-based position `ordinal`. */
  function Derive(parent: Record, ordinal: nat, b: Branch): Record {
    var id := DerivedId(parent, ordinal);
    var sentence := DerivedSentence(parent, b);
    Record(Some(id), Some(sentence), ["# ::id " + id, "# ::snt " + sentence], b.content)
  }

  /** The records both `flatten_amr` variants build, one per branch, numbered
      from 1 in branch order. */
  function DeriveAll(parent: Record, bs: seq<Branch>): (r: seq<Record>)
    ensures |r| == |bs| && forall i :: 0 <= i < |bs| ==> r[i] == Derive(parent, i + 1, bs[i])
  {
    seq(|bs|, i requires 0 <= i < |bs| => Derive(parent, i + 1, bs[i]))
  }

  /** One more branch adds one more record, numbered after the others. */
  lemma DeriveAllSnoc(parent: Record, bs: seq<Branch>, b: Branch)
    ensures DeriveAll(parent, bs + [b]) == DeriveAll(parent, bs) + [Derive(parent, |bs| + 1, b)]
  {
    var r := DeriveAll(parent, bs + [b]);
    assert forall i :: 0 <= i < |bs| ==> (bs + [b])[i] == bs[i];
    SnocEq(DeriveAll(parent, bs), r, Derive(parent, |bs| + 1, b));
  }

  /** Cancelling a common prefix of two equal strings. */
  lemma CancelPrefix(p: string, a: string, b: string)
    requires p + a == p + b
    ensures a == b
  {
    assert a == (p + a)[|p|..];
    assert b == (p + b)[|p|..];
  }

  /** Records derived from one parent at different ordinals have different ids,
      whatever branches they come from. */
  lemma DerivedIdsDistinct(parent: Record, m: nat, n: nat, a: Branch, b: Branch)
    requires m != n
    ensures Derive(parent, m, a).id != Derive(parent, n, b).id
  {
    NatStrInjective(m, n);
    if DerivedId(parent, m) == DerivedId(parent, n) {
      CancelPrefix(Render(parent.id) + ".", NatStr(m), NatStr(n));
    }
  }

  function RecordId(r: Record): Option<string> {
    r.id
  }

  /** The records built for one parent's branches have pairwise different ids. */
  lemma DeriveAllIdsDistinct(parent: Record, bs: seq<Branch>)
    ensures var all := DeriveAll(parent, bs);
      forall i, j :: 0 <= i < j < |all| ==> RecordId(all[i]) != RecordId(all[j])
  {
    var all := DeriveAll(parent, bs);
    forall i, j | 0 <= i < j < |all| ensures RecordId(all[i]) != RecordId(all[j]) {
      DerivedIdsDistinct(parent, i + 1, j + 1, bs[i], bs[j]);
    }
  }

  /** A derived id is the rendered parent id, a dot, and the ordinal in decimal,
      which reads back as the ordinal. A parent without an id gives "None.<i>". */
  lemma DerivedIdShape(parent: Record, ordinal: nat, b: Branch)
    ensures var id := Derive(parent, ordinal, b).id.value;
      var p := Render(parent.id);
      |id| > |p| + 1 && id[..|p|] == p && id[|p|] == '.'
      && (forall i :: |p| < i < |id| ==> IsDigit(id[i]))
      && DecimalValue(id[|p| + 1..]) == ordinal
    ensures parent.id.None? ==> Derive(parent, ordinal, b).id.value[..4] == "None"
  {
    var p := Render(parent.id);
    var id := Derive(parent, ordinal, b).id.value;
    assert id == p + "." + NatStr(ordinal);
    assert id[|p| + 1..] == NatStr(ordinal);
    NatStrRoundTrip(ordinal);
  }

  /** The records built for a parent's branches, one per branch in branch
      order: the k-th has id `<parent id>.<k + 1>`, whose digits read back as
      k + 1, sentence `[<label>] <parent sentence>`, exactly the two metadata
      lines for these, and the branch text as its graph. */
  lemma DeriveAllShape(parent: Record, bs: seq<Branch>)
    ensures var out := DeriveAll(parent, bs);
      |out| == |bs|
      && forall k :: 0 <= k < |out| ==>
        var p := Render(parent.id); var id := out[k].id.value;
        out[k].id == Some(p + "." + NatStr(k + 1))
        && DecimalValue(id[|p| + 1..]) == k + 1
        && out[k].sentence == Some("[" + bs[k].sntLabel + "] " + Render(parent.sentence))
        && out[k].metadata == ["# ::id " + id, "# ::snt " + out[k].sentence.value]
        && out[k].graph == bs[k].content
  {
    var out := DeriveAll(parent, bs);
    forall k | 0 <= k < |out|
      ensures DecimalValue(out[k].id.value[|Render(parent.id)| + 1..]) == k + 1
    {
      DerivedIdShape(parent, k + 1, bs[k]);
    }
  }
}
