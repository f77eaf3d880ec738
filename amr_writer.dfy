/** The serialiser shared by both scripts, as the text it writes: records are
    separated by one blank line, each record is its metadata lines, each ended
    by a newline, followed by its graph, and nothing follows the last graph. */
module AmrWriter {
  import opened Text
  import opened AmrRecord

  /** The metadata lines, each followed by a newline. */
  function MetadataText(meta: seq<string>): string
    decreases |meta|
  {
    if meta == [] then "" else MetadataText(meta[..|meta| - 1]) + meta[|meta| - 1] + "\n"
  }

  function RecordText(r: Record): string {
    MetadataText(r.metadata) + r.graph
  }

  /** The text written for `amrs`, record after record, a blank line between
      two records. */
  function Serialise(amrs: seq<Record>): string
    decreases |amrs|
  {
    if amrs == [] then ""
    else
      var init := amrs[..|amrs| - 1];
      (if init == [] then "" else Serialise(init) + "\n\n") + RecordText(amrs[|amrs| - 1])
  }

  function RecordTexts(amrs: seq<Record>): (r: seq<string>)
    ensures |r| == |amrs| && forall i :: 0 <= i < |amrs| ==> r[i] == RecordText(amrs[i])
  {
    seq(|amrs|, i requires 0 <= i < |amrs| => RecordText(amrs[i]))
  }

  /** Appending one more element to a join adds the separator and the element. */
  lemma {:induction false} JoinSnoc(sep: string, xs: seq<string>, x: string)
    requires xs != []
    ensures Join(sep, xs + [x]) == Join(sep, xs) + sep + x
    decreases |xs|
  {
    if |xs| == 1 {
      assert xs + [x] == [xs[0], x];
      assert [xs[0], x][1..] == [x];
    } else {
      JoinSnoc(sep, xs[1..], x);
      assert (xs + [x])[1..] == xs[1..] + [x];
    }
  }

  /** The written text is the record texts joined by a blank line; an empty
      list writes nothing. */
  lemma {:induction false} SerialiseIsJoin(amrs: seq<Record>)
    ensures Serialise(amrs) == Join("\n\n", RecordTexts(amrs))
    decreases |amrs|
  {
    if |amrs| > 1 {
      var init := amrs[..|amrs| - 1];
      var x := RecordText(amrs[|amrs| - 1]);
      assert Serialise(amrs) == Serialise(init) + "\n\n" + x;
      SerialiseIsJoin(init);
      SnocEq(RecordTexts(init), RecordTexts(amrs), x);
      JoinSnoc("\n\n", RecordTexts(init), x);
    }
  }

  /** The metadata text is the lines joined by newlines with one more newline
      at the end, so every metadata line ends with a newline. */
  lemma {:induction false} MetadataTextIsTerminatedJoin(meta: seq<string>)
    ensures meta == [] ==> MetadataText(meta) == ""
    ensures meta != [] ==> MetadataText(meta) == Join("\n", meta) + "\n"
    decreases |meta|
  {
    if |meta| > 1 {
      var init := meta[..|meta| - 1];
      MetadataTextIsTerminatedJoin(init);
      assert meta == init + [meta[|meta| - 1]];
      JoinSnoc("\n", init, meta[|meta| - 1]);
    }
  }

  /** The text ends with the last record's graph: no newline is added after it. */
  lemma SerialiseEndsWithLastGraph(amrs: seq<Record>)
    requires amrs != []
    ensures var s := Serialise(amrs); var g := amrs[|amrs| - 1].graph;
      |s| >= |g| && s[|s| - |g|..] == g
  {
  }

  /** One more metadata line adds that line and a newline. */
  lemma MetadataTextStep(meta: seq<string>, j: nat)
    requires j < |meta|
    ensures MetadataText(meta[..j + 1]) == MetadataText(meta[..j]) + meta[j] + "\n"
  {
    assert meta[..j + 1][..j] == meta[..j];
  }

  /** One more record adds a blank line, unless it is the first, and its text. */
  lemma SerialiseStep(amrs: seq<Record>, i: nat)
    requires i < |amrs|
    ensures Serialise(amrs[..i + 1]) == (if i == 0 then "" else Serialise(amrs[..i]) + "\n\n") + RecordText(amrs[i])
  {
    assert amrs[..i + 1][..i] == amrs[..i];
  }

  /** The writing loops: a blank line before every record but the first, each
      metadata line followed by a newline, then the graph. */
  method WriteAmrFile(amrs: seq<Record>) returns (written: string)
    ensures written == Serialise(amrs)
  {
    written := "";
    var i := 0;
    while i < |amrs|
      invariant 0 <= i <= |amrs|
      invariant written == Serialise(amrs[..i])
    {
      var amr := amrs[i];
      ghost var before := if i > 0 then written + "\n\n" else "";
      if i > 0 {
        written := written + "\n\n";
      }
      var j := 0;
      while j < |amr.metadata|
        invariant 0 <= j <= |amr.metadata|
        invariant written == before + MetadataText(amr.metadata[..j])
      {
        MetadataTextStep(amr.metadata, j);
        AppendAssoc(before, MetadataText(amr.metadata[..j]), amr.metadata[j] + "\n");
        AppendAssoc(MetadataText(amr.metadata[..j]), amr.metadata[j], "\n");
        written := written + (amr.metadata[j] + "\n");
        j := j + 1;
      }
      assert amr.metadata[..j] == amr.metadata;
      AppendAssoc(before, MetadataText(amr.metadata), amr.graph);
      written := written + amr.graph;
      SerialiseStep(amrs, i);
      i := i + 1;
    }
    assert amrs[..i] == amrs;
  }
}
