/** The block parser shared by both scripts: the stripped file content is split
    on runs of blank lines, each block that is not all whitespace becomes one
    record, its `#` lines are its metadata and its other non-blank lines, joined
    by newlines, its graph. The id and sentence come from the metadata lines,
    the last matching line winning. */
module AmrParser {
  import opened Text
  import opened AmrRecord

  // ---------------------------------------------------------------------------
  // Splitting on the separator pattern: a newline, any whitespace, one or more
  // newlines.

  /** The last newline in `t[a..b]`, if there is one. */
  function LastNewline(t: string, a: nat, b: nat): (r: Option<nat>)
    requires a <= b <= |t|
    ensures r.Some? ==> a <= r.value < b && t[r.value] == '\n'
    ensures r.Some? ==> forall m :: r.value < m < b ==> t[m] != '\n'
    ensures r.None? ==> forall m :: a <= m < b ==> t[m] != '\n'
    decreases b - a
  {
    if a == b then None
    else if t[b - 1] == '\n' then Some(b - 1)
    else LastNewline(t, a, b - 1)
  }

  /** `t[p..e]` is one of the texts the separator pattern can match at `p`: a
      newline, then whitespace ending in a newline. */
  predicate SeparatorMatch(t: string, p: nat, e: nat) {
    p + 2 <= e <= |t| && t[p] == '\n' && t[e - 1] == '\n'
    && forall k :: p < k < e ==> IsSpace(t[k])
  }

  /** Where the separator match that starts at `p` ends, if one starts there:
      the greedy whitespace run is given back up to its last newline. */
  function SeparatorAt(t: string, p: nat): Option<nat>
    requires p <= |t|
  {
    if p < |t| && t[p] == '\n' then
      match LastNewline(t, p + 1, SpaceRunEnd(t, p + 1))
      case None => None
      case Some(k) => Some(k + 1)
    else None
  }

  /** SeparatorAt picks the longest text the pattern can match at `p`, and
      finds one whenever the pattern matches there at all. */
  lemma SeparatorAtIsLongestMatch(t: string, p: nat)
    requires p <= |t|
    ensures SeparatorAt(t, p).Some? ==> SeparatorMatch(t, p, SeparatorAt(t, p).value)
    ensures SeparatorAt(t, p).Some? ==> forall e: nat :: SeparatorMatch(t, p, e) ==> e <= SeparatorAt(t, p).value
    ensures SeparatorAt(t, p).None? ==> forall e: nat :: !SeparatorMatch(t, p, e)
  {
    if p < |t| && t[p] == '\n' {
      var q := SpaceRunEnd(t, p + 1);
      forall e: nat | SeparatorMatch(t, p, e)
        ensures e <= q && LastNewline(t, p + 1, q).Some? && e - 1 <= LastNewline(t, p + 1, q).value
      {
      }
    }
  }

  datatype Separator = Separator(start: nat, end: nat)

  /** The leftmost separator match at or after `p`. */
  function FirstSeparator(t: string, p: nat): (r: Option<Separator>)
    requires p <= |t|
    ensures r.Some? ==> p <= r.value.start < r.value.end <= |t|
    ensures r.Some? ==> SeparatorAt(t, r.value.start) == Some(r.value.end)
    ensures r.Some? ==> forall q :: p <= q < r.value.start ==> SeparatorAt(t, q).None?
    ensures r.None? ==> forall q :: p <= q <= |t| ==> SeparatorAt(t, q).None?
    decreases |t| - p
  {
    match SeparatorAt(t, p)
    case Some(e) => Some(Separator(p, e))
    case None => if p == |t| then None else FirstSeparator(t, p + 1)
  }

  /** Splitting on every separator match, left to right. */
  function SplitBlocks(t: string): (r: seq<string>)
    ensures |r| >= 1
    decreases |t|
  {
    match FirstSeparator(t, 0)
    case None => [t]
    case Some(sep) => [t[..sep.start]] + SplitBlocks(t[sep.end..])
  }

  /** The texts the separator matches, left to right: what `re.split` drops. */
  function SeparatorTexts(t: string): seq<string>
    decreases |t|
  {
    match FirstSeparator(t, 0)
    case None => []
    case Some(sep) => [t[sep.start..sep.end]] + SeparatorTexts(t[sep.end..])
  }

  /** The blocks with the separators between them, in order. */
  function Interleave(bs: seq<string>, seps: seq<string>): string
    requires |bs| == |seps| + 1
    decreases |seps|
  {
    if |seps| == 0 then bs[0] else bs[0] + seps[0] + Interleave(bs[1..], seps[1..])
  }

  /** A whole text the separator pattern matches. */
  predicate IsSeparatorText(s: string) {
    SeparatorMatch(s, 0, |s|)
  }

  /** A separator match, cut out of the text, is a match of the whole cut. */
  lemma SeparatorMatchSlice(t: string, p: nat, e: nat)
    requires SeparatorMatch(t, p, e)
    ensures IsSeparatorText(t[p..e])
  {
    var m := t[p..e];
    forall k | 0 < k < e - p ensures IsSpace(m[k]) {
      assert m[k] == t[p + k];
    }
  }

  /** The blocks, interleaved with the separator texts, rebuild the text, and
      every separator text is a match of the separator pattern. */
  lemma {:induction false} SplitBlocksRebuild(t: string)
    ensures |SeparatorTexts(t)| + 1 == |SplitBlocks(t)|
    ensures forall k :: 0 <= k < |SeparatorTexts(t)| ==> IsSeparatorText(SeparatorTexts(t)[k])
    ensures Interleave(SplitBlocks(t), SeparatorTexts(t)) == t
    decreases |t|
  {
    match FirstSeparator(t, 0)
    case None =>
      assert SplitBlocks(t) == [t] && SeparatorTexts(t) == [];
    case Some(sep) =>
      var rest := t[sep.end..];
      SplitBlocksRebuild(rest);
      assert SplitBlocks(t) == [t[..sep.start]] + SplitBlocks(rest);
      assert SeparatorTexts(t) == [t[sep.start..sep.end]] + SeparatorTexts(rest);
      assert IsSeparatorText(t[sep.start..sep.end]) by {
        SeparatorAtIsLongestMatch(t, sep.start);
        SeparatorMatchSlice(t, sep.start, sep.end);
      }
      RebuildCons(t[..sep.start], t[sep.start..sep.end], SplitBlocks(rest), SeparatorTexts(rest));
      SplitThree(t, sep.start, sep.end);
  }

  /** One more block and separator in front keep the rebuild facts. */
  lemma RebuildCons(b: string, sep: string, bs: seq<string>, seps: seq<string>)
    requires |bs| == |seps| + 1 && IsSeparatorText(sep)
    requires forall k :: 0 <= k < |seps| ==> IsSeparatorText(seps[k])
    ensures Interleave([b] + bs, [sep] + seps) == b + (sep + Interleave(bs, seps))
    ensures forall k :: 0 <= k < |[sep] + seps| ==> IsSeparatorText(([sep] + seps)[k])
  {
    assert ([b] + bs)[1..] == bs && ([sep] + seps)[1..] == seps;
  }

  /** Two newlines with nothing but whitespace between them. */
  ghost predicate HasBlankLine(b: string) {
    exists i: nat, e: nat :: SeparatorMatch(b, i, e)
  }

  /** A separator in a prefix of `t` is a separator of `t` at the same place. */
  lemma SeparatorInPrefix(t: string, n: nat, i: nat, j: nat)
    requires n <= |t| && SeparatorMatch(t[..n], i, j)
    ensures SeparatorAt(t, i).Some?
  {
    assert SeparatorMatch(t, i, j) by {
      forall k | i < k < j ensures IsSpace(t[k]) { assert t[..n][k] == t[k]; }
    }
    SeparatorAtIsLongestMatch(t, i);
  }

  /** No block holds a blank line: every one was a split point. */
  lemma {:induction false} BlocksHaveNoBlankLine(t: string)
    ensures forall b :: b in SplitBlocks(t) ==> !HasBlankLine(b)
    decreases |t|
  {
    match FirstSeparator(t, 0)
    case None =>
      assert SplitBlocks(t) == [t];
      if HasBlankLine(t) {
        var i: nat, e: nat :| SeparatorMatch(t, i, e);
        assert t[..|t|] == t;
        SeparatorInPrefix(t, |t|, i, e);
      }
    case Some(sep) =>
      var first := t[..sep.start];
      BlocksHaveNoBlankLine(t[sep.end..]);
      assert SplitBlocks(t) == [first] + SplitBlocks(t[sep.end..]);
      if HasBlankLine(first) {
        var i: nat, e: nat :| SeparatorMatch(first, i, e);
        SeparatorInPrefix(t, sep.start, i, e);
      }
  }

  // ---------------------------------------------------------------------------
  // One block

  /** A line whose stripped form starts with `#`. */
  predicate IsMetadataLine(line: string) {
    var s := Strip(line);
    s != [] && s[0] == '#'
  }

  /** Any other line that is not blank. */
  predicate IsGraphLine(line: string) {
    !IsMetadataLine(line) && Strip(line) != []
  }

  /** Value of a `marker` field on a metadata line: the stripped text between
      the first and the second occurrence of the marker. */
  function FieldValue(line: string, marker: string): string
    requires Contains(line, marker) && marker != []
  {
    Strip(SecondField(line, marker))
  }

  /** A line that sets the id. */
  predicate IsIdLine(line: string) {
    Contains(line, "::id")
  }

  /** A line that sets the sentence: the `elif` skips lines holding `::id`. */
  predicate IsSentenceLine(line: string) {
    !Contains(line, "::id") && Contains(line, "::snt")
  }

  /** The id after reading `meta` in order: every line holding `::id`
      overwrites what earlier lines gave. */
  function IdOf(meta: seq<string>): Option<string>
    decreases |meta|
  {
    if meta == [] then None
    else
      var line := meta[|meta| - 1];
      if IsIdLine(line) then Some(FieldValue(line, "::id")) else IdOf(meta[..|meta| - 1])
  }

  /** The sentence after reading `meta` in order: only lines holding `::snt`
      and not `::id` count, each overwriting the earlier ones. */
  function SentenceOf(meta: seq<string>): Option<string>
    decreases |meta|
  {
    if meta == [] then None
    else
      var line := meta[|meta| - 1];
      if IsSentenceLine(line) then Some(FieldValue(line, "::snt"))
      else SentenceOf(meta[..|meta| - 1])
  }

  /** The id is None exactly when no metadata line holds `::id`. */
  lemma {:induction false} IdAbsentIffNoIdLine(meta: seq<string>)
    ensures IdOf(meta).None? <==> forall k :: 0 <= k < |meta| ==> !IsIdLine(meta[k])
    decreases |meta|
  {
    if meta != [] {
      var init := meta[..|meta| - 1];
      IdAbsentIffNoIdLine(init);
      assert forall k :: 0 <= k < |init| ==> init[k] == meta[k];
    }
  }

  /** Otherwise it is the field of the LAST line holding `::id`: later lines
      overwrite earlier ones. */
  lemma {:induction false} IdIsFromLastIdLine(meta: seq<string>, k: nat)
    requires k < |meta| && IsIdLine(meta[k])
    requires forall m :: k < m < |meta| ==> !IsIdLine(meta[m])
    ensures IdOf(meta) == Some(FieldValue(meta[k], "::id"))
    decreases |meta|
  {
    if k < |meta| - 1 {
      var init := meta[..|meta| - 1];
      assert init[k] == meta[k];
      assert forall m :: k < m < |init| ==> init[m] == meta[m];
      IdIsFromLastIdLine(init, k);
    }
  }

  /** The sentence is None exactly when no metadata line holds `::snt` without
      also holding `::id`. */
  lemma {:induction false} SentenceAbsentIffNoSentenceLine(meta: seq<string>)
    ensures SentenceOf(meta).None? <==> forall k :: 0 <= k < |meta| ==> !IsSentenceLine(meta[k])
    decreases |meta|
  {
    if meta != [] {
      var init := meta[..|meta| - 1];
      SentenceAbsentIffNoSentenceLine(init);
      assert forall k :: 0 <= k < |init| ==> init[k] == meta[k];
    }
  }

  /** Otherwise it is the field of the LAST line holding `::snt` and not
      `::id`; a line holding `::id` never sets the sentence, wherever it is. */
  lemma {:induction false} SentenceIsFromLastSentenceLine(meta: seq<string>, k: nat)
    requires k < |meta| && IsSentenceLine(meta[k])
    requires forall m :: k < m < |meta| ==> !IsSentenceLine(meta[m])
    ensures SentenceOf(meta) == Some(FieldValue(meta[k], "::snt"))
    decreases |meta|
  {
    if k < |meta| - 1 {
      var init := meta[..|meta| - 1];
      assert init[k] == meta[k];
      assert forall m :: k < m < |init| ==> init[m] == meta[m];
      SentenceIsFromLastSentenceLine(init, k);
    }
  }

  /** The record one block gives. */
  function ParseBlock(block: string): Record {
    var lines := SplitOn(block, '\n');
    var meta := Filter(lines, IsMetadataLine);
    Record(IdOf(meta), SentenceOf(meta), meta, Join("\n", Filter(lines, IsGraphLine)))
  }

  function IsContentBlock(block: string): bool {
    Strip(block) != []
  }

  /** The records of a list of blocks, skipping the all-whitespace ones. */
  function Records(blocks: seq<string>): seq<Record>
    decreases |blocks|
  {
    if blocks == [] then []
    else
      var last := blocks[|blocks| - 1];
      Records(blocks[..|blocks| - 1]) + (if IsContentBlock(last) then [ParseBlock(last)] else [])
  }

  /** What the parser returns for the whole file content. */
  function ParseAmr(content: string): seq<Record> {
    Records(SplitBlocks(Strip(content)))
  }

  /** The records are exactly ParseBlock applied to the non-blank blocks, in
      order: no record for a whitespace-only block, one for each other block. */
  lemma {:induction false} RecordsAreParsedContentBlocks(blocks: seq<string>)
    ensures var kept := Filter(blocks, IsContentBlock);
      |Records(blocks)| == |kept|
      && forall i :: 0 <= i < |kept| ==> Records(blocks)[i] == ParseBlock(kept[i])
    decreases |blocks|
  {
    if blocks != [] {
      var init, last := blocks[..|blocks| - 1], blocks[|blocks| - 1];
      RecordsAreParsedContentBlocks(init);
      MapSnoc(Records(init), Filter(init, IsContentBlock), ParseBlock, last, IsContentBlock(last));
    }
  }

  /** Content that is all whitespace gives no record. */
  lemma BlankContentGivesNoRecords(content: string)
    requires AllSpace(content)
    ensures ParseAmr(content) == []
  {
    StripEmptyIffAllSpace(content);
    assert FirstSeparator("", 0).None?;
    assert SplitBlocks("") == [""];
    assert Records([""]) == Records([]) + [];
  }

  /** Each record's metadata is exactly the block's `#` lines in order, and its
      graph, split back into lines, is exactly the block's other non-blank lines
      in order (when there is at least one). */
  lemma ParseBlockShape(block: string)
    ensures var lines := SplitOn(block, '\n');
      ParseBlock(block).metadata == Filter(lines, IsMetadataLine)
      && (forall l :: l in ParseBlock(block).metadata <==> l in lines && IsMetadataLine(l))
      && (Filter(lines, IsGraphLine) != [] ==>
            SplitOn(ParseBlock(block).graph, '\n') == Filter(lines, IsGraphLine))
      && (Filter(lines, IsGraphLine) == [] <==> ParseBlock(block).graph == [])
  {
    var lines := SplitOn(block, '\n');
    var g := Filter(lines, IsGraphLine);
    FilterMembers(lines, IsMetadataLine);
    FilterMembers(lines, IsGraphLine);
    SplitOnJoin(block, '\n');
    if g != [] {
      JoinSplitOn(g, '\n');
      assert g[0] in g;
      StripEmptyIffAllSpace(g[0]);
      JoinStartsWithFirst(g);
    }
  }

  /** The metadata lines that flatten writes for a derived record read back as
      that record's id and sentence, provided neither text holds a marker. */
  lemma DerivedMetadataReparses(parent: Record, ordinal: nat, b: Branch)
    requires !Contains(DerivedId(parent, ordinal), "::id")
    requires !Contains(DerivedSentence(parent, b), "::id") && !Contains(DerivedSentence(parent, b), "::snt")
    ensures IdOf(Derive(parent, ordinal, b).metadata) == Some(Strip(" " + DerivedId(parent, ordinal)))
    ensures SentenceOf(Derive(parent, ordinal, b).metadata) == Some(Strip(" " + DerivedSentence(parent, b)))
  {
    var id := DerivedId(parent, ordinal);
    var snt := DerivedSentence(parent, b);
    var idLine := "# ::id " + id;
    var sntLine := "# ::snt " + snt;
    IdLineField(id);
    SentenceLineField(snt);
    assert Derive(parent, ordinal, b).metadata == [idLine, sntLine];
    TwoLineFields(idLine, sntLine);
  }

  /** The two metadata lines read back as exactly the derived record's id and
      sentence when, besides holding no marker, the parent's id does not start
      with whitespace and the parent's sentence, as printed, is not empty and
      does not end with whitespace. */
  lemma DerivedRecordReparses(parent: Record, ordinal: nat, b: Branch)
    requires !Contains(DerivedId(parent, ordinal), "::id")
    requires !Contains(DerivedSentence(parent, b), "::id") && !Contains(DerivedSentence(parent, b), "::snt")
    requires Render(parent.id) == [] || !IsSpace(Render(parent.id)[0])
    requires Render(parent.sentence) != [] && !IsSpace(Render(parent.sentence)[|Render(parent.sentence)| - 1])
    ensures IdOf(Derive(parent, ordinal, b).metadata) == Derive(parent, ordinal, b).id
    ensures SentenceOf(Derive(parent, ordinal, b).metadata) == Derive(parent, ordinal, b).sentence
  {
    DerivedMetadataReparses(parent, ordinal, b);
    var id := DerivedId(parent, ordinal);
    var digits := NatStr(ordinal);
    assert id[|id| - 1] == digits[|digits| - 1];
    if Render(parent.id) == [] {
      assert id[0] == '.';
    } else {
      assert id[0] == Render(parent.id)[0];
    }
    StripSpaceThenText(id);
    var snt := DerivedSentence(parent, b);
    var ps := Render(parent.sentence);
    assert snt[0] == '[';
    assert snt[|snt| - 1] == ps[|ps| - 1];
    StripSpaceThenText(snt);
  }

  /** With an empty parent sentence the written sentence ends in the space after
      the label, which reading it back strips: `[:snt1] ` returns as `[:snt1]`. */
  lemma EmptySentenceLosesSpace(parent: Record, ordinal: nat, b: Branch)
    requires !Contains(DerivedId(parent, ordinal), "::id")
    requires !Contains(DerivedSentence(parent, b), "::id") && !Contains(DerivedSentence(parent, b), "::snt")
    requires parent.sentence == Some("")
    ensures SentenceOf(Derive(parent, ordinal, b).metadata) != Derive(parent, ordinal, b).sentence
  {
    DerivedMetadataReparses(parent, ordinal, b);
    var snt := DerivedSentence(parent, b);
    assert IsSpace(snt[|snt| - 1]);
    StripShape(" " + snt);
  }

  /** A parent sentence holding `::id` makes the sentence line a second id line:
      reading the pair back takes the id from the sentence line and finds no
      sentence at all. */
  lemma IdMarkerInSentenceResetsId(parent: Record, ordinal: nat, b: Branch)
    requires Contains(DerivedSentence(parent, b), "::id")
    ensures IsIdLine("# ::snt " + DerivedSentence(parent, b))
    ensures IdOf(Derive(parent, ordinal, b).metadata)
         == Some(FieldValue("# ::snt " + DerivedSentence(parent, b), "::id"))
    ensures SentenceOf(Derive(parent, ordinal, b).metadata) == None
  {
    var idLine := "# ::id " + DerivedId(parent, ordinal);
    var sntLine := "# ::snt " + DerivedSentence(parent, b);
    PrefixKeepsMarker("# ::snt ", DerivedSentence(parent, b), "::id");
    assert StartsAt(idLine, 2, "::id");
    assert Derive(parent, ordinal, b).metadata == [idLine, sntLine];
    TwoIdLines(idLine, sntLine);
  }

  lemma TwoIdLines(first: string, second: string)
    requires IsIdLine(first) && IsIdLine(second)
    ensures IdOf([first, second]) == Some(FieldValue(second, "::id"))
    ensures SentenceOf([first, second]) == None
  {
    var m := [first, second];
    assert m[..1] == [first] && [first][..0] == [];
    assert !IsSentenceLine(second) && !IsSentenceLine(first);
    assert SentenceOf([first]) == SentenceOf([]);
  }

  lemma PrefixKeepsMarker(p: string, s: string, marker: string)
    requires Contains(s, marker)
    ensures Contains(p + s, marker)
  {
    var k :| 0 <= k <= |s| && StartsAt(s, k, marker);
    assert (p + s)[|p| + k..|p| + k + |marker|] == s[k..k + |marker|];
    assert StartsAt(p + s, |p| + k, marker);
  }

  lemma TwoLineFields(idLine: string, sntLine: string)
    requires IsIdLine(idLine) && IsSentenceLine(sntLine)
    ensures IdOf([idLine, sntLine]) == Some(FieldValue(idLine, "::id"))
    ensures SentenceOf([idLine, sntLine]) == Some(FieldValue(sntLine, "::snt"))
  {
    var m := [idLine, sntLine];
    assert m[..1] == [idLine] && m[1] == sntLine;
    assert IdOf(m) == IdOf([idLine]);
    assert [idLine][..0] == [];
    assert IdOf([idLine]) == Some(FieldValue(idLine, "::id"));
  }

  /** The id line flatten writes is an id line whose field is its text. */
  lemma IdLineField(text: string)
    requires !Contains(text, "::id")
    ensures IsIdLine("# ::id " + text)
    ensures FieldValue("# ::id " + text, "::id") == Strip(" " + text)
  {
    assert "# ::id " + text == "# " + "::id" + " " + text;
    MarkedLine("::id", text);
  }

  /** The sentence line flatten writes is a sentence line whose field is its
      text. */
  lemma SentenceLineField(text: string)
    requires !Contains(text, "::id") && !Contains(text, "::snt")
    ensures IsSentenceLine("# ::snt " + text)
    ensures FieldValue("# ::snt " + text, "::snt") == Strip(" " + text)
  {
    assert "# ::snt " + text == "# " + "::snt" + " " + text;
    MarkedLine("::snt", text);
    SentenceLineHasNoIdMarker(text);
  }

  /** A metadata line written as `# `, a marker, a space and a text without the
      marker yields that text, stripped, as the marker's field. */
  lemma MarkedLine(marker: string, text: string)
    requires marker == "::id" || marker == "::snt"
    requires !Contains(text, marker)
    ensures Contains("# " + marker + " " + text, marker)
    ensures FieldValue("# " + marker + " " + text, marker) == Strip(" " + text)
  {
    var line := "# " + marker + " " + text;
    var rest := " " + text;
    assert line == "# " + marker + rest;
    SpacePrefixKeepsNoMarker(text, marker);
    assert StartsAt(line, 2, marker) by { assert line[2..2 + |marker|] == marker; }
    CharMismatch(line, 0, marker, 0);
    CharMismatch(line, 1, marker, 0);
    assert Find(line, marker) == Some(2);
    assert line[2 + |marker|..] == rest;
    SecondFieldToEnd(line, marker);
  }

  /** A text cannot start at `k` when one of its characters differs from the
      character of `s` it would cover. */
  lemma CharMismatch(s: string, k: nat, pat: string, j: nat)
    requires j < |pat| && k + j < |s| && s[k + j] != pat[j]
    ensures !StartsAt(s, k, pat)
  {
    if k + |pat| <= |s| { assert s[k..k + |pat|][j] == s[k + j]; }
  }

  lemma SpacePrefixKeepsNoMarker(s: string, marker: string)
    requires marker == "::id" || marker == "::snt"
    requires !Contains(s, marker)
    ensures !Contains(" " + s, marker)
  {
    var t := " " + s;
    forall k | 0 <= k <= |t| ensures !StartsAt(t, k, marker) {
      if k == 0 {
        CharMismatch(t, 0, marker, 0);
      } else if k + |marker| <= |t| {
        assert t[k..k + |marker|] == s[k - 1..k - 1 + |marker|];
        assert !StartsAt(s, k - 1, marker);
      }
    }
  }

  /** The sentence line of a derived record holds no `::id` when its text does
      not. */
  lemma SentenceLineHasNoIdMarker(snt: string)
    requires !Contains(snt, "::id")
    ensures !Contains("# ::snt " + snt, "::id")
  {
    var t := "# ::snt " + snt;
    var marker := "::id";
    forall k | 0 <= k <= |t| ensures !StartsAt(t, k, marker) {
      if k < 8 {
        assert t[..8] == "# ::snt ";
        if k == 2 {
          CharMismatch(t, k, marker, 2);
        } else if k == 3 {
          CharMismatch(t, k, marker, 1);
        } else {
          CharMismatch(t, k, marker, 0);
        }
      } else if k + 4 <= |t| {
        assert t[k..k + 4] == snt[k - 8..k - 4];
        assert !StartsAt(snt, k - 8, marker);
      }
    }
  }

  // ---------------------------------------------------------------------------
  // The parser as the source writes it: loops that append and overwrite.

  /** The block body's first loop: each line goes to the metadata or the graph
      lines, or nowhere when it is blank. */
  method PartitionLines(lines: seq<string>) returns (metadataLines: seq<string>, graphLines: seq<string>)
    ensures metadataLines == Filter(lines, IsMetadataLine)
    ensures graphLines == Filter(lines, IsGraphLine)
  {
    metadataLines, graphLines := [], [];
    var i := 0;
    while i < |lines|
      invariant 0 <= i <= |lines|
      invariant metadataLines == Filter(lines[..i], IsMetadataLine)
      invariant graphLines == Filter(lines[..i], IsGraphLine)
    {
      var line := lines[i];
      TakeSnoc(lines, i);
      FilterSnoc(lines[..i], line, IsMetadataLine);
      FilterSnoc(lines[..i], line, IsGraphLine);
      if IsMetadataLine(line) {
        metadataLines := metadataLines + [line];
      } else if Strip(line) != [] {
        graphLines := graphLines + [line];
      }
      i := i + 1;
    }
    assert lines[..i] == lines;
  }

  /** The block body's second loop: each line holding `::id` overwrites the id;
      otherwise a line holding `::snt` overwrites the sentence. */
  method ReadFields(metadataLines: seq<string>) returns (amrId: Option<string>, sentence: Option<string>)
    ensures amrId == IdOf(metadataLines)
    ensures sentence == SentenceOf(metadataLines)
  {
    amrId, sentence := None, None;
    var k := 0;
    while k < |metadataLines|
      invariant 0 <= k <= |metadataLines|
      invariant amrId == IdOf(metadataLines[..k])
      invariant sentence == SentenceOf(metadataLines[..k])
    {
      var meta := metadataLines[k];
      FieldsStep(metadataLines, k);
      ghost var id', sentence' := IdOf(metadataLines[..k + 1]), SentenceOf(metadataLines[..k + 1]);
      if IsIdLine(meta) {
        amrId := Some(FieldValue(meta, "::id"));
      } else if Contains(meta, "::snt") {
        sentence := Some(FieldValue(meta, "::snt"));
      }
      assert amrId == id' && sentence == sentence';
      k := k + 1;
    }
    assert metadataLines[..k] == metadataLines;
  }

  /** One more metadata line sets the id or the sentence, or neither. */
  lemma FieldsStep(ms: seq<string>, k: nat)
    requires k < |ms|
    ensures IdOf(ms[..k + 1]) == if IsIdLine(ms[k]) then Some(FieldValue(ms[k], "::id")) else IdOf(ms[..k])
    ensures SentenceOf(ms[..k + 1])
         == if IsSentenceLine(ms[k]) then Some(FieldValue(ms[k], "::snt")) else SentenceOf(ms[..k])
  {
    var seen := ms[..k + 1];
    assert seen[..k] == ms[..k] && seen[k] == ms[k];
  }

  /** The body of the block loop, for a block that is not all whitespace. */
  method ParseOneBlock(block: string) returns (amr: Record)
    ensures amr == ParseBlock(block)
  {
    var metadataLines, graphLines := PartitionLines(SplitOn(block, '\n'));
    var amrId, sentence := ReadFields(metadataLines);
    amr := Record(amrId, sentence, metadataLines, Join("\n", graphLines));
  }

  /** One more block adds its record when it is not all whitespace. */
  lemma RecordsStep(blocks: seq<string>, b: nat)
    requires b < |blocks|
    ensures Records(blocks[..b + 1])
      == Records(blocks[..b]) + (if IsContentBlock(blocks[b]) then [ParseBlock(blocks[b])] else [])
  {
    assert blocks[..b + 1][..b] == blocks[..b];
  }

  /** `parse_amr_file`: split the stripped content into blocks and parse each
      block that is not blank. */
  method ParseAmrFile(content: string) returns (amrs: seq<Record>)
    ensures amrs == ParseAmr(content)
  {
    amrs := ParseBlocks(SplitBlocks(Strip(content)));
  }

  /** The loop of `parse_amr_file` over the blocks. */
  method ParseBlocks(blocks: seq<string>) returns (amrs: seq<Record>)
    ensures amrs == Records(blocks)
  {
    amrs := [];
    var b := 0;
    while b < |blocks|
      invariant 0 <= b <= |blocks|
      invariant amrs == Records(blocks[..b])
    {
      var block := blocks[b];
      RecordsStep(blocks, b);
      if Strip(block) != [] {
        var amr := ParseOneBlock(block);
        amrs := amrs + [amr];
      }
      b := b + 1;
    }
    assert blocks[..b] == blocks;
  }
}
