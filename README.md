# AMR multi-sentence splitter, modelled in Dafny

Two Python scripts prepare an AMR annotation file, that is, blocks of `#`
metadata lines followed by a parenthesised graph. Both read the file into
records, find the multi-sentence graphs, cut each one into its `:snt<digits>`
branches, and write the result back in the same format.

- `remove_multisentence.py` replaces each multi-sentence record by one derived record per branch.
- `remove_multisentence_filter.py` also keeps only the records and branches whose graph mentions `justice`, either as a concept or inside a quoted name.

The model has one Dafny module per piece of the pipeline:

- `Text` (`text.dfy`): ASCII character classes and the Python string operations the scripts use:
  - `strip`, as `Strip`;
  - `split` and `join` on one character, as `SplitOn` and `Join`;
  - substring search, as `Find`;
  - `str.count`, as `Count`;
  - the list a loop builds by appending the elements that pass a test, as `Filter`;
  - decimal printing, as `NatStr`;
  - the way an f-string prints `None`, as `Render`.
- `AmrRecord` (`amr_record.dfy`) has two parts:
  - the record (id, sentence, metadata lines, graph) and the branch (label, text);
  - the derived record both `flatten_amr` variants build for a branch.
- `AmrParser` (`amr_parser.dfy`): `parse_amr_file`, the same in both scripts. It covers:
  - the blank-line split `\n\s*\n+`, written out by hand;
  - the sorting of lines into metadata and graph;
  - the `::id` / `::snt` fields.
- `AmrWriter` (`amr_writer.dfy`): `write_amr_file`, the same in both scripts. It is modelled as the text it writes.
- `MultiSentence` (`multisentence.dfy`) has two parts:
  - `is_multisentence`, the same in both scripts;
  - the list of `:snt\d+` matches, which every branch extractor starts from.
- `DepthSegmenter` (`depth_segmenter.dfy`): `extract_subsentences_simple` of the filtering script, the parenthesis-depth scan.
- `SliceSegmenter` (`slice_segmenter.dfy`): `extract_subsentences_simple` of the plain script, which takes the text between one tag and the next.
- `LineSegmenter` (`line_segmenter.dfy`): `extract_subsentences` of the plain script, the line-based extractor that nothing calls.
- `JusticeFilter` (`justice.dfy`): `contains_justice`.
- `FilterFlatten` (`filter_flatten.dfy`): `flatten_amr` of the filtering script.
- `PlainFlatten` (`plain_flatten.dfy`): `flatten_amr` of the plain script.

Each function of the scripts that loops is a Dafny `method` with a `while` loop. The method is proved equal to a specification function, and the properties are proved about that function as lemmas.

The regular expressions are written out as predicates. Python's preference among matches is part of each model: the greedy choice, giving characters back, and the leftmost match. Each such predicate comes with a lemma that it agrees with a plain "some split of the text matches" reading of the pattern.

Strings are sequences of characters, with ASCII meanings for `\s`, `\d`, `\w`, `lower()` and `strip()`. A missing id or sentence is `None`, and a derived record prints it as `None`, as `f"{None}.1"` does.

Points where the code behaves in a way that is easy to misread:

- **Metadata fields.** The id (and the sentence) come from the last metadata line that holds the marker, not the first. The value is the stripped text between the first and second occurrences of the marker. A line holding `::id` never sets the sentence, because of the `elif`.
- **Labels.** The `_simple` extractors keep the colon of the tag in the label (`:snt1`), so a derived sentence reads `[:snt1] …`. Only the unused line-based extractor gives `snt1`.
- **The depth scan.** In the filtering script the scan is not stopped by the next tag. A branch without parentheses before the next tag runs into the following branches; `DepthSegmenter.ScanRunsPastNextTag` shows one case.
- **Which extractor is used.** The plain script's `flatten_amr` uses the slice extractor, not the depth scan.
- **Detection.** The detector needs the variable to be the letter `m` itself, upper or lower case. Another variable name is not detected.
- **Ordinals.** In the filtering script the ordinals count every extracted branch, so the kept records can have gaps (`.2` with no `.1`).

## Model

| member | source | states |
|---|---|---|
| `Text.LowerIdempotent` | remove_multisentence_filter.py:55 | After `lower()` no character is an upper-case letter, so lower-casing again changes nothing. |
| `Text.SpaceRunEnd` | remove_multisentence_filter.py:58 | The greedy `\s*` from a position: everything before the result is whitespace, and the character at the result is not. |
| `Text.SpaceRunEndAt` | remove_multisentence_filter.py:58 | A whitespace run followed by a non-space character ends exactly there. |
| `Text.SpaceRunCovers` | remove_multisentence.py:76 | The greedy whitespace run reaches at least as far as any stretch of whitespace from the same start. |
| `Text.DigitRunEnd` | remove_multisentence_filter.py:89 | The greedy `\d+` run: all digits before the result, a non-digit (or the end) at it. |
| `Text.DigitRunEndAt` | remove_multisentence.py:76 | A digit run followed by another character ends exactly there. |
| `Text.TrimStart` | remove_multisentence_filter.py:122 | What remains is a suffix, what was removed is all whitespace, and what remains does not start with whitespace. |
| `Text.TrimEnd` | remove_multisentence_filter.py:122 | What remains is a prefix, what was removed is all whitespace, and what remains does not end with whitespace. |
| `Text.Strip` | remove_multisentence_filter.py:122 | `strip()`: whitespace removed from both ends. Its meaning is stated by `Text.StripShape`, `Text.StripEmptyIffAllSpace` and `Text.StripIdempotent`. |
| `Text.StripShape` | remove_multisentence_filter.py:122 | `strip()` keeps one contiguous piece of the text. Only whitespace is cut on either side, and the piece neither starts nor ends with whitespace. |
| `Text.StripEmptyIffAllSpace` | remove_multisentence_filter.py:16 | `strip()` gives the empty string exactly when the text is all whitespace. |
| `Text.StripIdempotent` | remove_multisentence_filter.py:122 | Stripping twice is stripping once. |
| `Text.StripKeepsLast` | remove_multisentence_filter.py:122 | Text that ends in a non-space character keeps that character last when stripped. |
| `Text.StripKeepsCount` | remove_multisentence_filter.py:122 | Stripping never removes a non-space character, so the number of `(` or `)` is unchanged. |
| `Text.FindFrom` | remove_multisentence_filter.py:32-35 | The first occurrence of a pattern at or after a position, or none when there is none. |
| `Text.Find` | remove_multisentence_filter.py:32-35 | Found exactly when the pattern occurs (`in`), and then at its first occurrence. |
| `Text.SecondFieldSpec` | remove_multisentence_filter.py:33 | `split(sep)[1]` is the text starting right after the first separator, it holds no separator, and it runs up to the second separator or to the end of the text. |
| `Text.SplitOn` | remove_multisentence_filter.py:22 | `split(c)` on one character: the pieces between occurrences of `c`. `Text.SplitOnJoin` and `Text.JoinSplitOn` state its meaning. |
| `Text.SplitOnJoin` | remove_multisentence_filter.py:22 | Joining the pieces of `split(c)` with `c` gives the text back, and no piece holds `c`. |
| `Text.Join` | remove_multisentence_filter.py:37 | `sep.join(xs)`: the elements with `sep` between consecutive ones. `Text.SplitOnJoin`, `Text.JoinSplitOn` and `Text.JoinStartsWithFirst` state its meaning. |
| `Text.JoinSplitOn` | remove_multisentence_filter.py:37 | Splitting a join of `c`-free pieces gives the pieces back. |
| `Text.JoinStartsWithFirst` | remove_multisentence_filter.py:37 | A newline join of a non-empty list starts with its first element. |
| `Text.FilterMembers` | remove_multisentence_filter.py:22-26 | An append-if loop keeps exactly the elements that pass, and no more elements than it was given. |
| `Text.FilterByPositions` | remove_multisentence_filter.py:151-172 | The k-th kept element is the original at an increasing position that passes, and every passing position is among them. |
| `Text.NatStrRoundTrip` | remove_multisentence_filter.py:164 | The decimal text of an ordinal reads back as the ordinal. |
| `Text.NatStrInjective` | remove_multisentence_filter.py:164 | Different ordinals print differently. |
| `AmrRecord.Derive` | remove_multisentence_filter.py:163-171 | The record built for one branch: id `<parent id>.<ordinal>`, sentence `[<label>] <parent sentence>`, the two metadata lines and the branch text as graph. `AmrRecord.DerivedIdShape` and `AmrRecord.DeriveAllShape` state its meaning. |
| `AmrRecord.DeriveAllSnoc` | remove_multisentence.py:142-152 | One more branch appends one more record, numbered after the others. |
| `AmrRecord.DerivedIdsDistinct` | remove_multisentence_filter.py:164 | Records derived from one parent at different ordinals have different ids. |
| `AmrRecord.DeriveAllIdsDistinct` | remove_multisentence.py:142-152 | The records built for one parent's branches have pairwise different ids. |
| `AmrRecord.DerivedIdShape` | remove_multisentence_filter.py:164 | A derived id is the printed parent id, a dot, and digits that read back as the ordinal. A parent without an id gives `None.<i>`. |
| `AmrRecord.DeriveAllShape` | remove_multisentence.py:142-152 | The k-th record has id `<parent>.<k+1>`, sentence `[<label>] <parent sentence>`, exactly the two metadata lines, and the branch text as graph. |
| `AmrParser.LastNewline` | remove_multisentence_filter.py:12 | The last newline in a range, if any: a newline there and none after it in the range. |
| `AmrParser.SeparatorAtIsLongestMatch` | remove_multisentence_filter.py:12 | At a position, `\n\s*\n+` matches exactly when the greedy choice does, and the greedy choice is the longest match. |
| `AmrParser.FirstSeparator` | remove_multisentence_filter.py:12 | The split point is the leftmost position where a separator matches. |
| `AmrParser.SplitBlocks` | remove_multisentence_filter.py:12 | `re.split` always gives at least one block. `AmrParser.SplitBlocksRebuild` states what the blocks are. |
| `AmrParser.SplitBlocksRebuild` | remove_multisentence_filter.py:12 | The blocks, interleaved with the matched separators, rebuild the content. There is one separator fewer than blocks, and each is a whole match of `\n\s*\n+`. |
| `AmrParser.BlocksHaveNoBlankLine` | remove_multisentence_filter.py:12 | No block holds two newlines with only whitespace between them: every blank-line run was a split point. |
| `AmrParser.IdAbsentIffNoIdLine` | remove_multisentence_filter.py:28-33 | The id is None exactly when no metadata line holds `::id`. |
| `AmrParser.IdIsFromLastIdLine` | remove_multisentence_filter.py:31-33 | Otherwise the id is the field of the last line holding `::id`, that is, the stripped text between its first and second markers. |
| `AmrParser.SentenceAbsentIffNoSentenceLine` | remove_multisentence_filter.py:29-35 | The sentence is None exactly when no metadata line holds `::snt` without also holding `::id`. |
| `AmrParser.SentenceIsFromLastSentenceLine` | remove_multisentence_filter.py:31-35 | Otherwise the sentence is the field of the last such line. A line holding `::id` never sets it. |
| `AmrParser.ParseAmr` | remove_multisentence_filter.py:7-46 | The records the parser returns. `AmrParser.RecordsAreParsedContentBlocks` and `AmrParser.BlankContentGivesNoRecords` state its meaning. |
| `AmrParser.RecordsAreParsedContentBlocks` | remove_multisentence_filter.py:15-44 | There is one record per block that is not all whitespace, in order, each the parse of its block. Blank blocks give nothing. |
| `AmrParser.BlankContentGivesNoRecords` | remove_multisentence_filter.py:12-17 | Content that is all whitespace gives no record. |
| `AmrParser.ParseBlock` | remove_multisentence_filter.py:19-44 | The record one block gives. `AmrParser.ParseBlockShape`, `AmrParser.IdIsFromLastIdLine` and `AmrParser.SentenceIsFromLastSentenceLine` state its meaning. |
| `AmrParser.ParseBlockShape` | remove_multisentence_filter.py:19-37 | The metadata is exactly the block's `#` lines in order. The graph, split back into lines, is exactly the other non-blank lines in order, and it is empty exactly when there are none. |
| `AmrParser.DerivedMetadataReparses` | remove_multisentence.py:146-149 | When neither text holds a marker, the two metadata lines written for a derived record parse back to its id and sentence with one leading space added and the result stripped. |
| `AmrParser.DerivedRecordReparses` | remove_multisentence.py:146-149 | They parse back to exactly the record's id and sentence when, in addition, the parent id does not start with whitespace and the printed parent sentence is not empty and does not end with whitespace. |
| `AmrParser.EmptySentenceLosesSpace` | remove_multisentence.py:146-149 | An empty parent sentence does not survive the round trip: `[:snt1] ` is read back as `[:snt1]`. |
| `AmrParser.IdMarkerInSentenceResetsId` | remove_multisentence.py:146-149 | A parent sentence holding `::id` turns the sentence line into a second id line: the id read back comes from it, and no sentence is read back. |
| `AmrParser.PartitionLines` | remove_multisentence_filter.py:19-26 | The first loop gives the `#` lines and the non-blank other lines, each in order. The plain script has the same loop at remove_multisentence.py:21-28. |
| `AmrParser.ReadFields` | remove_multisentence_filter.py:28-35 | The second loop gives the last `::id` field and the last `::snt` field of a line without `::id`. The plain script has the same loop at remove_multisentence.py:31-38. |
| `AmrParser.ParseOneBlock` | remove_multisentence_filter.py:19-44 | The loop body gives the block's record. |
| `AmrParser.ParseAmrFile` | remove_multisentence_filter.py:7-12 | The parser returns the records of the non-blank blocks of the stripped content, as the block loop produces them. The plain script has the same code at remove_multisentence.py:7-49. |
| `AmrParser.ParseBlocks` | remove_multisentence_filter.py:14-46 | The block loop appends exactly one record per non-blank block, in block order, and skips the blank ones. |
| `AmrWriter.Serialise` | remove_multisentence_filter.py:176-188 | The text the writer produces. `AmrWriter.SerialiseIsJoin`, `AmrWriter.MetadataTextIsTerminatedJoin` and `AmrWriter.SerialiseEndsWithLastGraph` state its meaning. |
| `AmrWriter.SerialiseIsJoin` | remove_multisentence_filter.py:181-188 | The written text is the record texts joined by a blank line (`\n\n`). No records give the empty text. |
| `AmrWriter.MetadataTextIsTerminatedJoin` | remove_multisentence_filter.py:185-186 | Metadata lines are written joined by newlines, plus one final newline. No lines give nothing. |
| `AmrWriter.SerialiseEndsWithLastGraph` | remove_multisentence_filter.py:188 | Nothing is written after the last record's graph. |
| `AmrWriter.WriteAmrFile` | remove_multisentence_filter.py:176-188 | The writing loops produce exactly that text. The plain script has the same code at remove_multisentence.py:156-170. |
| `MultiSentence.IsMultiSentence` | remove_multisentence_filter.py:77-81 | The detector. `MultiSentence.DetectionIffPatternMatches` and `MultiSentence.DetectedVariableIsM` state its meaning. |
| `MultiSentence.MarkerAtIffMatch` | remove_multisentence_filter.py:81 | Taking each whitespace run of `\(m\s*/\s*multi-sentence` whole matches exactly when some split of the runs does. |
| `MultiSentence.DetectionIffPatternMatches` | remove_multisentence_filter.py:81 | The detector holds exactly when the pattern matches somewhere in the lower-cased graph. The plain script has it at remove_multisentence.py:55. |
| `MultiSentence.DetectedVariableIsM` | remove_multisentence_filter.py:81 | A detected node's variable is the letter `m` or `M` itself. |
| `MultiSentence.DetectionIgnoresCase` | remove_multisentence_filter.py:81 | A graph and its lower-cased form are detected alike. |
| `MultiSentence.TagsFrom` | remove_multisentence_filter.py:89-90 | The matches of `:snt\d+` are well-formed, at least five characters long, and in text order without overlapping. |
| `MultiSentence.TagsAreAllOccurrences` | remove_multisentence_filter.py:89-90 | The tag list holds exactly the occurrences of the pattern, in text order and without overlaps. |
| `MultiSentence.NoTagInsideTag` | remove_multisentence_filter.py:89-90 | No occurrence starts inside another. |
| `MultiSentence.TagTextShape` | remove_multisentence_filter.py:93 | A label is `:snt` followed by one or more digits, colon included. |
| `DepthSegmenter.ScanClose` | remove_multisentence_filter.py:101-113 | The scan's result, if any, is a position after a `)` within the graph. |
| `DepthSegmenter.ScanCloseFrom` | remove_multisentence_filter.py:101-113 | From any point of the scan, it finds the first position where a `)` brings the depth to 0 after a `(` was seen, and finds none when there is none. |
| `DepthSegmenter.BalancedEndIsFirstClose` | remove_multisentence_filter.py:97-113 | From a tag's end, the scan stops right after the first balanced closing parenthesis, or reports none when there is none. |
| `DepthSegmenter.SpanEnd` | remove_multisentence_filter.py:115-120 | The span ends within the graph, after the tag. |
| `DepthSegmenter.SpanRule` | remove_multisentence_filter.py:97-122 | Either the span ends with `)` and its stripped text has equal counts of `(` and `)`, or no balanced close exists and the span ends at the next tag's start or the graph's end. |
| `DepthSegmenter.DepthBranches` | remove_multisentence_filter.py:83-127 | The branches of the depth scan. `DepthSegmenter.DepthBranchesShape` and `DepthSegmenter.SpanRule` state its meaning. |
| `DepthSegmenter.DepthBranchesShape` | remove_multisentence_filter.py:92-125 | At most one branch per tag, in tag order. The k-th branch is exactly the candidate built for its tag: the tag's text as label and the stripped span as text, which is not empty. Every tag with a non-blank span has its branch. |
| `DepthSegmenter.ScanRunsPastNextTag` | remove_multisentence_filter.py:101-113 | For `:snt1 x :snt2 (a)` the first span runs past the second tag, so the first tag's candidate, and with it the first branch `DepthBranches` returns, holds `x :snt2 (a)`. |
| `DepthSegmenter.ScanForClose` | remove_multisentence_filter.py:97-113 | The inner loop with its `break` computes the scan's result. Staying at the tag end means none was found. |
| `DepthSegmenter.ExtractSubsentencesDepth` | remove_multisentence_filter.py:83-127 | The extractor returns exactly `DepthSegmenter.DepthBranches`. |
| `JusticeFilter.ContainsJustice` | remove_multisentence_filter.py:48-75 | The keyword filter. `JusticeFilter.ContainsJusticeIffPattern` and `JusticeFilter.KeptGraphHasWord` state its meaning. |
| `JusticeFilter.ConceptAtIffMatch` | remove_multisentence_filter.py:58 | Taking the whitespace run of `/\s*justice\b` whole matches exactly when some split does. |
| `JusticeFilter.NextQuote` | remove_multisentence_filter.py:64 | The first `"` at or after a position: none before it, a quote at it unless at the end. |
| `JusticeFilter.QuotedAtIffMatch` | remove_multisentence_filter.py:64 | `"[^"]*justice[^"]*"` matches from a quote with `justice` at a position exactly when the first quote after the word closes it. |
| `JusticeFilter.ContainsJusticeIffPattern` | remove_multisentence_filter.py:52-75 | The filter holds exactly when the graph is not blank and, lower-cased, one of the two patterns matches somewhere. |
| `JusticeFilter.BlankGuardIsRedundant` | remove_multisentence_filter.py:52-53 | The blank-graph guard changes nothing: both patterns need a `/` or a `"`. |
| `JusticeFilter.KeptGraphHasWord` | remove_multisentence_filter.py:69-75 | A kept graph always contains `justice`. The final substring test only prints debug output, and this shows it agrees with the answer already given. |
| `JusticeFilter.LowerKeepsBlank` | remove_multisentence_filter.py:52-55 | Lower-casing keeps a blank graph blank and a non-blank one non-blank. |
| `JusticeFilter.FilterIgnoresCase` | remove_multisentence_filter.py:55 | The filter gives the same answer for a graph and its lower-cased form. |
| `JusticeFilter.ConceptExample` | remove_multisentence_filter.py:58 | `(c / justice)` is kept. |
| `JusticeFilter.WordBoundaryExample` | remove_multisentence_filter.py:58 | `(c / justice99)` is not kept: `\b` rules it out. |
| `JusticeFilter.QuotedNameExample` | remove_multisentence_filter.py:64 | `"International Criminal Justice"` is kept. |
| `FilterFlatten.FilteredFlatten` | remove_multisentence_filter.py:129-174 | The records the filtering `flatten_amr` returns. `FilterFlatten.FilteredMultiSentence`, `FilterFlatten.FilteredRecordsPass` and `FilterFlatten.KeptDerivedShape` state its meaning. |
| `FilterFlatten.KeptStep` | remove_multisentence_filter.py:151-172 | One more branch appends its derived record, numbered after all earlier branches, exactly when its text passes. |
| `FilterFlatten.FlattenAmrFiltered` | remove_multisentence_filter.py:129-174 | The method returns `FilterFlatten.FilteredFlatten`: the record alone or nothing for a graph that is not multi-sentence, otherwise the passing derived records. |
| `FilterFlatten.KeepPassingBranches` | remove_multisentence_filter.py:150-172 | The loop with its `continue` keeps the derived records of the passing branches, numbered among all branches. |
| `FilterFlatten.FilteredRecordsPass` | remove_multisentence_filter.py:135-172 | Every returned record passes the keyword filter. |
| `FilterFlatten.KeptDerivedShape` | remove_multisentence_filter.py:151-172 | Stated through `KeptAt`: the k-th kept record is the one built for branch `pos[k]`, with ordinal `pos[k] + 1`. The positions increase, each names a passing branch, and every passing branch is among them. |
| `FilterFlatten.KeptDerivedIdsDistinct` | remove_multisentence_filter.py:164 | Kept records from one parent have pairwise different ids. |
| `FilterFlatten.FilteredMultiSentence` | remove_multisentence_filter.py:145-172 | For a multi-sentence record the result is exactly the passing branches' records, in order, each numbered by its position among all branches. |
| `FilterFlatten.FilteredIdsDistinct` | remove_multisentence_filter.py:129-174 | The records one call returns have pairwise different ids. |
| `FilterFlatten.DroppedBranchLeavesGap` | remove_multisentence_filter.py:151-164 | When branch 1 fails and branch 2 passes, the first record returned is numbered 2. |
| `SliceSegmenter.SliceBranches` | remove_multisentence.py:101-128 | The branches of the slice extractor. `SliceSegmenter.SliceBranchesShape` and `SliceSegmenter.SlicesInOrder` state its meaning. |
| `SliceSegmenter.SliceEnd` | remove_multisentence.py:116-119 | The slice ends at or after its tag's end and within the graph. |
| `SliceSegmenter.ExtractSubsentencesSlice` | remove_multisentence.py:101-128 | The loop returns exactly `SliceSegmenter.SliceBranches`: the non-empty stripped slices between tags, with their labels. |
| `SliceSegmenter.SlicesInOrder` | remove_multisentence.py:112-122 | Each slice ends no later than any later tag starts, and no tag starts inside a slice: the slices are disjoint and in text order. |
| `SliceSegmenter.SliceBranchesShape` | remove_multisentence.py:111-126 | At most one branch per tag, in tag order. Each has its tag's text (colon included) and non-empty stripped text, and every tag with a non-blank slice has its branch. |
| `SliceSegmenter.SliceBranchesNonEmpty` | remove_multisentence.py:125-126 | No branch is empty. |
| `SliceSegmenter.LastSliceKeepsEnd` | remove_multisentence.py:118-122 | The last branch runs to the end of the graph, so it ends with the graph's last character, such as the root's `)`. |
| `SliceSegmenter.NoSliceBranches` | remove_multisentence.py:111-128 | There are no branches exactly when every slice is blank. |
| `LineSegmenter.LineBranches` | remove_multisentence.py:57-99 | The branches of the line-based extractor. `LineSegmenter.OneBranch` and `LineSegmenter.LineBranchesWellFormed` state its meaning. |
| `LineSegmenter.RestStart` | remove_multisentence.py:76 | The second group starts after the digits and inside the line. |
| `LineSegmenter.LineMatchIsPreferredSplit` | remove_multisentence.py:76 | `:snt(\d+)\s+(.+)` matches at a position exactly when some split does. The groups come from the split the regex prefers: all the digits, and the longest whitespace run that leaves `.+` a character. |
| `LineSegmenter.FirstMatchFrom` | remove_multisentence.py:76 | `re.search` finds the leftmost match, or none when there is none. |
| `LineSegmenter.TrailingSpaceExample` | remove_multisentence.py:76 | `:snt1` plus two spaces matches with `.+` taking one space, while `:snt1` plus one space does not match. |
| `LineSegmenter.ExtractSubsentencesLines` | remove_multisentence.py:57-99 | The line loop returns exactly `LineSegmenter.LineBranches`. `indent_level` is updated but plays no part. |
| `LineSegmenter.RunConcat` | remove_multisentence.py:74-93 | Running over two lists of lines is running over the first, then the second. |
| `LineSegmenter.UntaggedLinesAppend` | remove_multisentence.py:86-89 | Lines without a match extend the open branch, and do nothing when none is open. |
| `LineSegmenter.LinesBeforeFirstTagIgnored` | remove_multisentence.py:74-89 | Lines before the first matching line change nothing. |
| `LineSegmenter.OneBranch` | remove_multisentence.py:77-97 | A matching line and the lines after it without a match form one branch: labelled `snt<digits>`, holding the rest of the matching line and then those lines, joined by newlines. |
| `LineSegmenter.RunShift` | remove_multisentence.py:79-80 | Branches already closed are never changed, only appended to. |
| `LineSegmenter.TagLineSplitsResult` | remove_multisentence.py:77-84 | At a matching line the result splits into what the lines before it give followed by what it and the later lines give. |
| `LineSegmenter.ThreeLineExample` | remove_multisentence.py:74-97 | `:snt1 (a`, `b)`, `:snt2 (c)` give `snt1` with `(a` newline `b)` and `snt2` with `(c)`. |
| `LineSegmenter.StepKeepsGood` | remove_multisentence.py:77-89 | Each line keeps the state well-formed: a `snt<digits>` label and a non-empty first line when a branch is open, no lines when none is, every closed branch well-labelled and non-empty. |
| `LineSegmenter.LineBranchesWellFormed` | remove_multisentence.py:79-97 | Every branch is labelled `snt` and digits, without a colon, and holds non-empty text. |
| `LineSegmenter.ContentCheckIsRedundant` | remove_multisentence.py:79-96 | Once a branch is open it always has a line, so the `current_content` test never fails. |
| `PlainFlatten.UnfilteredFlatten` | remove_multisentence.py:130-154 | The records the plain `flatten_amr` returns. `PlainFlatten.UnfilteredFlattenShape` and `PlainFlatten.UnfilteredIdsDistinct` state its meaning. |
| `PlainFlatten.FlattenAmrPlain` | remove_multisentence.py:130-154 | The method returns `PlainFlatten.UnfilteredFlatten`: the record itself when it is not multi-sentence, otherwise one derived record per slice branch. |
| `PlainFlatten.DeriveBranches` | remove_multisentence.py:141-152 | The loop builds one derived record per branch, numbered from 1. |
| `PlainFlatten.UnfilteredFlattenShape` | remove_multisentence.py:135-154 | A record that is not multi-sentence comes back as the one-element list of itself. Otherwise the k-th record has id `<parent>.<k+1>` (consecutive ordinals), sentence `[<label>] <parent sentence>`, exactly the two metadata lines, and the branch's non-empty text as graph. |
| `PlainFlatten.NoBranchesGiveNothing` | remove_multisentence.py:139-154 | A multi-sentence record gives the empty list exactly when every slice between its tags is blank. |
| `PlainFlatten.UnfilteredIdsDistinct` | remove_multisentence.py:130-154 | The records one call returns have pairwise different ids. |

## Left out

- `main()` in both scripts is not modelled: the path constants, the file existence check, reading and writing files, the console statistics and the printed examples. Each stage is modelled on its own; how `main()` chains them is not.
- The file handle of `write_amr_file` is not modelled. The model is the text written.
- The `debug` parameter and every `print` in `contains_justice` and `flatten_amr` are left out. They only print, so only the returned values are modelled.
- `test_extract.py` is not part of this model. It extracts text from PDF, HTML and TXT files through external libraries.
- The `pattern` variable at remove_multisentence.py:66 is left out, because it is never used.
- The `continue` at remove_multisentence.py:92-93 is left out, because it is the last statement of the loop body and does nothing. The `indent_level` updates it reads are kept in `LineSegmenter.ExtractSubsentencesLines`.
- Python's Unicode semantics are not modelled. Only ASCII behaviour is: `\s` is space, `\t` to `\r` and the four separator controls 28-31; `\d` is `0`-`9`; `\w` is letters, digits and `_`; `lower()` maps `A`-`Z` only.
- The `not graph` test at remove_multisentence_filter.py:52 is not modelled, because a graph is always a string here, never `None`.
- A record is a value. The scripts' dictionaries, and `flatten_amr` handing back the caller's own dictionary, are modelled by value, so aliasing is not captured.
- `AmrParser.DerivedMetadataReparses` does not give an exact round trip in general, because reading strips the field. Two inputs show this. An empty parent sentence writes `# ::snt [:snt1] ` and reads back `[:snt1]` (`AmrParser.EmptySentenceLosesSpace`). A parent sentence holding `::id` resets the id when the file is read back (`AmrParser.IdMarkerInSentenceResetsId`). The exact case is `AmrParser.DerivedRecordReparses`. The round trip of parsing a whole written file back into records is not proved.
- `LineSegmenter.FirstMatchFrom` and the line pattern treat `.+` as taking the rest of the line, which holds only because the lines come from splitting on `\n`.
