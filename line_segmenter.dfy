/** The line-based branch extractor of the plain script (`extract_subsentences`,
    which `flatten_amr` does not call). The graph is cut into lines; a line on
    which `:snt<digits>`, whitespace and at least one more character occur
    starts a new branch, labelled `snt<digits>` (no colon) and opened with the
    rest of that line; later lines without such a match are appended to the
    open branch; lines before the first match are ignored. A branch's text is
    its lines joined by newlines. */
module LineSegmenter {
  import opened Text
  import opened AmrRecord
  import opened MultiSentence

  // ---------------------------------------------------------------------------
  // The line pattern `:snt(\d+)\s+(.+)`

  /** The pattern matches with its first character at `p`: `:snt`, the digit
      run up to `e`, then whitespace up to `f`, and something left for `.+`.
      When the whitespace runs to the end of the line the pattern gives back
      one whitespace character to `.+`, which needs two of them. Giving back
      digits never helps, since a digit is not whitespace. */
  predicate LineMatchAt(line: string, p: nat) {
    TagAt(line, p)
    && var e := DigitRunEnd(line, p + 4);
    var f := SpaceRunEnd(line, e);
    f > e && (f < |line| || f - e >= 2)
  }

  /** The first group: the digits after `:snt`. */
  function Group1(line: string, p: nat): (r: string)
    requires LineMatchAt(line, p)
  {
    line[p + 4..DigitRunEnd(line, p + 4)]
  }

  /** Where the second group starts: after the whole whitespace run, or one
      before its end when it runs to the end of the line. */
  function RestStart(line: string, p: nat): (r: nat)
    requires LineMatchAt(line, p)
    ensures DigitRunEnd(line, p + 4) < r < |line|
  {
    var f := SpaceRunEnd(line, DigitRunEnd(line, p + 4));
    if f < |line| then f else f - 1
  }

  /** The second group: the rest of the line. Lines never hold a newline, so
      `.+` takes everything up to the end. */
  function Group2(line: string, p: nat): (r: string)
    requires LineMatchAt(line, p)
  {
    line[RestStart(line, p)..]
  }

  /** One way the pattern can match at `p`: `:snt`, digits in `[p + 4, d)`,
      whitespace in `[d, s)`, and `.+` on the non-empty rest from `s`. */
  ghost predicate LineSplit(line: string, p: nat, d: nat, s: nat) {
    p + 4 < d < s < |line| && StartsAt(line, p, ":snt")
    && (forall x :: p + 4 <= x < d ==> IsDigit(line[x]))
    && (forall x :: d <= x < s ==> IsSpace(line[x]))
  }

  /** The pattern matches at `p` exactly when some split of the line does;
      the groups come from the split the regex prefers, with the longest
      digit run (the only one possible) and the longest whitespace run that
      leaves `.+` a character. */
  lemma LineMatchIsPreferredSplit(line: string, p: nat)
    ensures LineMatchAt(line, p) <==> exists d: nat, s: nat :: LineSplit(line, p, d, s)
    ensures LineMatchAt(line, p) ==>
      LineSplit(line, p, DigitRunEnd(line, p + 4), RestStart(line, p))
      && forall d: nat, s: nat :: LineSplit(line, p, d, s) ==> d == DigitRunEnd(line, p + 4) && s <= RestStart(line, p)
  {
    if LineMatchAt(line, p) {
      var e := DigitRunEnd(line, p + 4);
      assert LineSplit(line, p, e, RestStart(line, p));
      forall d: nat, s: nat | LineSplit(line, p, d, s) ensures d == e && s <= RestStart(line, p) {
        SplitHasDigitRun(line, p, d, s);
      }
    }
    if d: nat, s: nat :| LineSplit(line, p, d, s) {
      SplitHasDigitRun(line, p, d, s);
    }
  }

  /** Any split takes the whole digit run and stays inside the whitespace
      run after it. */
  lemma SplitHasDigitRun(line: string, p: nat, d: nat, s: nat)
    requires LineSplit(line, p, d, s)
    ensures d == DigitRunEnd(line, p + 4)
    ensures s <= SpaceRunEnd(line, d) && (s < SpaceRunEnd(line, d) || SpaceRunEnd(line, d) < |line|)
    ensures LineMatchAt(line, p)
  {
    assert !IsDigit(line[d]);
    DigitRunEndAt(line, p + 4, d);
    SpaceRunCovers(line, d, s);
    assert line[p..p + 4] == ":snt";
  }

  /** The leftmost match at or after `p`, as a search returns it. */
  function FirstMatchFrom(line: string, p: nat): (r: Option<nat>)
    requires p <= |line|
    ensures r.Some? ==> p <= r.value < |line| && LineMatchAt(line, r.value)
    ensures r.Some? ==> forall q :: p <= q < r.value ==> !LineMatchAt(line, q)
    ensures r.None? ==> forall q :: p <= q < |line| ==> !LineMatchAt(line, q)
    decreases |line| - p
  {
    if p == |line| then None
    else if LineMatchAt(line, p) then Some(p)
    else FirstMatchFrom(line, p + 1)
  }

  function FirstMatch(line: string): Option<nat> {
    FirstMatchFrom(line, 0)
  }

  /** The label a matching line gives its branch. */
  function Label(line: string, p: nat): string
    requires LineMatchAt(line, p)
  {
    "snt" + Group1(line, p)
  }

  /** `:snt1  ` matches and gives one space to `.+`; `:snt1 ` does not match. */
  lemma TrailingSpaceExample()
    ensures LineMatchAt(":snt1  ", 0) && Group2(":snt1  ", 0) == " "
    ensures !LineMatchAt(":snt1 ", 0)
  {
    assert DigitRunEnd(":snt1  ", 5) == 5;
    assert DigitRunEnd(":snt1  ", 4) == 5;
    assert SpaceRunEnd(":snt1  ", 6) == 7;
    assert SpaceRunEnd(":snt1  ", 5) == 7;
    assert DigitRunEnd(":snt1 ", 5) == 5;
    assert DigitRunEnd(":snt1 ", 4) == 5;
    assert SpaceRunEnd(":snt1 ", 5) == 6;
  }

  // ---------------------------------------------------------------------------
  // The loop, as a function of the lines seen so far

  /** The extractor's variables: the open branch's label (`None` before the
      first match), its lines, and the branches closed so far. */
  datatype Scan = Scan(current: Option<string>, content: seq<string>, out: seq<Branch>)

  const Init := Scan(None, [], [])

  /** The branch the open one becomes when it is closed, if it is kept. */
  function Pending(st: Scan): seq<Branch> {
    if st.current.Some? && st.content != [] then [Branch(st.current.value, Join("\n", st.content))] else []
  }

  /** One line: a matching line closes the open branch and opens a new one;
      another line is appended to the open branch, if there is one. */
  function Step(st: Scan, line: string): Scan {
    match FirstMatch(line)
    case Some(p) => Scan(Some(Label(line, p)), [Group2(line, p)], st.out + Pending(st))
    case None => if st.current.Some? then st.(content := st.content + [line]) else st
  }

  /** The variables after the lines `ls`, starting from `st`. */
  function RunFrom(st: Scan, ls: seq<string>): Scan
    decreases |ls|
  {
    if ls == [] then st else Step(RunFrom(st, ls[..|ls| - 1]), ls[|ls| - 1])
  }

  /** After the loop, the open branch is closed. */
  function Finish(st: Scan): seq<Branch> {
    st.out + Pending(st)
  }

  /** The branches the extractor returns for the lines `ls`. */
  function LineBranchesOf(ls: seq<string>): seq<Branch> {
    Finish(RunFrom(Init, ls))
  }

  /** The branches the extractor returns for a graph. */
  function LineBranches(graph: string): seq<Branch> {
    LineBranchesOf(SplitOn(graph, '\n'))
  }

  /** The extractor. `indentLevel` is tracked as in the script but read by
      nothing, so the result is the function above, which has no such
      variable. */
  method ExtractSubsentencesLines(graph: string) returns (subsentences: seq<Branch>)
    ensures subsentences == LineBranches(graph)
  {
    var lines := SplitOn(graph, '\n');
    subsentences := [];
    var currentSnt: Option<string> := None;
    var currentContent: seq<string> := [];
    var indentLevel: int := 0;
    var i := 0;
    while i < |lines|
      invariant 0 <= i <= |lines|
      invariant Scan(currentSnt, currentContent, subsentences) == RunFrom(Init, lines[..i])
    {
      var line := lines[i];
      var sntMatch := FirstMatch(line);
      if sntMatch.Some? {
        var p := sntMatch.value;
        if currentSnt.Some? && currentContent != [] {
          subsentences := subsentences + [Branch(currentSnt.value, Join("\n", currentContent))];
        }
        currentSnt := Some("snt" + Group1(line, p));
        currentContent := [Group2(line, p)];
        indentLevel := Depth(line);
      } else if currentSnt.Some? {
        currentContent := currentContent + [line];
        indentLevel := indentLevel + Depth(line);
      }
      assert lines[..i + 1][..i] == lines[..i];
      i := i + 1;
    }
    if currentSnt.Some? && currentContent != [] {
      subsentences := subsentences + [Branch(currentSnt.value, Join("\n", currentContent))];
    }
    assert lines[..|lines|] == lines;
  }

  // ---------------------------------------------------------------------------
  // What the loop computes

  predicate Untagged(ls: seq<string>) {
    forall k :: 0 <= k < |ls| ==> FirstMatch(ls[k]).None?
  }

  /** Running over `a + b` is running over `a`, then over `b`. */
  lemma {:induction false} RunConcat(st: Scan, a: seq<string>, b: seq<string>)
    ensures RunFrom(st, a + b) == RunFrom(RunFrom(st, a), b)
    decreases |b|
  {
    if b == [] {
      assert a + b == a;
    } else {
      var b' := b[..|b| - 1];
      RunConcat(st, a, b');
      assert (a + b)[..|a + b| - 1] == a + b';
    }
  }

  /** Lines without a match only extend the open branch, and do nothing when
      no branch is open. */
  lemma {:induction false} UntaggedLinesAppend(st: Scan, ls: seq<string>)
    requires Untagged(ls)
    ensures RunFrom(st, ls) == if st.current.Some? then st.(content := st.content + ls) else st
    decreases |ls|
  {
    if ls != [] {
      var ls' := ls[..|ls| - 1];
      UntaggedLinesAppend(st, ls');
      assert ls' + [ls[|ls| - 1]] == ls;
    }
  }

  /** Lines before the first matching line are ignored. */
  lemma LinesBeforeFirstTagIgnored(pre: seq<string>, rest: seq<string>)
    requires Untagged(pre)
    ensures LineBranchesOf(pre + rest) == LineBranchesOf(rest)
  {
    RunConcat(Init, pre, rest);
    UntaggedLinesAppend(Init, pre);
  }

  /** A matching line and the lines without a match after it make one branch:
      labelled `snt<digits>`, holding the rest of the matching line and then
      those lines, joined by newlines. */
  lemma OneBranch(t: string, b: seq<string>)
    requires FirstMatch(t).Some? && Untagged(b)
    ensures var p := FirstMatch(t).value;
      LineBranchesOf([t] + b) == [Branch(Label(t, p), Join("\n", [Group2(t, p)] + b))]
  {
    var p := FirstMatch(t).value;
    var st := Scan(Some(Label(t, p)), [Group2(t, p)], []);
    RunConcat(Init, [t], b);
    assert RunFrom(Init, [t]) == Step(RunFrom(Init, []), t);
    assert RunFrom(Init, [t]) == st;
    UntaggedLinesAppend(st, b);
  }

  /** A state whose closed branches have `o` in front. */
  function Shifted(st: Scan, o: seq<Branch>): Scan {
    st.(out := o + st.out)
  }

  /** Branches closed before do not change what happens later: the loop only
      appends to them. */
  lemma {:induction false} RunShift(st: Scan, o: seq<Branch>, ls: seq<string>)
    ensures RunFrom(Shifted(st, o), ls) == Shifted(RunFrom(st, ls), o)
    decreases |ls|
  {
    if ls != [] {
      var ls' := ls[..|ls| - 1];
      var line := ls[|ls| - 1];
      RunShift(st, o, ls');
      var r := RunFrom(st, ls');
      StepShift(r, o, line);
    }
  }

  lemma StepShift(st: Scan, o: seq<Branch>, line: string)
    ensures Step(Shifted(st, o), line) == Shifted(Step(st, line), o)
  {
    assert (o + st.out) + Pending(st) == o + (st.out + Pending(st));
    assert Pending(Shifted(st, o)) == Pending(st);
  }

  /** At a matching line the result splits: what the lines before it give,
      then what the matching line and everything after it give. With the two
      lemmas above this fixes the whole list: one branch per matching line,
      in line order. */
  lemma TagLineSplitsResult(a: seq<string>, t: string, b: seq<string>)
    requires FirstMatch(t).Some?
    ensures LineBranchesOf(a + [t] + b) == LineBranchesOf(a) + LineBranchesOf([t] + b)
  {
    var f := LineBranchesOf(a);
    var st := Step(Init, t);
    RunSnoc(Init, a, t);
    StepAtTag(RunFrom(Init, a), t);
    RunConcat(Init, a + [t], b);
    RunShift(st, f, b);
    RunSnoc(Init, [], t);
    RunConcat(Init, [t], b);
    FinishShift(RunFrom(st, b), f);
  }

  lemma RunSnoc(st: Scan, a: seq<string>, t: string)
    ensures RunFrom(st, a + [t]) == Step(RunFrom(st, a), t)
  {
    assert (a + [t])[..|a + [t]| - 1] == a;
  }

  /** A matching line opens its branch whatever came before, and closes what
      came before. */
  lemma StepAtTag(st: Scan, t: string)
    requires FirstMatch(t).Some?
    ensures Step(st, t) == Shifted(Step(Init, t), Finish(st))
  {
  }

  lemma FinishShift(st: Scan, o: seq<Branch>)
    ensures Finish(Shifted(st, o)) == o + Finish(st)
  {
    assert (o + st.out) + Pending(st) == o + (st.out + Pending(st));
  }

  /** Three lines: two tagged ones, the first followed by a continuation
      line. The labels lose their colon. */
  lemma ThreeLineExample()
    ensures LineBranchesOf([":snt1 (a", "b)", ":snt2 (c)"])
      == [Branch("snt1", "(a\nb)"), Branch("snt2", "(c)")]
  {
    ExampleTagLine(":snt2 (c)", '2', "(c)");
    TagLineSplitsResult([":snt1 (a", "b)"], ":snt2 (c)", []);
    assert [":snt1 (a", "b)"] + [":snt2 (c)"] + [] == [":snt1 (a", "b)", ":snt2 (c)"];
    assert [":snt2 (c)"] + [] == [":snt2 (c)"];
    ExampleFirstBranch();
    ExampleSecondBranch();
  }

  lemma ExampleFirstBranch()
    ensures LineBranchesOf([":snt1 (a", "b)"]) == [Branch("snt1", "(a\nb)")]
  {
    ExampleTagLine(":snt1 (a", '1', "(a");
    ExampleUntagged();
    assert [":snt1 (a", "b)"] == [":snt1 (a"] + ["b)"];
    OneBranch(":snt1 (a", ["b)"]);
    var xs := ["(a"] + ["b)"];
    assert xs[0] == "(a" && xs[1..] == ["b)"];
    assert Join("\n", xs) == "(a" + "\n" + "b)" == "(a\nb)";
    assert "snt" + ['1'] == "snt1";
  }

  lemma ExampleSecondBranch()
    ensures LineBranchesOf([":snt2 (c)"]) == [Branch("snt2", "(c)")]
  {
    ExampleTagLine(":snt2 (c)", '2', "(c)");
    ExampleUntagged();
    OneBranch(":snt2 (c)", []);
    assert [":snt2 (c)"] + [] == [":snt2 (c)"];
    assert Join("\n", ["(c)"] + []) == "(c)";
    assert "snt" + ['2'] == "snt2";
  }

  lemma ExampleTagLine(t: string, d: char, rest: string)
    requires IsDigit(d) && rest != [] && !IsSpace(rest[0]) && t == ":snt" + [d] + " " + rest
    ensures FirstMatch(t) == Some(0) && Label(t, 0) == "snt" + [d] && Group2(t, 0) == rest
  {
    assert t[5] == ' ' && t[6] == rest[0];
    DigitRunEndAt(t, 4, 5);
    SpaceRunEndAt(t, 5, 6);
    assert LineMatchAt(t, 0);
  }

  lemma ExampleUntagged()
    ensures Untagged(["b)"]) && Untagged([])
  {
    assert FirstMatchFrom("b)", 2) == None;
    assert FirstMatchFrom("b)", 1) == None;
  }

  // ---------------------------------------------------------------------------
  // The shape of every branch

  /** `snt` and at least one digit, and no colon. */
  predicate SntLabel(s: string) {
    |s| >= 4 && s[..3] == "snt" && forall x :: 3 <= x < |s| ==> IsDigit(s[x])
  }

  /** What holds of the variables after every line: an open branch has a
      well-formed label and a non-empty first line; no lines are held while
      no branch is open; every closed branch has a well-formed label and
      non-empty text. */
  predicate Good(st: Scan) {
    (st.current.None? ==> st.content == [])
    && (st.current.Some? ==> SntLabel(st.current.value) && st.content != [] && st.content[0] != [])
    && forall k :: 0 <= k < |st.out| ==> SntLabel(st.out[k].sntLabel) && st.out[k].content != []
  }

  lemma StepKeepsGood(st: Scan, line: string)
    requires Good(st)
    ensures Good(Step(st, line))
  {
    if st.current.Some? {
      JoinStartsWithFirst(st.content);
    }
    match FirstMatch(line)
    case Some(p) =>
      var l := Label(line, p);
      assert l[..3] == "snt" && l[3..] == Group1(line, p);
    case None =>
  }

  lemma {:induction false} RunKeepsGood(ls: seq<string>)
    ensures Good(RunFrom(Init, ls))
    decreases |ls|
  {
    if ls != [] {
      RunKeepsGood(ls[..|ls| - 1]);
      StepKeepsGood(RunFrom(Init, ls[..|ls| - 1]), ls[|ls| - 1]);
    }
  }

  /** Every branch is labelled `snt<digits>`, without the colon, and holds
      non-empty text. */
  lemma LineBranchesWellFormed(ls: seq<string>)
    ensures forall k :: 0 <= k < |LineBranchesOf(ls)| ==>
      var b := LineBranchesOf(ls)[k];
      SntLabel(b.sntLabel) && ':' !in b.sntLabel && b.content != []
  {
    var st := RunFrom(Init, ls);
    RunKeepsGood(ls);
    if st.current.Some? {
      JoinStartsWithFirst(st.content);
    }
    forall k | 0 <= k < |LineBranchesOf(ls)|
      ensures ':' !in LineBranchesOf(ls)[k].sntLabel
    {
      var s := LineBranchesOf(ls)[k].sntLabel;
      forall x | 0 <= x < |s| ensures s[x] != ':' {
        if x < 3 { assert s[x] == s[..3][x]; }
      }
    }
  }

  /** The check that the open branch has lines never fails once a branch is
      open, so leaving it out changes nothing. */
  lemma ContentCheckIsRedundant(ls: seq<string>)
    ensures var st := RunFrom(Init, ls); st.current.Some? ==> st.content != []
  {
    RunKeepsGood(ls);
  }
}
