/** ASCII character classes and the handful of Python string operations the AMR
    scripts rely on: `str.strip`, `str.lower`, `in`, `str.split`, `str.join` and
    `str(n)` for a positive ordinal. Strings are `seq<char>`; only the ASCII
    meaning of Python's whitespace, digit and word classes is modelled. */
module Text {

  datatype Option<T> = None | Some(value: T)

  /** What an f-string prints for an optional string field: a missing value
      prints as the four letters "None". */
  function Render(o: Option<string>): (r: string)
    ensures o.Some? ==> r == o.value
    ensures o.None? ==> r == "None"
  {
    match o
    case None => "None"
    case Some(s) => s
  }

  /** ASCII members of Python's `\s` and `str.isspace`: \t \n \v \f \r, the
      separators \x1c to \x1f, and the space. */
  predicate IsSpace(c: char) {
    var n := c as int;
    n == 32 || (9 <= n <= 13) || (28 <= n <= 31)
  }

  predicate IsDigit(c: char) {
    '0' <= c <= '9'
  }

  /** ASCII `\w`: letters, digits and the underscore. */
  predicate IsWordChar(c: char) {
    IsDigit(c) || ('a' <= c <= 'z') || ('A' <= c <= 'Z') || c == '_'
  }

  /** ASCII `str.lower` on one character. */
  function LowerChar(c: char): (r: char)
    ensures 'A' <= c <= 'Z' ==> r as int == c as int + 32
    ensures !('A' <= c <= 'Z') ==> r == c
  {
    if 'A' <= c <= 'Z' then (c as int + 32) as char else c
  }

  function Lower(s: string): (r: string)
    ensures |r| == |s|
    ensures forall i :: 0 <= i < |s| ==> r[i] == LowerChar(s[i])
  {
    seq(|s|, i requires 0 <= i < |s| => LowerChar(s[i]))
  }

  /** Lower-casing leaves no upper-case letter and changes nothing a second
      time. */
  lemma LowerIdempotent(s: string)
    ensures forall i :: 0 <= i < |s| ==> !('A' <= Lower(s)[i] <= 'Z')
    ensures Lower(Lower(s)) == Lower(s)
  {
    var t := Lower(s);
    forall i | 0 <= i < |s| ensures Lower(t)[i] == t[i] {
      assert !('A' <= t[i] <= 'Z');
    }
  }

  predicate AllSpace(s: string) {
    forall i :: 0 <= i < |s| ==> IsSpace(s[i])
  }

  lemma AllSpaceAppend(a: string, b: string)
    requires AllSpace(a) && AllSpace(b)
    ensures AllSpace(a + b)
  {
    forall i | 0 <= i < |a + b| ensures IsSpace((a + b)[i]) {
      if i >= |a| { assert (a + b)[i] == b[i - |a|]; }
    }
  }

  /** End of the run of whitespace that starts at `p`. */
  function SpaceRunEnd(t: string, p: nat): (q: nat)
    requires p <= |t|
    ensures p <= q <= |t|
    ensures forall k :: p <= k < q ==> IsSpace(t[k])
    ensures q < |t| ==> !IsSpace(t[q])
    decreases |t| - p
  {
    if p < |t| && IsSpace(t[p]) then SpaceRunEnd(t, p + 1) else p
  }

  /** A whitespace run followed by a non-space character ends there. */
  lemma {:induction false} SpaceRunEndAt(t: string, p: nat, q: nat)
    requires p <= q < |t| && !IsSpace(t[q]) && forall x :: p <= x < q ==> IsSpace(t[x])
    ensures SpaceRunEnd(t, p) == q
    decreases q - p
  {
    if p < q { SpaceRunEndAt(t, p + 1, q); }
  }

  /** A whitespace run from `p` reaches at least as far as any stretch of
      whitespace from `p`. */
  lemma {:induction false} SpaceRunCovers(t: string, p: nat, q: nat)
    requires p <= q <= |t| && forall x :: p <= x < q ==> IsSpace(t[x])
    ensures q <= SpaceRunEnd(t, p)
    decreases q - p
  {
    if p < q { SpaceRunCovers(t, p + 1, q); }
  }

  /** End of the run of digits that starts at `p`. */
  function DigitRunEnd(t: string, p: nat): (q: nat)
    requires p <= |t|
    ensures p <= q <= |t|
    ensures forall k :: p <= k < q ==> IsDigit(t[k])
    ensures q < |t| ==> !IsDigit(t[q])
    decreases |t| - p
  {
    if p < |t| && IsDigit(t[p]) then DigitRunEnd(t, p + 1) else p
  }

  /** A digit run followed by some other character ends there. */
  lemma {:induction false} DigitRunEndAt(t: string, p: nat, q: nat)
    requires p <= q < |t| && !IsDigit(t[q]) && forall x :: p <= x < q ==> IsDigit(t[x])
    ensures DigitRunEnd(t, p) == q
    decreases q - p
  {
    if p < q { DigitRunEndAt(t, p + 1, q); }
  }

  // ---------------------------------------------------------------------------
  // str.strip()

  function TrimStart(s: string): (r: string)
    ensures |r| <= |s| && r == s[|s| - |r|..]
    ensures AllSpace(s[..|s| - |r|])
    ensures r != [] ==> !IsSpace(r[0])
  {
    if s != [] && IsSpace(s[0]) then
      var r := TrimStart(s[1..]);
      assert s[..|s| - |r|] == [s[0]] + s[1..][..|s| - 1 - |r|];
      AllSpaceAppend([s[0]], s[1..][..|s| - 1 - |r|]);
      r
    else s
  }

  function TrimEnd(s: string): (r: string)
    ensures |r| <= |s| && r == s[..|r|]
    ensures AllSpace(s[|r|..])
    ensures r != [] ==> !IsSpace(r[|r| - 1])
  {
    if s != [] && IsSpace(s[|s| - 1]) then
      var r := TrimEnd(s[..|s| - 1]);
      assert s[|r|..] == s[..|s| - 1][|r|..] + [s[|s| - 1]];
      AllSpaceAppend(s[..|s| - 1][|r|..], [s[|s| - 1]]);
      r
    else s
  }

  /** Python's `str.strip()` with ASCII whitespace. */
  function Strip(s: string): string {
    TrimEnd(TrimStart(s))
  }

  /** Where the text Strip keeps begins in `s`. */
  function StripOffset(s: string): nat {
    |s| - |TrimStart(s)|
  }

  /** Strip removes exactly a whitespace prefix and a whitespace suffix, and what
      it keeps neither starts nor ends with whitespace. */
  lemma StripShape(s: string)
    ensures StripOffset(s) + |Strip(s)| <= |s|
    ensures Strip(s) == s[StripOffset(s)..StripOffset(s) + |Strip(s)|]
    ensures AllSpace(s[..StripOffset(s)]) && AllSpace(s[StripOffset(s) + |Strip(s)|..])
    ensures Strip(s) != [] ==> !IsSpace(Strip(s)[0]) && !IsSpace(Strip(s)[|Strip(s)| - 1])
  {
    StripIsSlice(s);
    StripBlankAround(s);
    var r := Strip(s);
    if r != [] {
      assert r[0] == TrimStart(s)[0];
    }
  }

  lemma StripIsSlice(s: string)
    ensures StripOffset(s) + |Strip(s)| <= |s|
    ensures Strip(s) == s[StripOffset(s)..StripOffset(s) + |Strip(s)|]
  {
    var t := TrimStart(s);
    SliceOfSuffix(s, |s| - |t|, |TrimEnd(t)|);
  }

  lemma StripBlankAround(s: string)
    ensures StripOffset(s) + |Strip(s)| <= |s|
    ensures AllSpace(s[..StripOffset(s)]) && AllSpace(s[StripOffset(s) + |Strip(s)|..])
  {
    var t := TrimStart(s);
    var r := TrimEnd(t);
    var i := |s| - |t|;
    assert StripOffset(s) == i && Strip(s) == r;
    assert AllSpace(s[..i]);
    SuffixOfSuffix(s, i, |r|);
    assert s[i + |r|..] == t[|r|..];
  }

  lemma StripEmptyIffAllSpace(s: string)
    ensures Strip(s) == [] <==> AllSpace(s)
  {
    StripShape(s);
    var i := StripOffset(s);
    if Strip(s) == [] {
      forall k | 0 <= k < |s| ensures IsSpace(s[k]) {
        assert s[..i][k] == s[k];
      }
    }
  }

  /** A text that neither starts nor ends with whitespace is what stripping
      it with one more space in front gives. */
  lemma StripSpaceThenText(t: string)
    requires t != [] && !IsSpace(t[0]) && !IsSpace(t[|t| - 1])
    ensures Strip(" " + t) == t
  {
    assert (" " + t)[1..] == t;
    assert TrimStart(t) == t;
    assert TrimStart(" " + t) == t;
  }

  /** Stripping twice changes nothing after the first time. */
  lemma StripIdempotent(s: string)
    ensures Strip(Strip(s)) == Strip(s)
  {
    var r := Strip(s);
    StripShape(s);
    if r != [] {
      assert TrimStart(r) == r;
      assert TrimEnd(r) == r;
    }
  }

  /** A string ending in a non-space character keeps that character as the last
      one after stripping. */
  lemma StripKeepsLast(s: string)
    requires s != [] && !IsSpace(s[|s| - 1])
    ensures Strip(s) != [] && Strip(s)[|Strip(s)| - 1] == s[|s| - 1]
  {
    TrimStartKeepsLast(s);
  }

  lemma TrimStartKeepsLast(s: string)
    requires s != [] && !IsSpace(s[|s| - 1])
    ensures TrimStart(s) != [] && TrimStart(s)[|TrimStart(s)| - 1] == s[|s| - 1]
  {
    if IsSpace(s[0]) {
      TrimStartKeepsLast(s[1..]);
    }
  }

  // ---------------------------------------------------------------------------
  // Substring search: `pat in s`, `s.find(pat)`

  predicate StartsAt(s: string, k: nat, pat: string) {
    k + |pat| <= |s| && s[k..k + |pat|] == pat
  }

  /** `pat in s`. */
  predicate Contains(s: string, pat: string) {
    exists k :: 0 <= k <= |s| && StartsAt(s, k, pat)
  }

  function FindFrom(s: string, pat: string, from: nat): (r: Option<nat>)
    requires from <= |s|
    ensures r.Some? ==> from <= r.value && StartsAt(s, r.value, pat)
    ensures r.Some? ==> forall k :: from <= k < r.value ==> !StartsAt(s, k, pat)
    ensures r.None? ==> forall k :: from <= k <= |s| ==> !StartsAt(s, k, pat)
    decreases |s| - from
  {
    if StartsAt(s, from, pat) then Some(from)
    else if from == |s| then None
    else FindFrom(s, pat, from + 1)
  }

  /** The first occurrence of `pat` in `s`, if any. */
  function Find(s: string, pat: string): (r: Option<nat>)
    ensures r.Some? <==> Contains(s, pat)
    ensures r.Some? ==> StartsAt(s, r.value, pat) && forall k :: 0 <= k < r.value ==> !StartsAt(s, k, pat)
  {
    FindFrom(s, pat, 0)
  }

  /** `s.split(sep)[1]`: the text between the first occurrence of `sep` and the
      next one, or the end of `s` when there is no second occurrence. */
  function SecondField(s: string, sep: string): (r: string)
    requires Contains(s, sep) && sep != []
  {
    var i := Find(s, sep).value;
    var rest := s[i + |sep|..];
    rest[..FieldEnd(rest, sep)]
  }

  /** Where the field starting the text `rest` ends: at the next `sep`, or at
      the end of `rest`. */
  function FieldEnd(rest: string, sep: string): (n: nat)
    ensures n <= |rest| && forall k :: 0 <= k < n ==> !StartsAt(rest, k, sep)
    ensures n < |rest| ==> StartsAt(rest, n, sep)
  {
    match Find(rest, sep)
    case None => |rest|
    case Some(j) => j
  }

  /** SecondField is the text right after the first `sep` and holds no `sep`. */
  lemma SecondFieldSpec(s: string, sep: string)
    requires Contains(s, sep) && sep != []
    ensures StartsAt(s, Find(s, sep).value + |sep|, SecondField(s, sep))
    ensures !Contains(SecondField(s, sep), sep)
    ensures var e := Find(s, sep).value + |sep| + |SecondField(s, sep)|;
      e == |s| || StartsAt(s, e, sep)
  {
    var a := Find(s, sep).value + |sep|;
    assert SecondField(s, sep) == s[a..][..FieldEnd(s[a..], sep)];
    FieldAt(s, a, sep);
  }

  /** The field starting at `a` sits in `s` there, holds no `sep`, and is
      followed by `sep` or by the end of `s`. */
  lemma FieldAt(s: string, a: nat, sep: string)
    requires a <= |s| && sep != []
    ensures var n := FieldEnd(s[a..], sep);
      a + n <= |s| && StartsAt(s, a, s[a..][..n]) && !Contains(s[a..][..n], sep)
      && (a + n == |s| || StartsAt(s, a + n, sep))
  {
    var rest := s[a..];
    var n := FieldEnd(rest, sep);
    assert StartsAt(s, a, rest[..n]) by {
      SliceOfSuffix(s, a, n);
    }
    assert !Contains(rest[..n], sep) by {
      NoSepInPrefix(rest, sep, n);
    }
    assert a + n == |s| || StartsAt(s, a + n, sep) by {
      if n < |rest| {
        StartsAtInSuffix(s, a, n, sep);
      }
    }
  }

  lemma StartsAtInSuffix(s: string, a: nat, n: nat, pat: string)
    requires a <= |s| && StartsAt(s[a..], n, pat)
    ensures StartsAt(s, a + n, pat)
  {
    assert s[a..][n..n + |pat|] == s[a + n..a + n + |pat|];
  }

  lemma SliceOfSuffix<T>(s: seq<T>, a: nat, n: nat)
    requires a + n <= |s|
    ensures s[a..a + n] == s[a..][..n]
  {
  }

  lemma SuffixOfSuffix<T>(s: seq<T>, a: nat, n: nat)
    requires a + n <= |s|
    ensures s[a + n..] == s[a..][n..]
  {
  }

  /** With no second separator, the field runs to the end of the text. */
  lemma SecondFieldToEnd(s: string, sep: string)
    requires Contains(s, sep) && sep != []
    requires !Contains(s[Find(s, sep).value + |sep|..], sep)
    ensures SecondField(s, sep) == s[Find(s, sep).value + |sep|..]
  {
    var rest := s[Find(s, sep).value + |sep|..];
    assert FieldEnd(rest, sep) == |rest|;
    assert rest[..|rest|] == rest;
  }

  /** A prefix that stops before the first occurrence of `sep` holds none. */
  lemma NoSepInPrefix(rest: string, sep: string, n: nat)
    requires sep != [] && n <= |rest| && forall k :: 0 <= k < n ==> !StartsAt(rest, k, sep)
    ensures !Contains(rest[..n], sep)
  {
    var f := rest[..n];
    forall k | 0 <= k <= |f| && StartsAt(f, k, sep) ensures false {
      assert rest[k..k + |sep|] == f[k..k + |sep|];
      assert StartsAt(rest, k, sep);
    }
  }

  // ---------------------------------------------------------------------------
  // str.split(c) on a single character, and sep.join(xs)

  function SplitOn(s: string, c: char): (r: seq<string>)
    ensures |r| >= 1
    decreases |s|
  {
    if s == [] then [""]
    else
      var rest := SplitOn(s[1..], c);
      if s[0] == c then [""] + rest else [[s[0]] + rest[0]] + rest[1..]
  }

  function Join(sep: string, xs: seq<string>): string
    decreases |xs|
  {
    if xs == [] then ""
    else if |xs| == 1 then xs[0]
    else xs[0] + sep + Join(sep, xs[1..])
  }

  /** A join of a non-empty list starts with its first element. */
  lemma {:induction false} JoinStartsWithFirst(xs: seq<string>)
    requires xs != []
    ensures |Join("\n", xs)| >= |xs[0]| && Join("\n", xs)[..|xs[0]|] == xs[0]
  {
    if |xs| > 1 {
      assert Join("\n", xs) == xs[0] + "\n" + Join("\n", xs[1..]);
    }
  }

  /** `sep.join(s.split(sep))` gives back `s`, and no piece holds the separator. */
  lemma SplitOnJoin(s: string, c: char)
    ensures Join([c], SplitOn(s, c)) == s
    ensures forall p :: p in SplitOn(s, c) ==> c !in p
  {
    SplitOnJoinBack(s, c);
    SplitOnPiecesFree(s, c);
  }

  lemma {:induction false} SplitOnJoinBack(s: string, c: char)
    ensures Join([c], SplitOn(s, c)) == s
    decreases |s|
  {
    if s != [] {
      SplitOnJoinBack(s[1..], c);
      var rest := SplitOn(s[1..], c);
      assert s == [s[0]] + s[1..];
      if s[0] == c {
        assert SplitOn(s, c) == [""] + rest;
        JoinEmptyFirst(rest, [c]);
      } else {
        assert SplitOn(s, c) == [[s[0]] + rest[0]] + rest[1..];
        JoinExtendFirst(rest, [c], s[0]);
      }
    }
  }

  /** An empty first piece contributes only its separator. */
  lemma JoinEmptyFirst(rest: seq<string>, sep: string)
    requires rest != []
    ensures Join(sep, [""] + rest) == sep + Join(sep, rest)
  {
    assert ([""] + rest)[1..] == rest;
  }

  /** Putting `x` in front of the first piece puts it in front of the join. */
  lemma JoinExtendFirst(rest: seq<string>, sep: string, x: char)
    requires rest != []
    ensures Join(sep, [[x] + rest[0]] + rest[1..]) == [x] + Join(sep, rest)
  {
    var r := [[x] + rest[0]] + rest[1..];
    if |rest| > 1 {
      assert r[1..] == rest[1..];
      AppendAssoc([x] + rest[0], sep, Join(sep, rest[1..]));
      AppendAssoc([x], rest[0], sep + Join(sep, rest[1..]));
      AppendAssoc(rest[0], sep, Join(sep, rest[1..]));
    }
  }

  lemma {:induction false} SplitOnPiecesFree(s: string, c: char)
    ensures forall p :: p in SplitOn(s, c) ==> c !in p
    decreases |s|
  {
    if s != [] {
      SplitOnPiecesFree(s[1..], c);
      var rest := SplitOn(s[1..], c);
      var r := SplitOn(s, c);
      if s[0] == c {
        assert r == [""] + rest;
      } else {
        assert r == [[s[0]] + rest[0]] + rest[1..];
        assert c !in rest[0];
        forall p | p in r ensures c !in p {
          if p != r[0] { assert p in rest[1..]; assert p in rest; }
        }
      }
    }
  }

  /** Splitting a newline-free join gives back the pieces. */
  lemma {:induction false} JoinSplitOn(xs: seq<string>, c: char)
    requires xs != []
    requires forall p :: p in xs ==> c !in p
    ensures SplitOn(Join([c], xs), c) == xs
    decreases |xs|
  {
    if |xs| == 1 {
      NoSepSplit(xs[0], c);
    } else {
      JoinSplitOn(xs[1..], c);
      SplitPrefix(xs[0], Join([c], xs[1..]), c);
      assert [xs[0]] + xs[1..] == xs;
    }
  }

  lemma {:induction false} NoSepSplit(s: string, c: char)
    requires c !in s
    ensures SplitOn(s, c) == [s]
    decreases |s|
  {
    if s != [] {
      assert c !in s[1..];
      NoSepSplit(s[1..], c);
      assert [s[0]] + s[1..] == s;
    }
  }

  /** Splitting `a + c + b` where `a` holds no `c` peels `a` off the front. */
  lemma {:induction false} SplitPrefix(a: string, b: string, c: char)
    requires c !in a
    ensures SplitOn(a + [c] + b, c) == [a] + SplitOn(b, c)
    decreases |a|
  {
    if a == [] {
      assert a + [c] + b == [c] + b;
      assert ([c] + b)[1..] == b;
    } else {
      assert c !in a[1..];
      SplitPrefix(a[1..], b, c);
      var s := a + [c] + b;
      assert s[0] == a[0];
      assert s[1..] == a[1..] + [c] + b;
      assert [a[0]] + a[1..] == a;
    }
  }

  // ---------------------------------------------------------------------------
  // The list a loop builds by appending the elements that pass a test

  function Filter<T>(s: seq<T>, p: T -> bool): seq<T>
    decreases |s|
  {
    if s == [] then [] else Filter(s[..|s| - 1], p) + (if p(s[|s| - 1]) then [s[|s| - 1]] else [])
  }

  /** A first element that passes is the first element kept. */
  lemma {:induction false} FilterKeepsPassingHead<T>(s: seq<T>, p: T -> bool)
    requires s != [] && p(s[0])
    ensures Filter(s, p) != [] && Filter(s, p)[0] == s[0]
    decreases |s|
  {
    if |s| == 1 {
      assert s[..0] == [];
    } else {
      var init := s[..|s| - 1];
      assert init[0] == s[0];
      FilterKeepsPassingHead(init, p);
    }
  }

  /** A sequence that agrees with `s` and then holds `x` is `s + [x]`. */
  lemma SnocEq<T>(s: seq<T>, t: seq<T>, x: T)
    requires |t| == |s| + 1 && t[|s|] == x && forall i :: 0 <= i < |s| ==> t[i] == s[i]
    ensures t == s + [x]
  {
  }

  /** Concatenation is associative. */
  lemma AppendAssoc<T>(a: seq<T>, b: seq<T>, c: seq<T>)
    ensures a + b + c == a + (b + c)
  {
  }

  /** A sequence is its three pieces around two cut points. */
  lemma SplitThree<T>(s: seq<T>, i: nat, j: nat)
    requires i <= j <= |s|
    ensures s == s[..i] + (s[i..j] + s[j..])
  {
  }

  /** `r` is `f` applied to each element of `k`, and stays so when `x` is
      appended to `k` and `f(x)` to `r`, or neither. */
  lemma MapSnoc<A, B>(r: seq<B>, k: seq<A>, f: A -> B, x: A, keep: bool)
    requires |r| == |k| && forall i :: 0 <= i < |k| ==> r[i] == f(k[i])
    ensures var r' := r + (if keep then [f(x)] else []); var k' := k + (if keep then [x] else []);
      |r'| == |k'| && forall i :: 0 <= i < |k'| ==> r'[i] == f(k'[i])
  {
  }

  /** A prefix one longer is the prefix and the next element. */
  lemma TakeSnoc<T>(s: seq<T>, i: nat)
    requires i < |s|
    ensures s[..i + 1] == s[..i] + [s[i]]
  {
  }

  /** One more element: it is appended when it passes the test. */
  lemma FilterSnoc<T>(s: seq<T>, x: T, p: T -> bool)
    ensures Filter(s + [x], p) == Filter(s, p) + (if p(x) then [x] else [])
  {
    assert (s + [x])[..|s|] == s;
  }

  /** Filter keeps exactly the elements that pass the test. */
  lemma {:induction false} FilterMembers<T>(s: seq<T>, p: T -> bool)
    ensures forall x :: x in Filter(s, p) <==> x in s && p(x)
    ensures |Filter(s, p)| <= |s|
    decreases |s|
  {
    if s != [] {
      FilterMembers(s[..|s| - 1], p);
      assert s == s[..|s| - 1] + [s[|s| - 1]];
    }
  }

  /** Nothing is kept exactly when no element passes. */
  lemma FilterEmptyIff<T>(s: seq<T>, p: T -> bool)
    ensures Filter(s, p) == [] <==> forall i :: 0 <= i < |s| ==> !p(s[i])
  {
    FilterMembers(s, p);
    if Filter(s, p) != [] {
      assert Filter(s, p)[0] in Filter(s, p);
    } else {
      forall i | 0 <= i < |s| ensures !p(s[i]) {
        assert s[i] in s;
      }
    }
  }

  /** Everything a filter keeps passes the test. */
  lemma FilterAllPass<T>(s: seq<T>, p: T -> bool)
    ensures forall k :: 0 <= k < |Filter(s, p)| ==> p(Filter(s, p)[k])
  {
    FilterMembers(s, p);
    forall k | 0 <= k < |Filter(s, p)| ensures p(Filter(s, p)[k]) {
      assert Filter(s, p)[k] in Filter(s, p);
    }
  }

  /** Where in `s` the elements that pass the test sit, in increasing order. */
  function Positions<T>(s: seq<T>, p: T -> bool): (r: seq<nat>)
    ensures forall k :: 0 <= k < |r| ==> r[k] < |s| && p(s[r[k]])
    ensures forall a, b :: 0 <= a < b < |r| ==> r[a] < r[b]
    decreases |s|
  {
    if s == [] then []
    else
      var init := s[..|s| - 1];
      assert forall k :: 0 <= k < |init| ==> init[k] == s[k];
      Positions(init, p) + (if p(s[|s| - 1]) then [|s| - 1] else [])
  }

  /** Every element that passes the test has its position listed. */
  lemma {:induction false} PositionsComplete<T>(s: seq<T>, p: T -> bool, i: nat)
    requires i < |s| && p(s[i])
    ensures i in Positions(s, p)
    decreases |s|
  {
    if i < |s| - 1 {
      var init := s[..|s| - 1];
      assert init[i] == s[i];
      PositionsComplete(init, p, i);
    }
  }

  /** The k-th kept element is the element at the k-th listed position. */
  lemma {:induction false} FilterAtPositions<T>(s: seq<T>, p: T -> bool)
    ensures |Filter(s, p)| == |Positions(s, p)|
    ensures forall k :: 0 <= k < |Filter(s, p)| ==> Filter(s, p)[k] == s[Positions(s, p)[k]]
    decreases |s|
  {
    if s != [] {
      var init := s[..|s| - 1];
      FilterAtPositions(init, p);
      assert forall k :: 0 <= k < |init| ==> init[k] == s[k];
    }
  }

  /** What Filter keeps, position by position: the k-th kept element sits at
      the k-th listed position, positions increase, and every element that
      passes is listed. */
  lemma FilterByPositions<T>(s: seq<T>, p: T -> bool)
    ensures var out := Filter(s, p); var pos := Positions(s, p);
      |out| == |pos| <= |s|
      && (forall k :: 0 <= k < |out| ==> pos[k] < |s| && out[k] == s[pos[k]] && p(s[pos[k]]))
      && (forall i :: 0 <= i < |s| && p(s[i]) ==> i in pos)
  {
    FilterAtPositions(s, p);
    FilterMembers(s, p);
    forall i | 0 <= i < |s| && p(s[i]) ensures i in Positions(s, p) {
      PositionsComplete(s, p, i);
    }
  }

  /** Filter keeps values of `f` apart that were apart in `s`. */
  lemma FilterKeepsDistinct<T, U>(s: seq<T>, p: T -> bool, f: T -> U)
    requires forall i, j :: 0 <= i < j < |s| ==> f(s[i]) != f(s[j])
    ensures forall a, b :: 0 <= a < b < |Filter(s, p)| ==> f(Filter(s, p)[a]) != f(Filter(s, p)[b])
  {
    FilterAtPositions(s, p);
  }

  // ---------------------------------------------------------------------------
  // s.count(c) for one character

  function Count(s: string, c: char): nat
    decreases |s|
  {
    if s == [] then 0 else Count(s[..|s| - 1], c) + (if s[|s| - 1] == c then 1 else 0)
  }

  /** Opening minus closing parentheses. */
  function Depth(s: string): int {
    Count(s, '(') - Count(s, ')')
  }

  lemma {:induction false} CountConcat(a: string, b: string, c: char)
    ensures Count(a + b, c) == Count(a, c) + Count(b, c)
    decreases |b|
  {
    if b == [] {
      assert a + b == a;
    } else {
      CountConcat(a, b[..|b| - 1], c);
      assert (a + b)[..|a + b| - 1] == a + b[..|b| - 1];
    }
  }

  lemma {:induction false} CountAbsent(s: string, c: char)
    requires forall i :: 0 <= i < |s| ==> s[i] != c
    ensures Count(s, c) == 0
    decreases |s|
  {
    if s != [] {
      CountAbsent(s[..|s| - 1], c);
    }
  }

  lemma CountAround(front: string, r: string, back: string, c: char)
    requires Count(front, c) == 0 && Count(back, c) == 0
    ensures Count(front + (r + back), c) == Count(r, c)
  {
    CountConcat(front, r + back, c);
    CountConcat(r, back, c);
  }

  /** Stripping whitespace does not change how often a non-space character
      occurs. */
  lemma {:induction false} StripKeepsCount(s: string, c: char)
    requires !IsSpace(c)
    ensures Count(Strip(s), c) == Count(s, c)
  {
    StripShape(s);
    var o, e := StripOffset(s), StripOffset(s) + |Strip(s)|;
    SpaceHasNo(s[..o], c);
    SpaceHasNo(s[e..], c);
    CountBetween(s, o, e, c);
  }

  lemma CountBetween(s: string, i: nat, j: nat, c: char)
    requires i <= j <= |s| && Count(s[..i], c) == 0 && Count(s[j..], c) == 0
    ensures Count(s, c) == Count(s[i..j], c)
  {
    SplitThree(s, i, j);
    CountAround(s[..i], s[i..j], s[j..], c);
  }

  lemma {:induction false} SpaceHasNo(s: string, c: char)
    requires !IsSpace(c) && AllSpace(s)
    ensures Count(s, c) == 0
  {
    forall i | 0 <= i < |s| ensures s[i] != c {
      assert IsSpace(s[i]);
    }
    CountAbsent(s, c);
  }

  // ---------------------------------------------------------------------------
  // str(n) for the 1-based ordinals of derived records

  function DigitChar(d: nat): (c: char)
    requires d < 10
    ensures IsDigit(c)
  {
    ('0' as int + d) as char
  }

  function DigitValue(c: char): nat
    requires IsDigit(c)
  {
    c as int - '0' as int
  }

  /** Decimal rendering of a natural number, without leading zeros. */
  function NatStr(n: nat): (r: string)
    ensures r != [] && forall i :: 0 <= i < |r| ==> IsDigit(r[i])
  {
    if n < 10 then [DigitChar(n)] else NatStr(n / 10) + [DigitChar(n % 10)]
  }

  /** Reading a string of decimal digits as a number. */
  function DecimalValue(s: string): nat
    requires forall i :: 0 <= i < |s| ==> IsDigit(s[i])
  {
    if s == [] then 0 else 10 * DecimalValue(s[..|s| - 1]) + DigitValue(s[|s| - 1])
  }

  /** NatStr is read back as the number it renders, so distinct ordinals render
      as distinct strings. */
  lemma {:induction false} NatStrRoundTrip(n: nat)
    ensures DecimalValue(NatStr(n)) == n
  {
    var r := NatStr(n);
    if n >= 10 {
      NatStrRoundTrip(n / 10);
      assert r[..|r| - 1] == NatStr(n / 10);
    }
  }

  lemma NatStrInjective(m: nat, n: nat)
    requires m != n
    ensures NatStr(m) != NatStr(n)
  {
    NatStrRoundTrip(m);
    NatStrRoundTrip(n);
  }
}
