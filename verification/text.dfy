/** Python `str` operations the dashboard relies on, over `seq<char>`:
    `in` / `find`, `split` and `join`, character deletion, `strip` and
    `upper`, together with the facts about them the rest of the model uses. */
module Text {
  import opened Results

  // ---------------------------------------------------------------------
  // Occurrences, `in`, `split`
  // ---------------------------------------------------------------------

  /** `p` occurs in `s` starting at index `i`. */
  predicate OccursAt(s: string, p: string, i: nat) {
    i + |p| <= |s| && s[i..i + |p|] == p
  }

  /** Index of the first occurrence of `p` in `s` at or after `from`
      (Python's `s.find(p, from)`, with `None` for -1). */
  function IndexOf(s: string, p: string, from: nat): (r: Option<nat>)
    ensures r.Some? ==> from <= r.value && OccursAt(s, p, r.value)
    ensures r.Some? ==> forall j :: from <= j < r.value ==> !OccursAt(s, p, j)
    ensures r.None? ==> forall j :: from <= j ==> !OccursAt(s, p, j)
    decreases |s| - from
  {
    if from + |p| > |s| then None
    else if s[from..from + |p|] == p then Some(from)
    else IndexOf(s, p, from + 1)
  }

  /** Python's `p in s`. */
  predicate Contains(s: string, p: string) {
    IndexOf(s, p, 0).Some?
  }

  /** `p` is a substring of `s` exactly when it occurs at some index. */
  lemma ContainsIff(s: string, p: string, i: nat)
    ensures OccursAt(s, p, i) ==> Contains(s, p)
    ensures !Contains(s, p) ==> !OccursAt(s, p, i)
  {
  }

  /** Occurrences in a suffix are the occurrences in the whole string,
      shifted. */
  lemma OccursInSuffix(s: string, p: string, lo: nat, j: nat)
    requires lo <= |s|
    ensures OccursAt(s[lo..], p, j) <==> OccursAt(s, p, lo + j)
  {
    if lo + j + |p| <= |s| {
      assert s[lo..][j..j + |p|] == s[lo + j..lo + j + |p|];
    }
  }

  /** Occurrences in a prefix are the occurrences in the whole string that
      end inside it. */
  lemma OccursInPrefix(s: string, p: string, hi: nat, j: nat)
    requires hi <= |s|
    ensures OccursAt(s[..hi], p, j) <==> (j + |p| <= hi && OccursAt(s, p, j))
  {
    if j + |p| <= hi {
      assert s[..hi][j..j + |p|] == s[j..j + |p|];
    }
  }

  /** A prefix of a string free of `p` is free of `p`. */
  lemma NotContainsPrefix(s: string, p: string, hi: nat)
    requires hi <= |s|
    requires !Contains(s, p)
    ensures !Contains(s[..hi], p)
  {
    forall j: nat
      ensures !OccursAt(s[..hi], p, j)
    {
      OccursInPrefix(s, p, hi, j);
    }
  }

  /** The first character of `p` appears nowhere else in `p`; then two
      occurrences of `p` can never overlap. Both section markers qualify. */
  predicate LeadUnique(p: string) {
    |p| > 0 && p[0] !in p[1..]
  }

  /** Two occurrences of a lead-unique string are at least its length apart. */
  lemma NoOverlap(s: string, p: string, i: nat, j: nat)
    requires LeadUnique(p)
    ensures OccursAt(s, p, i) && OccursAt(s, p, j) && i < j ==> i + |p| <= j
  {
    if OccursAt(s, p, i) && i < j < i + |p| {
      assert s[j] == s[i..i + |p|][j - i];
      assert p[j - i] == p[1..][j - i - 1];
      if j + |p| <= |s| {
        assert s[j..j + |p|][0] == s[j];
      }
    }
  }

  /** An occurrence of `p` in `x + y` that is not inside `x` must end
      inside `y`, so it is impossible when the last character of `p` is
      absent from `y`. */
  lemma NotContainsAppend(x: string, y: string, p: string)
    requires |p| > 0
    requires !Contains(x, p)
    requires p[|p| - 1] !in y
    ensures !Contains(x + y, p)
  {
    forall j: nat | j + |p| <= |x + y|
      ensures !OccursAt(x + y, p, j)
    {
      var e := j + |p| - 1;
      if e < |x| {
        assert (x + y)[j..j + |p|] == x[j..j + |p|];
        ContainsIff(x, p, j);
      } else {
        assert (x + y)[e] == y[e - |x|];
        assert (x + y)[j..j + |p|][|p| - 1] == (x + y)[e];
      }
    }
  }

  /** The pieces of `s[from..]` between the occurrences of `sep` found by a
      left-to-right, non-overlapping scan. */
  function SplitFrom(s: string, sep: string, from: nat): (parts: seq<string>)
    requires |sep| > 0 && from <= |s|
    ensures |parts| >= 1
    decreases |s| - from
  {
    match IndexOf(s, sep, from)
    case None => [s[from..]]
    case Some(i) => [s[from..i]] + SplitFrom(s, sep, i + |sep|)
  }

  /** Python's `s.split(sep)` for a non-empty separator. */
  function Split(s: string, sep: string): (parts: seq<string>)
    requires |sep| > 0
    ensures |parts| >= 1
  {
    SplitFrom(s, sep, 0)
  }

  /** Python's `sep.join(parts)`. */
  function Join(parts: seq<string>, sep: string): string
    requires |parts| >= 1
  {
    if |parts| == 1 then parts[0] else parts[0] + sep + Join(parts[1..], sep)
  }

  /** Python's `xs[:n]` for `n >= 0`: the first `n` elements, or all of
      them when there are fewer. */
  function Take<T>(xs: seq<T>, n: nat): (r: seq<T>)
    ensures |r| <= n && |r| <= |xs| && r == xs[..|r|]
    ensures |xs| <= n ==> r == xs
    ensures n <= |xs| ==> |r| == n
  {
    if |xs| <= n then xs else xs[..n]
  }

  function Last<T>(xs: seq<T>): T
    requires |xs| > 0
  {
    xs[|xs| - 1]
  }

  lemma {:induction false} JoinSplitFrom(s: string, sep: string, from: nat)
    requires |sep| > 0 && from <= |s|
    ensures Join(SplitFrom(s, sep, from), sep) == s[from..]
    decreases |s| - from
  {
    var found := IndexOf(s, sep, from);
    if found.Some? {
      var i := found.value;
      var parts := SplitFrom(s, sep, from);
      assert parts[1..] == SplitFrom(s, sep, i + |sep|);
      JoinSplitFrom(s, sep, i + |sep|);
      assert s[i..i + |sep|] == sep;
      assert s[from..] == s[from..i] + s[i..i + |sep|] + s[i + |sep|..];
    }
  }

  /** No piece of a split contains the separator. */
  lemma {:induction false} SplitFromPiecesFree(s: string, sep: string, from: nat)
    requires |sep| > 0 && from <= |s|
    ensures forall k :: 0 <= k < |SplitFrom(s, sep, from)| ==> !Contains(SplitFrom(s, sep, from)[k], sep)
    decreases |s| - from
  {
    var parts := SplitFrom(s, sep, from);
    var found := IndexOf(s, sep, from);
    var end := if found.Some? then found.value else |s|;
    var piece := s[from..end];
    assert parts[0] == piece;
    assert piece == s[from..][..end - from];
    forall j: nat
      ensures !OccursAt(piece, sep, j)
    {
      OccursInPrefix(s[from..], sep, end - from, j);
      OccursInSuffix(s, sep, from, j);
      if j + |sep| <= |piece| {
        assert !OccursAt(s, sep, from + j);
      }
    }
    if found.Some? {
      var rest := SplitFrom(s, sep, end + |sep|);
      SplitFromPiecesFree(s, sep, end + |sep|);
      assert parts == [piece] + rest;
      assert forall k :: 1 <= k < |parts| ==> parts[k] == rest[k - 1];
    }
  }

  /** Splitting loses nothing and keeps no separator: joining the pieces
      back gives the input, and no piece contains `sep`, so the pieces are
      exactly the text between the separators. */
  lemma JoinSplit(s: string, sep: string)
    requires |sep| > 0
    ensures Join(Split(s, sep), sep) == s
    ensures forall k :: 0 <= k < |Split(s, sep)| ==> !Contains(Split(s, sep)[k], sep)
  {
    JoinSplitFrom(s, sep, 0);
    SplitFromPiecesFree(s, sep, 0);
  }

  /** `s.split(sep)[0]`: the prefix of `s` up to the first occurrence of
      `sep`, or all of `s` when there is none. */
  lemma SplitHead(s: string, sep: string)
    requires |sep| > 0
    ensures var f := Split(s, sep)[0];
      && |f| <= |s| && s[..|f|] == f
      && !Contains(f, sep)
      && (Contains(s, sep) <==> OccursAt(s, sep, |f|))
  {
    var f := Split(s, sep)[0];
    var found := IndexOf(s, sep, 0);
    var end := if found.Some? then found.value else |s|;
    assert f == s[..end];
    forall j: nat
      ensures !OccursAt(f, sep, j)
    {
      OccursInPrefix(s, sep, end, j);
    }
  }

  /** The last piece of `SplitFrom(s, sep, from)` is `s[k..]`, where `k`
      follows the last occurrence of `sep` at or after `from`. */
  lemma {:induction false} SplitFromLast(s: string, sep: string, from: nat) returns (k: nat)
    requires |sep| > 0 && from <= |s|
    ensures from <= k <= |s| && Last(SplitFrom(s, sep, from)) == s[k..]
    ensures forall j :: k <= j ==> !OccursAt(s, sep, j)
    ensures IndexOf(s, sep, from).None? ==> k == from
    ensures IndexOf(s, sep, from).Some? ==> from + |sep| <= k && OccursAt(s, sep, k - |sep|)
    decreases |s| - from
  {
    var found := IndexOf(s, sep, from);
    if found.Some? {
      var i := found.value;
      assert SplitFrom(s, sep, from) == [s[from..i]] + SplitFrom(s, sep, i + |sep|);
      k := SplitFromLast(s, sep, i + |sep|);
    } else {
      k := from;
    }
  }

  /** `s.split(sep)[-1]`: a suffix of `s` free of `sep`, directly after an
      occurrence of `sep` whenever `sep` occurs in `s`, and all of `s`
      otherwise. */
  lemma SplitLast(s: string, sep: string)
    requires |sep| > 0
    ensures var l := Last(Split(s, sep));
      && |l| <= |s| && s[|s| - |l|..] == l
      && !Contains(l, sep)
      && (!Contains(s, sep) ==> l == s)
      && (Contains(s, sep) <==> (|l| + |sep| <= |s| && OccursAt(s, sep, |s| - |l| - |sep|)))
  {
    var k := SplitFromLast(s, sep, 0);
    var l := s[k..];
    forall j: nat
      ensures !OccursAt(l, sep, j)
    {
      OccursInSuffix(s, sep, k, j);
    }
    if |l| + |sep| <= |s| {
      ContainsIff(s, sep, |s| - |l| - |sep|);
    }
  }

  /** When the separator cannot overlap itself, the last piece of a split
      is exactly what follows the LAST occurrence. */
  lemma SplitLastAfter(a: string, sep: string, b: string)
    requires LeadUnique(sep)
    requires !Contains(b, sep)
    ensures Last(Split(a + sep + b, sep)) == b
  {
    var s := a + sep + b;
    var m := |a| + |sep|;
    assert s[|a|..m] == sep;
    assert s[m..] == b;
    ContainsIff(s, sep, |a|);
    var k := SplitFromLast(s, sep, 0);
    forall j: nat | m <= j
      ensures !OccursAt(s, sep, j)
    {
      OccursInSuffix(s, sep, m, j - m);
      ContainsIff(b, sep, j - m);
    }
    NoOverlap(s, sep, |a|, k - |sep|);
    NoOverlap(s, sep, k - |sep|, |a|);
  }

  /** When the separator cannot overlap itself, the first piece of a split
      is exactly what precedes the FIRST occurrence. */
  lemma SplitHeadBefore(a: string, sep: string, b: string)
    requires LeadUnique(sep)
    requires !Contains(a, sep)
    ensures Split(a + sep + b, sep)[0] == a
  {
    var s := a + sep + b;
    assert s[|a|..|a| + |sep|] == sep;
    assert s[..|a|] == a;
    ContainsIff(s, sep, |a|);
    var i := IndexOf(s, sep, 0).value;
    assert Split(s, sep)[0] == s[..i];
    forall j: nat | j + |sep| <= |a|
      ensures !OccursAt(s, sep, j)
    {
      OccursInPrefix(s, sep, |a|, j);
      ContainsIff(a, sep, j);
    }
    assert OccursAt(s, sep, |a|);
    NoOverlap(s, sep, i, |a|);
    assert i == |a|;
  }

  // ---------------------------------------------------------------------
  // Character deletion and subsequences
  // ---------------------------------------------------------------------

  /** The elements of `s` that satisfy `keep`, in order. Python's
      `s.replace(ch, "")`, a character-class `re.sub` and a loop that
      appends only some items are instances. */
  function Filter<T>(s: seq<T>, keep: T -> bool): (r: seq<T>)
    ensures |r| <= |s|
    ensures forall k :: 0 <= k < |r| ==> keep(r[k])
  {
    if |s| == 0 then []
    else (if keep(s[0]) then [s[0]] else []) + Filter(s[1..], keep)
  }

  lemma {:induction false} FilterConcat(x: string, y: string, keep: char -> bool)
    ensures Filter(x + y, keep) == Filter(x, keep) + Filter(y, keep)
    decreases |x|
  {
    if |x| > 0 {
      assert (x + y)[1..] == x[1..] + y;
      FilterConcat(x[1..], y, keep);
    } else {
      assert x + y == y;
    }
  }

  /** Filtering twice is filtering once by the conjunction. */
  lemma {:induction false} FilterFilter(s: string, p: char -> bool, q: char -> bool, pq: char -> bool)
    requires forall c :: pq(c) == (p(c) && q(c))
    ensures Filter(Filter(s, p), q) == Filter(s, pq)
    decreases |s|
  {
    if |s| > 0 {
      FilterFilter(s[1..], p, q, pq);
      var head := if p(s[0]) then [s[0]] else "";
      FilterConcat(head, Filter(s[1..], p), q);
      if p(s[0]) {
        assert Filter(head, q) == (if q(s[0]) then [s[0]] else "") by {
          assert head[1..] == "";
        }
      }
    }
  }

  /** Nothing is kept exactly when no element passes the test. */
  lemma {:induction false} FilterEmptyIff<T>(s: seq<T>, keep: T -> bool)
    ensures |Filter(s, keep)| == 0 <==> forall k :: 0 <= k < |s| ==> !keep(s[k])
    decreases |s|
  {
    if |s| > 0 {
      FilterEmptyIff(s[1..], keep);
      assert forall k :: 1 <= k < |s| ==> s[k] == s[1..][k - 1];
    }
  }

  /** A string all of whose characters are kept is left unchanged. */
  lemma {:induction false} FilterKeepsAll(s: string, keep: char -> bool)
    requires forall k :: 0 <= k < |s| ==> keep(s[k])
    ensures Filter(s, keep) == s
    decreases |s|
  {
    if |s| > 0 {
      FilterKeepsAll(s[1..], keep);
      assert [s[0]] + s[1..] == s;
    }
  }

  /** `idx` picks, in strictly increasing positions of `b`, the characters of `a`. */
  ghost predicate Embeds(idx: seq<nat>, a: string, b: string) {
    && |idx| == |a|
    && (forall k :: 0 <= k < |idx| ==> idx[k] < |b| && b[idx[k]] == a[k])
    && (forall k, l :: 0 <= k < l < |idx| ==> idx[k] < idx[l])
  }

  /** `a` is obtained from `b` by deleting characters only. */
  ghost predicate IsSubsequence(a: string, b: string) {
    exists idx :: Embeds(idx, a, b)
  }

  /** An embedding into `b[1..]` is, shifted by one, an embedding into `b`. */
  lemma EmbedShift(idx: seq<nat>, a: string, b: string) returns (w: seq<nat>)
    requires |b| > 0 && Embeds(idx, a, b[1..])
    ensures Embeds(w, a, b)
    ensures forall k :: 0 <= k < |w| ==> 0 < w[k]
  {
    w := seq(|idx|, k requires 0 <= k < |idx| => idx[k] + 1);
    forall k | 0 <= k < |w|
      ensures w[k] < |b| && b[w[k]] == a[k]
    {
      assert b[1..][idx[k]] == b[idx[k] + 1];
    }
  }

  /** Keeping the first character of `b` extends an embedding by index 0. */
  lemma EmbedCons(w: seq<nat>, a: string, b: string)
    requires |b| > 0 && Embeds(w, a, b)
    requires forall k :: 0 <= k < |w| ==> 0 < w[k]
    ensures Embeds([0] + w, [b[0]] + a, b)
  {
  }

  lemma {:induction false} FilterIsSubsequence(s: string, keep: char -> bool)
    ensures IsSubsequence(Filter(s, keep), s)
    decreases |s|
  {
    if |s| == 0 {
      assert Embeds([], Filter(s, keep), s);
    } else {
      var tail := Filter(s[1..], keep);
      FilterIsSubsequence(s[1..], keep);
      var idx :| Embeds(idx, tail, s[1..]);
      var w := EmbedShift(idx, tail, s);
      if keep(s[0]) {
        EmbedCons(w, tail, s);
        assert Filter(s, keep) == [s[0]] + tail;
      } else {
        assert Filter(s, keep) == tail;
      }
    }
  }

  lemma SliceIsSubsequence(s: string, lo: nat, hi: nat)
    requires lo <= hi <= |s|
    ensures IsSubsequence(s[lo..hi], s)
  {
    var idx := seq(hi - lo, k requires 0 <= k < hi - lo => lo + k);
    assert Embeds(idx, s[lo..hi], s);
  }

  lemma SubsequenceTransitive(a: string, b: string, c: string)
    requires IsSubsequence(a, b) && IsSubsequence(b, c)
    ensures IsSubsequence(a, c)
  {
    var ab :| Embeds(ab, a, b);
    var bc :| Embeds(bc, b, c);
    var ac := seq(|ab|, k requires 0 <= k < |ab| => bc[ab[k]]);
    assert Embeds(ac, a, c);
  }

  // ---------------------------------------------------------------------
  // Whitespace and `strip`
  // ---------------------------------------------------------------------

  /** Python's `str.isspace` for one character: the ASCII controls 9-13 and
      28-31, the space, and the Unicode separators Python treats as blank. */
  predicate IsSpace(c: char) {
    var n := c as int;
    || (9 <= n <= 13) || (28 <= n <= 32)
    || n == 0x85 || n == 0xA0 || n == 0x1680
    || (0x2000 <= n <= 0x200A)
    || n == 0x2028 || n == 0x2029 || n == 0x202F || n == 0x205F || n == 0x3000
  }

  predicate AllSpace(s: string) {
    forall k :: 0 <= k < |s| ==> IsSpace(s[k])
  }

  lemma AllSpaceCons(c: char, t: string)
    requires IsSpace(c) && AllSpace(t)
    ensures AllSpace([c] + t)
  {
    assert forall k :: 1 <= k < |[c] + t| ==> ([c] + t)[k] == t[k - 1];
  }

  /** No blank character at either end. */
  predicate Trimmed(t: string) {
    |t| == 0 || (!IsSpace(t[0]) && !IsSpace(t[|t| - 1]))
  }

  /** Python's `s.lstrip()`. */
  function LStrip(s: string): (r: string)
    ensures |r| <= |s| && r == s[|s| - |r|..]
    ensures AllSpace(s[..|s| - |r|])
    ensures |r| == 0 || !IsSpace(r[0])
  {
    if |s| > 0 && IsSpace(s[0]) then
      var r := LStrip(s[1..]);
      assert s[1..][|s| - 1 - |r|..] == s[|s| - |r|..];
      assert s[..|s| - |r|] == [s[0]] + s[1..][..|s| - 1 - |r|];
      AllSpaceCons(s[0], s[1..][..|s| - 1 - |r|]);
      r
    else s
  }

  /** Python's `s.rstrip()`. */
  function RStrip(s: string): (r: string)
    ensures |r| <= |s| && r == s[..|r|]
    ensures AllSpace(s[|r|..])
    ensures |r| == 0 || !IsSpace(r[|r| - 1])
  {
    if |s| > 0 && IsSpace(s[|s| - 1]) then RStrip(s[..|s| - 1]) else s
  }

  /** Python's `s.strip()`. */
  function Strip(s: string): (r: string)
    ensures Trimmed(r)
  {
    var l := LStrip(s);
    var r := RStrip(l);
    assert |r| > 0 ==> r[0] == l[0];
    r
  }

  /** `Strip(s)` is the slice `s[i..j]` left after removing the blank runs
      `s[..i]` and `s[j..]`. */
  lemma StripSlice(s: string) returns (i: nat, j: nat)
    ensures i <= j <= |s| && Strip(s) == s[i..j]
    ensures AllSpace(s[..i]) && AllSpace(s[j..])
  {
    var l := LStrip(s);
    var r := RStrip(l);
    i, j := |s| - |l|, |s| - |l| + |r|;
    assert s[i..j] == l[..|r|];
    assert s[j..] == l[|r|..];
  }

  /** Every character `strip` keeps comes from its input. */
  lemma StripKeeps(s: string, keep: char -> bool)
    requires forall k :: 0 <= k < |s| ==> keep(s[k])
    ensures forall k :: 0 <= k < |Strip(s)| ==> keep(Strip(s)[k])
  {
    var i, j := StripSlice(s);
    forall k | 0 <= k < |Strip(s)|
      ensures keep(Strip(s)[k])
    {
      assert Strip(s)[k] == s[i + k];
    }
  }

  lemma {:induction false} LStripAt(s: string, i: nat)
    requires i <= |s| && AllSpace(s[..i])
    requires i == |s| || !IsSpace(s[i])
    ensures LStrip(s) == s[i..]
    decreases i
  {
    if i > 0 {
      assert s[..i][0] == s[0];
      assert s[1..][..i - 1] == s[1..i];
      assert forall k :: 0 <= k < i - 1 ==> s[1..i][k] == s[..i][k + 1];
      LStripAt(s[1..], i - 1);
    }
  }

  lemma {:induction false} RStripAt(s: string, j: nat)
    requires j <= |s| && AllSpace(s[j..])
    requires j == 0 || !IsSpace(s[j - 1])
    ensures RStrip(s) == s[..j]
    decreases |s| - j
  {
    if j < |s| {
      var s' := s[..|s| - 1];
      assert s[j..][|s| - 1 - j] == s[|s| - 1];
      assert s'[j..] == s[j..|s| - 1];
      assert forall k :: 0 <= k < |s| - 1 - j ==> s[j..|s| - 1][k] == s[j..][k];
      RStripAt(s', j);
      assert s'[..j] == s[..j];
    }
  }

  /** A string of blanks strips to nothing. */
  lemma StripAllSpace(s: string)
    requires AllSpace(s)
    ensures Strip(s) == ""
  {
    assert s[..|s|] == s;
    LStripAt(s, |s|);
  }

  lemma StripAtNonEmpty(s: string, i: nat, j: nat)
    requires i < j <= |s|
    requires AllSpace(s[..i]) && AllSpace(s[j..])
    requires Trimmed(s[i..j])
    ensures Strip(s) == s[i..j]
  {
    var l := s[i..];
    assert LStrip(s) == l by {
      assert s[i..j][0] == s[i];
      LStripAt(s, i);
    }
    assert RStrip(l) == s[i..j] by {
      assert l[j - i..] == s[j..];
      assert l[j - i - 1] == s[i..j][j - i - 1];
      RStripAt(l, j - i);
      assert l[..j - i] == s[i..j];
    }
  }

  lemma AllSpaceJoin(s: string, i: nat)
    requires i <= |s|
    requires AllSpace(s[..i]) && AllSpace(s[i..])
    ensures AllSpace(s)
  {
    forall k | 0 <= k < |s|
      ensures IsSpace(s[k])
    {
      if k < i {
        assert s[..i][k] == s[k];
      } else {
        assert s[i..][k - i] == s[k];
      }
    }
  }

  /** `strip` is characterised by its contract: removing blank runs from
      both ends so that no blank is left at either end gives `Strip(s)`. */
  lemma StripAt(s: string, i: nat, j: nat)
    requires i <= j <= |s|
    requires AllSpace(s[..i]) && AllSpace(s[j..])
    requires Trimmed(s[i..j])
    ensures Strip(s) == s[i..j]
  {
    if i < j {
      StripAtNonEmpty(s, i, j);
    } else {
      AllSpaceJoin(s, i);
      StripAllSpace(s);
    }
  }

  lemma AllSpaceAppend(x: string, y: string)
    requires AllSpace(x) && AllSpace(y)
    ensures AllSpace(x + y)
  {
    forall k | 0 <= k < |x + y|
      ensures IsSpace((x + y)[k])
    {
      if k >= |x| {
        assert (x + y)[k] == y[k - |x|];
      }
    }
  }

  lemma ConcatSlices(u: string, w: string, i: nat, j: nat)
    requires i <= j <= |u|
    ensures (u + w)[..i] == u[..i]
    ensures (u + w)[i..j] == u[i..j]
    ensures (u + w)[j..] == u[j..] + w
  {
  }

  /** Appending blanks does not change the stripped text. */
  lemma StripAppendSpace(u: string, w: string)
    requires AllSpace(w)
    ensures Strip(u + w) == Strip(u)
  {
    var i, j := StripSlice(u);
    var s := u + w;
    ConcatSlices(u, w, i, j);
    AllSpaceAppend(u[j..], w);
    StripAt(s, i, j);
  }

  /** Stripping an already trimmed string changes nothing. */
  lemma StripTrimmed(t: string)
    requires Trimmed(t)
    ensures Strip(t) == t
  {
    assert t[..0] == "" && t[|t|..] == "" && t[0..|t|] == t;
    StripAt(t, 0, |t|);
  }

  // ---------------------------------------------------------------------
  // `upper`
  // ---------------------------------------------------------------------

  predicate IsLowerAscii(c: char) {
    'a' <= c <= 'z'
  }

  function UpperChar(c: char): (u: char)
    ensures !IsLowerAscii(u)
    ensures IsLowerAscii(c) ==> u as int == c as int - 32
    ensures !IsLowerAscii(c) ==> u == c
  {
    if IsLowerAscii(c) then (c as int - 32) as char else c
  }

  /** Python's `s.upper()`, restricted to the ASCII letters. */
  function Upper(s: string): (r: string)
    ensures |r| == |s|
    ensures forall k :: 0 <= k < |r| ==> !IsLowerAscii(r[k])
    ensures forall k :: 0 <= k < |s| && !IsLowerAscii(s[k]) ==> r[k] == s[k]
    ensures forall k :: 0 <= k < |s| ==> r[k] == UpperChar(s[k])
  {
    if |s| == 0 then "" else [UpperChar(s[0])] + Upper(s[1..])
  }

  /** A string with no lower-case ASCII letter is its own upper case. */
  lemma UpperNoLower(s: string)
    requires forall k :: 0 <= k < |s| ==> !IsLowerAscii(s[k])
    ensures Upper(s) == s
  {
  }

  /** `upper` is idempotent. */
  lemma UpperIdempotent(s: string)
    ensures Upper(Upper(s)) == Upper(s)
  {
    UpperNoLower(Upper(s));
  }
}
