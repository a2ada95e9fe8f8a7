/** The ECMAScript string operations the client and the server rely on
    (`split` and `join` with a string separator, `trim`, `includes`,
    `startsWith`, `toLowerCase`, `replace` with a string or a global literal
    pattern), written over `string`, that is `seq<char>`. */
module JsString {

  datatype Option<T> = None | Some(value: T)

  // ---------------------------------------------------------------------------
  // Whitespace and trim
  // ---------------------------------------------------------------------------

  /** The code points `String.prototype.trim` strips: ECMAScript WhiteSpace
      (tab, vertical tab, form feed, space, no-break space, byte-order mark and
      the Unicode space separators) and LineTerminator (LF, CR, LS, PS). */
  predicate IsWhitespace(c: char) {
    || c == '\t' || c == '\n' || c == '\U{B}' || c == '\U{C}' || c == '\r' || c == ' '
    || c == '\U{A0}' || c == '\U{1680}' || ('\U{2000}' <= c <= '\U{200A}')
    || c == '\U{2028}' || c == '\U{2029}' || c == '\U{202F}' || c == '\U{205F}'
    || c == '\U{3000}' || c == '\U{FEFF}'
  }

  predicate AllWhitespace(s: string) {
    forall i :: 0 <= i < |s| ==> IsWhitespace(s[i])
  }

  /** Neither end of `s` is whitespace. */
  predicate IsTrimmed(s: string) {
    s == [] || (!IsWhitespace(s[0]) && !IsWhitespace(s[|s| - 1]))
  }

  /** Drops the leading whitespace: what is dropped is all whitespace and what
      is kept, if anything, starts with a non-whitespace character. */
  function TrimStart(s: string): (r: string)
    ensures |r| <= |s| && r == s[|s| - |r|..]
    ensures AllWhitespace(s[..|s| - |r|])
    ensures r != [] ==> !IsWhitespace(r[0])
    decreases |s|
  {
    if s != [] && IsWhitespace(s[0]) then
      var r := TrimStart(s[1..]);
      assert s[..|s| - |r|] == [s[0]] + s[1..][..|s| - 1 - |r|];
      r
    else
      s
  }

  /** Drops the trailing whitespace, symmetrically to TrimStart. */
  function TrimEnd(s: string): (r: string)
    ensures |r| <= |s| && r == s[..|r|]
    ensures AllWhitespace(s[|r|..])
    ensures r != [] ==> !IsWhitespace(r[|r| - 1])
    decreases |s|
  {
    if s != [] && IsWhitespace(s[|s| - 1]) then
      var r := TrimEnd(s[..|s| - 1]);
      assert s[|r|..] == s[..|s| - 1][|r|..] + [s[|s| - 1]];
      r
    else
      s
  }

  lemma SuffixSlices(s: string, a: nat, n: nat)
    requires a + n <= |s|
    ensures s[a..][..n] == s[a..a + n] && s[a..][n..] == s[a + n..]
  {
  }

  /** `String.prototype.trim`. */
  function Trim(s: string): (r: string)
    ensures IsTrimmed(r)
    ensures r == [] <==> AllWhitespace(s)
    ensures exists a, b :: 0 <= a <= b <= |s| && r == s[a..b] && AllWhitespace(s[..a]) && AllWhitespace(s[b..])
  {
    var t := TrimStart(s);
    var r := TrimEnd(t);
    var a := |s| - |t|;
    SuffixSlices(s, a, |r|);
    assert AllWhitespace(s[..a]) && AllWhitespace(s[a + |r|..]) && r == s[a..a + |r|];
    assert r != [] ==> r[0] == t[0];
    assert r == [] ==> t == [];
    assert t != [] ==> t[0] == s[|s| - |t|];
    assert t == [] ==> s[..|s| - |t|] == s;
    r
  }

  /** Trimming never brings in a character that was not there. */
  lemma TrimKeepsAbsentChar(s: string, c: char)
    requires c !in s
    ensures c !in Trim(s)
  {
    var t := TrimStart(s);
    assert t == s[|s| - |t|..];
    assert c !in t;
    var r := TrimEnd(t);
    assert r == t[..|r|];
  }

  /** Trimming a string twice is trimming it once. */
  lemma TrimOfTrimmed(s: string)
    requires IsTrimmed(s)
    ensures Trim(s) == s
  {
  }

  // ---------------------------------------------------------------------------
  // Searching: indexOf, includes, startsWith
  // ---------------------------------------------------------------------------

  /** `pat` occurs in `s` starting at position `k`. */
  predicate OccursAt(s: string, pat: string, k: nat) {
    k + |pat| <= |s| && s[k..k + |pat|] == pat
  }

  /** ECMAScript StringIndexOf(s, pat, from): the first position at or after
      `from` where `pat` occurs. */
  function IndexOfFrom(s: string, pat: string, from: nat): (r: Option<nat>)
    requires from <= |s|
    ensures r.Some? ==> from <= r.value && OccursAt(s, pat, r.value)
    decreases |s| - from
  {
    if OccursAt(s, pat, from) then Some(from)
    else if from == |s| then None
    else IndexOfFrom(s, pat, from + 1)
  }

  /** The position found is the first one, and nothing is found exactly when
      the pattern does not occur at or after `from`. */
  lemma {:induction false} IndexOfFromFirst(s: string, pat: string, from: nat)
    requires from <= |s|
    ensures IndexOfFrom(s, pat, from).Some? ==>
      forall k :: from <= k < IndexOfFrom(s, pat, from).value ==> !OccursAt(s, pat, k)
    ensures IndexOfFrom(s, pat, from).None? <==> forall k :: from <= k <= |s| ==> !OccursAt(s, pat, k)
    decreases |s| - from
  {
    if !OccursAt(s, pat, from) && from < |s| {
      IndexOfFromFirst(s, pat, from + 1);
    }
  }

  /** `String.prototype.includes`. */
  function Includes(s: string, pat: string): (b: bool)
    ensures b <==> exists k :: 0 <= k <= |s| && OccursAt(s, pat, k)
  {
    IndexOfFromFirst(s, pat, 0);
    var r := IndexOfFrom(s, pat, 0);
    assert r.Some? ==> OccursAt(s, pat, r.value) && r.value <= |s|;
    r.Some?
  }

  /** `String.prototype.startsWith`. */
  predicate StartsWith(s: string, pat: string) {
    OccursAt(s, pat, 0)
  }

  lemma StartsWithChar(s: string, c: char)
    ensures StartsWith(s, [c]) <==> s != [] && s[0] == c
  {
    if s != [] && s[0] == c { assert s[0..1] == [c]; }
  }

  /** An occurrence inside a slice is an occurrence in the whole string. */
  lemma OccursInSlice(s: string, pat: string, a: nat, b: nat, k: nat)
    requires a <= b <= |s| && OccursAt(s[a..b], pat, k)
    ensures OccursAt(s, pat, a + k) && a + k + |pat| <= b
  {
    forall m | 0 <= m < |pat| ensures s[a + k + m] == pat[m] {
      assert s[a..b][k..k + |pat|][m] == pat[m];
    }
    assert s[a + k..a + k + |pat|] == pat;
  }

  /** A slice of a string in which `pat` does not occur does not contain it either. */
  lemma SliceExcludes(s: string, pat: string, a: nat, b: nat)
    requires a <= b <= |s| && !Includes(s, pat)
    ensures !Includes(s[a..b], pat)
  {
    if Includes(s[a..b], pat) {
      var k :| 0 <= k <= |s[a..b]| && OccursAt(s[a..b], pat, k);
      OccursInSlice(s, pat, a, b, k);
    }
  }

  /** Trimming never brings in an occurrence of a pattern. */
  lemma TrimKeepsExcluded(s: string, pat: string)
    requires !Includes(s, pat)
    ensures !Includes(Trim(s), pat)
  {
    var t := TrimStart(s);
    SliceExcludes(s, pat, |s| - |t|, |s|);
    assert t == s[|s| - |t|..|s|];
    var r := TrimEnd(t);
    SliceExcludes(t, pat, 0, |r|);
    assert r == t[0..|r|];
  }

  // ---------------------------------------------------------------------------
  // toLowerCase
  // ---------------------------------------------------------------------------

  function LowerChar(c: char): char {
    if 'A' <= c <= 'Z' then (c as int + 32) as char else c
  }

  /** `String.prototype.toLowerCase`, on the ASCII letters. */
  function ToLower(s: string): (r: string)
    ensures |r| == |s|
    ensures forall i :: 0 <= i < |s| ==> r[i] == LowerChar(s[i])
  {
    seq(|s|, i requires 0 <= i < |s| => LowerChar(s[i]))
  }

  // ---------------------------------------------------------------------------
  // split and join
  // ---------------------------------------------------------------------------

  /** `Array.prototype.join`: the parts with `sep` between each two. */
  function Join(parts: seq<string>, sep: string): string
    decreases |parts|
  {
    if |parts| == 0 then []
    else if |parts| == 1 then parts[0]
    else parts[0] + sep + Join(parts[1..], sep)
  }

  /** The ECMAScript `split` loop with a non-empty string separator, from
      position `from` on: cut at the next occurrence, resume after it. */
  function SplitFrom(s: string, sep: string, from: nat): (parts: seq<string>)
    requires |sep| > 0 && from <= |s|
    ensures |parts| >= 1
    decreases |s| - from
  {
    match IndexOfFrom(s, sep, from)
    case None => [s[from..]]
    case Some(j) => [s[from..j]] + SplitFrom(s, sep, j + |sep|)
  }

  /** `String.prototype.split(sep)` for a non-empty string `sep`. */
  function Split(s: string, sep: string): (parts: seq<string>)
    requires |sep| > 0
    ensures |parts| >= 1
  {
    SplitFrom(s, sep, 0)
  }

  /** Where the next separator is found, the suffix is the piece before it,
      the separator, and what follows. */
  lemma SplitCut(s: string, sep: string, from: nat, j: nat)
    requires from <= |s| && IndexOfFrom(s, sep, from) == Some(j)
    ensures j + |sep| <= |s|
    ensures s[from..] == s[from..j] + sep + s[j + |sep|..]
  {
    assert OccursAt(s, sep, j);
    SliceAround(s, from, j, j + |sep|);
  }

  lemma {:induction false} SplitFromJoin(s: string, sep: string, from: nat)
    requires |sep| > 0 && from <= |s|
    ensures Join(SplitFrom(s, sep, from), sep) == s[from..]
    decreases |s| - from
  {
    match IndexOfFrom(s, sep, from)
    case None =>
      assert SplitFrom(s, sep, from) == [s[from..]];
    case Some(j) =>
      SplitCut(s, sep, from, j);
      var piece := s[from..j];
      var rest := SplitFrom(s, sep, j + |sep|);
      SplitFromJoin(s, sep, j + |sep|);
      assert SplitFrom(s, sep, from) == [piece] + rest;
      JoinCons(piece, rest, sep);
  }

  lemma JoinCons(p: string, rest: seq<string>, sep: string)
    requires |rest| >= 1
    ensures Join([p] + rest, sep) == p + sep + Join(rest, sep)
  {
    assert ([p] + rest)[1..] == rest;
  }

  lemma SliceAround(s: string, a: nat, b: nat, c: nat)
    requires a <= b <= c <= |s|
    ensures s[a..] == s[a..b] + s[b..c] + s[c..]
  {
  }

  /** Joining the parts of a split with the same separator gives back the
      string: splitting loses nothing and reorders nothing. */
  lemma SplitJoin(s: string, sep: string)
    requires |sep| > 0
    ensures Join(Split(s, sep), sep) == s
  {
    SplitFromJoin(s, sep, 0);
  }

  lemma {:induction false} SplitFromPiecesExclude(s: string, sep: string, from: nat)
    requires |sep| > 0 && from <= |s|
    ensures forall i :: 0 <= i < |SplitFrom(s, sep, from)| ==> !Includes(SplitFrom(s, sep, from)[i], sep)
    decreases |s| - from
  {
    var parts := SplitFrom(s, sep, from);
    IndexOfFromFirst(s, sep, from);
    match IndexOfFrom(s, sep, from)
    case None =>
      if Includes(s[from..], sep) {
        var k :| 0 <= k <= |s[from..]| && OccursAt(s[from..], sep, k);
        assert s[from..] == s[from..|s|];
        OccursInSlice(s, sep, from, |s|, k);
      }
    case Some(j) =>
      SplitFromPiecesExclude(s, sep, j + |sep|);
      if Includes(s[from..j], sep) {
        var k :| 0 <= k <= |s[from..j]| && OccursAt(s[from..j], sep, k);
        OccursInSlice(s, sep, from, j, k);
      }
      assert parts == [s[from..j]] + SplitFrom(s, sep, j + |sep|);
  }

  /** No part of a split contains the separator. */
  lemma SplitPiecesExclude(s: string, sep: string)
    requires |sep| > 0
    ensures forall i :: 0 <= i < |Split(s, sep)| ==> !Includes(Split(s, sep)[i], sep)
  {
    SplitFromPiecesExclude(s, sep, 0);
  }

  // ---------------------------------------------------------------------------
  // replace
  // ---------------------------------------------------------------------------

  /** `s.replace(pat, rep)` with a string pattern: only the first occurrence. */
  function ReplaceFirst(s: string, pat: string, rep: string): string {
    match IndexOfFrom(s, pat, 0)
    case None => s
    case Some(i) => s[..i] + rep + s[i + |pat|..]
  }

  /** `s.replace(/pat/g, rep)` for a literal pattern: every non-overlapping
      occurrence, found left to right, exactly as `split` finds them. */
  function ReplaceAll(s: string, pat: string, rep: string): string
    requires |pat| > 0
  {
    Join(Split(s, pat), rep)
  }

  /** Replacing the first occurrence of `pat` at the front of `s` drops it. */
  lemma ReplaceFirstAtFront(s: string, pat: string)
    requires StartsWith(s, pat)
    ensures ReplaceFirst(s, pat, "") == s[|pat|..]
  {
  }

  /** The characters of `s` other than `c`, in order: the reference meaning of
      deleting every `c`. */
  function Without(s: string, c: char): string
    decreases |s|
  {
    if s == [] then [] else (if s[0] == c then [] else [s[0]]) + Without(s[1..], c)
  }

  lemma {:induction false} WithoutAppend(a: string, b: string, c: char)
    ensures Without(a + b, c) == Without(a, c) + Without(b, c)
    decreases |a|
  {
    if a == [] {
      assert a + b == b;
    } else {
      assert (a + b)[0] == a[0];
      assert (a + b)[1..] == a[1..] + b;
      WithoutAppend(a[1..], b, c);
      assert Without(a + b, c) == (if a[0] == c then [] else [a[0]]) + Without(a[1..] + b, c);
    }
  }

  lemma {:induction false} WithoutAbsent(s: string, c: char)
    requires c !in s
    ensures Without(s, c) == s
    decreases |s|
  {
    if s != [] { WithoutAbsent(s[1..], c); }
  }

  lemma {:induction false} WithoutExcludes(s: string, c: char)
    ensures c !in Without(s, c)
    decreases |s|
  {
    if s != [] { WithoutExcludes(s[1..], c); }
  }

  /** Deleting `c` around one occurrence of it. */
  lemma WithoutAround(piece: string, c: char, tail: string)
    requires c !in piece
    ensures Without(piece + [c] + tail, c) == piece + Without(tail, c)
  {
    WithoutAppend(piece + [c], tail, c);
    WithoutAppend(piece, [c], c);
    WithoutAbsent(piece, c);
    assert Without([c], c) == [] + Without([], c);
    assert Without(piece + [c], c) == piece;
  }

  /** No position in `a..b` holds the one-character pattern `[c]`, so the
      slice has no `c`. */
  lemma NoCharInSlice(s: string, c: char, a: nat, b: nat)
    requires a <= b <= |s|
    requires forall k :: a <= k < b ==> !OccursAt(s, [c], k)
    ensures c !in s[a..b]
  {
    forall k | a <= k < b ensures s[k] != c {
      assert !OccursAt(s, [c], k);
      assert s[k..k + 1] == [s[k]];
    }
  }

  /** The last piece of a char split: no `c` is left from `from` on. */
  lemma ReplaceAllCharLast(s: string, c: char, from: nat)
    requires from <= |s| && IndexOfFrom(s, [c], from).None?
    ensures Join(SplitFrom(s, [c], from), "") == Without(s[from..], c)
  {
    IndexOfFromFirst(s, [c], from);
    NoCharInSlice(s, c, from, |s|);
    assert s[from..|s|] == s[from..];
    WithoutAbsent(s[from..], c);
  }

  /** The piece before the first `c` at or after `from` has no `c`, and the
      suffix from `from` is that piece, the `c`, and what follows. */
  lemma FirstCharCut(s: string, c: char, from: nat, j: nat)
    requires from <= |s| && IndexOfFrom(s, [c], from) == Some(j)
    ensures j < |s|
    ensures c !in s[from..j]
    ensures s[from..] == s[from..j] + [c] + s[j + 1..]
  {
    IndexOfFromFirst(s, [c], from);
    NoCharInSlice(s, c, from, j);
    assert OccursAt(s, [c], j);
    SliceAround(s, from, j, j + 1);
  }

  /** One cut of a char split: the piece before the next `c`, then the rest. */
  lemma ReplaceAllCharStep(s: string, c: char, from: nat, j: nat)
    requires from <= |s| && IndexOfFrom(s, [c], from) == Some(j)
    requires Join(SplitFrom(s, [c], j + 1), "") == Without(s[j + 1..], c)
    ensures Join(SplitFrom(s, [c], from), "") == Without(s[from..], c)
  {
    FirstCharCut(s, c, from, j);
    var piece := s[from..j];
    var tail := s[j + 1..];
    var rest := SplitFrom(s, [c], j + 1);
    assert SplitFrom(s, [c], from) == [piece] + rest;
    JoinCons(piece, rest, "");
    assert piece + "" == piece;
    WithoutAround(piece, c, tail);
    calc {
      Join(SplitFrom(s, [c], from), "");
      Join([piece] + rest, "");
      piece + "" + Join(rest, "");
      piece + Without(tail, c);
      Without(piece + [c] + tail, c);
      Without(s[from..], c);
    }
  }

  lemma {:induction false} ReplaceAllCharFrom(s: string, c: char, from: nat)
    requires from <= |s|
    ensures Join(SplitFrom(s, [c], from), "") == Without(s[from..], c)
    decreases |s| - from
  {
    match IndexOfFrom(s, [c], from)
    case None =>
      ReplaceAllCharLast(s, c, from);
    case Some(j) =>
      ReplaceAllCharFrom(s, c, j + 1);
      ReplaceAllCharStep(s, c, from, j);
  }

  /** `s.replace(/c/g, '')` deletes exactly the occurrences of `c` and keeps
      every other character in order. */
  lemma ReplaceAllCharIsWithout(s: string, c: char)
    ensures ReplaceAll(s, [c], "") == Without(s, c)
    ensures c !in ReplaceAll(s, [c], "")
  {
    ReplaceAllCharFrom(s, c, 0);
    WithoutExcludes(s, c);
  }

  predicate EndsWithChar(s: string, c: char) {
    s != [] && s[|s| - 1] == c
  }

  /** A pair `cc` cannot straddle the seam of `a + b` when `a` does not end
      with `c`. */
  lemma PairStraddles(a: string, b: string, c: char, k: nat)
    requires !EndsWithChar(a, c) && k < |a| < k + 2
    ensures !OccursAt(a + b, [c, c], k)
  {
    if k + 2 <= |a + b| {
      assert (a + b)[k..k + 2][0] == (a + b)[k] == a[k];
    }
  }

  lemma PairEndingAt(s: string, c: char, j: nat)
    requires 1 <= j && OccursAt(s, [c, c], j) && s[j - 1] == c
    ensures OccursAt(s, [c, c], j - 1)
  {
    assert s[j] == s[j..j + 2][0];
    assert s[j - 1..j + 1] == [c, c];
  }

  lemma ConcatExcludesPair(a: string, b: string, c: char)
    requires !Includes(a, [c, c]) && !Includes(b, [c, c]) && !EndsWithChar(a, c)
    ensures !Includes(a + b, [c, c])
  {
    forall k | 0 <= k <= |a + b| ensures !OccursAt(a + b, [c, c], k) {
      if k + 2 <= |a| {
        assert (a + b)[k..k + 2] == a[k..k + 2];
        assert !OccursAt(a, [c, c], k);
      } else if k >= |a| {
        if k + 2 <= |a + b| {
          assert (a + b)[k..k + 2] == b[k - |a|..k - |a| + 2];
        }
        assert !OccursAt(b, [c, c], k - |a|);
      } else {
        PairStraddles(a, b, c, k);
      }
    }
  }

  lemma {:induction false} SplitFromPairPieces(s: string, c: char, from: nat)
    requires from <= |s|
    ensures forall i :: 0 <= i < |SplitFrom(s, [c, c], from)| - 1 ==> !EndsWithChar(SplitFrom(s, [c, c], from)[i], c)
    decreases |s| - from
  {
    IndexOfFromFirst(s, [c, c], from);
    match IndexOfFrom(s, [c, c], from)
    case None =>
    case Some(j) =>
      SplitFromPairPieces(s, c, j + 2);
      var rest := SplitFrom(s, [c, c], j + 2);
      assert forall k :: 0 <= k < |rest| - 1 ==> !EndsWithChar(rest[k], c);
      assert SplitFrom(s, [c, c], from) == [s[from..j]] + rest;
      if EndsWithChar(s[from..j], c) {
        assert s[from..j][j - from - 1] == s[j - 1];
        PairEndingAt(s, c, j);
        assert false;
      }
      forall i | 0 <= i < |rest| ensures !EndsWithChar(([s[from..j]] + rest)[i], c) {
        if i == 0 {
          assert ([s[from..j]] + rest)[0] == s[from..j];
        } else {
          assert ([s[from..j]] + rest)[i] == rest[i - 1];
        }
      }
  }

  lemma {:induction false} JoinExcludesPair(parts: seq<string>, c: char)
    requires forall i :: 0 <= i < |parts| ==> !Includes(parts[i], [c, c])
    requires forall i :: 0 <= i < |parts| - 1 ==> !EndsWithChar(parts[i], c)
    ensures !Includes(Join(parts, ""), [c, c])
    decreases |parts|
  {
    if |parts| > 1 {
      JoinExcludesPair(parts[1..], c);
      assert Join(parts, "") == parts[0] + Join(parts[1..], "");
      ConcatExcludesPair(parts[0], Join(parts[1..], ""), c);
    }
  }

  /** `s.replace(/cc/g, '')` leaves no doubled `c` behind: a piece cut before
      an occurrence never ends in `c`, so no new pair forms where pieces meet. */
  lemma ReplaceAllPairExcludes(s: string, c: char)
    ensures !Includes(ReplaceAll(s, [c, c], ""), [c, c])
  {
    SplitPiecesExclude(s, [c, c]);
    SplitFromPairPieces(s, c, 0);
    assert Split(s, [c, c]) == SplitFrom(s, [c, c], 0);
    JoinExcludesPair(Split(s, [c, c]), c);
  }

  // ---------------------------------------------------------------------------
  // Where each part lands in a join
  // ---------------------------------------------------------------------------

  /** Position in `Join(parts, sep)` at which part `i` starts. */
  function JoinOffset(parts: seq<string>, sep: string, i: nat): nat
    requires i <= |parts|
  {
    if i == 0 then 0 else JoinOffset(parts, sep, i - 1) + |parts[i - 1]| + |sep|
  }

  lemma {:induction false} JoinOffsetTail(parts: seq<string>, sep: string, i: nat)
    requires 1 <= i <= |parts|
    ensures JoinOffset(parts, sep, i) == |parts[0]| + |sep| + JoinOffset(parts[1..], sep, i - 1)
  {
    if i > 1 { JoinOffsetTail(parts, sep, i - 1); }
  }

  lemma SliceOfSlice(s: string, lo: nat, hi: nat, a: nat, b: nat)
    requires lo <= hi <= |s| && a <= b <= hi - lo
    ensures s[lo..hi][a..b] == s[lo + a..lo + b]
  {
    forall i | 0 <= i < b - a ensures s[lo..hi][a..b][i] == s[lo + a..lo + b][i] {
    }
  }

  /** No pair `cc` starts inside a slice that holds none and, unless the
      slice runs to the end, does not end with `c`. */
  lemma NoPairInSlot(s: string, c: char, lo: nat, hi: nat, k: nat)
    requires lo <= k < hi <= |s|
    requires !Includes(s[lo..hi], [c, c])
    requires hi < |s| ==> !EndsWithChar(s[lo..hi], c)
    ensures !OccursAt(s, [c, c], k)
  {
    var t := s[lo..hi];
    if k + 2 <= hi {
      SliceOfSlice(s, lo, hi, k - lo, k - lo + 2);
      assert !OccursAt(t, [c, c], k - lo);
    } else if k + 2 <= |s| {
      assert s[k..k + 2][0] == s[k];
      assert t[|t| - 1] == s[k];
    }
  }

  /** Searching for `cc` from the start of such a slice finds the first
      position after it, or nothing when the slice runs to the end. */
  lemma PairAfterSlot(s: string, c: char, lo: nat, hi: nat)
    requires lo <= hi <= |s|
    requires !Includes(s[lo..hi], [c, c])
    requires hi < |s| ==> !EndsWithChar(s[lo..hi], c) && OccursAt(s, [c, c], hi)
    ensures hi < |s| ==> IndexOfFrom(s, [c, c], lo) == Some(hi)
    ensures hi == |s| ==> IndexOfFrom(s, [c, c], lo) == None
  {
    forall k | lo <= k < hi ensures !OccursAt(s, [c, c], k) {
      NoPairInSlot(s, c, lo, hi, k);
    }
    IndexOfFromFirst(s, [c, c], lo);
    if hi == |s| {
      assert forall k :: lo <= k <= |s| ==> !OccursAt(s, [c, c], k);
    }
  }

  /** One step of the split loop over such a slice: the slice is the next
      piece, and the split resumes after the pair that follows it. */
  lemma SplitAtSlot(s: string, c: char, lo: nat, hi: nat)
    requires lo <= hi <= |s|
    requires !Includes(s[lo..hi], [c, c])
    requires hi < |s| ==> !EndsWithChar(s[lo..hi], c) && OccursAt(s, [c, c], hi)
    ensures hi < |s| ==> SplitFrom(s, [c, c], lo) == [s[lo..hi]] + SplitFrom(s, [c, c], hi + 2)
    ensures hi == |s| ==> SplitFrom(s, [c, c], lo) == [s[lo..]]
  {
    PairAfterSlot(s, c, lo, hi);
  }

  lemma OccursShift(s: string, n: nat, pat: string, f: nat)
    requires n + f <= |s|
    ensures OccursAt(s, pat, n + f) == OccursAt(s[n..], pat, f)
  {
    if n + f + |pat| <= |s| {
      assert s[n..][f..f + |pat|] == s[n + f..n + f + |pat|];
    }
  }

  /** Searching `s` from `n + f` is searching its suffix from `n` on, from `f`. */
  lemma {:induction false} IndexOfFromShift(s: string, n: nat, pat: string, f: nat)
    requires n + f <= |s|
    ensures IndexOfFrom(s[n..], pat, f).None? ==> IndexOfFrom(s, pat, n + f).None?
    ensures IndexOfFrom(s[n..], pat, f).Some? ==> IndexOfFrom(s, pat, n + f) == Some(n + IndexOfFrom(s[n..], pat, f).value)
    decreases |s| - n - f
  {
    OccursShift(s, n, pat, f);
    if !OccursAt(s, pat, n + f) && n + f < |s| {
      IndexOfFromShift(s, n, pat, f + 1);
    }
  }

  lemma SplitFromNone(s: string, sep: string, from: nat)
    requires |sep| > 0 && from <= |s| && IndexOfFrom(s, sep, from).None?
    ensures SplitFrom(s, sep, from) == [s[from..]]
  {
  }

  lemma SplitFromSome(s: string, sep: string, from: nat, j: nat)
    requires |sep| > 0 && from <= |s| && IndexOfFrom(s, sep, from) == Some(j)
    ensures j + |sep| <= |s|
    ensures SplitFrom(s, sep, from) == [s[from..j]] + SplitFrom(s, sep, j + |sep|)
  {
  }

  /** Splitting `s` from `n + f` is splitting its suffix from `n` on, from `f`. */
  lemma {:induction false} SplitFromShift(s: string, n: nat, sep: string, f: nat)
    requires |sep| > 0 && n + f <= |s|
    ensures SplitFrom(s, sep, n + f) == SplitFrom(s[n..], sep, f)
    decreases |s| - n - f
  {
    var r := IndexOfFrom(s[n..], sep, f);
    IndexOfFromShift(s, n, sep, f);
    if r.None? {
      ShiftLastPiece(s, n, sep, f);
    } else {
      var j := r.value;
      assert OccursAt(s[n..], sep, j);
      SplitFromShift(s, n, sep, j + |sep|);
      ShiftNextPiece(s, n, sep, f, j);
    }
  }

  lemma ShiftLastPiece(s: string, n: nat, sep: string, f: nat)
    requires |sep| > 0 && n + f <= |s|
    requires IndexOfFrom(s, sep, n + f).None? && IndexOfFrom(s[n..], sep, f).None?
    ensures SplitFrom(s, sep, n + f) == SplitFrom(s[n..], sep, f)
  {
    assert s[n..][f..] == s[n + f..];
    SplitFromNone(s, sep, n + f);
    SplitFromNone(s[n..], sep, f);
  }

  lemma ShiftNextPiece(s: string, n: nat, sep: string, f: nat, j: nat)
    requires |sep| > 0 && n + f <= |s|
    requires IndexOfFrom(s[n..], sep, f) == Some(j) && IndexOfFrom(s, sep, n + f) == Some(n + j)
    requires j + |sep| <= |s[n..]|
    requires SplitFrom(s, sep, n + j + |sep|) == SplitFrom(s[n..], sep, j + |sep|)
    ensures SplitFrom(s, sep, n + f) == SplitFrom(s[n..], sep, f)
  {
    SplitFromSome(s, sep, n + f, n + j);
    SplitFromSome(s[n..], sep, f, j);
    assert s[n..][f..j] == s[n + f..n + j];
  }

  /** `join` then `split` on a two-character separator `cc` is the identity
      when no part holds `cc` and no part but the last ends with `c`. */
  lemma {:induction false} JoinSplitPairs(parts: seq<string>, c: char)
    requires |parts| >= 1
    requires forall j :: 0 <= j < |parts| ==> !Includes(parts[j], [c, c])
    requires forall j :: 0 <= j < |parts| - 1 ==> !EndsWithChar(parts[j], c)
    ensures Split(Join(parts, [c, c]), [c, c]) == parts
    decreases |parts|
  {
    var sep := [c, c];
    var s := Join(parts, sep);
    var p := parts[0];
    if |parts| == 1 {
      assert s[0..|s|] == p;
      SplitAtSlot(s, c, 0, |s|);
    } else {
      var head := p + sep;
      var t := Join(parts[1..], sep);
      assert s == head + t;
      assert s[0..|p|] == p && s[|p|..|p| + 2] == sep && s[|head|..] == t;
      SplitAtSlot(s, c, 0, |p|);
      SplitFromShift(s, |head|, sep, 0);
      forall j | 0 <= j < |parts[1..]| ensures !Includes(parts[1..][j], sep) && (j < |parts[1..]| - 1 ==> !EndsWithChar(parts[1..][j], c)) {
        assert parts[1..][j] == parts[j + 1];
      }
      JoinSplitPairs(parts[1..], c);
      assert parts == [p] + parts[1..];
    }
  }

  lemma SliceAfter(x: string, y: string, lo: nat, hi: nat)
    requires |x| <= lo <= hi <= |x| + |y|
    ensures (x + y)[lo..hi] == y[lo - |x|..hi - |x|]
  {
  }

  lemma SliceBefore(x: string, y: string, lo: nat, hi: nat)
    requires lo <= hi <= |x|
    ensures (x + y)[lo..hi] == x[lo..hi]
  {
  }

  /** Every part sits in the join at its offset, in order. */
  lemma {:induction false} JoinSlot(parts: seq<string>, sep: string, i: nat)
    requires i < |parts|
    ensures JoinOffset(parts, sep, i) + |parts[i]| <= |Join(parts, sep)|
    ensures Join(parts, sep)[JoinOffset(parts, sep, i)..JoinOffset(parts, sep, i) + |parts[i]|] == parts[i]
    decreases |parts|
  {
    if |parts| > 1 {
      var tail := parts[1..];
      var jt := Join(tail, sep);
      var head := parts[0] + sep;
      assert Join(parts, sep) == head + jt;
      if i == 0 {
        SliceBefore(head, jt, 0, |parts[0]|);
        assert head[0..|parts[0]|] == parts[0];
      } else {
        JoinSlot(tail, sep, i - 1);
        JoinOffsetTail(parts, sep, i);
        assert tail[i - 1] == parts[i];
        var o := JoinOffset(tail, sep, i - 1);
        SliceAfter(head, jt, |head| + o, |head| + o + |parts[i]|);
      }
    }
  }

  /** The first separator of a join follows the first part. */
  lemma JoinFirstGap(parts: seq<string>, sep: string)
    requires 1 < |parts|
    ensures JoinOffset(parts, sep, 1) <= |Join(parts, sep)|
    ensures Join(parts, sep)[|parts[0]|..JoinOffset(parts, sep, 1)] == sep
  {
    var head := parts[0] + sep;
    var jt := Join(parts[1..], sep);
    assert Join(parts, sep) == head + jt;
    assert JoinOffset(parts, sep, 1) == |head|;
    SliceBefore(head, jt, |parts[0]|, |head|);
    assert head[|parts[0]|..|head|] == sep;
  }

  /** Between two consecutive parts the join holds exactly the separator. */
  lemma {:induction false} JoinGap(parts: seq<string>, sep: string, i: nat)
    requires i + 1 < |parts|
    ensures JoinOffset(parts, sep, i + 1) <= |Join(parts, sep)|
    ensures Join(parts, sep)[JoinOffset(parts, sep, i) + |parts[i]|..JoinOffset(parts, sep, i + 1)] == sep
    decreases |parts|
  {
    if i == 0 {
      JoinFirstGap(parts, sep);
    } else {
      var tail := parts[1..];
      var jt := Join(tail, sep);
      var head := parts[0] + sep;
      assert Join(parts, sep) == head + jt;
      JoinGap(tail, sep, i - 1);
      JoinOffsetTail(parts, sep, i);
      JoinOffsetTail(parts, sep, i + 1);
      var lo := JoinOffset(tail, sep, i - 1) + |tail[i - 1]|;
      var hi := JoinOffset(tail, sep, i);
      assert jt[lo..hi] == sep;
      assert tail[i - 1] == parts[i];
      SliceAfter(head, jt, |head| + lo, |head| + hi);
    }
  }
}
