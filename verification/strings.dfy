/**
 * The Python string built-ins the quiz parser relies on: `str.isspace`,
 * `str.strip()`, `str.find`, `str.startswith`, `str.split(sep)` and
 * `str.split(sep, 1)`, each specified by what it computes rather than how.
 */
module Strings {

  /** Python's `str.isspace()` on one character (the Unicode whitespace set). */
  predicate IsSpace(c: char) {
    || c == ' '
    || ('\t' <= c <= '\r')
    || ('\U{1c}' <= c <= '\U{1f}')
    || c == '\U{85}' || c == '\U{a0}' || c == '\U{1680}'
    || ('\U{2000}' <= c <= '\U{200a}')
    || c == '\U{2028}' || c == '\U{2029}' || c == '\U{202f}' || c == '\U{205f}' || c == '\U{3000}'
  }

  predicate AllSpace(s: string) {
    forall i | 0 <= i < |s| :: IsSpace(s[i])
  }

  /** Neither starts nor ends with whitespace. */
  predicate IsStripped(s: string) {
    |s| == 0 || (!IsSpace(s[0]) && !IsSpace(s[|s| - 1]))
  }

  /** Length of the longest all-whitespace prefix of `s`. */
  function LeadingSpace(s: string): (n: nat)
    ensures n <= |s|
    ensures AllSpace(s[..n])
    ensures n < |s| ==> !IsSpace(s[n])
  {
    if |s| == 0 || !IsSpace(s[0]) then 0 else 1 + LeadingSpace(s[1..])
  }

  /** Start of the longest all-whitespace suffix of `s`. */
  function TrailingSpace(s: string): (m: nat)
    ensures m <= |s|
    ensures AllSpace(s[m..])
    ensures 0 < m ==> !IsSpace(s[m - 1])
  {
    if |s| == 0 || !IsSpace(s[|s| - 1]) then |s| else TrailingSpace(s[..|s| - 1])
  }

  /** Python's `s.strip()`: `s` without its leading and trailing whitespace. */
  function Strip(s: string): (r: string)
    ensures IsStripped(r)
    ensures LeadingSpace(s) + |r| <= |s|
    ensures r == s[LeadingSpace(s)..LeadingSpace(s) + |r|]
    ensures AllSpace(s[LeadingSpace(s) + |r|..])
  {
    var n := LeadingSpace(s);
    var rest := s[n..];
    var m := TrailingSpace(rest);
    assert m < |rest| ==> !IsSpace(rest[0]);
    assert rest[m..] == s[n + m..];
    rest[..m]
  }

  /** Stripping twice is stripping once. */
  lemma {:induction false} StripIdempotent(s: string)
    ensures Strip(Strip(s)) == Strip(s)
  {
    var r := Strip(s);
    assert LeadingSpace(r) == 0;
    var r' := Strip(r);
    assert r' == r[..|r'|];
    assert AllSpace(r[|r'|..]);
  }

  /** A whitespace prefix ending before a non-space character (or at the end) is the leading whitespace. */
  lemma {:induction false} LeadingSpaceIs(s: string, a: nat)
    requires a <= |s| && AllSpace(s[..a])
    requires a < |s| ==> !IsSpace(s[a])
    ensures LeadingSpace(s) == a
  {
    if a > 0 {
      assert IsSpace(s[..a][0]);
      assert s[1..][..a - 1] == s[1..a];
      LeadingSpaceIs(s[1..], a - 1);
    }
  }

  /**
   * `Strip` is characterised by what it removes: whenever `s` is whitespace,
   * then a stripped `s[a..b]`, then whitespace, `Strip(s)` is `s[a..b]`.
   */
  lemma StripIs(s: string, a: nat, b: nat)
    requires a <= b <= |s|
    requires AllSpace(s[..a]) && AllSpace(s[b..]) && IsStripped(s[a..b])
    ensures Strip(s) == s[a..b]
  {
    if a == b {
      StripAllSpace(s, a);
    } else {
      StripAroundMiddle(s, a, b);
    }
  }

  /** A string of whitespace only strips to the empty string. */
  lemma StripAllSpace(s: string, a: nat)
    requires a <= |s| && AllSpace(s[..a]) && AllSpace(s[a..])
    ensures Strip(s) == s[a..a]
  {
    forall i | 0 <= i < |s|
      ensures IsSpace(s[i])
    {
      if i < a {
        assert s[..a][i] == s[i];
      } else {
        assert s[a..][i - a] == s[i];
      }
    }
    LeadingSpaceIs(s, |s|);
  }

  /** The non-empty case of `StripIs`: the result starts at `a` and ends at `b`. */
  lemma StripAroundMiddle(s: string, a: nat, b: nat)
    requires a < b <= |s|
    requires AllSpace(s[..a]) && AllSpace(s[b..]) && IsStripped(s[a..b])
    ensures Strip(s) == s[a..b]
  {
    var r := Strip(s);
    assert s[a..b][0] == s[a];
    LeadingSpaceIs(s, a);
    var n := |r|;
    forall j | a + n <= j < |s|
      ensures IsSpace(s[j])
    {
      assert s[a + n..][j - a - n] == s[j];
    }
    assert s[a..b][b - a - 1] == s[b - 1];
    assert b <= a + n;
    forall j | b <= j < |s|
      ensures IsSpace(s[j])
    {
      assert s[b..][j - b] == s[j];
    }
    assert r[n - 1] == s[a + n - 1];
    assert a + n <= b;
  }

  /** A string with no whitespace at either end strips to itself. */
  lemma StripStripped(s: string)
    requires IsStripped(s)
    ensures Strip(s) == s
  {
    assert s[..0] == [] && s[|s|..] == [] && s[0..|s|] == s;
    StripIs(s, 0, |s|);
  }

  /** A stripped string after one space strips back to itself. */
  lemma StripLeadingSpace(s: string)
    requires IsStripped(s)
    ensures Strip(" " + s) == s
  {
    var t := " " + s;
    assert t[..1] == " " && t[|t|..] == [] && t[1..] == s;
    StripIs(t, 1, |t|);
  }

  /** Python's `s.startswith(p)`. */
  predicate StartsWith(s: string, p: string) {
    |p| <= |s| && s[..|p|] == p
  }

  /** `pat` occurs in `s` starting at index `i`. */
  predicate OccursAt(s: string, pat: string, i: int) {
    0 <= i && i + |pat| <= |s| && s[i..i + |pat|] == pat
  }

  /** Python's `pat in s` for strings. */
  predicate Contains(s: string, pat: string) {
    exists i | 0 <= i <= |s| :: OccursAt(s, pat, i)
  }

  /** A one-character pattern occurs exactly where that character does. */
  lemma ContainsChar(s: string, c: char)
    ensures Contains(s, [c]) <==> c in s
  {
    if c in s {
      var i :| 0 <= i < |s| && s[i] == c;
      assert OccursAt(s, [c], i);
    } else {
      forall i | 0 <= i <= |s|
        ensures !OccursAt(s, [c], i)
      {
        if i < |s| {
          assert s[i..i + 1][0] == s[i];
        }
      }
    }
  }

  /** The first index at or after `k` where `pat` occurs, or -1. */
  function FindFrom(s: string, pat: string, k: nat): (r: int)
    requires k <= |s|
    ensures r == -1 ==> forall i | k <= i :: !OccursAt(s, pat, i)
    ensures r != -1 ==> k <= r && OccursAt(s, pat, r)
    ensures r != -1 ==> forall i | k <= i < r :: !OccursAt(s, pat, i)
    decreases |s| - k
  {
    if OccursAt(s, pat, k) then k
    else if k == |s| then -1
    else FindFrom(s, pat, k + 1)
  }

  /** Python's `s.find(pat)`: the index of the first occurrence of `pat`, or -1. */
  function Find(s: string, pat: string): (r: int)
    ensures r == -1 <==> !Contains(s, pat)
    ensures r != -1 ==> OccursAt(s, pat, r)
    ensures r != -1 ==> forall i | 0 <= i < r :: !OccursAt(s, pat, i)
  {
    FindFrom(s, pat, 0)
  }

  /** An occurrence with no earlier occurrence is the one `Find` returns. */
  lemma FindIsFirst(s: string, pat: string, k: int)
    requires OccursAt(s, pat, k)
    requires forall i | 0 <= i < k :: !OccursAt(s, pat, i)
    ensures Find(s, pat) == k
  {
  }

  /** Occurrences inside a prefix are occurrences in the whole string. */
  lemma OccursInPrefix(s: string, m: nat, pat: string, i: int)
    requires m <= |s|
    ensures OccursAt(s[..m], pat, i) ==> OccursAt(s, pat, i)
  {
    if OccursAt(s[..m], pat, i) {
      assert s[..m][i..i + |pat|] == s[i..i + |pat|];
    }
  }

  /** Two overlapping occurrences of `pat` make the overlap both a prefix and a suffix of `pat`. */
  lemma OverlapIsBorder(s: string, pat: string, i: int, j: int)
    requires OccursAt(s, pat, j)
    ensures OccursAt(s, pat, i) && i < j < i + |pat| ==> pat[j - i..] == pat[..|pat| - (j - i)]
  {
    if OccursAt(s, pat, i) && i < j < i + |pat| {
      var d := j - i;
      assert pat[d..] == s[i..i + |pat|][d..] == s[j..i + |pat|];
      assert pat[..|pat| - d] == s[j..j + |pat|][..|pat| - d] == s[j..i + |pat|];
    }
  }

  /** The inverse of splitting: the pieces glued back with `sep` in between. */
  function Join(pieces: seq<string>, sep: string): string
    requires |pieces| >= 1
  {
    if |pieces| == 1 then pieces[0] else pieces[0] + sep + Join(pieces[1..], sep)
  }

  /**
   * Python's `s.split(sep)` for a non-empty separator: cut at every
   * occurrence of `sep`, scanning left to right without overlap. Joining the
   * pieces gives `s` back; `SplitPieces` says where the cuts are.
   */
  function Split(s: string, sep: string): (r: seq<string>)
    requires sep != []
    ensures |r| >= 1
    ensures Join(r, sep) == s
    decreases |s|
  {
    var k := Find(s, sep);
    if k == -1 then [s]
    else
      var head, tail := s[..k], s[k + |sep|..];
      assert s == head + sep + tail;
      [head] + Split(tail, sep)
  }

  /**
   * No piece of a split holds the separator, and every cut is at the leftmost
   * occurrence of the separator that remains.
   */
  lemma {:induction false} SplitPieces(s: string, sep: string)
    requires sep != []
    ensures var r := Split(s, sep);
            && (forall k | 0 <= k < |r| :: !Contains(r[k], sep))
            && (forall k | 0 <= k < |r| - 1 :: Find(r[k] + sep, sep) == |r[k]|)
    decreases |s|
  {
    var k := Find(s, sep);
    if k != -1 {
      var tail := s[k + |sep|..];
      FirstPieceFacts(s, sep, k);
      SplitPieces(tail, sep);
      var r := Split(s, sep);
      assert r == [s[..k]] + Split(tail, sep);
      forall j | 1 <= j < |r|
        ensures r[j] == Split(tail, sep)[j - 1]
      {
      }
    }
  }

  /** The text before the first occurrence of `sep` holds no `sep`, nor does it with `sep` appended before the cut. */
  lemma FirstPieceFacts(s: string, sep: string, k: int)
    requires sep != []
    requires k == Find(s, sep) && k != -1
    ensures !Contains(s[..k], sep)
    ensures Find(s[..k] + sep, sep) == k
  {
    var head := s[..k];
    assert head + sep == s[..k + |sep|];
    forall i | 0 <= i < k
      ensures !OccursAt(head + sep, sep, i)
    {
      OccursInPrefix(s, k + |sep|, sep, i);
    }
    FindIsFirst(head + sep, sep, k);
    forall i
      ensures !OccursAt(head, sep, i)
    {
      OccursInPrefix(s, k, sep, i);
    }
  }

  /**
   * Splitting is the inverse of joining pieces that are shaped like the
   * pieces of a split: the last holds no separator and each other one meets
   * its first separator only at the one appended after it.
   */
  lemma {:induction false} SplitJoin(pieces: seq<string>, sep: string)
    requires sep != [] && |pieces| >= 1
    requires !Contains(pieces[|pieces| - 1], sep)
    requires forall k | 0 <= k < |pieces| - 1 :: Find(pieces[k] + sep, sep) == |pieces[k]|
    ensures Split(Join(pieces, sep), sep) == pieces
    decreases |pieces|
  {
    var s := Join(pieces, sep);
    if |pieces| == 1 {
      assert Find(s, sep) == -1;
    } else {
      var head, rest := pieces[0], Join(pieces[1..], sep);
      assert s == head + sep + rest;
      FirstSeparatorAfter(head, sep, rest);
      assert s[..|head|] == head && s[|head| + |sep|..] == rest;
      SplitJoin(pieces[1..], sep);
      assert pieces == [head] + pieces[1..];
    }
  }

  /** A piece that meets its first separator only at the one appended after it keeps doing so whatever follows. */
  lemma FirstSeparatorAfter(head: string, sep: string, rest: string)
    requires sep != [] && Find(head + sep, sep) == |head|
    ensures Find(head + sep + rest, sep) == |head|
  {
    var s := head + sep + rest;
    assert s[..|head| + |sep|] == head + sep;
    forall i | 0 <= i < |head|
      ensures !OccursAt(s, sep, i)
    {
      assert !OccursAt(head + sep, sep, i);
      assert s[i..i + |sep|] == (head + sep)[i..i + |sep|];
    }
    assert OccursAt(s, sep, |head|);
    FindIsFirst(s, sep, |head|);
  }

  /** For a one-character separator, a piece meets it first at the appended one exactly when it does not hold that character. */
  lemma FirstCharAfter(head: string, c: char)
    requires c !in head
    ensures Find(head + [c], [c]) == |head|
    ensures !Contains(head, [c])
  {
    ContainsChar(head, c);
    var s := head + [c];
    forall i | 0 <= i < |head|
      ensures !OccursAt(s, [c], i)
    {
      assert s[i..i + 1][0] == head[i];
    }
    assert OccursAt(s, [c], |head|);
    FindIsFirst(s, [c], |head|);
  }

  /** A join starts with its first piece and ends with its last. */
  lemma {:induction false} JoinEnds(pieces: seq<string>, sep: string)
    requires |pieces| >= 1
    ensures var j, last := Join(pieces, sep), pieces[|pieces| - 1];
            && |pieces[0]| <= |j| && j[..|pieces[0]|] == pieces[0]
            && |last| <= |j| && j[|j| - |last|..] == last
    decreases |pieces|
  {
    var j := Join(pieces, sep);
    if |pieces| > 1 {
      var rest := Join(pieces[1..], sep);
      JoinEnds(pieces[1..], sep);
      assert j == pieces[0] + sep + rest;
      var last := pieces[|pieces| - 1];
      assert j[|j| - |last|..] == rest[|rest| - |last|..];
    }
  }

  /**
   * Joining non-empty pieces that hold no `c` with the separator `[c]` never
   * puts two `c` side by side.
   */
  lemma {:induction false} JoinNoDouble(pieces: seq<string>, c: char)
    requires |pieces| >= 1
    requires forall k | 0 <= k < |pieces| :: |pieces[k]| > 0 && c !in pieces[k]
    ensures var j := Join(pieces, [c]);
            && |j| > 0 && j[0] != c && j[|j| - 1] != c
            && forall i | 0 <= i < |j| - 1 :: !(j[i] == c && j[i + 1] == c)
    decreases |pieces|
  {
    var j := Join(pieces, [c]);
    JoinEnds(pieces, [c]);
    var last := pieces[|pieces| - 1];
    assert j[0] == j[..|pieces[0]|][0] == pieces[0][0];
    assert j[|j| - 1] == j[|j| - |last|..][|last| - 1] == last[|last| - 1];
    if |pieces| > 1 {
      var head, rest := pieces[0], Join(pieces[1..], [c]);
      JoinNoDouble(pieces[1..], c);
      assert j == head + [c] + rest;
      forall i | 0 <= i < |j| - 1
        ensures !(j[i] == c && j[i + 1] == c)
      {
        if i < |head| {
          assert j[i] == head[i];
        } else if i > |head| {
          assert j[i] == rest[i - |head| - 1] && j[i + 1] == rest[i - |head|];
        } else {
          assert j[i + 1] == rest[0];
        }
      }
    }
  }

  /** The first piece of a split is the text up to the first separator. */
  lemma SplitHead(s: string, sep: string)
    requires sep != []
    ensures var k := Find(s, sep);
            Split(s, sep)[0] == if k == -1 then s else s[..k]
  {
  }

  /** A string that starts with `sep` splits into an empty piece and at least one more. */
  lemma SplitAfterLeadingSeparator(s: string, sep: string)
    requires sep != [] && StartsWith(s, sep)
    ensures |Split(s, sep)| >= 2
    ensures Split(s, sep)[0] == []
    ensures Split(s, sep)[1] == Split(s[|sep|..], sep)[0]
  {
    FindIsFirst(s, sep, 0);
  }

  /**
   * Python's `s.split(sep, 1)`: one piece when `sep` does not occur, else the
   * text before and after its first occurrence.
   */
  function SplitOnce(s: string, sep: string): (r: seq<string>)
    requires sep != []
    ensures 1 <= |r| <= 2
    ensures |r| == 1 <==> !Contains(s, sep)
    ensures Join(r, sep) == s
    ensures |r| == 2 ==> Find(s, sep) == |r[0]|
  {
    var k := Find(s, sep);
    if k == -1 then [s]
    else
      assert s == s[..k] + sep + s[k + |sep|..];
      [s[..k], s[k + |sep|..]]
  }

  /** Splitting once at a character that occurs gives the text before its first occurrence and the text after it. */
  lemma SplitOnceAtChar(s: string, c: char)
    requires c in s
    ensures var pieces := SplitOnce(s, [c]);
            |pieces| == 2 && s == pieces[0] + [c] + pieces[1] && c !in pieces[0]
  {
    ContainsChar(s, c);
    var pieces := SplitOnce(s, [c]);
    var k := |pieces[0]|;
    assert s == pieces[0] + [c] + pieces[1];
    forall i | 0 <= i < k
      ensures pieces[0][i] != c
    {
      assert !OccursAt(s, [c], i);
      assert s[i..i + 1][0] == s[i] == pieces[0][i];
    }
  }

  /** The index of the first `c` in `s`. */
  function FirstIndexOf(s: string, c: char): (k: nat)
    requires c in s
    ensures k < |s| && s[k] == c && c !in s[..k]
  {
    if s[0] == c then 0
    else
      assert c in s[1..] by {
        var i :| 0 <= i < |s| && s[i] == c;
        assert s[1..][i - 1] == c;
      }
      var k := 1 + FirstIndexOf(s[1..], c);
      assert s[..k] == [s[0]] + s[1..][..k - 1];
      k
  }

  /**
   * Python's `s.split(c, 1)[1]` for a `c` that occurs in `s`: the suffix of
   * `s` right after the first `c`.
   */
  function AfterFirst(s: string, c: char): (r: string)
    requires c in s
    ensures |r| < |s|
    ensures s == s[..|s| - |r| - 1] + [c] + r
    ensures c !in s[..|s| - |r| - 1]
  {
    var k := FirstIndexOf(s, c);
    assert s == s[..k] + [c] + s[k + 1..];
    s[k + 1..]
  }

  /** `s.split(c, 1)` cuts at the first `c`: its pieces are the text before it and `AfterFirst(s, c)`. */
  lemma AfterFirstSplitOnce(s: string, c: char)
    requires c in s
    ensures SplitOnce(s, [c]) == [s[..|s| - |AfterFirst(s, c)| - 1], AfterFirst(s, c)]
  {
    SplitOnceAtChar(s, c);
    var pieces := SplitOnce(s, [c]);
    AfterFirstIs(pieces[0], c, pieces[1]);
    assert s[..|pieces[0]|] == pieces[0];
  }

  /** `AfterFirst` is determined by the first occurrence: whatever follows the `c` that `pre` lacks. */
  lemma AfterFirstIs(pre: string, c: char, r: string)
    requires c !in pre
    ensures AfterFirst(pre + [c] + r, c) == r
  {
    var s := pre + [c] + r;
    var r' := AfterFirst(s, c);
    var k := |s| - |r'| - 1;
    assert s[k] == c && s[|pre|] == c;
    assert forall i | 0 <= i < |pre| :: s[i] == pre[i];
    assert forall i | 0 <= i < k :: s[..k][i] == s[i];
    assert s[k + 1..] == r';
  }

  /**
   * A non-empty string with no two adjacent `c` that does not end in `c`
   * holds no `[c, c]`, and meets it first in `b + [c, c]` at the appended one.
   */
  lemma NoDoubleFind(b: string, c: char)
    requires |b| > 0 && b[|b| - 1] != c
    requires forall i | 0 <= i < |b| - 1 :: !(b[i] == c && b[i + 1] == c)
    ensures !Contains(b, [c, c])
    ensures Find(b + [c, c], [c, c]) == |b|
  {
    var s := b + [c, c];
    forall i | 0 <= i < |b|
      ensures !OccursAt(s, [c, c], i) && !OccursAt(b, [c, c], i)
    {
      assert s[i] == b[i];
      if i < |b| - 1 {
        assert s[i + 1] == b[i + 1];
        assert s[i..i + 2][1] == s[i + 1];
      } else {
        assert s[i..i + 2][0] == s[i];
      }
      if i + 2 <= |b| {
        assert b[i..i + 2][1] == b[i + 1];
      }
    }
    assert OccursAt(s, [c, c], |b|);
    FindIsFirst(s, [c, c], |b|);
  }
}
