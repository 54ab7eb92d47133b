/** The fragment of JavaScript's string semantics the authenticator relies on:
    `indexOf` and `split` with a non-empty separator. `split` scans left to
    right, cutting at every non-overlapping occurrence of the separator; a
    string with no occurrence splits into the one-element list `[s]`, so the
    list is never empty. */
module JsString {
  import opened Wrappers

  /** `pat` occurs in `s` starting at index `j`. */
  predicate OccursAt(s: string, pat: string, j: nat)
  {
    j + |pat| <= |s| && s[j..j + |pat|] == pat
  }

  /** `pat` occurs somewhere in `s` (JavaScript's `s.includes(pat)`). */
  predicate Contains(s: string, pat: string)
  {
    exists j: nat | j <= |s| :: OccursAt(s, pat, j)
  }

  /** `s.indexOf(pat, from)`, with `None` for JavaScript's -1. */
  function IndexOfFrom(s: string, pat: string, from: nat): (r: Option<nat>)
    requires |pat| > 0
    ensures r.Some? ==> from <= r.value && OccursAt(s, pat, r.value)
    ensures forall j: nat :: from <= j && (r.None? || j < r.value) ==> !OccursAt(s, pat, j)
    decreases |s| - from
  {
    if from + |pat| > |s| then None
    else if s[from..from + |pat|] == pat then Some(from)
    else IndexOfFrom(s, pat, from + 1)
  }

  /** `s.indexOf(pat)`: the first occurrence of `pat` in `s`. */
  function IndexOf(s: string, pat: string): (r: Option<nat>)
    requires |pat| > 0
    ensures r.Some? ==> OccursAt(s, pat, r.value)
    ensures forall j: nat :: (r.None? || j < r.value) ==> !OccursAt(s, pat, j)
  {
    IndexOfFrom(s, pat, 0)
  }

  /** `parts.join(sep)`. */
  function Join(parts: seq<string>, sep: string): string
    requires |parts| >= 1
    decreases |parts|
  {
    if |parts| == 1 then parts[0] else parts[0] + sep + Join(parts[1..], sep)
  }

  /** An occurrence inside a prefix of `s` is an occurrence in `s` that ends
      within the prefix. */
  lemma OccursInPrefix(s: string, pat: string, n: nat, j: nat)
    requires n <= |s|
    ensures OccursAt(s[..n], pat, j) <==> OccursAt(s, pat, j) && j + |pat| <= n
  {
    if j + |pat| <= n {
      assert s[..n][j..j + |pat|] == s[j..j + |pat|];
    }
  }

  /** `s.split(sep)`: joining the pieces back with `sep` gives `s` again,
      and the first piece is a prefix of `s`. */
  function Split(s: string, sep: string): (parts: seq<string>)
    requires |sep| > 0
    ensures |parts| >= 1
    ensures Join(parts, sep) == s
    ensures parts[0] <= s
    decreases |s|
  {
    match IndexOf(s, sep)
    case None => [s]
    case Some(i) =>
      var head := s[..i];
      var tail := Split(s[i + |sep|..], sep);
      assert ([head] + tail)[1..] == tail;
      assert head + sep + s[i + |sep|..] == s by {
        assert s == s[..i] + s[i..i + |sep|] + s[i + |sep|..];
      }
      [head] + tail
  }

  /** No piece of `s.split(sep)` contains `sep`. */
  lemma {:induction false} SplitPiecesFree(s: string, sep: string)
    requires |sep| > 0
    ensures forall k :: 0 <= k < |Split(s, sep)| ==> !Contains(Split(s, sep)[k], sep)
    decreases |s|
  {
    match IndexOf(s, sep)
    case None =>
    case Some(i) =>
      var head := s[..i];
      SplitPiecesFree(s[i + |sep|..], sep);
      forall j: nat | j <= |head| && OccursAt(head, sep, j)
        ensures false
      {
        OccursInPrefix(s, sep, i, j);
      }
  }

  /** Splitting at the first occurrence `k` of `sep` peels off `s[..k]`. */
  lemma SplitAtFirst(s: string, sep: string, k: nat)
    requires |sep| > 0
    requires OccursAt(s, sep, k)
    requires forall j: nat :: j < k ==> !OccursAt(s, sep, j)
    ensures Split(s, sep) == [s[..k]] + Split(s[k + |sep|..], sep)
  {
    var r := IndexOf(s, sep);
    assert r.Some? && r.value == k;
  }

  /** A string free of `sep` splits into itself alone. */
  lemma SplitNone(s: string, sep: string)
    requires |sep| > 0
    requires forall j: nat :: !OccursAt(s, sep, j)
    ensures Split(s, sep) == [s]
  {
    assert IndexOf(s, sep).None?;
  }

  /** The first piece of a split ends at the first occurrence of `sep`, or at
      the end of `s` when there is none. */
  lemma SplitHead(s: string, sep: string, k: nat)
    requires |sep| > 0 && k <= |s|
    requires k == |s| || OccursAt(s, sep, k)
    requires forall j: nat :: j < k ==> !OccursAt(s, sep, j)
    ensures Split(s, sep)[0] == s[..k]
  {
    if k < |s| && OccursAt(s, sep, k) {
      SplitAtFirst(s, sep, k);
    } else {
      forall j: nat
        ensures !OccursAt(s, sep, j)
      {
        if j >= k {
          assert j + |sep| > |s|;
        }
      }
      SplitNone(s, sep);
      assert s[..k] == s;
    }
  }

  /** Cutting the prefix `s[..m]` at its first `c` stops at `n`, the first
      `c` of `s` or `m` itself. */
  lemma SplitPrefixAtChar(s: string, c: char, m: nat, n: nat)
    requires n <= m <= |s|
    requires forall j: nat :: j < n ==> !OccursAt(s, [c], j)
    requires n == m || OccursAt(s, [c], n)
    ensures Split(s[..m], [c])[0] == s[..n]
  {
    var piece := s[..m];
    PrefixOccurrences(s, [c], m, n);
    if n < m {
      assert piece[n..n + 1] == s[n..n + 1];
    }
    assert piece[..n] == s[..n];
    SplitHead(piece, [c], n);
  }

  /** Cutting `s` at its first `sep` and then at its first `c` stops at the
      first place where either occurs, or at the end. */
  lemma SplitTwiceHead(s: string, sep: string, c: char, n: nat)
    requires |sep| > 0 && n <= |s|
    requires forall j: nat :: j < n ==> !OccursAt(s, sep, j) && !OccursAt(s, [c], j)
    requires n == |s| || OccursAt(s, sep, n) || OccursAt(s, [c], n)
    ensures Split(Split(s, sep)[0], [c])[0] == s[..n]
  {
    var m := match IndexOf(s, sep) case Some(m) => m case None => |s|;
    assert n <= m;
    assert n == m || OccursAt(s, [c], n);
    SplitPrefixAtChar(s, c, m, n);
    SplitHead(s, sep, m);
  }

  /** The least index at or after `from` holding `c`. */
  function FirstIndex(s: string, c: char, from: nat): (k: nat)
    requires from <= |s| && c in s[from..]
    ensures from <= k < |s| && s[k] == c && c !in s[from..k]
    decreases |s| - from
  {
    if s[from] == c then from
    else
      assert s[from..] == [s[from]] + s[from + 1..];
      var k := FirstIndex(s, c, from + 1);
      assert s[from..k] == [s[from]] + s[from + 1..k];
      k
  }

  /** A one-character pattern occurs exactly when the character does. */
  lemma ContainsChar(s: string, c: char)
    ensures Contains(s, [c]) <==> c in s
  {
    if c in s {
      var j :| 0 <= j < |s| && s[j] == c;
      assert OccursAt(s, [c], j);
    }
    if Contains(s, [c]) {
      var j: nat :| j <= |s| && OccursAt(s, [c], j);
      assert s[j..j + 1] == [c];
      assert s[j] == c;
    }
  }

  /** A character missing from `s[lo..hi]` occurs nowhere in that range. */
  lemma CharAbsent(s: string, c: char, lo: nat, hi: nat)
    requires lo <= hi <= |s| && c !in s[lo..hi]
    ensures forall k: nat :: lo <= k < hi ==> !OccursAt(s, [c], k)
  {
    forall k: nat | lo <= k < hi
      ensures !OccursAt(s, [c], k)
    {
      assert s[k] == s[lo..hi][k - lo];
      assert s[k..k + 1] == [s[k]];
    }
  }

  /** Occurrences in a suffix of `s` are occurrences in `s`, shifted. */
  lemma OccursInSuffix(s: string, pat: string, start: nat, j: nat)
    requires start <= |s|
    ensures OccursAt(s[start..], pat, j) <==> OccursAt(s, pat, start + j)
  {
    if start + j + |pat| <= |s| {
      assert s[start..][j..j + |pat|] == s[start + j..start + j + |pat|];
    }
  }

  /** Cutting `s` at `m` creates no occurrence of `pat` that starts before `n`. */
  lemma PrefixOccurrences(s: string, pat: string, m: nat, n: nat)
    requires n <= m <= |s|
    requires forall j: nat :: j < n ==> !OccursAt(s, pat, j)
    ensures forall j: nat :: j < n ==> !OccursAt(s[..m], pat, j)
  {
    forall j: nat | j < n && OccursAt(s[..m], pat, j)
      ensures false
    {
      OccursInPrefix(s, pat, m, j);
    }
  }

  /** A prefix of a string free of `pat` is free of `pat` too. */
  lemma PrefixFree(s: string, pat: string, n: nat)
    requires n <= |s| && !Contains(s, pat)
    ensures !Contains(s[..n], pat)
  {
    forall j: nat | j <= n && OccursAt(s[..n], pat, j)
      ensures false
    {
      OccursInPrefix(s, pat, n, j);
    }
  }

  /** For a one-character separator, `split` undoes `join` whenever no part
      contains the separator. */
  lemma {:induction false} SplitJoinChar(parts: seq<string>, c: char)
    requires |parts| >= 1
    requires forall k :: 0 <= k < |parts| ==> c !in parts[k]
    ensures Split(Join(parts, [c]), [c]) == parts
    decreases |parts|
  {
    var s := Join(parts, [c]);
    if |parts| == 1 {
      forall j: nat
        ensures !OccursAt(s, [c], j)
      {
        ContainsChar(s, c);
        if OccursAt(s, [c], j) {
          assert Contains(s, [c]);
        }
      }
      SplitNone(s, [c]);
    } else {
      var p := parts[0];
      var rest := Join(parts[1..], [c]);
      assert s == p + [c] + rest;
      assert s[|p|..|p| + 1] == [c];
      forall j: nat | j < |p|
        ensures !OccursAt(s, [c], j)
      {
        assert s[j..j + 1] == [p[j]];
      }
      SplitAtFirst(s, [c], |p|);
      assert s[..|p|] == p;
      assert s[|p| + 1..] == rest;
      SplitJoinChar(parts[1..], c);
      assert [p] + parts[1..] == parts;
    }
  }
}
