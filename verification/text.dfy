/**
 * The few Python `str` operations the compile pipeline relies on, over `seq<char>`:
 * `strip()`, `in` / `find()`, `startswith()`, `splitlines()` and `'\n'.join(...)`.
 * Whitespace is the ASCII part of Python's `str.isspace`, and `splitlines` breaks on
 * `'\n'` only.
 */
module Text {

  /** ASCII characters for which Python's `str.isspace()` holds: 9..13, 28..31 and 32. */
  predicate IsSpace(c: char) {
    c == ' ' || ('\t' <= c <= '\r') || ('\U{1C}' <= c <= '\U{1F}')
  }

  /** The index of the first non-space character at or after `i`, or `|s|`. */
  function SkipSpaces(s: string, i: nat): (lo: nat)
    requires i <= |s|
    ensures i <= lo <= |s|
    ensures lo < |s| ==> !IsSpace(s[lo])
    decreases |s| - i
  {
    if i < |s| && IsSpace(s[i]) then SkipSpaces(s, i + 1) else i
  }

  /** The end of `s[lo..hi]` once its trailing spaces are dropped. */
  function SkipSpacesBack(s: string, lo: nat, hi: nat): (end: nat)
    requires lo <= hi <= |s|
    ensures lo <= end <= hi
    ensures end > lo ==> !IsSpace(s[end - 1])
    decreases hi
  {
    if hi > lo && IsSpace(s[hi - 1]) then SkipSpacesBack(s, lo, hi - 1) else hi
  }

  /** `s.strip()` */
  function Strip(s: string): (r: string)
    ensures |r| <= |s|
    ensures r == [] || (!IsSpace(r[0]) && !IsSpace(r[|r| - 1]))
  {
    var lo := SkipSpaces(s, 0);
    s[lo..SkipSpacesBack(s, lo, |s|)]
  }

  /** `s.startswith(p)` */
  predicate StartsWith(s: string, p: string) {
    |p| <= |s| && s[..|p|] == p
  }

  /** `m` occurs in `s` at index `k`. */
  predicate OccursAt(s: string, m: string, k: int) {
    0 <= k && k + |m| <= |s| && s[k..k + |m|] == m
  }

  /** `s.find(m, i)` for `0 <= i`: the first index at or after `i` where `m` occurs, or -1. */
  function FindFrom(s: string, m: string, i: nat): (r: int)
    ensures r == -1 || (i <= r && OccursAt(s, m, r))
    decreases |s| - i
  {
    if i + |m| > |s| then -1
    else if s[i..i + |m|] == m then i
    else FindFrom(s, m, i + 1)
  }

  /** `s.find(m)` */
  function Find(s: string, m: string): int {
    FindFrom(s, m, 0)
  }

  /** `m in s` */
  predicate Contains(s: string, m: string) {
    Find(s, m) >= 0
  }

  /** `s.splitlines()` with `'\n'` as the only line boundary: no trailing empty line. */
  function SplitLines(s: string): (lines: seq<string>)
    ensures s != [] <==> lines != []
    ensures forall j :: 0 <= j < |lines| ==> '\n' !in lines[j]
    decreases |s|
  {
    if s == [] then []
    else
      var i := Find(s, "\n");
      NoBreakBeforeFirst(s);
      if i < 0 then [s] else [s[..i]] + SplitLines(s[i + 1..])
  }

  /** No line break comes before the first one `find` reports, nor anywhere when it reports none. */
  lemma NoBreakBeforeFirst(s: string)
    ensures var i := Find(s, "\n");
            i < 0 ==> '\n' !in s
    ensures var i := Find(s, "\n");
            0 <= i ==> i < |s| && '\n' !in s[..i]
  {
    var i := Find(s, "\n");
    forall j | 0 <= j < |s| && s[j] == '\n' ensures 0 <= i <= j {
      assert s[j..j + 1] == "\n";
      FindFromIsFirst(s, "\n", 0, j);
    }
  }

  /** `'\n'.join(lines)` */
  function Join(lines: seq<string>): string {
    if |lines| == 0 then ""
    else if |lines| == 1 then lines[0]
    else lines[0] + "\n" + Join(lines[1..])
  }

  /** Python `s[a:b]` for non-negative bounds: clamped to the string, empty when `b <= a`. */
  function Slice(s: string, a: nat, b: nat): (r: string)
    ensures a <= b <= |s| ==> r == s[a..b]
    ensures b <= a ==> r == []
  {
    var lo := if a < |s| then a else |s|;
    var hi := if b < |s| then b else |s|;
    if lo <= hi then s[lo..hi] else []
  }

  // ---------------------------------------------------------------------------
  // Occurrences

  /** `find` returns the first occurrence: an occurrence at `k` means the search from `i <= k`
      succeeds at or before `k`. */
  lemma {:induction false} FindFromIsFirst(s: string, m: string, i: nat, k: int)
    requires i <= k && OccursAt(s, m, k)
    ensures 0 <= FindFrom(s, m, i) <= k
    decreases |s| - i
  {
    if i < k && s[i..i + |m|] != m {
      FindFromIsFirst(s, m, i + 1, k);
    }
  }

  lemma OccursThenContains(s: string, m: string, k: int)
    requires OccursAt(s, m, k)
    ensures Contains(s, m)
  {
    FindFromIsFirst(s, m, 0, k);
  }

  /** `m in s` holds exactly when `m` occurs somewhere in `s`. */
  lemma ContainsIff(s: string, m: string)
    ensures Contains(s, m) <==> exists k :: OccursAt(s, m, k)
  {
    if Contains(s, m) {
      assert OccursAt(s, m, Find(s, m));
    }
    forall k | OccursAt(s, m, k) ensures Contains(s, m) {
      OccursThenContains(s, m, k);
    }
  }

  lemma OccursInMiddle(a: string, m: string, b: string)
    ensures OccursAt(a + m + b, m, |a|)
  {
    assert (a + m + b)[|a|..|a| + |m|] == m;
  }

  lemma OccursInLeft(a: string, b: string, m: string, k: int)
    requires OccursAt(a, m, k)
    ensures OccursAt(a + b, m, k)
  {
    assert (a + b)[k..k + |m|] == a[k..k + |m|];
  }

  lemma OccursInRight(a: string, b: string, m: string, k: int)
    requires OccursAt(b, m, k)
    ensures OccursAt(a + b, m, |a| + k)
  {
    assert (a + b)[|a| + k..|a| + k + |m|] == b[k..k + |m|];
  }

  /** An occurrence of `m` in `a + [c] + b` that cannot contain `c` lies wholly in `a` or in `b`. */
  lemma OccursAcross(a: string, c: char, b: string, m: string, k: int)
    requires OccursAt(a + [c] + b, m, k)
    requires c !in m
    ensures OccursAt(a, m, k) || OccursAt(b, m, k - |a| - 1)
  {
    var s := a + [c] + b;
    assert s[|a|] == c;
    forall j | k <= j < k + |m| ensures s[j] in m {
      assert s[j] == s[k..k + |m|][j - k];
    }
    assert !(k <= |a| < k + |m|);
    if k + |m| <= |a| {
      assert s[k..k + |m|] == a[k..k + |m|];
    } else {
      assert k > |a|;
      assert s[k..k + |m|] == b[k - |a| - 1..k - |a| - 1 + |m|];
    }
  }

  /** Everything `SkipSpaces` passes over is a space. */
  lemma {:induction false} SkipSpacesSkipsOnlySpaces(s: string, i: nat, k: nat)
    requires i <= |s| && i <= k < SkipSpaces(s, i)
    ensures IsSpace(s[k])
    decreases |s| - i
  {
    if k > i {
      SkipSpacesSkipsOnlySpaces(s, i + 1, k);
    }
  }

  /** Everything `SkipSpacesBack` drops is a space. */
  lemma {:induction false} SkipSpacesBackSkipsOnlySpaces(s: string, lo: nat, hi: nat, k: nat)
    requires lo <= hi <= |s|
    requires SkipSpacesBack(s, lo, hi) <= k < hi
    ensures IsSpace(s[k])
    decreases hi
  {
    if k < hi - 1 {
      SkipSpacesBackSkipsOnlySpaces(s, lo, hi - 1, k);
    }
  }

  /** `strip` keeps an occurrence whose first and last characters are not whitespace, shifted by the leading spaces. */
  lemma StripKeepsOccurrence(s: string, m: string, p: int)
    requires OccursAt(s, m, p) && |m| > 0 && !IsSpace(m[0]) && !IsSpace(m[|m| - 1])
    ensures OccursAt(Strip(s), m, p - SkipSpaces(s, 0))
  {
    assert s[p] == m[0] && s[p + |m| - 1] == m[|m| - 1];
    var lo := SkipSpaces(s, 0);
    var hi := SkipSpacesBack(s, lo, |s|);
    if p < lo {
      SkipSpacesSkipsOnlySpaces(s, 0, p);
    }
    if hi <= p + |m| - 1 {
      SkipSpacesBackSkipsOnlySpaces(s, lo, |s|, p + |m| - 1);
    }
    assert lo <= p && p + |m| <= hi;
    var r := Strip(s);
    assert r == s[lo..hi];
    forall j | 0 <= j < |m| ensures r[p - lo + j] == m[j] {
      assert r[p - lo + j] == s[p + j] == s[p..p + |m|][j];
    }
    assert r[p - lo..p - lo + |m|] == m;
  }

  /** `strip` never removes a marker whose first and last characters are not whitespace. */
  lemma StripKeepsMarker(s: string, m: string)
    requires Contains(s, m) && |m| > 0 && !IsSpace(m[0]) && !IsSpace(m[|m| - 1])
    ensures Contains(Strip(s), m)
  {
    var p := Find(s, m);
    StripKeepsOccurrence(s, m, p);
    OccursThenContains(Strip(s), m, p - SkipSpaces(s, 0));
  }

  /** `r` occurs in `s` at `lo` with only whitespace before and after it. */
  predicate SurroundedBySpaces(s: string, r: string, lo: int) {
    && 0 <= lo && lo + |r| <= |s| && s[lo..lo + |r|] == r
    && (forall k :: 0 <= k < lo ==> IsSpace(s[k]))
    && (forall k :: lo + |r| <= k < |s| ==> IsSpace(s[k]))
  }

  /** `strip` removes whitespace at both ends and nothing else: the result is a run of the input
      with only whitespace before it and only whitespace after it. */
  lemma StripRemovesOnlySurroundingSpaces(s: string)
    ensures exists lo :: SurroundedBySpaces(s, Strip(s), lo)
  {
    var lo := SkipSpaces(s, 0);
    var hi := SkipSpacesBack(s, lo, |s|);
    var r := Strip(s);
    assert r == s[lo..hi] && lo + |r| == hi;
    forall k | 0 <= k < lo ensures IsSpace(s[k]) {
      SkipSpacesSkipsOnlySpaces(s, 0, k);
    }
    forall k | hi <= k < |s| ensures IsSpace(s[k]) {
      SkipSpacesBackSkipsOnlySpaces(s, lo, |s|, k);
    }
    assert SurroundedBySpaces(s, r, lo);
  }

  /** Stripping a text that starts and ends with a non-space character changes nothing. */
  lemma StripStripped(s: string)
    requires s == [] || (!IsSpace(s[0]) && !IsSpace(s[|s| - 1]))
    ensures Strip(s) == s
  {
  }

  /** Stripping twice is stripping once. */
  lemma StripIdempotent(s: string)
    ensures Strip(Strip(s)) == Strip(s)
  {
    StripStripped(Strip(s));
  }

  // ---------------------------------------------------------------------------
  // Lines

  /** Splitting a text that does not end in a line break and joining the lines again gives the text back. */
  lemma {:induction false} JoinSplitLines(s: string)
    requires s == [] || s[|s| - 1] != '\n'
    ensures Join(SplitLines(s)) == s
    decreases |s|
  {
    if s != [] {
      var i := Find(s, "\n");
      if i >= 0 {
        assert s[i..i + 1] == "\n";
        var rest := s[i + 1..];
        assert rest != [];
        assert rest[|rest| - 1] == s[|s| - 1];
        JoinSplitLines(rest);
        var tail := SplitLines(rest);
        assert SplitLines(s) == [s[..i]] + tail;
        assert |tail| >= 1;
        assert ([s[..i]] + tail)[1..] == tail;
        assert Join(SplitLines(s)) == s[..i] + "\n" + rest;
        assert s == s[..i] + [s[i]] + rest;
      }
    }
  }

  /** The first line of a non-empty text is a prefix of it. */
  lemma FirstLineIsPrefix(s: string)
    requires s != []
    ensures StartsWith(s, SplitLines(s)[0])
    ensures var line := SplitLines(s)[0];
            |line| == |s| || s[|line|] == '\n'
  {
    var i := Find(s, "\n");
    if i >= 0 {
      assert SplitLines(s)[0] == s[..i];
      assert s[i..i + 1] == "\n";
    }
  }

  /** Joining two non-empty runs of lines puts one line break between their joins. */
  lemma {:induction false} JoinAppend(a: seq<string>, b: seq<string>)
    requires |a| > 0 && |b| > 0
    ensures Join(a + b) == Join(a) + "\n" + Join(b)
    decreases |a|
  {
    if |a| == 1 {
      assert (a + b)[1..] == b;
    } else {
      assert (a + b)[1..] == a[1..] + b;
      JoinAppend(a[1..], b);
    }
  }
}
