/** The handful of Python `str` operations the configuration code relies on,
    written out with Python's semantics: `find` returns -1 when absent, slices
    clamp and accept negative bounds, `split` on a one-character separator never
    yields an empty list, and `replace` scans left to right without overlap. */
module PyStrings {

  /** `s.find(c)` for a single character: the first index of `c`, or -1. */
  function Find(s: string, c: char): (i: int)
    ensures -1 <= i < |s|
    ensures i == -1 <==> c !in s
    ensures i >= 0 ==> s[i] == c && c !in s[..i]
  {
    if |s| == 0 then -1
    else if s[0] == c then 0
    else
      var j := Find(s[1..], c);
      assert s[1..] == s[1..][..|s| - 1];
      if j == -1 then -1
      else
        assert s[..j + 1] == [s[0]] + s[1..][..j];
        j + 1
  }

  /** Python's normalisation of one slice bound against a length `n`. */
  function SliceBound(i: int, n: nat): (r: nat)
    ensures r <= n
    ensures 0 <= i <= n ==> r == i
    ensures i < 0 && i + n >= 0 ==> r == i + n
  {
    if i < 0 then (if i + n < 0 then 0 else i + n)
    else if i > n then n
    else i
  }

  /** `s[lo:hi]`: bounds are normalised, and a reversed range is empty. */
  function PySlice(s: string, lo: int, hi: int): (r: string)
    ensures |r| <= |s|
    ensures forall c :: c in r ==> c in s
    ensures 0 <= lo <= hi <= |s| ==> r == s[lo..hi]
    ensures 0 <= hi <= lo ==> r == []
  {
    var a := SliceBound(lo, |s|);
    var b := SliceBound(hi, |s|);
    if a < b then s[a..b] else []
  }

  /** `s.split(c)` for a one-character separator `c`. */
  function Split(s: string, c: char): (parts: seq<string>)
    ensures |parts| >= 1
    ensures forall i :: 0 <= i < |parts| ==> c !in parts[i]
    decreases |s|
  {
    var i := Find(s, c);
    if i == -1 then [s] else [s[..i]] + Split(s[i + 1..], c)
  }

  /** `sep.join(parts)`. */
  function Join(parts: seq<string>, sep: string): string
  {
    if |parts| == 0 then []
    else if |parts| == 1 then parts[0]
    else parts[0] + sep + Join(parts[1..], sep)
  }

  /** Joining the pieces of a split with the separator gives back the string. */
  lemma {:induction false} JoinSplit(s: string, c: char)
    ensures Join(Split(s, c), [c]) == s
    decreases |s|
  {
    var i := Find(s, c);
    if i != -1 {
      var rest := s[i + 1..];
      var tail := Split(rest, c);
      JoinSplit(rest, c);
      assert Split(s, c) == [s[..i]] + tail;
      assert ([s[..i]] + tail)[1..] == tail;
      assert Join(Split(s, c), [c]) == s[..i] + [c] + Join(tail, [c]);
      assert s == s[..i] + [s[i]] + s[i + 1..];
    }
  }

  /** Splitting a join of separator-free pieces gives back the pieces. */
  lemma {:induction false} SplitJoin(parts: seq<string>, c: char)
    requires |parts| >= 1
    requires forall i :: 0 <= i < |parts| ==> c !in parts[i]
    ensures Split(Join(parts, [c]), c) == parts
    decreases |parts|
  {
    if |parts| > 1 {
      var rest := Join(parts[1..], [c]);
      var s := parts[0] + [c] + rest;
      assert Join(parts, [c]) == s;
      assert s[|parts[0]|] == c;
      assert s[..|parts[0]|] == parts[0];
      assert Find(s, c) == |parts[0]|;
      assert s[|parts[0]| + 1..] == rest;
      assert Split(s, c) == [parts[0]] + Split(rest, c);
      SplitJoin(parts[1..], c);
      assert parts == [parts[0]] + parts[1..];
    }
  }

  /** `SplitJoin` as an implication, for callers that cannot establish its
      precondition. */
  lemma SplitJoinWhenFree(parts: seq<string>, c: char)
    ensures (|parts| >= 1 && forall i :: 0 <= i < |parts| ==> c !in parts[i]) ==>
      Split(Join(parts, [c]), c) == parts
  {
    if |parts| >= 1 && forall i :: 0 <= i < |parts| ==> c !in parts[i] {
      SplitJoin(parts, c);
    }
  }

  lemma CharNotInConcat(c: char, a: string, b: string)
    requires c !in a && c !in b
    ensures c !in a + b
  {
  }

  /** True when `pat` occurs somewhere in `s`. */
  predicate Occurs(s: string, pat: string)
    decreases |s|
  {
    |s| >= |pat| && (s[..|pat|] == pat || (|s| > 0 && Occurs(s[1..], pat)))
  }

  /** `s.replace(pat, rep)` for a non-empty pattern: every occurrence found by a
      left-to-right scan is replaced, and the scan resumes after the replacement. */
  function Replace(s: string, pat: string, rep: string): string
    requires |pat| > 0
    decreases |s|
  {
    if |s| < |pat| then s
    else if s[..|pat|] == pat then rep + Replace(s[|pat|..], pat, rep)
    else [s[0]] + Replace(s[1..], pat, rep)
  }

  /** A string in which the pattern does not occur is left unchanged. */
  lemma {:induction false} ReplaceAbsent(s: string, pat: string, rep: string)
    requires |pat| > 0
    requires !Occurs(s, pat)
    ensures Replace(s, pat, rep) == s
    decreases |s|
  {
    if |s| >= |pat| {
      ReplaceAbsent(s[1..], pat, rep);
      assert s == [s[0]] + s[1..];
    }
  }

  /** Replacing a pattern by itself changes nothing. */
  lemma {:induction false} ReplaceSelf(s: string, pat: string)
    requires |pat| > 0
    ensures Replace(s, pat, pat) == s
    decreases |s|
  {
    if |s| >= |pat| {
      if s[..|pat|] == pat {
        ReplaceSelf(s[|pat|..], pat);
        assert s == s[..|pat|] + s[|pat|..];
      } else {
        ReplaceSelf(s[1..], pat);
        assert s == [s[0]] + s[1..];
      }
    }
  }

  /** No match can start inside a prefix that lacks the pattern's first character. */
  lemma {:induction false} ReplaceSkipsPrefix(a: string, s: string, pat: string, rep: string)
    requires |pat| > 0
    requires pat[0] !in a
    ensures Replace(a + s, pat, rep) == a + Replace(s, pat, rep)
    decreases |a|
  {
    if |a| == 0 {
      assert a + s == s;
    } else {
      var t := a + s;
      ReplaceSkipsPrefix(a[1..], s, pat, rep);
      assert t[1..] == a[1..] + s;
      assert a == [a[0]] + a[1..];
      if |t| < |pat| {
        assert |s| < |pat|;
        assert Replace(s, pat, rep) == s;
        assert Replace(t, pat, rep) == t;
      } else {
        assert t[..|pat|][0] == a[0];
        assert t[..|pat|] != pat;
        var r := Replace(s, pat, rep);
        assert Replace(t, pat, rep) == [t[0]] + Replace(t[1..], pat, rep);
        assert Replace(t[1..], pat, rep) == a[1..] + r;
        assert t[0] == a[0];
        assert [a[0]] + (a[1..] + r) == ([a[0]] + a[1..]) + r;
        assert Replace(t, pat, rep) == a + r;
      }
    }
  }

  /** Without the pattern's first character there is nothing to replace. */
  lemma ReplaceFree(s: string, pat: string, rep: string)
    requires |pat| > 0
    requires pat[0] !in s
    ensures Replace(s, pat, rep) == s
  {
    ReplaceSkipsPrefix(s, [], pat, rep);
    assert s + [] == s;
  }

  /** Every occurrence is replaced: in a join of pieces that lack the pattern's
      first character, exactly the joining occurrences are rewritten. */
  lemma {:induction false} ReplaceJoin(pieces: seq<string>, pat: string, rep: string)
    requires |pat| > 0
    requires forall i :: 0 <= i < |pieces| ==> pat[0] !in pieces[i]
    ensures Replace(Join(pieces, pat), pat, rep) == Join(pieces, rep)
    decreases |pieces|
  {
    if |pieces| == 1 {
      ReplaceFree(pieces[0], pat, rep);
    } else if |pieces| > 1 {
      var tail := Join(pieces[1..], pat);
      ReplaceJoin(pieces[1..], pat, rep);
      assert Join(pieces, pat) == pieces[0] + (pat + tail);
      ReplaceSkipsPrefix(pieces[0], pat + tail, pat, rep);
      assert (pat + tail)[..|pat|] == pat;
      assert (pat + tail)[|pat|..] == tail;
      assert Replace(pat + tail, pat, rep) == rep + Replace(tail, pat, rep);
    }
  }

  /** Deleting every copy of a character leaves none behind. */
  lemma {:induction false} DeleteRemovesChar(s: string, c: char)
    ensures c !in Replace(s, [c], [])
    decreases |s|
  {
    if |s| >= 1 {
      DeleteRemovesChar(s[1..], c);
      if s[..1] != [c] {
        assert s[0] != c;
      }
    }
  }
}
