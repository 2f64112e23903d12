/**
 * Python's string operations as the installer uses them: the substring test
 * `p in s`, literal `str.replace`, and `str.split` / `str.join`, which serve
 * as an independent reference definition of replacement.
 */
module Text {

  /** Python's `p in s`: p occurs in s as a contiguous block. */
  predicate Contains(s: string, p: string)
    decreases |s|
  {
    if |p| > |s| then false
    else s[..|p|] == p || (|s| > 0 && Contains(s[1..], p))
  }

  /**
   * Python's `s.replace(pat, val)`: scans left to right and replaces every
   * non-overlapping occurrence of `pat`. An empty `pat` inserts `val` before
   * every character and at the end, as Python does.
   */
  function Replace(s: string, pat: string, val: string): string
    decreases |s|
  {
    if pat == [] then
      if s == [] then val else val + [s[0]] + Replace(s[1..], pat, val)
    else if |s| < |pat| then s
    else if s[..|pat|] == pat then val + Replace(s[|pat|..], pat, val)
    else [s[0]] + Replace(s[1..], pat, val)
  }

  /** Python's `s.split(sep)` for a non-empty separator (an empty one raises). */
  function Split(s: string, sep: string): (pieces: seq<string>)
    requires sep != []
    ensures |pieces| >= 1
    decreases |s|
  {
    if |s| < |sep| then [s]
    else if s[..|sep|] == sep then [[]] + Split(s[|sep|..], sep)
    else
      var rest := Split(s[1..], sep);
      [[s[0]] + rest[0]] + rest[1..]
  }

  /** Python's `sep.join(pieces)`. */
  function Join(pieces: seq<string>, sep: string): string
    decreases |pieces|
  {
    if |pieces| == 0 then []
    else if |pieces| == 1 then pieces[0]
    else pieces[0] + sep + Join(pieces[1..], sep)
  }

  /** Prepending a character to the first piece prepends it to the joined text. */
  lemma {:induction false} JoinConsHead(c: char, pieces: seq<string>, sep: string)
    requires |pieces| >= 1
    ensures Join([[c] + pieces[0]] + pieces[1..], sep) == [c] + Join(pieces, sep)
  {
    var q := [[c] + pieces[0]] + pieces[1..];
    if |pieces| > 1 {
      assert q[1..] == pieces[1..];
    }
  }

  /** Splitting on `sep` and joining with `sep` gives back the original text. */
  lemma {:induction false} SplitJoinRoundTrip(s: string, sep: string)
    requires sep != []
    ensures Join(Split(s, sep), sep) == s
    decreases |s|
  {
    if |s| < |sep| {
    } else if s[..|sep|] == sep {
      var rest := Split(s[|sep|..], sep);
      SplitJoinRoundTrip(s[|sep|..], sep);
      assert ([[]] + rest)[1..] == rest;
      assert Join([[]] + rest, sep) == [] + sep + Join(rest, sep);
      assert s == s[..|sep|] + s[|sep|..];
    } else {
      var rest := Split(s[1..], sep);
      SplitJoinRoundTrip(s[1..], sep);
      JoinConsHead(s[0], rest, sep);
      assert s == [s[0]] + s[1..];
    }
  }

  /**
   * Replacement agrees with the reference definition `val.join(s.split(pat))`:
   * the text between occurrences is kept and every occurrence becomes `val`.
   */
  lemma {:induction false} ReplaceIsJoinOfSplit(s: string, pat: string, val: string)
    requires pat != []
    ensures Replace(s, pat, val) == Join(Split(s, pat), val)
    decreases |s|
  {
    if |s| < |pat| {
    } else if s[..|pat|] == pat {
      var rest := Split(s[|pat|..], pat);
      ReplaceIsJoinOfSplit(s[|pat|..], pat, val);
      assert Split(s, pat) == [[]] + rest;
      assert ([[]] + rest)[1..] == rest;
      assert Join([[]] + rest, val) == [] + val + Join(rest, val);
    } else {
      var rest := Split(s[1..], pat);
      ReplaceIsJoinOfSplit(s[1..], pat, val);
      assert Split(s, pat) == [[s[0]] + rest[0]] + rest[1..];
      JoinConsHead(s[0], rest, val);
    }
  }

  /** The first piece of a split is a prefix of the text. */
  lemma {:induction false} SplitHeadIsPrefix(s: string, sep: string)
    requires sep != []
    ensures Split(s, sep)[0] <= s
    decreases |s|
  {
    if |s| < |sep| {
    } else if s[..|sep|] == sep {
    } else {
      SplitHeadIsPrefix(s[1..], sep);
      assert s == [s[0]] + s[1..];
    }
  }

  /** No piece of a split contains the separator: every occurrence was cut out. */
  lemma {:induction false} SplitPiecesAreFree(s: string, sep: string, k: nat)
    requires sep != []
    requires k < |Split(s, sep)|
    ensures !Contains(Split(s, sep)[k], sep)
    decreases |s|
  {
    if |s| < |sep| {
    } else if s[..|sep|] == sep {
      if k > 0 {
        SplitPiecesAreFree(s[|sep|..], sep, k - 1);
      }
    } else {
      var rest := Split(s[1..], sep);
      if k > 0 {
        SplitPiecesAreFree(s[1..], sep, k);
      } else {
        var head := [s[0]] + rest[0];
        SplitPiecesAreFree(s[1..], sep, 0);
        SplitHeadIsPrefix(s[1..], sep);
        if |sep| <= |head| {
          assert head[..|sep|] == s[..|sep|];
          assert head[1..] == rest[0];
        }
      }
    }
  }

  /** Text without an occurrence of `pat` is left as it is. */
  lemma {:induction false} ReplaceAbsent(s: string, pat: string, val: string)
    requires pat != [] && !Contains(s, pat)
    ensures Replace(s, pat, val) == s
    decreases |s|
  {
    if |s| >= |pat| {
      ReplaceAbsent(s[1..], pat, val);
      assert s == [s[0]] + s[1..];
    }
  }

  /** `pat` occurs in `s` starting at index `i`. */
  predicate MatchAt(s: string, pat: string, i: nat)
  {
    i + |pat| <= |s| && s[i..i + |pat|] == pat
  }

  /** Dropping the first character shifts every later non-match down by one. */
  lemma NoMatchShift(s: string, pat: string, k: nat)
    requires 0 < k <= |s|
    requires forall i :: 0 < i < k ==> !MatchAt(s, pat, i)
    ensures forall i :: 0 <= i < k - 1 ==> !MatchAt(s[1..], pat, i)
  {
    forall i | 0 <= i < k - 1
      ensures !MatchAt(s[1..], pat, i)
    {
      assert !MatchAt(s, pat, i + 1);
      if i + |pat| <= |s| - 1 {
        assert s[1..][i..i + |pat|] == s[i + 1..i + 1 + |pat|];
      }
    }
  }

  /** Where the pattern does not start, replacement copies the first character. */
  lemma ReplaceCopiesHead(s: string, pat: string, val: string)
    requires pat != [] && |pat| <= |s| && !MatchAt(s, pat, 0)
    ensures Replace(s, pat, val) == [s[0]] + Replace(s[1..], pat, val)
  {
  }

  /** Where the pattern starts, replacement puts `val` first. */
  lemma ReplaceAtMatch(s: string, pat: string, val: string)
    requires pat != [] && MatchAt(s, pat, 0)
    ensures Replace(s, pat, val) == val + Replace(s[|pat|..], pat, val)
  {
    assert s[..|pat|] == s[0..0 + |pat|];
  }

  /**
   * Replacement scans left to right: up to the first occurrence of the
   * pattern the text is copied as it is, and from there on the result is the
   * replacement of the rest of the text.
   */
  lemma {:induction false} ReplaceScan(s: string, pat: string, val: string, k: nat)
    requires pat != [] && k <= |s|
    requires forall i :: 0 <= i < k ==> !MatchAt(s, pat, i)
    ensures k <= |Replace(s, pat, val)|
    ensures Replace(s, pat, val)[..k] == s[..k]
    ensures Replace(s, pat, val)[k..] == Replace(s[k..], pat, val)
    decreases k
  {
    if k == 0 {
      assert s[k..] == s;
    } else if |s| < |pat| {
      assert Replace(s[k..], pat, val) == s[k..];
    } else {
      var tail := s[1..];
      NoMatchShift(s, pat, k);
      ReplaceScan(tail, pat, val, k - 1);
      var r := Replace(tail, pat, val);
      ReplaceCopiesHead(s, pat, val);
      assert tail[k - 1..] == s[k..];
      assert s[..k] == [s[0]] + tail[..k - 1];
      assert ([s[0]] + r)[k..] == r[k - 1..];
    }
  }

  /**
   * When `val` begins with a character it does not repeat, and `s` neither
   * contains `val` nor starts with `pat`, then after replacing `pat` by `val`
   * in the rest of `s` the result still does not start with `val`: an
   * inserted `val` would need its first character at a later place of `val`.
   */
  lemma NoMatchAtSeam(s: string, pat: string, val: string)
    requires pat != [] && val != [] && |val| <= |pat| <= |s|
    requires forall j :: 1 <= j < |val| ==> val[j] != val[0]
    requires !Contains(s, val) && s[..|pat|] != pat
    ensures var y := [s[0]] + Replace(s[1..], pat, val);
            |val| <= |y| && y[..|val|] != val
  {
    var u := s[1..];
    var i := 0;
    while i < |val| - 1 && !MatchAt(u, pat, i)
      invariant 0 <= i <= |val| - 1
      invariant forall j :: 0 <= j < i ==> !MatchAt(u, pat, j)
    {
      i := i + 1;
    }
    if i == |val| - 1 {
      SeamCopies(s, pat, val);
    } else {
      SeamInserts(s, pat, val, i);
    }
  }

  /** No occurrence of `pat` near the front: the front of `s` is kept, and it is not `val`. */
  lemma SeamCopies(s: string, pat: string, val: string)
    requires pat != [] && val != [] && |val| <= |pat| <= |s|
    requires !Contains(s, val)
    requires forall j :: 0 <= j < |val| - 1 ==> !MatchAt(s[1..], pat, j)
    ensures var y := [s[0]] + Replace(s[1..], pat, val);
            |val| <= |y| && y[..|val|] != val
  {
    var u := s[1..];
    var i := |val| - 1;
    ReplaceScan(u, pat, val, i);
    var x := Replace(u, pat, val);
    assert ([s[0]] + x)[..|val|] == [s[0]] + x[..i];
    assert s[..|val|] == [s[0]] + u[..i];
    assert s[..|val|] != val;
  }

  /** An occurrence of `pat` at `i` puts the first character of `val` at `i + 1`, where `val` has another. */
  lemma SeamInserts(s: string, pat: string, val: string, i: nat)
    requires pat != [] && i + 1 < |val| <= |pat| <= |s|
    requires forall j :: 1 <= j < |val| ==> val[j] != val[0]
    requires forall j :: 0 <= j < i ==> !MatchAt(s[1..], pat, j)
    requires MatchAt(s[1..], pat, i)
    ensures var y := [s[0]] + Replace(s[1..], pat, val);
            |val| <= |y| && y[..|val|] != val
  {
    var u := s[1..];
    ReplaceScan(u, pat, val, i);
    var x := Replace(u, pat, val);
    var w := u[i..];
    assert w[0..0 + |pat|] == u[i..i + |pat|];
    ReplaceAtMatch(w, pat, val);
    assert x[i] == val[0];
    assert ([s[0]] + x)[i + 1] == x[i];
    assert val[i + 1] != val[0];
  }

  /** A text that starts with `p` contains `p`. */
  lemma ContainsPrefix(p: string, rest: string)
    ensures Contains(p + rest, p)
  {
    assert (p + rest)[..|p|] == p;
  }

  /** An occurrence fits inside the text. */
  lemma {:induction false} ContainsFits(s: string, p: string)
    requires Contains(s, p)
    ensures |p| <= |s|
    decreases |s|
  {
    if s[..|p|] != p {
      ContainsFits(s[1..], p);
    }
  }

  /** Putting text in front keeps an occurrence. */
  lemma {:induction false} ContainsAfter(front: string, s: string, p: string)
    requires Contains(s, p)
    ensures Contains(front + s, p)
    decreases |front|
  {
    if front != [] {
      ContainsAfter(front[1..], s, p);
      var t := front + s;
      assert t[1..] == front[1..] + s;
      assert |t| > 0 && Contains(t[1..], p);
      assert |p| <= |t| by { ContainsFits(t[1..], p); }
    } else {
      assert front + s == s;
    }
  }
}
