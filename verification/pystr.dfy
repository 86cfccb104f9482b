/**
 The two Python string operations the caption clean-up uses:
 `str.replace(pat, "")` (a single left-to-right pass that drops every
 non-overlapping occurrence of `pat`) and `str.strip()` (drop leading and
 trailing whitespace, where whitespace is what `str.isspace` accepts).
 */
module PyStr {

  /** The characters Python's `str.isspace` accepts, i.e. what `str.strip()`
      with no argument removes. */
  predicate IsSpace(c: char) {
    var n := c as int;
    || n == 32              // space
    || 9 <= n <= 13         // \t \n \v \f \r
    || 28 <= n <= 31        // file, group, record and unit separators
    || n == 0x85 || n == 0xA0 || n == 0x1680
    || 0x2000 <= n <= 0x200A
    || n == 0x2028 || n == 0x2029 || n == 0x202F || n == 0x205F || n == 0x3000
  }

  predicate AllSpace(s: string) {
    forall i :: 0 <= i < |s| ==> IsSpace(s[i])
  }

  predicate NoSpaceIn(s: string) {
    forall i :: 0 <= i < |s| ==> !IsSpace(s[i])
  }

  /** Neither the first nor the last character is whitespace. */
  predicate NoEdgeSpace(s: string) {
    s == [] || (!IsSpace(s[0]) && !IsSpace(s[|s| - 1]))
  }

  /** Drops the longest whitespace prefix. */
  function StripLeft(s: string): (r: string)
    ensures |r| <= |s| && r == s[|s| - |r|..]
    ensures AllSpace(s[..|s| - |r|])
    ensures r == [] || !IsSpace(r[0])
  {
    if s == [] || !IsSpace(s[0]) then s
    else
      var r := StripLeft(s[1..]);
      assert s[..|s| - |r|] == [s[0]] + s[1..][..|s[1..]| - |r|];
      r
  }

  /** Drops the longest whitespace suffix. */
  function StripRight(s: string): (r: string)
    ensures |r| <= |s| && r == s[..|r|]
    ensures AllSpace(s[|r|..])
    ensures r == [] || !IsSpace(r[|r| - 1])
  {
    if s == [] || !IsSpace(s[|s| - 1]) then s
    else
      var r := StripRight(s[..|s| - 1]);
      assert s[|r|..] == s[..|s| - 1][|r|..] + [s[|s| - 1]];
      r
  }

  /** `r` is `s` with the whitespace-only prefix `s[..i]` and a
      whitespace-only suffix cut off. */
  ghost predicate TrimmedAt(s: string, r: string, i: int) {
    && 0 <= i && i + |r| <= |s|
    && r == s[i..i + |r|]
    && AllSpace(s[..i])
    && AllSpace(s[i + |r|..])
  }

  /** Python's `str.strip()` with no argument. */
  function Strip(s: string): (r: string)
    ensures NoEdgeSpace(r)
    ensures |r| <= |s|
  {
    StripRight(StripLeft(s))
  }

  /** What `strip` removes is a whitespace prefix and a whitespace suffix,
      and it removes everything exactly when everything is whitespace. */
  lemma StripTrims(s: string)
    ensures exists i :: TrimmedAt(s, Strip(s), i)
    ensures Strip(s) == [] <==> AllSpace(s)
  {
    var i := |s| - |StripLeft(s)|;
    StripTrimsAt(s, i);
    if Strip(s) == [] {
      StripToEmpty(s, i);
    } else {
      StripToNonEmpty(s, i);
    }
  }

  /** The cut made by `strip` starts where `StripLeft` stopped. */
  lemma StripTrimsAt(s: string, i: int)
    requires i == |s| - |StripLeft(s)|
    ensures TrimmedAt(s, Strip(s), i)
  {
    var l := StripLeft(s);
    TrimmedFromParts(s, l, StripRight(l), i);
  }

  /** A whitespace prefix cut off to leave `l`, then a whitespace suffix cut
      off `l` to leave `r`. */
  lemma TrimmedFromParts(s: string, l: string, r: string, i: int)
    requires 0 <= i <= |s| && l == s[i..] && AllSpace(s[..i])
    requires |r| <= |l| && r == l[..|r|] && AllSpace(l[|r|..])
    ensures TrimmedAt(s, r, i)
  {
    assert l[|r|..] == s[i + |r|..];
  }

  /** Nothing left after the cuts means everything was whitespace. */
  lemma StripToEmpty(s: string, i: int)
    requires TrimmedAt(s, [], i)
    ensures AllSpace(s)
  {
    forall k | 0 <= k < |s|
      ensures IsSpace(s[k])
    {
      if k < i {
        assert s[k] == s[..i][k];
      } else {
        assert s[k] == s[i..][k - i];
      }
    }
  }

  /** Something left after the cuts starts with a non-whitespace character. */
  lemma StripToNonEmpty(s: string, i: int)
    requires i == |s| - |StripLeft(s)| && Strip(s) != []
    ensures !IsSpace(s[i])
  {
    var l := StripLeft(s);
    var r := StripRight(l);
    assert r[0] == l[0] == s[i];
  }

  /** Stripping only cuts text off, so it cannot create an occurrence of a
      pattern. */
  lemma NoPatternInStrip(s: string, p: string)
    requires !Contains(s, p)
    ensures !Contains(Strip(s), p)
  {
    StripTrims(s);
    var i :| TrimmedAt(s, Strip(s), i);
    NoPatternInSlice(s, Strip(s), i, p);
  }

  /** A pattern absent from `s` is absent from every slice of it. */
  lemma NoPatternInSlice(s: string, r: string, i: int, p: string)
    requires 0 <= i && i + |r| <= |s| && r == s[i..i + |r|]
    requires !Contains(s, p)
    ensures !Contains(r, p)
  {
    forall j | 0 <= j
      ensures !OccursAt(r, p, j)
    {
      assert !OccursAt(s, p, i + j);
      if j + |p| <= |r| {
        var a, b := r[j..j + |p|], s[i + j..i + j + |p|];
        forall k | 0 <= k < |p| ensures a[k] == b[k] {
          assert r[j + k] == s[i + j + k];
        }
        assert a == b;
      }
    }
  }

  /** Text without edge whitespace is left as it is. */
  lemma StripKeepsEdgeFree(s: string)
    requires NoEdgeSpace(s)
    ensures Strip(s) == s
  {
  }

  /** A leading space is among what `strip` removes. */
  lemma StripLeadingSpace(s: string)
    ensures Strip(" " + s) == Strip(s)
  {
    assert (" " + s)[1..] == s;
  }

  /** One space in front of text without edge whitespace is all that
      `strip` removes. */
  lemma StripOneSpace(s: string)
    requires NoEdgeSpace(s)
    ensures Strip(" " + s) == s
  {
    StripLeadingSpace(s);
    StripKeepsEdgeFree(s);
  }

  /** `p` occurs in `s` starting at position `i`. */
  ghost predicate OccursAt(s: string, p: string, i: int) {
    0 <= i && i + |p| <= |s| && s[i..i + |p|] == p
  }

  ghost predicate Contains(s: string, p: string) {
    exists i :: OccursAt(s, p, i)
  }

  /** Python's `s.replace(p, "")`: scan left to right; wherever `p` starts,
      skip it, otherwise keep the character. An empty `p` leaves `s` as it is
      (Python inserts the empty replacement between characters). */
  function RemoveAll(s: string, p: string): (r: string)
    ensures |r| <= |s|
    ensures |p| > 0 && p <= s ==> |r| + |p| <= |s|
    decreases |s|
  {
    if |p| == 0 || s == [] then s
    else if p <= s then RemoveAll(s[|p|..], p)
    else [s[0]] + RemoveAll(s[1..], p)
  }

  /** The removal changes the string exactly when the pattern occurs in it. */
  lemma {:induction false} RemoveAllUnchangedIff(s: string, p: string)
    requires |p| > 0
    ensures RemoveAll(s, p) == s <==> !Contains(s, p)
    decreases |s|
  {
    if Contains(s, p) {
      ContainedPatternShrinks(s, p);
    } else {
      AbsentPatternKept(s, p);
    }
  }

  /** An occurrence of the pattern is dropped somewhere in the scan. */
  lemma {:induction false} ContainedPatternShrinks(s: string, p: string)
    requires |p| > 0 && Contains(s, p)
    ensures |RemoveAll(s, p)| < |s|
    decreases |s|
  {
    var i :| OccursAt(s, p, i);
    if p <= s {
    } else {
      assert i != 0;
      assert s[1..][i - 1..i - 1 + |p|] == s[i..i + |p|];
      assert OccursAt(s[1..], p, i - 1);
      ContainedPatternShrinks(s[1..], p);
    }
  }

  /** Without an occurrence every character is copied. */
  lemma {:induction false} AbsentPatternKept(s: string, p: string)
    requires |p| > 0 && !Contains(s, p)
    ensures RemoveAll(s, p) == s
    decreases |s|
  {
    if s != [] {
      if p <= s {
        assert OccursAt(s, p, 0);
      }
      NoOccurrenceInTail(s, p);
      AbsentPatternKept(s[1..], p);
      assert s == [s[0]] + s[1..];
    }
  }

  /** A pattern that is a prefix is dropped and the scan resumes after it. */
  lemma RemoveAllLeadingPattern(p: string, t: string)
    requires |p| > 0
    ensures RemoveAll(p + t, p) == RemoveAll(t, p)
  {
    assert p <= p + t;
    assert (p + t)[|p|..] == t;
  }

  /** Text before the first character of the pattern is ever seen is
      copied, and the scan continues after it. */
  lemma {:induction false} RemoveAllSkipsFront(front: string, rest: string, p: string)
    requires |p| > 0 && p[0] !in front
    ensures RemoveAll(front + rest, p) == front + RemoveAll(rest, p)
    decreases |front|
  {
    if front != [] {
      var s := front + rest;
      assert s[0] == front[0];
      assert s[1..] == front[1..] + rest;
      RemoveAllSkipsFront(front[1..], rest, p);
      assert [front[0]] + (front[1..] + RemoveAll(rest, p)) == front + RemoveAll(rest, p);
    } else {
      assert front + rest == rest;
    }
  }

  /** Text shorter than the pattern cannot hold it. */
  lemma NoPatternInShortText(s: string, p: string)
    requires |s| < |p|
    ensures !Contains(s, p)
  {
    forall j | 0 <= j
      ensures !OccursAt(s, p, j)
    {
    }
  }

  /** ... so the removal keeps it. */
  lemma ShortTextKept(s: string, p: string)
    requires 0 < |s| < |p|
    ensures RemoveAll(s, p) == s
  {
    NoPatternInShortText(s, p);
    AbsentPatternKept(s, p);
  }

  /** A pattern that has no whitespace cannot straddle a word boundary:
      a clean word `w` followed by text that is empty or starts with a space
      survives the removal intact. */
  lemma {:induction false} RemoveAllKeepsCleanWord(w: string, rest: string, p: string)
    requires |p| > 0 && ' ' !in p
    requires !Contains(w, p)
    requires rest == [] || rest[0] == ' '
    ensures RemoveAll(w + rest, p) == w + RemoveAll(rest, p)
    decreases |w|
  {
    if w == [] {
      assert w + rest == rest;
    } else {
      CleanWordIsNoPrefix(w, rest, p);
      NoOccurrenceInTail(w, p);
      var s := w + rest;
      var x := RemoveAll(rest, p);
      assert s[1..] == w[1..] + rest;
      RemoveAllKeepsCleanWord(w[1..], rest, p);
      assert RemoveAll(s[1..], p) == w[1..] + x;
      assert RemoveAll(s, p) == [s[0]] + RemoveAll(s[1..], p);
      assert [w[0]] + (w[1..] + x) == w + x;
    }
  }

  /** A space-free pattern that does not occur in `w` cannot start at the
      front of `w` followed by a space or by nothing. */
  lemma CleanWordIsNoPrefix(w: string, rest: string, p: string)
    requires |p| > 0 && ' ' !in p
    requires w != [] && !Contains(w, p)
    requires rest == [] || rest[0] == ' '
    ensures !(p <= w + rest)
  {
    if |p| <= |w| {
      assert !OccursAt(w, p, 0);
    } else if |p| <= |w + rest| {
      assert p[|w|] != ' ';
    }
  }

  /** Dropping the first character creates no occurrence. */
  lemma NoOccurrenceInTail(s: string, p: string)
    requires s != [] && !Contains(s, p)
    ensures !Contains(s[1..], p)
  {
    forall j | 0 <= j
      ensures !OccursAt(s[1..], p, j)
    {
      assert !OccursAt(s, p, j + 1);
    }
  }
}
