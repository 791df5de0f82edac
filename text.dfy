/**
 * The JavaScript string operations the upload components rely on:
 * `includes` and `replace` with a string pattern (which replaces only the
 * first occurrence), both built on the first-occurrence search that
 * `indexOf` exposes. Strings are sequences of characters; UTF-16
 * code units (and so surrogate pairs) are not modelled.
 */
module Text {
  import opened Wrappers

  /** `sub` occurs in `s` starting at index `i`. */
  ghost predicate OccursAt(s: string, sub: string, i: int)
  {
    0 <= i && i + |sub| <= |s| && s[i..i + |sub|] == sub
  }

  /** The first index at or after `from` where `sub` occurs, as `s.indexOf(sub, from)`. */
  function IndexFrom(s: string, sub: string, from: nat): (r: Option<nat>)
    requires from <= |s|
    ensures r.Some? ==> from <= r.value && OccursAt(s, sub, r.value)
    ensures r.Some? ==> forall j :: from <= j < r.value ==> !OccursAt(s, sub, j)
    ensures r.None? ==> forall j :: from <= j ==> !OccursAt(s, sub, j)
    decreases |s| - from
  {
    if from + |sub| > |s| then None
    else if s[from..from + |sub|] == sub then Some(from)
    else IndexFrom(s, sub, from + 1)
  }

  /** `s.indexOf(sub)`: the first occurrence, `None` standing for -1. */
  function IndexOf(s: string, sub: string): (r: Option<nat>)
    ensures r.Some? ==> OccursAt(s, sub, r.value)
    ensures r.Some? ==> forall j :: 0 <= j < r.value ==> !OccursAt(s, sub, j)
    ensures r.None? <==> forall j :: !OccursAt(s, sub, j)
  {
    IndexFrom(s, sub, 0)
  }

  /** `s.includes(sub)`. */
  predicate Contains(s: string, sub: string)
  {
    IndexOf(s, sub).Some?
  }

  /** `includes` holds exactly when there is an occurrence. */
  lemma ContainsIff(s: string, sub: string)
    ensures Contains(s, sub) <==> exists i :: OccursAt(s, sub, i)
  {
  }

  /**
   * `s.replace(pat, rep)` with a string pattern: the first occurrence of `pat`
   * is replaced by `rep`; without one, `s` is returned. (`rep` is taken
   * literally: the `$` patterns of JavaScript replacement strings are not
   * modelled, and the replacements `FileList` uses contain no `$`.)
   */
  function ReplaceFirst(s: string, pat: string, rep: string): (r: string)
    ensures !Contains(s, pat) ==> r == s
    ensures Contains(s, pat) ==> |r| == |s| - |pat| + |rep|
    ensures Contains(s, pat) ==> Contains(r, rep)
  {
    match IndexOf(s, pat)
    case None => s
    case Some(i) =>
      var r := s[..i] + rep + s[i + |pat|..];
      assert r[i..i + |rep|] == rep;
      assert OccursAt(r, rep, i);
      r
  }

  /**
   * Where the first occurrence of `pat` was, the result holds `rep`; before
   * it and after it the input is unchanged.
   */
  lemma ReplaceFirstAt(s: string, pat: string, rep: string, i: nat)
    requires IndexOf(s, pat) == Some(i)
    ensures ReplaceFirst(s, pat, rep)[..i] == s[..i]
    ensures OccursAt(ReplaceFirst(s, pat, rep), rep, i)
    ensures ReplaceFirst(s, pat, rep)[i + |rep|..] == s[i + |pat|..]
  {
    var r := ReplaceFirst(s, pat, rep);
    assert r == s[..i] + rep + s[i + |pat|..];
    assert r[i..i + |rep|] == rep;
  }

  /** An occurrence with no earlier start of `sub[0]` is the first one. */
  lemma FirstOccurrence(s: string, sub: string, i: nat)
    requires 0 < |sub| && OccursAt(s, sub, i)
    requires forall j :: 0 <= j < i ==> s[j] != sub[0]
    ensures IndexOf(s, sub) == Some(i)
  {
    var r := IndexOf(s, sub);
    assert r.Some?;
    CharAt(s, sub, r.value, r.value);
  }

  /** An occurrence with no earlier occurrence is the one the search finds. */
  lemma FirstOccurrenceOf(s: string, sub: string, i: nat)
    requires OccursAt(s, sub, i)
    requires forall j :: 0 <= j < i ==> !OccursAt(s, sub, j)
    ensures IndexOf(s, sub) == Some(i)
  {
  }

  /** An occurrence that ends within `head` is an occurrence in `head`. */
  lemma PrefixOccurrence(head: string, tail: string, sub: string, j: int)
    requires OccursAt(head + tail, sub, j) && j + |sub| <= |head|
    ensures OccursAt(head, sub, j)
  {
    assert (head + tail)[j..j + |sub|] == head[j..j + |sub|];
  }

  /**
   * When `head` does not contain `pat` and the first character of `pat` does
   * not recur in it, `replace` rewrites the `pat` right after `head`: no
   * occurrence can start in `head` and run into `pat`.
   */
  lemma ReplaceFirstAfterFree(head: string, pat: string, rep: string, rest: string)
    requires 0 < |pat| && !Contains(head, pat)
    requires forall k :: 0 < k < |pat| ==> pat[k] != pat[0]
    ensures ReplaceFirst(head + pat + rest, pat, rep) == head + rep + rest
  {
    var s, n := head + pat + rest, |head|;
    assert s[..n] == head && s[n..n + |pat|] == pat && s[n + |pat|..] == rest;
    assert s == head + (pat + rest);
    forall j | 0 <= j < n
      ensures !OccursAt(s, pat, j)
    {
      if OccursAt(s, pat, j) {
        if j + |pat| <= n {
          PrefixOccurrence(head, pat + rest, pat, j);
          ContainsAt(head, pat, j);
          assert false;
        } else {
          CharAt(s, pat, j, n);
          CharAt(s, pat, n, n);
          assert false;
        }
      }
    }
    FirstOccurrenceOf(s, pat, n);
    ReplaceFirstAt(s, pat, rep, n);
  }

  /** When `head` holds no character that starts `pat`, `replace` rewrites the `pat` right after `head`. */
  lemma ReplaceFirstAfter(head: string, pat: string, rep: string, rest: string)
    requires 0 < |pat| && pat[0] !in head
    ensures ReplaceFirst(head + pat + rest, pat, rep) == head + rep + rest
  {
    var s, n := head + pat + rest, |head|;
    assert s[..n] == head && s[n..n + |pat|] == pat && s[n + |pat|..] == rest;
    forall j | 0 <= j < n
      ensures s[j] != pat[0]
    {
      assert s[j] == head[j];
    }
    FirstOccurrence(s, pat, n);
    ReplaceFirstAt(s, pat, rep, n);
  }

  /** A witness occurrence makes `includes` true. */
  lemma ContainsAt(s: string, sub: string, i: int)
    requires OccursAt(s, sub, i)
    ensures Contains(s, sub)
  {
    ContainsIff(s, sub);
  }

  /** A character of `sub` that `s` lacks makes `includes` false. */
  lemma NotContainsMissingChar(s: string, sub: string, k: nat)
    requires k < |sub| && sub[k] !in s
    ensures !Contains(s, sub)
  {
    ContainsIff(s, sub);
  }

  /** Inside an occurrence, `s` agrees with `sub` position by position. */
  lemma CharAt(s: string, sub: string, i: int, k: int)
    requires OccursAt(s, sub, i) && i <= k < i + |sub|
    ensures s[k] == sub[k - i]
  {
    assert s[k] == s[i..i + |sub|][k - i];
  }

  /** Two strings share no character. */
  ghost predicate Disjoint(a: string, b: string)
  {
    forall x, y :: 0 <= x < |a| && 0 <= y < |b| ==> a[x] != b[y]
  }

  /**
   * A same-length replacement of `pat` leaves every occurrence of a string
   * `u` that shares no character with `pat` in place.
   */
  lemma ReplaceKeepsDisjoint(s: string, pat: string, rep: string, u: string, j: int)
    requires |pat| == |rep| && Disjoint(pat, u) && OccursAt(s, u, j)
    ensures OccursAt(ReplaceFirst(s, pat, rep), u, j)
  {
    var r := ReplaceFirst(s, pat, rep);
    match IndexOf(s, pat)
    case None =>
    case Some(i) =>
      ReplaceFirstAt(s, pat, rep, i);
      forall k | j <= k < j + |u|
        ensures r[k] == s[k]
      {
        CharAt(s, u, j, k);
        if i <= k < i + |pat| {
          CharAt(s, pat, i, k);
          assert false;
        } else if k < i {
          assert r[k] == r[..i][k];
        } else if i + |pat| <= k {
          assert r[k] == r[i + |rep|..][k - i - |rep|];
        }
      }
      assert r[j..j + |u|] == u;
  }
}
