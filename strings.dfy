/**
 * Sequence helpers shared by the text-safe envelope codec: repetition of a
 * word, substring occurrence, and the literal left-to-right replacement that
 * `String.replaceAll` performs when its pattern is a fixed literal.
 */
module Strings {

  /** `w` concatenated `n` times. */
  function Repeat(w: string, n: nat): string {
    if n == 0 then [] else w + Repeat(w, n - 1)
  }

  lemma {:induction false} RepeatLength(w: string, n: nat)
    ensures |Repeat(w, n)| == n * |w|
  {
    if n > 0 {
      RepeatLength(w, n - 1);
      assert n * |w| == |w| + (n - 1) * |w|;
    }
  }

  lemma {:induction false} RepeatAdd(w: string, m: nat, n: nat)
    ensures Repeat(w, m + n) == Repeat(w, m) + Repeat(w, n)
  {
    if m > 0 {
      RepeatAdd(w, m - 1, n);
      assert Repeat(w, m + n) == w + Repeat(w, m - 1 + n);
    } else {
      assert Repeat(w, 0) + Repeat(w, n) == Repeat(w, n);
    }
  }

  /** One more copy appended at the end, as a string builder does. */
  lemma {:induction false} RepeatSnoc(w: string, n: nat)
    ensures Repeat(w, n + 1) == Repeat(w, n) + w
  {
    RepeatAdd(w, n, 1);
    assert Repeat(w, 1) == w + [] == w;
  }

  /** Every character of a repetition is a character of the repeated word. */
  lemma {:induction false} RepeatChars(w: string, n: nat, x: char)
    requires x in Repeat(w, n)
    ensures x in w
  {
    if n > 0 && x !in w {
      assert x in Repeat(w, n - 1);
      RepeatChars(w, n - 1, x);
    }
  }

  predicate StartsWith(s: string, p: string) {
    |p| <= |s| && s[..|p|] == p
  }

  /** `w` occurs in `s` as a contiguous substring. */
  predicate Contains(s: string, w: string) {
    exists i :: 0 <= i <= |s| - |w| && OccursAt(s, w, i)
  }

  predicate OccursAt(s: string, w: string, i: int) {
    0 <= i && i + |w| <= |s| && s[i..i + |w|] == w
  }

  lemma {:induction false} ContainsTail(s: string, w: string)
    requires |s| > 0 && Contains(s[1..], w)
    ensures Contains(s, w)
  {
    var i :| 0 <= i <= |s[1..]| - |w| && OccursAt(s[1..], w, i);
    assert s[i + 1..i + 1 + |w|] == s[1..][i..i + |w|];
    assert OccursAt(s, w, i + 1);
  }

  lemma {:induction false} ContainsPrefix(s: string, w: string)
    requires StartsWith(s, w)
    ensures Contains(s, w)
  {
    assert OccursAt(s, w, 0);
  }

  /**
   * Leftmost, non-overlapping, left-to-right replacement of every occurrence
   * of the literal `pat` in `s` by `rep`: scanning from the left, an
   * occurrence starting at the current position is replaced and scanning
   * resumes after it; otherwise one character is copied.
   */
  function ReplaceAll(s: string, pat: string, rep: string): string
    requires |pat| > 0
    decreases |s|
  {
    if |s| < |pat| then s
    else if s[..|pat|] == pat then rep + ReplaceAll(s[|pat|..], pat, rep)
    else [s[0]] + ReplaceAll(s[1..], pat, rep)
  }

  /** Independent definition of single-character replacement: a per-character map. */
  function Subst(s: string, c: char, t: string): (r: string)
    ensures c !in s ==> r == s
  {
    if s == [] then [] else (if s[0] == c then t else [s[0]]) + Subst(s[1..], c, t)
  }

  lemma {:induction false} SubstAppend(a: string, b: string, c: char, t: string)
    ensures Subst(a + b, c, t) == Subst(a, c, t) + Subst(b, c, t)
  {
    if a == [] {
      assert a + b == b;
    } else {
      assert (a + b)[0] == a[0];
      assert (a + b)[1..] == a[1..] + b;
      SubstAppend(a[1..], b, c, t);
    }
  }

  /** With a one-character pattern, literal replacement is the per-character map. */
  lemma {:induction false} ReplaceSingleChar(s: string, c: char, t: string)
    ensures ReplaceAll(s, [c], t) == Subst(s, c, t)
  {
    if s != [] {
      ReplaceSingleChar(s[1..], c, t);
      assert s[..1] == [s[0]];
    }
  }

  /** A string in which `pat` does not occur is left as it is. */
  lemma {:induction false} ReplaceAbsent(s: string, pat: string, rep: string)
    requires |pat| > 0 && !Contains(s, pat)
    ensures ReplaceAll(s, pat, rep) == s
  {
    if |s| >= |pat| {
      assert !OccursAt(s, pat, 0);
      if !Contains(s[1..], pat) {
        ReplaceAbsent(s[1..], pat, rep);
        assert [s[0]] + s[1..] == s;
      } else {
        ContainsTail(s, pat);
      }
    }
  }

  /** A string without the first character of the pattern is left as it is. */
  lemma {:induction false} ReplaceWithoutLead(u: string, pat: string, rep: string)
    requires |pat| > 0 && pat[0] !in u
    ensures ReplaceAll(u, pat, rep) == u
  {
    forall i | 0 <= i <= |u| - |pat|
      ensures !OccursAt(u, pat, i)
    {
      assert u[i..i + |pat|][0] == u[i];
    }
    ReplaceAbsent(u, pat, rep);
  }

  /**
   * A prefix `u` that does not contain the first character of the pattern
   * cannot start an occurrence, so it is copied unchanged.
   */
  lemma {:induction false} ReplaceSkipsPrefix(u: string, v: string, pat: string, rep: string)
    requires |pat| > 0 && pat[0] !in u
    ensures ReplaceAll(u + v, pat, rep) == u + ReplaceAll(v, pat, rep)
  {
    if u == [] {
      assert u + v == v;
    } else {
      var s := u + v;
      assert s[1..] == u[1..] + v;
      ReplaceSkipsPrefix(u[1..], v, pat, rep);
      assert s[0] == u[0];
      if |s| < |pat| {
        assert !Contains(v, pat);
        ReplaceAbsent(v, pat, rep);
        assert u + v == [u[0]] + (u[1..] + v);
      } else {
        assert s[..|pat|][0] == u[0];
        assert u + ReplaceAll(v, pat, rep) == [u[0]] + (u[1..] + ReplaceAll(v, pat, rep));
      }
    }
  }

  /** An occurrence at the front is replaced and scanning resumes after it. */
  lemma {:induction false} ReplaceAtFront(v: string, pat: string, rep: string)
    requires |pat| > 0
    ensures ReplaceAll(pat + v, pat, rep) == rep + ReplaceAll(v, pat, rep)
  {
    var s := pat + v;
    assert s[..|pat|] == pat;
    assert s[|pat|..] == v;
  }

  /** A character that does not start an occurrence is copied. */
  lemma {:induction false} ReplaceCopiesChar(c: char, v: string, pat: string, rep: string)
    requires |pat| > 0 && !StartsWith([c] + v, pat)
    ensures ReplaceAll([c] + v, pat, rep) == [c] + ReplaceAll(v, pat, rep)
  {
    var s := [c] + v;
    assert s[1..] == v;
    if |s| < |pat| {
      assert !Contains(v, pat);
      ReplaceAbsent(v, pat, rep);
    }
  }

  /**
   * In `pat` written j times followed by a tail too short to hold another
   * occurrence, the pattern is replaced j times and the tail stays.
   */
  lemma {:induction false} ReplaceRuns(pat: string, j: nat, tail: string, rep: string)
    requires |pat| > 0 && |tail| < |pat|
    ensures ReplaceAll(Repeat(pat, j) + tail, pat, rep) == Repeat(rep, j) + tail
  {
    if j == 0 {
      assert Repeat(pat, 0) + tail == tail;
      assert Repeat(rep, 0) + tail == tail;
    } else {
      var rest := Repeat(pat, j - 1) + tail;
      assert Repeat(pat, j) + tail == pat + rest;
      ReplaceAtFront(rest, pat, rep);
      ReplaceRuns(pat, j - 1, tail, rep);
      assert Repeat(rep, j) + tail == rep + (Repeat(rep, j - 1) + tail);
    }
  }

  /**
   * Three passes over j copies of the last pattern and a short tail, when
   * the first two patterns cannot start anywhere in it: the first two
   * passes change nothing and the last replaces the j copies.
   */
  lemma {:induction false} ReplaceChainOnRuns(p1: string, r1: string, p2: string, r2: string,
                                              p3: string, r3: string, j: nat, tail: string)
    requires |p1| > 0 && |p2| > 0 && |p3| > 0 && |tail| < |p3|
    requires p1[0] !in Repeat(p3, j) + tail && p2[0] !in Repeat(p3, j) + tail
    ensures ReplaceAll(ReplaceAll(ReplaceAll(Repeat(p3, j) + tail, p1, r1), p2, r2), p3, r3)
         == Repeat(r3, j) + tail
  {
    var s := Repeat(p3, j) + tail;
    ReplaceWithoutLead(s, p1, r1);
    ReplaceWithoutLead(s, p2, r2);
    ReplaceRuns(p3, j, tail, r3);
  }
}
