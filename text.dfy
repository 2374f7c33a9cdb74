/**
 * Character classes and substring searches the regular expressions of
 * `formatSummary` rely on, written out over `seq<char>` without a regex engine.
 */
module Text {
  import opened Wrappers

  /** JavaScript's `\s`: the WhiteSpace and LineTerminator code points of ECMAScript. */
  predicate IsWhitespace(c: char) {
    ('\t' <= c <= '\r') || c == ' '
    || c == '\U{00A0}' || c == '\U{1680}' || ('\U{2000}' <= c <= '\U{200A}')
    || c == '\U{2028}' || c == '\U{2029}' || c == '\U{202F}' || c == '\U{205F}'
    || c == '\U{3000}' || c == '\U{FEFF}'
  }

  /** The characters JavaScript's `.` refuses to match (without the `s` flag). */
  predicate IsLineTerminator(c: char) {
    c == '\n' || c == '\r' || c == '\U{2028}' || c == '\U{2029}'
  }

  function AsciiUpper(c: char): char {
    if 'a' <= c <= 'z' then (c as int - 32) as char else c
  }

  /**
   * Whether `c` matches the pattern character `p` under the `i` flag. For an
   * ASCII `p` the regex canonicalisation folds only ASCII letters, since it
   * never maps a non-ASCII character onto an ASCII one.
   */
  predicate CharEqualsIgnoreCase(c: char, p: char) {
    AsciiUpper(c) == AsciiUpper(p)
  }

  predicate EqualsIgnoreCase(t: string, pat: string) {
    |t| == |pat| && forall k :: 0 <= k < |t| ==> CharEqualsIgnoreCase(t[k], pat[k])
  }

  /** `pat` occurs in `s` at index `i`, exactly. */
  predicate OccursAt(s: string, i: nat, pat: string) {
    i + |pat| <= |s| && s[i..i + |pat|] == pat
  }

  /** `pat` occurs in `s` at index `i`, ignoring ASCII case. */
  predicate OccursAtIgnoreCase(s: string, i: nat, pat: string) {
    i + |pat| <= |s| && EqualsIgnoreCase(s[i..i + |pat|], pat)
  }

  /** The first index at or after `from` holding `c`. */
  function IndexOfFrom(s: string, c: char, from: nat): (r: Option<nat>)
    ensures r.Some? ==> from <= r.value < |s| && s[r.value] == c
    decreases |s| - from
  {
    if from >= |s| then None
    else if s[from] == c then Some(from)
    else IndexOfFrom(s, c, from + 1)
  }

  /** IndexOfFrom finds the first `c`: none comes before it, and none at all when it fails. */
  lemma {:induction false} IndexOfFromFirst(s: string, c: char, from: nat)
    ensures IndexOfFrom(s, c, from).Some? ==> forall k :: from <= k < IndexOfFrom(s, c, from).value ==> s[k] != c
    ensures IndexOfFrom(s, c, from).None? ==> forall k :: from <= k < |s| ==> s[k] != c
    decreases |s| - from
  {
    if from < |s| && s[from] != c {
      IndexOfFromFirst(s, c, from + 1);
    }
  }

  /** A non-empty suffix is its first character followed by the rest. */
  lemma SuffixSplit(s: string, i: nat)
    requires i < |s|
    ensures s[i..] == [s[i]] + s[i + 1..]
  {
  }

  /** An occurrence of `a + b` is an occurrence of `a` followed by one of `b`. */
  lemma OccursAtConcat(s: string, i: nat, a: string, b: string)
    ensures OccursAt(s, i, a + b) <==> OccursAt(s, i, a) && OccursAt(s, i + |a|, b)
  {
    if OccursAt(s, i, a) && OccursAt(s, i + |a|, b) {
      assert s[i..i + |a + b|] == s[i..i + |a|] + s[i + |a|..i + |a| + |b|];
    }
    if OccursAt(s, i, a + b) {
      assert s[i..i + |a|] == (a + b)[..|a|];
      assert s[i + |a|..i + |a| + |b|] == (a + b)[|a|..];
    }
  }

  /** Inside an occurrence of `t` at `b`, an occurrence of `pat` can be read off `t`. */
  lemma OccursAtShift(s: string, b: nat, t: string, m: nat, pat: string)
    requires OccursAt(s, b, t) && b <= m && m - b + |pat| <= |t|
    ensures OccursAt(s, m, pat) <==> OccursAt(t, m - b, pat)
  {
    var x, y := s[m..m + |pat|], t[m - b..m - b + |pat|];
    forall k | 0 <= k < |pat| ensures x[k] == y[k] {
      CharOfOccurrence(s, b, t, m + k);
    }
    assert x == y;
  }

  /** Inside an occurrence of `t` at `b`, the characters of `s` are those of `t`. */
  lemma CharOfOccurrence(s: string, b: nat, t: string, m: nat)
    requires OccursAt(s, b, t) && b <= m < b + |t|
    ensures s[m] == t[m - b]
  {
    assert s[b..b + |t|][m - b] == s[m];
  }

  /** The first `c` at or after `from` is the one IndexOfFrom finds. */
  lemma {:induction false} IndexOfFromFinds(s: string, c: char, from: nat, j: nat)
    requires from <= j < |s| && s[j] == c
    requires forall k :: from <= k < j ==> s[k] != c
    ensures IndexOfFrom(s, c, from) == Some(j)
    decreases j - from
  {
    if from < j {
      IndexOfFromFinds(s, c, from + 1, j);
    }
  }
}
