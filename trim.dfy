/** The last rewrite of `formatSummary` (src/app/locations/TicketSideBar.jsx:19). */
module Trimming {
  import opened Text

  // ---------------------------------------------------------------------------
  // Trimming: `/^\s+|\s+$/g` replaced by the empty string. Without the `m`
  // flag `^` and `$` anchor at the ends of the input: if the text starts with
  // whitespace the first match is the maximal leading run, and the only other
  // match is the maximal trailing run of what remains.
  // ---------------------------------------------------------------------------

  /** The end of the whitespace run that starts at `i`. */
  function SkipWhitespace(s: string, i: nat): (r: nat)
    requires i <= |s|
    ensures i <= r <= |s|
    ensures forall k :: i <= k < r ==> IsWhitespace(s[k])
    ensures r < |s| ==> !IsWhitespace(s[r])
    decreases |s| - i
  {
    if i < |s| && IsWhitespace(s[i]) then SkipWhitespace(s, i + 1) else i
  }

  /** The start of the whitespace run that ends at `j`. */
  function SkipWhitespaceBack(s: string, j: nat): (r: nat)
    requires j <= |s|
    ensures r <= j
    ensures forall k :: r <= k < j ==> IsWhitespace(s[k])
    ensures r > 0 ==> !IsWhitespace(s[r - 1])
  {
    if j > 0 && IsWhitespace(s[j - 1]) then SkipWhitespaceBack(s, j - 1) else j
  }

  /** A whitespace run starting at `i` and followed by non-whitespace ends where SkipWhitespace says. */
  lemma SkipWhitespaceAt(s: string, i: nat, a: nat)
    requires i <= a <= |s|
    requires forall k :: i <= k < a ==> IsWhitespace(s[k])
    requires a < |s| ==> !IsWhitespace(s[a])
    ensures SkipWhitespace(s, i) == a
  {
  }

  /** A whitespace run ending at `j` and preceded by non-whitespace starts where SkipWhitespaceBack says. */
  lemma SkipWhitespaceBackAt(s: string, j: nat, b: nat)
    requires b <= j <= |s|
    requires forall k :: b <= k < j ==> IsWhitespace(s[k])
    requires b > 0 ==> !IsWhitespace(s[b - 1])
    ensures SkipWhitespaceBack(s, j) == b
  {
  }

  /** The `^\s+` match removed. */
  function TrimStart(s: string): (r: string)
    ensures |r| <= |s| && r == s[|s| - |r|..]
    ensures forall k :: 0 <= k < |s| - |r| ==> IsWhitespace(s[k])
    ensures r == [] || !IsWhitespace(r[0])
  {
    s[SkipWhitespace(s, 0)..]
  }

  /** The `\s+$` match removed. */
  function TrimEnd(s: string): (r: string)
    ensures |r| <= |s| && r == s[..|r|]
    ensures forall k :: |r| <= k < |s| ==> IsWhitespace(s[k])
    ensures r == [] || !IsWhitespace(r[|r| - 1])
  {
    s[..SkipWhitespaceBack(s, |s|)]
  }

  /** Line 19. */
  function Trim(s: string): (r: string)
    ensures r == [] || (!IsWhitespace(r[0]) && !IsWhitespace(r[|r| - 1]))
  {
    TrimEnd(TrimStart(s))
  }

  /**
   * Trimming removes exactly the maximal whitespace runs at both ends: any cut
   * `s[a..b]` with whitespace outside it and none at its own ends is the result,
   * so whatever lies between (inner blank lines included) is kept.
   */
  lemma TrimKeepsMiddle(s: string, a: nat, b: nat)
    requires a <= b <= |s|
    requires forall k :: 0 <= k < a ==> IsWhitespace(s[k])
    requires forall k :: b <= k < |s| ==> IsWhitespace(s[k])
    requires a < b ==> !IsWhitespace(s[a]) && !IsWhitespace(s[b - 1])
    ensures Trim(s) == s[a..b]
  {
    if a < b {
      SkipWhitespaceAt(s, 0, a);
      var t := s[a..];
      assert TrimStart(s) == t;
      forall k | b - a <= k < |t| ensures IsWhitespace(t[k]) {
        assert t[k] == s[a + k];
      }
      assert t[b - a - 1] == s[b - 1];
      SkipWhitespaceBackAt(t, |t|, b - a);
      assert t[..b - a] == s[a..b];
    } else {
      SkipWhitespaceAt(s, 0, |s|);
      assert TrimStart(s) == [];
    }
  }

  /** Already trimmed text is left alone. */
  lemma TrimNoOp(s: string)
    requires s == [] || (!IsWhitespace(s[0]) && !IsWhitespace(s[|s| - 1]))
    ensures Trim(s) == s
  {
    TrimKeepsMiddle(s, 0, |s|);
    assert s[0..|s|] == s;
  }
}
