/**
 * The first two rewrites of `formatSummary` (src/app/locations/TicketSideBar.jsx:12-13):
 * the analysis marker, wrapped in a paragraph or bare, removed once each.
 */
module Markers {
  import opened Wrappers
  import opened Text

  const Marker := "--- AI Agent Analysis ---"
  /** What follows `<p` and the attributes in the wrapped marker: `>`, the marker, `</p>`. */
  const WrappedTail := ">" + Marker + "</p>"

  // ---------------------------------------------------------------------------
  // Marker removal: `/<p[^>]*>--- AI Agent Analysis ---<\/p>/i` and
  // `/--- AI Agent Analysis ---/i`, each replaced once by the empty string.
  // ---------------------------------------------------------------------------

  datatype Pattern = WrappedMarker | BareMarker

  /** The strings the regular expression `p` matches as a whole. */
  predicate IsMatch(p: Pattern, t: string) {
    match p
    case WrappedMarker =>
      && |t| >= 2 + |WrappedTail|
      && t[0] == '<' && CharEqualsIgnoreCase(t[1], 'p')
      && '>' !in t[2..|t| - |WrappedTail|]
      && EqualsIgnoreCase(t[|t| - |WrappedTail|..], WrappedTail)
    case BareMarker =>
      EqualsIgnoreCase(t, Marker)
  }

  /**
   * The end of the match of `p` that starts at `i`, if there is one. `[^>]*`
   * can only stop at the first `>`, so at most one match starts at `i`
   * (lemma MatchEndComplete).
   */
  function MatchEnd(p: Pattern, s: string, i: nat): (r: Option<nat>)
    ensures r.Some? ==> i <= r.value <= |s| && IsMatch(p, s[i..r.value])
  {
    match p
    case WrappedMarker =>
      if i + 2 <= |s| && s[i] == '<' && CharEqualsIgnoreCase(s[i + 1], 'p') then
        match IndexOfFrom(s, '>', i + 2)
        case None => None
        case Some(j) =>
          if OccursAtIgnoreCase(s, j, WrappedTail) then
            IndexOfFromFirst(s, '>', i + 2);
            WrappedMatchAt(s, i, j);
            Some(j + |WrappedTail|)
          else None
      else None
    case BareMarker =>
      if OccursAtIgnoreCase(s, i, Marker) then Some(i + |Marker|) else None
  }

  lemma WrappedMatchAt(s: string, i: nat, j: nat)
    requires i + 2 <= j && j + |WrappedTail| <= |s|
    requires s[i] == '<' && CharEqualsIgnoreCase(s[i + 1], 'p')
    requires forall k :: i + 2 <= k < j ==> s[k] != '>'
    requires EqualsIgnoreCase(s[j..j + |WrappedTail|], WrappedTail)
    ensures IsMatch(WrappedMarker, s[i..j + |WrappedTail|])
  {
    var t := s[i..j + |WrappedTail|];
    assert |t| - |WrappedTail| == j - i;
    var attrs, source := t[2..j - i], s[i + 2..j];
    forall k | 0 <= k < |attrs| ensures attrs[k] == source[k] {
      assert attrs[k] == t[k + 2] == s[i + k + 2];
    }
    assert attrs == source;
    assert t[|t| - |WrappedTail|..] == s[j..j + |WrappedTail|];
  }

  /** Any match of `p` starting at `i` is the one MatchEnd finds. */
  lemma MatchEndComplete(p: Pattern, s: string, i: nat, e: nat)
    requires i <= e <= |s| && IsMatch(p, s[i..e])
    ensures MatchEnd(p, s, i) == Some(e)
  {
    match p
    case WrappedMarker => WrappedMatchComplete(s, i, e);
    case BareMarker =>
  }

  lemma WrappedMatchComplete(s: string, i: nat, e: nat)
    requires i <= e <= |s| && IsMatch(WrappedMarker, s[i..e])
    ensures MatchEnd(WrappedMarker, s, i) == Some(e)
  {
    WrappedMatchParts(s, i, e);
    WrappedMatchFound(s, i, e - |WrappedTail|);
  }

  /** A wrapped match read off `s`: `<p`, attributes without `>`, then the tail from the first `>`. */
  lemma WrappedMatchParts(s: string, i: nat, e: nat)
    requires i <= e <= |s| && IsMatch(WrappedMarker, s[i..e])
    ensures i + 2 + |WrappedTail| <= e
    ensures s[i] == '<' && CharEqualsIgnoreCase(s[i + 1], 'p')
    ensures s[e - |WrappedTail|] == '>' && OccursAtIgnoreCase(s, e - |WrappedTail|, WrappedTail)
    ensures forall k :: i + 2 <= k < e - |WrappedTail| ==> s[k] != '>'
  {
    var t := s[i..e];
    var j := e - |WrappedTail|;
    var tail := t[|t| - |WrappedTail|..];
    assert tail == s[j..e];
    assert OccursAtIgnoreCase(s, j, WrappedTail);
    assert WrappedTail[0] == '>';
    assert CharEqualsIgnoreCase(tail[0], '>');
    var attrs := t[2..|t| - |WrappedTail|];
    forall k | i + 2 <= k < j ensures s[k] != '>' {
      assert s[k] == attrs[k - i - 2];
    }
    assert s[i] == t[0] && s[i + 1] == t[1];
  }

  lemma WrappedMatchFound(s: string, i: nat, j: nat)
    requires i + 2 <= j < |s| && s[i] == '<' && CharEqualsIgnoreCase(s[i + 1], 'p')
    requires s[j] == '>' && OccursAtIgnoreCase(s, j, WrappedTail)
    requires forall k :: i + 2 <= k < j ==> s[k] != '>'
    ensures MatchEnd(WrappedMarker, s, i) == Some(j + |WrappedTail|)
  {
    IndexOfFromFinds(s, '>', i + 2, j);
  }

  /** A leftmost match of `p` in `s` at or after `from`, as a half-open range. */
  datatype Span = Span(start: nat, end: nat)

  /** No match of `p` starts at an index in `lo..hi`. */
  ghost predicate NoMatchIn(p: Pattern, s: string, lo: nat, hi: nat) {
    forall a, b :: lo <= a < hi && a <= b <= |s| ==> !IsMatch(p, s[a..b])
  }

  /** The leftmost match of `p` starting at or after `from` (the regex engine's search). */
  function FindFrom(p: Pattern, s: string, from: nat): (r: Option<Span>)
    requires from <= |s|
    ensures r.Some? ==> from <= r.value.start <= r.value.end <= |s|
    ensures r.Some? ==> IsMatch(p, s[r.value.start..r.value.end])
    ensures r.Some? ==> NoMatchIn(p, s, from, r.value.start)
    ensures r.None? ==> NoMatchIn(p, s, from, |s| + 1)
    decreases |s| - from
  {
    match MatchEnd(p, s, from)
    case Some(e) => Some(Span(from, e))
    case None =>
      NoMatchAt(p, s, from);
      if from == |s| then None else FindFrom(p, s, from + 1)
  }

  lemma NoMatchAt(p: Pattern, s: string, a: nat)
    requires a <= |s| && MatchEnd(p, s, a).None?
    ensures forall b :: a <= b <= |s| ==> !IsMatch(p, s[a..b])
  {
    forall b | a <= b <= |s| ensures !IsMatch(p, s[a..b]) {
      if IsMatch(p, s[a..b]) { MatchEndComplete(p, s, a, b); }
    }
  }

  /** `String.prototype.replace` with a non-global regex and an empty replacement. */
  function RemoveFirst(p: Pattern, s: string): (r: string)
    ensures |r| <= |s|
    ensures r == s <==> FindFrom(p, s, 0).None?
  {
    match FindFrom(p, s, 0)
    case None => s
    case Some(sp) =>
      MatchNonEmpty(p, s[sp.start..sp.end]);
      s[..sp.start] + s[sp.end..]
  }

  /** Neither regex matches the empty string. */
  lemma MatchNonEmpty(p: Pattern, t: string)
    requires IsMatch(p, t)
    ensures |t| > 0
  {
  }

  /** When `s[a..b]` is the leftmost match, exactly it is cut out; the rest stays in order. */
  lemma RemoveFirstCutsLeftmost(p: Pattern, s: string, a: nat, b: nat)
    requires a <= b <= |s| && IsMatch(p, s[a..b]) && NoMatchIn(p, s, 0, a)
    ensures RemoveFirst(p, s) == s[..a] + s[b..]
  {
    var r := FindFrom(p, s, 0);
    assert r.Some? && r.value.start == a;
    MatchEndComplete(p, s, a, b);
    MatchEndComplete(p, s, a, r.value.end);
  }

  /** Where `p` matches nowhere, the removal is the identity. */
  lemma RemoveFirstNoMatch(p: Pattern, s: string)
    requires NoMatchIn(p, s, 0, |s| + 1)
    ensures RemoveFirst(p, s) == s
  {
  }

  /** Lines 12-13: the wrapped form first, then the bare marker, each at most once. */
  function RemoveMarkers(s: string): (r: string)
    ensures |r| <= |s|
  {
    RemoveFirst(BareMarker, RemoveFirst(WrappedMarker, s))
  }

  /** Where neither form matches anywhere, the two removals leave the text as it is. */
  lemma RemoveMarkersNoMarker(s: string)
    requires NoMatchIn(WrappedMarker, s, 0, |s| + 1) && NoMatchIn(BareMarker, s, 0, |s| + 1)
    ensures RemoveMarkers(s) == s
  {
    RemoveFirstNoMatch(WrappedMarker, s);
    RemoveFirstNoMatch(BareMarker, s);
  }

  lemma NoWrappedMarkerWithout(s: string)
    requires '<' !in s
    ensures NoMatchIn(WrappedMarker, s, 0, |s| + 1)
  {
    forall a, b | 0 <= a <= b <= |s| ensures !IsMatch(WrappedMarker, s[a..b]) {
      if b - a >= 1 { assert s[a..b][0] == s[a]; }
    }
  }

  lemma NoBareMarkerWithout(s: string)
    requires '-' !in s
    ensures NoMatchIn(BareMarker, s, 0, |s| + 1)
  {
    forall a, b | 0 <= a <= b <= |s| ensures !IsMatch(BareMarker, s[a..b]) {
      if b - a == |Marker| {
        assert s[a..b][0] == s[a] && s[a] != '-';
        assert !CharEqualsIgnoreCase(s[a], Marker[0]);
      }
    }
  }

  /**
   * Only the first bare marker goes: two in a row leave one behind, and a
   * second application removes that one too, so the stage is not idempotent.
   */
  lemma RemoveMarkersOnlyOnce()
    ensures RemoveMarkers(Marker + Marker) == Marker
    ensures RemoveMarkers(RemoveMarkers(Marker + Marker)) == []
  {
    var twice := Marker + Marker;
    NoWrappedMarkerWithout(twice);
    RemoveFirstNoMatch(WrappedMarker, twice);
    assert twice[0..|Marker|] == Marker;
    RemoveFirstCutsLeftmost(BareMarker, twice, 0, |Marker|);
    assert twice[|Marker|..] == Marker;
    NoWrappedMarkerWithout(Marker);
    RemoveFirstNoMatch(WrappedMarker, Marker);
    assert Marker[0..|Marker|] == Marker;
    RemoveFirstCutsLeftmost(BareMarker, Marker, 0, |Marker|);
  }

  /** A leading marker paragraph is the leftmost wrapped match, and only it is removed. */
  lemma MarkerParagraphRemoved(rest: string)
    ensures RemoveFirst(WrappedMarker, "<p" + WrappedTail + rest) == rest
  {
    var opening := "<p" + WrappedTail;
    var body := opening + rest;
    assert body[0..|opening|] == opening;
    assert opening[|opening| - |WrappedTail|..] == WrappedTail;
    RemoveFirstCutsLeftmost(WrappedMarker, body, 0, |opening|);
    assert body[|opening|..] == rest;
  }
}
