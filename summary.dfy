/**
 * `formatSummary` of src/app/locations/TicketSideBar.jsx: four whole-string
 * rewrites applied in turn to a comment's HTML body. Each regular expression
 * is written as an explicit matcher together with a declarative description
 * of the strings it matches, and the matcher is proved to agree with it.
 */
module Summary {
  import opened Wrappers
  import opened Text
  import opened Markers
  import opened Headings
  import opened Trimming

  /** Lines 9-21: the whole `formatSummary`; a missing or empty body gives the empty string. */
  function FormatSummary(html: Option<string>): (r: string)
    ensures html.None? || html == Some([]) ==> r == []
    ensures r == [] || (!IsWhitespace(r[0]) && !IsWhitespace(r[|r| - 1]))
  {
    if html.None? || html.value == [] then []
    else Trim(StyleHeadings(RemoveMarkers(html.value)))
  }

  /**
   * The shape the analysis account posts: the marker paragraph, a heading, then
   * heading-free content. The marker goes, the heading is styled, and the
   * rest comes through unchanged.
   */
  lemma FormatMarkedSummary(h: Heading, rest: string)
    requires IsHeadingMatch(h)
    requires NoMatchIn(BareMarker, HeadingSource(h) + rest, 0, |HeadingSource(h) + rest| + 1)
    requires forall k :: 0 <= k < |rest| ==> !OccursAt(rest, k, HeadingOpen)
    requires rest == [] || !IsWhitespace(rest[|rest| - 1])
    ensures FormatSummary(Some("<p" + WrappedTail + HeadingSource(h) + rest)) == StyledHeading(h) + rest
  {
    var body := "<p" + WrappedTail + HeadingSource(h) + rest;
    MarkersOfMarkedBody(h, rest);
    StyleLeadingHeading(h, rest);
    StyledEnds(h, rest);
    TrimNoOp(StyledHeading(h) + rest);
    assert FormatSummary(Some(body)) == Trim(StyleHeadings(RemoveMarkers(body)));
  }

  /** Marker removal takes away the leading marker paragraph and nothing else. */
  lemma MarkersOfMarkedBody(h: Heading, rest: string)
    requires NoMatchIn(BareMarker, HeadingSource(h) + rest, 0, |HeadingSource(h) + rest| + 1)
    ensures RemoveMarkers("<p" + WrappedTail + HeadingSource(h) + rest) == HeadingSource(h) + rest
  {
    var unmarked := HeadingSource(h) + rest;
    assert "<p" + WrappedTail + HeadingSource(h) + rest == "<p" + WrappedTail + unmarked;
    MarkerParagraphRemoved(unmarked);
    RemoveFirstNoMatch(BareMarker, unmarked);
  }

  /** A styled heading followed by text ending in non-whitespace has no whitespace at either end. */
  lemma StyledEnds(h: Heading, rest: string)
    requires rest == [] || !IsWhitespace(rest[|rest| - 1])
    ensures var t := StyledHeading(h) + rest; !IsWhitespace(t[0]) && !IsWhitespace(t[|t| - 1])
  {
    var t := StyledHeading(h) + rest;
    assert t[0] == '<';
    assert t[|t| - 1] == if rest == [] then '>' else rest[|rest| - 1];
  }
}
