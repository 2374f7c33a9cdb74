# Ticket analysis summary panel, modelled in Dafny

This project models the logic inside the `TicketSideBar` panel of a help-desk
app (src/app/locations/TicketSideBar.jsx). The panel fetches a ticket's
comments. It picks the newest private comment written by the analysis account
`yashwanth@moengage.com` and cleans up that comment's HTML with
`formatSummary`. It then shows the result, or a placeholder when no comment
qualifies, next to a one-shot 1–5 rating widget.

Files and modules:

- `wrappers.dfy` (`Wrappers`): `Option`. It stands for JavaScript's `null`/`undefined`.
- `text.dfy` (`Text`): the character classes the regular expressions use.
  - `IsWhitespace` is the whole ECMAScript `\s` set: WhiteSpace and LineTerminator, including U+00A0, U+1680, U+2000–U+200A, U+2028, U+2029, U+202F, U+205F, U+3000 and U+FEFF.
  - `IsLineTerminator` is what `.` does not match: `\n`, `\r`, U+2028 and U+2029.
  - `CharEqualsIgnoreCase` is `i`-flag matching against an ASCII pattern character. Without the `u` flag, JavaScript canonicalises by upper-casing, and it never maps a non-ASCII character onto an ASCII one. So against an ASCII pattern, only ASCII letters fold.
  - Substring and index helpers.
- `formatSummary` is written as four composed functions, without a regex engine, one module per stage:
  - `markers.dfy` (`Markers`): `RemoveFirst(WrappedMarker, ·)`, then `RemoveFirst(BareMarker, ·)` (lines 12–13). Only the first match goes, since neither regex has the `g` flag.
  - `headings.dfy` (`Headings`): `StyleHeadings` (lines 15–17), a global, left-to-right scan that does not overlap matches.
  - `trim.dfy` (`Trimming`): `Trim` (line 19).
  - `summary.dfy` (`Summary`): `FormatSummary`, the composition (lines 9–21).

  Each regex has two definitions. One is a matcher (`MatchEnd`, `HeadingAt`). The other is a declarative description of the strings it matches (`IsMatch`, `IsHeadingMatch`). Lemmas prove the two agree in both directions.
- `comments.dfy` (`Comments`): the comment record. It also holds the selection `comments.slice().reverse().find(...)` and the HTML the panel stores after a successful fetch (lines 50–63).
- `sidebar.dfy` (`SideBar`): the component as a class `Panel`.
  - Each `useState` hook is a field.
  - Each effect body, promise callback and `handleRating` is a method.
  - `Valid()` is the invariant these methods keep.
  - `Regions()` is what the status row renders.
  - `MountAndLoad` runs one mount: the ticket id arrives, then the comments request is pending, resolved or rejected.

How the regex semantics are modelled:

- `<p[^>]*>`: `[^>]*` cannot contain `>`, so it can only end at the first `>` after `<p`. Backtracking gives no other choice, so at most one match starts at any index (`MatchEndComplete`). `RemoveFirst` cuts out the leftmost match.
- `<h2([^>]*)>(.*?)<\/h2>/g`: the attributes run to the first `>`. The lazy text stops at the first `</h2>`. It fails if a line terminator comes first. The global replace tries each index in turn: after a match it resumes at the match's end, otherwise it keeps one character and moves on. `Scan` records this as pieces (`Plain` characters and `Match` headings). `ScanTokenizes` and `TokenizationIsScan` prove that this is the unique leftmost tokenization.
- `/^\s+|\s+$/g` has no `m` flag, so `^` and `$` anchor at the ends of the whole string. If the text starts with whitespace, the first match is the maximal leading run; the only other match is the maximal trailing run of what remains. This is `TrimEnd(TrimStart(s))`.

Behaviour of the code worth noting:

- **Marker removal is not idempotent.** The code removes only the first wrapped marker and then the first bare one. `RemoveMarkersOnlyOnce` shows `Marker + Marker` becoming `Marker`, and a second pass removing that one too.
- **No summary shown.** When the chosen comment's body formats to the empty string, the panel shows neither a summary nor the placeholder. `SummaryFor` and `MountAndLoad` state this.
- **`<p[^>]*>` is broader than a paragraph tag.** It also matches any tag starting with `<p`, such as `<pre>`. `IsMatch` models this as written.

## Model

| member | source | states |
|---|---|---|
| `Text.IndexOfFrom` | src/app/locations/TicketSideBar.jsx:12-15 | the index found for `[^>]*>` lies at or after the start and holds the character searched for |
| `Text.IndexOfFromFirst` | src/app/locations/TicketSideBar.jsx:12-15 | it is the first such index, and when none is found the character does not occur from the start on |
| `Text.IndexOfFromFinds` | src/app/locations/TicketSideBar.jsx:12-15 | conversely, the first occurrence at or after the start is the one found |
| `Markers.MatchEnd` | src/app/locations/TicketSideBar.jsx:12-13 | a match the matcher reports at index i is a whole match of the regex: for the wrapped form, `<`, `p` or `P`, attributes free of `>`, then `>--- AI Agent Analysis ---</p>` in any ASCII case; for the bare form, the marker in any case |
| `Markers.MatchEndComplete` | src/app/locations/TicketSideBar.jsx:12-13 | every match starting at i is the one the matcher reports, so at most one starts there |
| `Markers.FindFrom` | src/app/locations/TicketSideBar.jsx:12-13 | the match found is a match and the leftmost one: no match starts at an earlier index; none found means none exists anywhere |
| `Markers.RemoveFirst` | src/app/locations/TicketSideBar.jsx:12-13 | the non-global `replace` with `''` changes the text iff some match exists, and never lengthens it; which characters go is stated by RemoveFirstCutsLeftmost and RemoveFirstNoMatch |
| `Markers.RemoveFirstCutsLeftmost` | src/app/locations/TicketSideBar.jsx:12-13 | when s[a..b] is the leftmost match, the result is exactly s[..a] + s[b..]: one occurrence removed, every other character kept in order |
| `Markers.RemoveFirstNoMatch` | src/app/locations/TicketSideBar.jsx:12-13 | with no match anywhere the stage is the identity |
| `Markers.RemoveMarkers` | src/app/locations/TicketSideBar.jsx:12-13 | the two removals in line order never lengthen the text; its value is the two `RemoveFirst` stages in line order, each pinned down by RemoveFirstCutsLeftmost and RemoveFirstNoMatch |
| `Markers.RemoveMarkersNoMarker` | src/app/locations/TicketSideBar.jsx:12-13 | where neither the wrapped nor the bare marker matches anywhere, marker removal is the identity |
| `Markers.NoWrappedMarkerWithout` | src/app/locations/TicketSideBar.jsx:12 | text without `<` holds no wrapped marker match |
| `Markers.NoBareMarkerWithout` | src/app/locations/TicketSideBar.jsx:13 | text without `-` holds no bare marker match, in any case |
| `Markers.RemoveMarkersOnlyOnce` | src/app/locations/TicketSideBar.jsx:12-13 | only the first bare marker is removed: two markers leave one, and a second application removes it, so the stage is not idempotent |
| `Markers.MarkerParagraphRemoved` | src/app/locations/TicketSideBar.jsx:12 | a leading `<p>--- AI Agent Analysis ---</p>` is removed and the following text is kept untouched |
| `Headings.CloseFrom` | src/app/locations/TicketSideBar.jsx:15 | the end of the lazy `(.*?)` lies at or after k and a `</h2>` starts there |
| `Headings.CloseFromFirst` | src/app/locations/TicketSideBar.jsx:15 | the lazy `(.*?)` stops at the first `</h2>`: no earlier `</h2>` and no line terminator lie between k and it |
| `Headings.CloseFromComplete` | src/app/locations/TicketSideBar.jsx:15 | conversely, the first `</h2>` reached from k without crossing a line terminator is the one found |
| `Headings.HeadingAt` | src/app/locations/TicketSideBar.jsx:15 | the text a heading found at i consumed lies within the input (what it consumed is stated by HeadingAtIsMatch) |
| `Headings.HeadingAtIsMatch` | src/app/locations/TicketSideBar.jsx:15 | a heading found at i occurs there as `<h2` + attrs + `>` + text + `</h2>`, and its captures are valid regex captures: attrs hold no `>`, text is on one line and contains no `</h2>` |
| `Headings.HeadingAtComplete` | src/app/locations/TicketSideBar.jsx:15 | every heading match starting at i, with its captures, is the one HeadingAt reports |
| `Headings.StyledHeading` | src/app/locations/TicketSideBar.jsx:16 | the replacement is the matched heading lengthened by exactly the inline style; its shape is stated by StyledHeadingIsHeading |
| `Headings.NoHeadingAtIff` | src/app/locations/TicketSideBar.jsx:15 | no heading match, with any captures, starts at i exactly when HeadingAt finds none there |
| `Headings.Scan` | src/app/locations/TicketSideBar.jsx:15-17 | the global search from i yields at most one piece per remaining character; that its pieces are the leftmost tokenization is ScanTokenizes, and that no other exists is TokenizationIsScan |
| `Headings.ScanTokenizes` | src/app/locations/TicketSideBar.jsx:15-17 | the scan is a leftmost tokenization: each heading piece is a match occurring where it stands, each plain character stands where no match starts, and the pieces end exactly at the end of the text (matches are leftmost and do not overlap) |
| `Headings.TokenizationReassembles` | src/app/locations/TicketSideBar.jsx:15-17 | the pieces of a leftmost tokenization put back together are exactly the text they were cut from |
| `Headings.TokenizationIsScan` | src/app/locations/TicketSideBar.jsx:15-17 | any such leftmost tokenization is the scan's, so the replace's decomposition is unique |
| `Headings.StyleHeadingsSpec` | src/app/locations/TicketSideBar.jsx:15-17 | a sequence of pieces is a leftmost tokenization iff it is the scan, and then the output is that tokenization rendered: each heading replaced by its styled form, each other character unchanged |
| `Headings.StyleHeadings` | src/app/locations/TicketSideBar.jsx:15-17 | the styled output is never shorter than the input; its exact value is StyleHeadingsSpec, with TokenizationReassembles giving back the input from the same pieces |
| `Headings.StyleHeadingsWithoutHeadings` | src/app/locations/TicketSideBar.jsx:15-17 | input holding no `<h2` is left unchanged |
| `Headings.StyleSingleHeading` | src/app/locations/TicketSideBar.jsx:15-17 | a heading `<h2 A>T</h2>` becomes `<h2 A style="text-align:center;font-weight:bold;">T</h2>` with A and T verbatim |
| `Headings.StyledHeadingIsHeading` | src/app/locations/TicketSideBar.jsx:16 | the replacement is itself a heading match whose attributes are A followed by the style |
| `Headings.StyleHeadingsTwice` | src/app/locations/TicketSideBar.jsx:15-17 | a second pass appends the style again, so the rewrite is not idempotent |
| `Headings.StyleLeadingHeading` | src/app/locations/TicketSideBar.jsx:15-17 | a leading heading followed by heading-free text: only the heading changes |
| `Trimming.SkipWhitespace` | src/app/locations/TicketSideBar.jsx:19 | the greedy `\s+` run from i: every character it covers is whitespace and the one after it is not (or the text ends) |
| `Trimming.SkipWhitespaceBack` | src/app/locations/TicketSideBar.jsx:19 | the whitespace run ending at j, taken backwards: every character it covers is whitespace and the one before it is not (or the text starts) |
| `Trimming.TrimStart` | src/app/locations/TicketSideBar.jsx:19 | the result is a suffix of the input, everything removed is whitespace, and the result does not begin with whitespace |
| `Trimming.TrimEnd` | src/app/locations/TicketSideBar.jsx:19 | the result is a prefix of the input, everything removed is whitespace, and the result does not end with whitespace |
| `Trimming.Trim` | src/app/locations/TicketSideBar.jsx:19 | the result neither begins nor ends with whitespace |
| `Trimming.TrimKeepsMiddle` | src/app/locations/TicketSideBar.jsx:19 | for any cut s[a..b] with only whitespace outside it and non-whitespace at its ends (or an all-whitespace s), the result is exactly s[a..b]: the maximal outer runs go and inner whitespace and blank lines stay |
| `Trimming.TrimNoOp` | src/app/locations/TicketSideBar.jsx:19 | text with no whitespace at either end is unchanged |
| `Summary.FormatSummary` | src/app/locations/TicketSideBar.jsx:9-21 | a null, undefined or empty body gives the empty string; any result has no leading or trailing whitespace |
| `Summary.FormatMarkedSummary` | src/app/locations/TicketSideBar.jsx:9-21 | a body made of the marker paragraph, a heading, and content with no `<h2` that does not end in whitespace, where neither the heading nor the content holds a bare marker in any case (a `-` alone is allowed), formats to the styled heading followed by that content unchanged |
| `Comments.Reverse` | src/app/locations/TicketSideBar.jsx:51-52 | the copy has the same length and element k is element n-1-k of the original |
| `Comments.IsSummaryComment` | src/app/locations/TicketSideBar.jsx:54-57 | the `find` callback: not public, with an author, whose email is exactly `yashwanth@moengage.com`; what selecting by it gives is stated by FindFirst and SelectSummaryComment |
| `Comments.FindFirst` | src/app/locations/TicketSideBar.jsx:53-58 | `find` returns the first index whose comment is private, has an author and has email exactly `yashwanth@moengage.com`; none is returned iff no comment qualifies |
| `Comments.SelectSummaryComment` | src/app/locations/TicketSideBar.jsx:50-58 | nothing is selected iff no comment qualifies; a selected comment is at an index that qualifies with no qualifying comment after it (the newest) |
| `Comments.SelectsNewest` | src/app/locations/TicketSideBar.jsx:50-58 | conversely, the newest qualifying comment is the one selected |
| `Comments.SummaryFor` | src/app/locations/TicketSideBar.jsx:59-63 | with no qualifying comment (an empty list included) the HTML is exactly `<div>No summary found from yashwanth@moengage.com.</div>`; an empty result only comes from a qualifying comment whose body formats to nothing |
| `Comments.SummaryForNewest` | src/app/locations/TicketSideBar.jsx:59-63 | with a qualifying comment, the HTML is formatSummary of the newest one's body |
| `SideBar.Panel.constructor` | src/app/locations/TicketSideBar.jsx:33-38 | initial state: no ticket id, empty summary, not loading, no error, no rating, feedback not submitted |
| `SideBar.Panel.ReceiveTicketId` | src/app/locations/TicketSideBar.jsx:40-42 | the ticket id field holds the id the host returned |
| `SideBar.Panel.StartLoad` | src/app/locations/TicketSideBar.jsx:44-48 | without a truthy ticket id nothing changes; otherwise loading is true, error null and summary empty, and the request is issued |
| `SideBar.Panel.LoadSucceeded` | src/app/locations/TicketSideBar.jsx:49-64 | summary is the selected comment's formatted HTML or the placeholder; loading is false; error is untouched |
| `SideBar.Panel.LoadFailed` | src/app/locations/TicketSideBar.jsx:65-68 | error is `Could not fetch comments: ` followed by the message; loading is false |
| `SideBar.Panel.Rate` | src/app/locations/TicketSideBar.jsx:75-79 | only while feedback is not submitted (the buttons are disabled afterwards, line 102): rating holds the value 1..5 and feedback is submitted |
| `SideBar.Panel.Regions` | src/app/locations/TicketSideBar.jsx:86-92 | under the panel invariant at most one of the loading notice, the error and the summary is rendered; the loading notice shows iff loading; the error notice shows iff the error is truthy, with that error as its text; the summary shows iff not loading, no error and a non-empty summary |
| `SideBar.MountAndLoad` | src/app/locations/TicketSideBar.jsx:40-69 | one mount: without a ticket id nothing is shown; a pending request shows the loading notice; a resolved one shows the summary HTML, or nothing if it is empty; a rejected one shows `Could not fetch comments: ` + message |

## Left out

- Host SDK calls: `client.get('ticket.id')`, `client.get('ticket.comments')` and `client.invoke('resize', …)` (lines 41, 49, 72). The id and the comments are method inputs. The resize request has no effect on the panel's state and is dropped.
- Promise and effect scheduling: effect re-runs on dependency changes, and callbacks that arrive after unmount or out of order. The callbacks are ordinary method calls made in the order the host would make them. `MountAndLoad` covers one mount.
- JSX rendering and styling (lines 81–218): `dangerouslySetInnerHTML`, the styled components, the selected-button highlight (line 100) and the thank-you note (line 112). `Regions` keeps only which status elements are rendered.
- The emoji and labels of `FEEDBACK_OPTIONS`: they are display data. Only the values 1..5 are kept, as the type `Rating`.
- UTF-16: JavaScript strings are UTF-16 code units, while Dafny characters are Unicode scalar values. No pattern character is outside the BMP, so the two agree on every match.
- Unicode case folding beyond ASCII is not modelled. It never applies to these ASCII patterns.
- Non-string values: a comment body that is truthy but not a string would make `replace` throw. Non-boolean `public` fields and non-number ticket ids (NaN included) are left out too. A missing `err.message`, which JavaScript would turn into the text `undefined`, is also left out. The model takes a string or nothing for the body, a boolean for `public`, an optional integer for the id and a string for the message.
- HTML well-formedness and sanitisation: the code only rewrites text and does neither.
- `SideBar.Panel.Rate`: requires that feedback is not yet submitted. The source enforces this by disabling the buttons, not inside `handleRating`.
