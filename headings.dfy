/**
 * The third rewrite of `formatSummary` (src/app/locations/TicketSideBar.jsx:15-17):
 * every level-2 heading gets an inline style that centres it and sets it bold.
 */
module Headings {
  import opened Wrappers
  import opened Text

  // ---------------------------------------------------------------------------
  // Heading styling: `/<h2([^>]*)>(.*?)<\/h2>/g`, each match replaced by the
  // heading with an inline style appended to its attributes.
  // ---------------------------------------------------------------------------

  const HeadingOpen := "<h2"
  const HeadingClose := "</h2>"
  const CenterBoldStyle := " style=\"text-align:center;font-weight:bold;\""

  /** The two capture groups of one heading match. */
  datatype Heading = Heading(attrs: string, text: string)

  /** The input text a heading match consumed. */
  function HeadingSource(h: Heading): string {
    HeadingOpen + h.attrs + ">" + h.text + HeadingClose
  }

  /** The replacement for one heading match (line 16). */
  function StyledHeading(h: Heading): (r: string)
    ensures |r| == |HeadingSource(h)| + |CenterBoldStyle|
  {
    HeadingOpen + h.attrs + CenterBoldStyle + ">" + h.text + HeadingClose
  }

  /**
   * The captures a match of the heading regex can have: the attributes hold no
   * `>`, the text stays on one line, and the lazy `.*?` stops at the first
   * `</h2>`, so none starts inside the text.
   */
  predicate IsHeadingMatch(h: Heading) {
    && '>' !in h.attrs
    && (forall k :: 0 <= k < |h.text| ==> !IsLineTerminator(h.text[k]))
    && (forall k {:trigger OccursAt(h.text + HeadingClose, k, HeadingClose)} ::
          0 <= k < |h.text| ==> !OccursAt(h.text + HeadingClose, k, HeadingClose))
  }

  /** `<h2` at `i`, character by character. */
  predicate OpenAt(s: string, i: nat) {
    i + 3 <= |s| && s[i] == '<' && s[i + 1] == 'h' && s[i + 2] == '2'
  }

  /** `</h2>` at `k`, character by character. */
  predicate CloseAt(s: string, k: nat) {
    k + 5 <= |s| && s[k] == '<' && s[k + 1] == '/' && s[k + 2] == 'h' && s[k + 3] == '2' && s[k + 4] == '>'
  }

  lemma OpenAtIff(s: string, i: nat)
    ensures OpenAt(s, i) <==> OccursAt(s, i, HeadingOpen)
  {
    if OpenAt(s, i) {
      assert s[i..i + 3] == HeadingOpen;
    }
    if OccursAt(s, i, HeadingOpen) {
      var w := s[i..i + 3];
      assert w == HeadingOpen;
      assert s[i] == w[0] && s[i + 1] == w[1] && s[i + 2] == w[2];
    }
  }

  lemma CloseAtIff(s: string, k: nat)
    ensures CloseAt(s, k) <==> OccursAt(s, k, HeadingClose)
  {
    if CloseAt(s, k) {
      assert s[k..k + 5] == HeadingClose;
    }
    if OccursAt(s, k, HeadingClose) {
      var w := s[k..k + 5];
      assert w == HeadingClose;
      assert s[k] == w[0] && s[k + 1] == w[1] && s[k + 2] == w[2] && s[k + 3] == w[3] && s[k + 4] == w[4];
    }
  }

  /** The index of the first `</h2>` at or after `k`, reached without crossing a line terminator. */
  function CloseFrom(s: string, k: nat): (r: Option<nat>)
    requires k <= |s|
    ensures r.Some? ==> k <= r.value && CloseAt(s, r.value)
    decreases |s| - k
  {
    if CloseAt(s, k) then Some(k)
    else if k == |s| || IsLineTerminator(s[k]) then None
    else CloseFrom(s, k + 1)
  }

  /** The `</h2>` CloseFrom finds is the first, and no line terminator comes before it. */
  lemma {:induction false} CloseFromFirst(s: string, k: nat)
    requires k <= |s|
    ensures CloseFrom(s, k).Some? ==> forall m :: k <= m < CloseFrom(s, k).value ==> !IsLineTerminator(s[m])
    ensures CloseFrom(s, k).Some? ==> forall m :: k <= m < CloseFrom(s, k).value ==> !CloseAt(s, m)
    decreases |s| - k
  {
    if !CloseAt(s, k) && k < |s| && !IsLineTerminator(s[k]) {
      CloseFromFirst(s, k + 1);
    }
  }

  lemma {:induction false} CloseFromComplete(s: string, k: nat, q: nat)
    requires k <= q && CloseAt(s, q)
    requires forall m :: k <= m < q ==> !IsLineTerminator(s[m])
    requires forall m :: k <= m < q ==> !CloseAt(s, m)
    ensures CloseFrom(s, k) == Some(q)
    decreases q - k
  {
    if k < q {
      CloseFromComplete(s, k + 1, q);
    }
  }

  /** The heading match starting at `i`, if there is one. */
  function HeadingAt(s: string, i: nat): (r: Option<Heading>)
    ensures r.Some? ==> i + |HeadingSource(r.value)| <= |s|
  {
    if OpenAt(s, i) then
      match IndexOfFrom(s, '>', i + |HeadingOpen|)
      case None => None
      case Some(j) =>
        match CloseFrom(s, j + 1)
        case None => None
        case Some(k) =>
          Some(Heading(s[i + |HeadingOpen|..j], s[j + 1..k]))
    else None
  }

  /** A heading HeadingAt finds is a match of the regex at `i`, captures included. */
  lemma HeadingAtIsMatch(s: string, i: nat)
    ensures HeadingAt(s, i).Some? ==> IsHeadingMatch(HeadingAt(s, i).value)
    ensures HeadingAt(s, i).Some? ==> OccursAt(s, i, HeadingSource(HeadingAt(s, i).value))
  {
    if HeadingAt(s, i).Some? {
      var j := IndexOfFrom(s, '>', i + |HeadingOpen|).value;
      var k := CloseFrom(s, j + 1).value;
      IndexOfFromFirst(s, '>', i + |HeadingOpen|);
      CloseFromFirst(s, j + 1);
      OpenAtIff(s, i);
      CloseAtIff(s, k);
      HeadingAtSound(s, i, j, k);
    }
  }

  lemma HeadingAtSound(s: string, i: nat, j: nat, k: nat)
    requires OccursAt(s, i, HeadingOpen) && OccursAt(s, k, HeadingClose)
    requires i + |HeadingOpen| <= j < k
    requires s[j] == '>' && forall m :: i + |HeadingOpen| <= m < j ==> s[m] != '>'
    requires forall m :: j + 1 <= m < k ==> !IsLineTerminator(s[m])
    requires forall m :: j + 1 <= m < k ==> !CloseAt(s, m)
    ensures IsHeadingMatch(Heading(s[i + |HeadingOpen|..j], s[j + 1..k]))
    ensures OccursAt(s, i, HeadingSource(Heading(s[i + |HeadingOpen|..j], s[j + 1..k])))
  {
    var h := Heading(s[i + |HeadingOpen|..j], s[j + 1..k]);
    assert OccursAt(s, j, ">") by { assert s[j..j + 1] == [s[j]]; }
    assert OccursAt(s, j + 1, h.text);
    HeadingSourceParts(s, i, h);
    TextCaptureMatches(s, j + 1, k);
    forall m | 0 <= m < |h.attrs| ensures h.attrs[m] != '>' {
      CharOfOccurrence(s, i + |HeadingOpen|, h.attrs, i + |HeadingOpen| + m);
    }
  }

  /** The text between `b` and the first `</h2>` at `k` is a valid lazy capture. */
  lemma TextCaptureMatches(s: string, b: nat, k: nat)
    requires b <= k && OccursAt(s, k, HeadingClose)
    requires forall m :: b <= m < k ==> !IsLineTerminator(s[m])
    requires forall m :: b <= m < k ==> !CloseAt(s, m)
    ensures forall m :: 0 <= m < k - b ==> !IsLineTerminator(s[b..k][m])
    ensures forall m {:trigger OccursAt(s[b..k] + HeadingClose, m, HeadingClose)} ::
      0 <= m < k - b ==> !OccursAt(s[b..k] + HeadingClose, m, HeadingClose)
  {
    var text := s[b..k];
    var tail := text + HeadingClose;
    assert OccursAt(s, b, text);
    OccursAtConcat(s, b, text, HeadingClose);
    forall m | 0 <= m < |text| ensures !IsLineTerminator(text[m]) && !OccursAt(tail, m, HeadingClose) {
      CharOfOccurrence(s, b, text, b + m);
      CloseAtIff(s, b + m);
      OccursAtShift(s, b, tail, b + m, HeadingClose);
    }
  }

  /** An occurrence of a heading's source is an occurrence of each of its parts in turn. */
  lemma HeadingSourceParts(s: string, i: nat, h: Heading)
    ensures OccursAt(s, i, HeadingSource(h)) <==>
      && OccursAt(s, i, HeadingOpen)
      && OccursAt(s, i + |HeadingOpen|, h.attrs)
      && OccursAt(s, i + |HeadingOpen| + |h.attrs|, ">")
      && OccursAt(s, i + |HeadingOpen| + |h.attrs| + 1, h.text)
      && OccursAt(s, i + |HeadingOpen| + |h.attrs| + 1 + |h.text|, HeadingClose)
  {
    OccursAtConcat(s, i, HeadingOpen + h.attrs + ">" + h.text, HeadingClose);
    OccursAtConcat(s, i, HeadingOpen + h.attrs + ">", h.text);
    OccursAtConcat(s, i, HeadingOpen + h.attrs, ">");
    OccursAtConcat(s, i, HeadingOpen, h.attrs);
  }

  /** Any heading match starting at `i` is the one HeadingAt finds. */
  lemma HeadingAtComplete(s: string, i: nat, h: Heading)
    requires IsHeadingMatch(h) && OccursAt(s, i, HeadingSource(h))
    ensures HeadingAt(s, i) == Some(h)
  {
    var j := i + |HeadingOpen| + |h.attrs|;
    var k := j + 1 + |h.text|;
    HeadingMatchParts(s, i, h, j, k);
    HeadingFound(s, i, j, k);
  }

  /** A heading match read off `s`: its `>` is the first after `<h2`, its `</h2>` the first after that `>`. */
  lemma HeadingMatchParts(s: string, i: nat, h: Heading, j: nat, k: nat)
    requires IsHeadingMatch(h) && OccursAt(s, i, HeadingSource(h))
    requires j == i + |HeadingOpen| + |h.attrs| && k == j + 1 + |h.text|
    ensures OpenAt(s, i) && CloseAt(s, k) && s[j] == '>'
    ensures forall m :: i + |HeadingOpen| <= m < j ==> s[m] != '>'
    ensures forall m :: j + 1 <= m < k ==> !IsLineTerminator(s[m])
    ensures forall m :: j + 1 <= m < k ==> !CloseAt(s, m)
    ensures s[i + |HeadingOpen|..j] == h.attrs && s[j + 1..k] == h.text
  {
    HeadingSourceParts(s, i, h);
    OpenAtIff(s, i);
    CloseAtIff(s, k);
    CharOfOccurrence(s, j, ">", j);
    forall m | i + |HeadingOpen| <= m < j ensures s[m] != '>' {
      CharOfOccurrence(s, i + |HeadingOpen|, h.attrs, m);
    }
    CloseOfText(s, j + 1, h.text);
  }

  /** The `>` and `</h2>` that come first are the ones HeadingAt finds. */
  lemma HeadingFound(s: string, i: nat, j: nat, k: nat)
    requires OpenAt(s, i) && i + |HeadingOpen| <= j < k && CloseAt(s, k) && s[j] == '>'
    requires forall m :: i + |HeadingOpen| <= m < j ==> s[m] != '>'
    requires forall m :: j + 1 <= m < k ==> !IsLineTerminator(s[m])
    requires forall m :: j + 1 <= m < k ==> !CloseAt(s, m)
    ensures HeadingAt(s, i) == Some(Heading(s[i + |HeadingOpen|..j], s[j + 1..k]))
  {
    IndexOfFromFinds(s, '>', i + |HeadingOpen|, j);
    CloseFromComplete(s, j + 1, k);
  }

  /** Lazy text followed by `</h2>` in `s`: the first `</h2>` after it is that one. */
  lemma CloseOfText(s: string, b: nat, text: string)
    requires OccursAt(s, b, text) && OccursAt(s, b + |text|, HeadingClose)
    requires forall k :: 0 <= k < |text| ==> !IsLineTerminator(text[k])
    requires forall k :: 0 <= k < |text| ==> !OccursAt(text + HeadingClose, k, HeadingClose)
    ensures forall m :: b <= m < b + |text| ==> !IsLineTerminator(s[m])
    ensures forall m :: b <= m < b + |text| ==> !CloseAt(s, m)
  {
    var tail := text + HeadingClose;
    OccursAtConcat(s, b, text, HeadingClose);
    forall m | b <= m < b + |text| ensures !IsLineTerminator(s[m]) && !CloseAt(s, m) {
      CharOfOccurrence(s, b, text, m);
      CloseAtIff(s, m);
      OccursAtShift(s, b, tail, m, HeadingClose);
    }
  }

  /** One step of the global replace: an unmatched character, or a heading match. */
  datatype Piece = Plain(c: char) | Match(h: Heading)

  /**
   * The left-to-right scan of a global `replace`: try the regex at `i`; on a
   * match continue after it, otherwise keep the character and move on by one.
   */
  function Scan(s: string, i: nat): (ps: seq<Piece>)
    requires i <= |s|
    ensures |ps| <= |s| - i
    decreases |s| - i
  {
    if i == |s| then []
    else match HeadingAt(s, i)
      case Some(h) => [Match(h)] + Scan(s, i + |HeadingSource(h)|)
      case None => [Plain(s[i])] + Scan(s, i + 1)
  }

  /** The input text the pieces were read from. */
  function Original(ps: seq<Piece>): string {
    if ps == [] then []
    else (match ps[0] case Plain(c) => [c] case Match(h) => HeadingSource(h)) + Original(ps[1..])
  }

  /** The output of the replace: each match replaced, every other character kept. */
  function Rendered(ps: seq<Piece>): string {
    if ps == [] then []
    else (match ps[0] case Plain(c) => [c] case Match(h) => StyledHeading(h)) + Rendered(ps[1..])
  }

  lemma RenderedPlain(c: char, ps: seq<Piece>)
    ensures Rendered([Plain(c)] + ps) == [c] + Rendered(ps)
  {
    assert ([Plain(c)] + ps)[1..] == ps;
  }

  /** Lines 15-17: every heading match gets the centring, bold inline style. */
  function StyleHeadings(s: string): (r: string)
    ensures |s| <= |r|
  {
    ScanTokenizes(s, 0);
    TokenizationReassembles(s, 0, Scan(s, 0));
    RenderedNotShorter(Scan(s, 0));
    Rendered(Scan(s, 0))
  }

  /** Rendering never shortens: each styled heading is longer than its source. */
  lemma {:induction false} RenderedNotShorter(ps: seq<Piece>)
    ensures |Original(ps)| <= |Rendered(ps)|
  {
    if ps != [] {
      RenderedNotShorter(ps[1..]);
    }
  }

  /** No heading match of any captures starts at `i`. */
  ghost predicate NoHeadingAt(s: string, i: nat) {
    forall h :: IsHeadingMatch(h) ==> !OccursAt(s, i, HeadingSource(h))
  }

  /**
   * The declarative reading of a global regex replace: `ps` cuts `s[i..]` into
   * pieces, each heading piece is a match, and each plain character stands
   * where no match starts (so matches are leftmost and do not overlap).
   */
  ghost predicate IsLeftmostTokenization(s: string, i: nat, ps: seq<Piece>)
    decreases |ps|
  {
    if ps == [] then i == |s|
    else match ps[0]
      case Plain(c) =>
        i < |s| && s[i] == c && NoHeadingAt(s, i) && IsLeftmostTokenization(s, i + 1, ps[1..])
      case Match(h) =>
        && IsHeadingMatch(h) && OccursAt(s, i, HeadingSource(h))
        && IsLeftmostTokenization(s, i + |HeadingSource(h)|, ps[1..])
  }

  /** No heading match starts at `i` exactly when HeadingAt finds none there. */
  lemma NoHeadingAtIff(s: string, i: nat)
    ensures NoHeadingAt(s, i) <==> HeadingAt(s, i).None?
  {
    HeadingAtIsMatch(s, i);
    if HeadingAt(s, i).None? {
      forall h | IsHeadingMatch(h) ensures !OccursAt(s, i, HeadingSource(h)) {
        if OccursAt(s, i, HeadingSource(h)) { HeadingAtComplete(s, i, h); }
      }
    }
  }

  /** The scan is a leftmost tokenization ... */
  lemma {:induction false} ScanTokenizes(s: string, i: nat)
    requires i <= |s|
    ensures IsLeftmostTokenization(s, i, Scan(s, i))
    decreases |s| - i
  {
    if i < |s| {
      var j := ScanStep(s, i);
      ScanTokenizes(s, j);
    } else {
      assert Scan(s, i) == [];
    }
  }

  /** One step of the scan from `i` to where it goes on, `j`, keeps the tokenization leftmost. */
  lemma ScanStep(s: string, i: nat) returns (j: nat)
    requires i < |s|
    ensures i < j <= |s|
    ensures IsLeftmostTokenization(s, j, Scan(s, j)) ==> IsLeftmostTokenization(s, i, Scan(s, i))
  {
    var found := HeadingAt(s, i);
    if found.Some? {
      j := TokenizesAtMatch(s, i, found.value);
    } else {
      j := i + 1;
      TokenizesAtPlain(s, i);
    }
  }

  lemma TokenizesAtMatch(s: string, i: nat, h: Heading) returns (j: nat)
    requires i < |s| && HeadingAt(s, i) == Some(h)
    ensures j == i + |HeadingSource(h)| && i < j <= |s|
    ensures IsLeftmostTokenization(s, j, Scan(s, j)) ==> IsLeftmostTokenization(s, i, Scan(s, i))
  {
    j := i + |HeadingSource(h)|;
    HeadingAtIsMatch(s, i);
    ScanAtMatch(s, i, h);
    if IsLeftmostTokenization(s, j, Scan(s, j)) {
      TokenizeMatch(s, i, h, Scan(s, j));
    }
  }

  lemma TokenizesAtPlain(s: string, i: nat)
    requires i < |s| && HeadingAt(s, i).None?
    ensures IsLeftmostTokenization(s, i + 1, Scan(s, i + 1)) ==> IsLeftmostTokenization(s, i, Scan(s, i))
  {
    ScanAtPlain(s, i);
    NoHeadingAtIff(s, i);
    if IsLeftmostTokenization(s, i + 1, Scan(s, i + 1)) {
      TokenizePlain(s, i, Scan(s, i + 1));
    }
  }

  lemma ScanAtMatch(s: string, i: nat, h: Heading)
    requires i < |s| && HeadingAt(s, i) == Some(h)
    ensures i + |HeadingSource(h)| <= |s|
    ensures Scan(s, i) == [Match(h)] + Scan(s, i + |HeadingSource(h)|)
  {
  }

  lemma ScanAtPlain(s: string, i: nat)
    requires i < |s| && HeadingAt(s, i).None?
    ensures Scan(s, i) == [Plain(s[i])] + Scan(s, i + 1)
  {
  }

  lemma TokenizeMatch(s: string, i: nat, h: Heading, rest: seq<Piece>)
    requires IsHeadingMatch(h) && OccursAt(s, i, HeadingSource(h))
    requires IsLeftmostTokenization(s, i + |HeadingSource(h)|, rest)
    ensures IsLeftmostTokenization(s, i, [Match(h)] + rest)
  {
    assert ([Match(h)] + rest)[1..] == rest;
  }

  lemma TokenizePlain(s: string, i: nat, rest: seq<Piece>)
    requires i < |s| && NoHeadingAt(s, i) && IsLeftmostTokenization(s, i + 1, rest)
    ensures IsLeftmostTokenization(s, i, [Plain(s[i])] + rest)
  {
    assert ([Plain(s[i])] + rest)[1..] == rest;
  }

  /** ... and the only one. */
  lemma {:induction false} TokenizationIsScan(s: string, i: nat, ps: seq<Piece>)
    requires i <= |s| && IsLeftmostTokenization(s, i, ps)
    ensures ps == Scan(s, i)
    decreases |ps|
  {
    if ps == [] {
      assert Scan(s, i) == [];
    } else {
      var j := TokenizationStep(s, i, ps);
      TokenizationIsScan(s, j, ps[1..]);
    }
  }

  /** The first piece of a leftmost tokenization is the scan's first step, from `i` to `j`. */
  lemma TokenizationStep(s: string, i: nat, ps: seq<Piece>) returns (j: nat)
    requires i <= |s| && ps != [] && IsLeftmostTokenization(s, i, ps)
    ensures i < j <= |s| && IsLeftmostTokenization(s, j, ps[1..])
    ensures ps[1..] == Scan(s, j) ==> ps == Scan(s, i)
  {
    j := TokenizationTail(s, i, ps);
    if ps[1..] == Scan(s, j) {
      if ps[0].Plain? {
        PlainStepIsScan(s, i, ps);
      } else {
        MatchStepIsScan(s, i, ps);
      }
    }
  }

  /** The rest of a leftmost tokenization is one of the text after its first piece. */
  lemma TokenizationTail(s: string, i: nat, ps: seq<Piece>) returns (j: nat)
    requires i <= |s| && ps != [] && IsLeftmostTokenization(s, i, ps)
    ensures i < j <= |s| && IsLeftmostTokenization(s, j, ps[1..])
    ensures j == if ps[0].Plain? then i + 1 else i + |HeadingSource(ps[0].h)|
  {
    match ps[0]
    case Plain(c) =>
      j := i + 1;
    case Match(h) =>
      j := i + |HeadingSource(h)|;
  }

  lemma PlainStepIsScan(s: string, i: nat, ps: seq<Piece>)
    requires i < |s| && ps != [] && ps[0].Plain? && IsLeftmostTokenization(s, i, ps)
    requires ps[1..] == Scan(s, i + 1)
    ensures ps == Scan(s, i)
  {
    assert ps == [ps[0]] + ps[1..];
    NoHeadingAtIff(s, i);
    ScanAtPlain(s, i);
  }

  lemma MatchStepIsScan(s: string, i: nat, ps: seq<Piece>)
    requires i < |s| && ps != [] && ps[0].Match? && IsLeftmostTokenization(s, i, ps)
    requires i + |HeadingSource(ps[0].h)| <= |s| && ps[1..] == Scan(s, i + |HeadingSource(ps[0].h)|)
    ensures ps == Scan(s, i)
  {
    assert ps == [ps[0]] + ps[1..];
    HeadingAtComplete(s, i, ps[0].h);
    ScanAtMatch(s, i, ps[0].h);
  }

  /** The pieces of a leftmost tokenization put back together give the text they were cut from. */
  lemma {:induction false} TokenizationReassembles(s: string, i: nat, ps: seq<Piece>)
    requires i <= |s| && IsLeftmostTokenization(s, i, ps)
    ensures Original(ps) == s[i..]
    decreases |ps|
  {
    if ps == [] {
      assert s[i..] == [];
    } else {
      match ps[0]
      case Plain(c) =>
        TokenizationReassembles(s, i + 1, ps[1..]);
        assert s[i..] == [s[i]] + s[i + 1..];
      case Match(h) =>
        var n := |HeadingSource(h)|;
        TokenizationReassembles(s, i + n, ps[1..]);
        assert s[i..] == s[i..i + n] + s[i + n..];
    }
  }

  /** The global replace is the rendering of the unique leftmost tokenization. */
  lemma StyleHeadingsSpec(s: string, ps: seq<Piece>)
    ensures IsLeftmostTokenization(s, 0, ps) <==> ps == Scan(s, 0)
    ensures IsLeftmostTokenization(s, 0, ps) ==> StyleHeadings(s) == Rendered(ps)
  {
    ScanTokenizes(s, 0);
    if IsLeftmostTokenization(s, 0, ps) { TokenizationIsScan(s, 0, ps); }
  }

  /** Input holding no `<h2` is left unchanged. */
  lemma {:induction false} StyleHeadingsWithoutHeadings(s: string, i: nat)
    requires i <= |s|
    requires forall k :: i <= k < |s| ==> !OccursAt(s, k, HeadingOpen)
    ensures Rendered(Scan(s, i)) == s[i..]
    decreases |s| - i
  {
    if i < |s| {
      OpenAtIff(s, i);
      ScanAtPlain(s, i);
      StyleHeadingsWithoutHeadings(s, i + 1);
      RenderedPlain(s[i], Scan(s, i + 1));
      SuffixSplit(s, i);
    }
  }

  /** A lone heading is replaced by its styled form, attributes and text kept verbatim. */
  lemma StyleSingleHeading(h: Heading)
    requires IsHeadingMatch(h)
    ensures StyleHeadings(HeadingSource(h)) == StyledHeading(h)
  {
    var s := HeadingSource(h);
    assert s[0..|s|] == s;
    assert IsLeftmostTokenization(s, |s|, []);
    assert IsLeftmostTokenization(s, 0, [Match(h)]);
    StyleHeadingsSpec(s, [Match(h)]);
    assert Rendered([Match(h)]) == StyledHeading(h) + Rendered([]);
  }

  /** The styled heading is again a heading match, whose attributes now end in the style. */
  lemma StyledHeadingIsHeading(h: Heading)
    requires IsHeadingMatch(h)
    ensures StyledHeading(h) == HeadingSource(Heading(h.attrs + CenterBoldStyle, h.text))
    ensures IsHeadingMatch(Heading(h.attrs + CenterBoldStyle, h.text))
  {
    assert '>' !in CenterBoldStyle;
  }

  /** The rewrite is not idempotent: a second pass appends the style once more. */
  lemma StyleHeadingsTwice(h: Heading)
    requires IsHeadingMatch(h)
    ensures StyleHeadings(StyleHeadings(HeadingSource(h))) == StyledHeading(Heading(h.attrs + CenterBoldStyle, h.text))
    ensures StyleHeadings(StyleHeadings(HeadingSource(h))) != StyleHeadings(HeadingSource(h))
  {
    StyleSingleHeading(h);
    StyledHeadingIsHeading(h);
    StyleSingleHeading(Heading(h.attrs + CenterBoldStyle, h.text));
  }

  /** A leading heading followed by heading-free text: only the heading changes. */
  lemma StyleLeadingHeading(h: Heading, rest: string)
    requires IsHeadingMatch(h)
    requires forall k :: 0 <= k < |rest| ==> !OccursAt(rest, k, HeadingOpen)
    ensures StyleHeadings(HeadingSource(h) + rest) == StyledHeading(h) + rest
  {
    var s := HeadingSource(h) + rest;
    var n := |HeadingSource(h)|;
    assert s[0..n] == HeadingSource(h);
    HeadingAtComplete(s, 0, h);
    assert OccursAt(s, n, rest) by { assert s[n..n + |rest|] == rest; }
    forall k | n <= k < |s| ensures !OccursAt(s, k, HeadingOpen) {
      if k - n + |HeadingOpen| <= |rest| {
        OccursAtShift(s, n, rest, k, HeadingOpen);
      }
    }
    StyleHeadingsWithoutHeadings(s, n);
    assert s[n..] == rest;
    assert Scan(s, 0) == [Match(h)] + Scan(s, n);
  }
}
