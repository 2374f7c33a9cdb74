/**
 * Choosing the summary comment among a ticket's comments
 * (src/app/locations/TicketSideBar.jsx:50-63): the newest private comment
 * written by the analysis account, formatted, or a fixed placeholder.
 */
module Comments {
  import opened Wrappers
  import Summary

  /** The automation account whose private comments carry the summary. */
  const SummaryEmail := "yashwanth@moengage.com"
  /** Shown when no comment qualifies. */
  const NotFoundHtml := "<div>No summary found from yashwanth@moengage.com.</div>"

  datatype Author = Author(email: Option<string>)

  /** A ticket comment as the host hands it over; `value` is its HTML body. */
  datatype Comment = Comment(value: Option<string>, isPublic: bool, author: Option<Author>)

  /** The `find` callback: private, with an author, whose email equals the sentinel exactly. */
  predicate IsSummaryComment(c: Comment) {
    !c.isPublic && c.author.Some? && c.author.value.email == Some(SummaryEmail)
  }

  /** `slice().reverse()`: a reversed copy. */
  function Reverse<T>(s: seq<T>): (r: seq<T>)
    ensures |r| == |s|
    ensures forall k :: 0 <= k < |s| ==> r[k] == s[|s| - 1 - k]
  {
    if s == [] then [] else [s[|s| - 1]] + Reverse(s[..|s| - 1])
  }

  /** The index `find` stops at: the first qualifying comment. */
  function FindFirst(cs: seq<Comment>): (r: Option<nat>)
    ensures r.Some? ==> r.value < |cs| && IsSummaryComment(cs[r.value])
    ensures r.Some? ==> forall j :: 0 <= j < r.value ==> !IsSummaryComment(cs[j])
    ensures r.None? ==> forall j :: 0 <= j < |cs| ==> !IsSummaryComment(cs[j])
  {
    if cs == [] then None
    else if IsSummaryComment(cs[0]) then Some(0)
    else match FindFirst(cs[1..])
      case None => None
      case Some(k) => Some(k + 1)
  }

  /** The newest qualifying comment is at `i`: it qualifies and none after it does. */
  ghost predicate IsNewestSummaryAt(comments: seq<Comment>, i: nat) {
    i < |comments| && IsSummaryComment(comments[i])
    && forall j :: i < j < |comments| ==> !IsSummaryComment(comments[j])
  }

  /** Lines 50-58: `comments.slice().reverse().find(...)`. */
  function SelectSummaryComment(comments: seq<Comment>): (r: Option<Comment>)
    ensures r.None? <==> forall j :: 0 <= j < |comments| ==> !IsSummaryComment(comments[j])
    ensures r.Some? ==> exists i: nat :: IsNewestSummaryAt(comments, i) && comments[i] == r.value
  {
    var reversed := Reverse(comments);
    match FindFirst(reversed)
    case None =>
      assert forall j :: 0 <= j < |comments| ==> comments[j] == reversed[|comments| - 1 - j];
      None
    case Some(k) =>
      var i := |comments| - 1 - k;
      assert IsNewestSummaryAt(comments, i) by {
        forall j | i < j < |comments| ensures !IsSummaryComment(comments[j]) {
          assert comments[j] == reversed[|comments| - 1 - j];
        }
      }
      Some(reversed[k])
  }

  /** Conversely, the newest qualifying comment is the one selected. */
  lemma SelectsNewest(comments: seq<Comment>, i: nat)
    requires IsNewestSummaryAt(comments, i)
    ensures SelectSummaryComment(comments) == Some(comments[i])
  {
    var r := SelectSummaryComment(comments);
    var i': nat :| IsNewestSummaryAt(comments, i') && comments[i'] == r.value;
    NewestIsUnique(comments, i, i');
  }

  lemma NewestIsUnique(comments: seq<Comment>, i: nat, i': nat)
    requires IsNewestSummaryAt(comments, i) && IsNewestSummaryAt(comments, i')
    ensures i == i'
  {
    assert !(i < i') && !(i' < i);
  }

  /** Lines 59-63: the HTML the panel stores once the comments have arrived. */
  function SummaryFor(comments: seq<Comment>): (html: string)
    ensures (forall j :: 0 <= j < |comments| ==> !IsSummaryComment(comments[j])) ==> html == NotFoundHtml
    ensures html == [] ==> exists i: nat :: IsNewestSummaryAt(comments, i) && Summary.FormatSummary(comments[i].value) == []
  {
    match SelectSummaryComment(comments)
    case None => NotFoundHtml
    case Some(c) => Summary.FormatSummary(c.value)
  }

  /** With a qualifying comment, the stored HTML is the newest one's body, formatted. */
  lemma SummaryForNewest(comments: seq<Comment>, i: nat)
    requires IsNewestSummaryAt(comments, i)
    ensures SummaryFor(comments) == Summary.FormatSummary(comments[i].value)
  {
    SelectsNewest(comments, i);
  }
}
