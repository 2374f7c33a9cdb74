/**
 * The panel state of the `TicketSideBar` component
 * (src/app/locations/TicketSideBar.jsx:31-121). Every `useState` hook is a
 * field; the effect bodies, the fetch callbacks and `handleRating` are
 * methods that update those fields, driven by the host in the order the
 * component's effects and promises would run them.
 */
module SideBar {
  import opened Wrappers
  import Comments

  /** Prefix of the error text a failed comment fetch shows (line 66). */
  const ErrorPrefix := "Could not fetch comments: "

  /** The values of the five feedback options (lines 23-29). */
  type Rating = v: int | 1 <= v <= 5 witness 1

  /** JavaScript truthiness of the ticket id: a present, non-zero number. */
  predicate HasTicket(id: Option<int>) {
    id.Some? && id.value != 0
  }

  /** JavaScript truthiness of an optional string: present and non-empty. */
  predicate IsTruthy(s: Option<string>) {
    s.Some? && s.value != []
  }

  /** What the status row of the panel shows (lines 87-91). */
  datatype Region = LoadingNotice | ErrorNotice(message: string) | SummaryView(html: string)

  class Panel {
    var ticketId: Option<int>
    var summary: string
    var loading: bool
    var error: Option<string>
    var rating: Option<Rating>
    var feedbackSubmitted: bool

    /**
     * The invariant every handler keeps: a rating exists exactly once feedback
     * is submitted, and while loading there is neither an error nor a summary.
     */
    ghost predicate Valid()
      reads this
    {
      && (feedbackSubmitted <==> rating.Some?)
      && (loading ==> error.None? && summary == [])
    }

    /** Lines 33-38: the initial hook values. */
    constructor ()
      ensures Valid()
      ensures ticketId == None && summary == [] && !loading && error == None
      ensures rating == None && !feedbackSubmitted
    {
      ticketId := None;
      summary := [];
      loading := false;
      error := None;
      rating := None;
      feedbackSubmitted := false;
    }

    /** Line 41: the host has answered the ticket id request. */
    method ReceiveTicketId(id: Option<int>)
      requires Valid()
      modifies this`ticketId
      ensures Valid() && ticketId == id
    {
      ticketId := id;
    }

    /**
     * Lines 44-48: the second effect. Without a ticket id it does nothing;
     * otherwise it resets the status and the comments request goes out, which
     * `fetching` reports.
     */
    method StartLoad() returns (fetching: bool)
      requires Valid()
      modifies this`loading, this`error, this`summary
      ensures Valid()
      ensures fetching == HasTicket(ticketId)
      ensures fetching ==> loading && error == None && summary == []
      ensures !fetching ==> loading == old(loading) && error == old(error) && summary == old(summary)
    {
      fetching := HasTicket(ticketId);
      if fetching {
        loading := true;
        error := None;
        summary := [];
      }
    }

    /** Lines 49-64: the comments arrived; store the chosen summary and stop loading. */
    method LoadSucceeded(comments: seq<Comments.Comment>)
      requires Valid()
      modifies this`summary, this`loading
      ensures Valid()
      ensures summary == Comments.SummaryFor(comments) && !loading
    {
      summary := Comments.SummaryFor(comments);
      loading := false;
    }

    /** Lines 65-68: the comments request failed with `message`. */
    method LoadFailed(message: string)
      requires Valid()
      modifies this`error, this`loading
      ensures Valid()
      ensures error == Some(ErrorPrefix + message) && !loading
    {
      error := Some(ErrorPrefix + message);
      loading := false;
    }

    /**
     * Lines 75-79: a rating button was pressed. The buttons are disabled once
     * feedback is submitted (line 102), so a second rating cannot arrive.
     */
    method Rate(value: Rating)
      requires Valid() && !feedbackSubmitted
      modifies this`rating, this`feedbackSubmitted
      ensures Valid()
      ensures rating == Some(value) && feedbackSubmitted
    {
      rating := Some(value);
      feedbackSubmitted := true;
    }

    /** Lines 87-91: the notices and the summary the status row renders, in order. */
    function Regions(): (r: seq<Region>)
      reads this
      ensures Valid() ==> |r| <= 1
      ensures SummaryView(summary) in r <==> !loading && !IsTruthy(error) && summary != []
      ensures LoadingNotice in r <==> loading
      ensures (exists k :: 0 <= k < |r| && r[k].ErrorNotice?) <==> IsTruthy(error)
      ensures IsTruthy(error) ==> ErrorNotice(error.value) in r
    {
      var notice := if loading then [LoadingNotice] else [];
      var failure := if IsTruthy(error) then [ErrorNotice(error.value)] else [];
      var view := if !loading && !IsTruthy(error) && summary != [] then [SummaryView(summary)] else [];
      assert IsTruthy(error) ==> (notice + failure + view)[|notice|] == ErrorNotice(error.value);
      assert forall x :: x in notice + view ==> !x.ErrorNotice?;
      notice + failure + view
    }
  }

  /** How the host answers the comments request, if it has answered yet. */
  datatype Fetch = Pending | Resolved(comments: seq<Comments.Comment>) | Rejected(message: string)

  /**
   * One mount of the panel for ticket `id`: the id arrives, the load starts, and
   * the comments request settles as `fetch` says. Returns what the status row shows.
   */
  method MountAndLoad(id: Option<int>, fetch: Fetch) returns (shown: seq<Region>)
    ensures !HasTicket(id) ==> shown == []
    ensures HasTicket(id) && fetch.Pending? ==> shown == [LoadingNotice]
    ensures HasTicket(id) && fetch.Resolved? ==>
      var html := Comments.SummaryFor(fetch.comments);
      shown == if html == [] then [] else [SummaryView(html)]
    ensures HasTicket(id) && fetch.Rejected? ==> shown == [ErrorNotice(ErrorPrefix + fetch.message)]
  {
    var panel := new Panel();
    panel.ReceiveTicketId(id);
    var fetching := panel.StartLoad();
    if fetching {
      match fetch
      case Pending =>
      case Resolved(comments) => panel.LoadSucceeded(comments);
      case Rejected(message) => panel.LoadFailed(message);
    }
    shown := panel.Regions();
  }
}
