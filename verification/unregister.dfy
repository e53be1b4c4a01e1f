/**
 The delegated click handler for a participant's delete button: the guards that
 stop a request, the removal of the clicked list item on success, and the
 alert shown on failure.
 */
module Unregister {
  import opened Wrappers
  import opened Messages
  import opened Render

  /** The `data-email` and `data-activity` attributes of a delete button; `None` when missing. */
  datatype DeleteButton = DeleteButton(email: Option<string>, activity: Option<string>)

  /** What the DELETE request came back with. */
  datatype Response =
    | Removed                      // a 2xx status
    | Refused(body: ResponseBody)  // any other status; a body that is not JSON reads as one with neither field
    | NetworkFailure               // the request threw, or the body was JSON null (reading `detail` of null throws)

  /** What one click does: the request issued (if any), the list items afterwards, the alert shown (if any). */
  datatype Effect = Effect(request: Option<Request>, rows: seq<Row>, alert: Option<string>)

  /** The delete button rendered inside a row carries the row's tag. */
  function ButtonOf(row: Row): DeleteButton {
    DeleteButton(Some(row.email), Some(row.activity))
  }

  /** `s` without its element at `i`; the others keep their order. */
  function RemoveAt<T>(s: seq<T>, i: nat): (r: seq<T>)
    requires i < |s|
    ensures |r| == |s| - 1
    ensures forall k :: 0 <= k < i ==> r[k] == s[k]
    ensures forall k :: i <= k < |r| ==> r[k] == s[k + 1]
    ensures multiset(r) + multiset{s[i]} == multiset(s)
  {
    assert s == s[..i] + [s[i]] + s[i + 1..];
    s[..i] + s[i + 1..]
  }

  /** The request a click on `btn` issues: none unless both attributes are non-empty and the user confirmed. */
  function RequestFor(btn: DeleteButton, confirmed: bool): (r: Option<Request>)
    ensures r.Some? <==> Truthy(btn.email) && Truthy(btn.activity) && confirmed
    ensures r.Some? ==> (r.value.UnregisterRequest? &&
                         Some(r.value.email) == btn.email && Some(r.value.activity) == btn.activity)
  {
    if !Truthy(btn.email) || !Truthy(btn.activity) then None
    else if !confirmed then None
    else Some(UnregisterRequest(btn.activity.value, btn.email.value))
  }

  /**
   One click. `target` is the closest delete button to the click (`None` when
   the click was elsewhere), `item` the index in `rows` of the list item that
   encloses it (`None` when there is none), `confirmed` the answer to the
   confirmation prompt, and `response` what the request would come back with.
   */
  function OnClick(rows: seq<Row>, target: Option<DeleteButton>, item: Option<nat>,
                   confirmed: bool, response: Response): (e: Effect)
    requires item.Some? ==> item.value < |rows|
    ensures e.request.Some? <==> target.Some? && RequestFor(target.value, confirmed).Some?
    ensures e.request.Some? ==> e.request == RequestFor(target.value, confirmed)
    ensures e.request.None? ==> e.rows == rows && e.alert.None?
    ensures e.rows == rows || (e.request.Some? && response.Removed? && item.Some? && e.rows == RemoveAt(rows, item.value))
    ensures e.request.Some? && response.Removed? && item.Some? ==> e.rows == RemoveAt(rows, item.value)
    ensures e.alert.Some? <==> e.request.Some? && !response.Removed?
    ensures e.request.Some? && response.Refused? ==> e.alert == Some(UnregisterAlertText(response.body))
    ensures e.request.Some? && response.NetworkFailure? ==> e.alert == Some(UnregisterNetworkFailure)
  {
    match target
    case None => Effect(None, rows, None)
    case Some(btn) =>
      match RequestFor(btn, confirmed)
      case None => Effect(None, rows, None)
      case Some(req) =>
        match response
        case Removed =>
          Effect(Some(req), if item.Some? then RemoveAt(rows, item.value) else rows, None)
        case Refused(body) => Effect(Some(req), rows, Some(UnregisterAlertText(body)))
        case NetworkFailure => Effect(Some(req), rows, Some(UnregisterNetworkFailure))
  }

  /**
   A click on a delete button inside `c`'s participant list: the list items
   change as `OnClick` says, and nothing else on the card is touched.
   */
  function ClickInCard(c: Card, target: Option<DeleteButton>, item: Option<nat>,
                       confirmed: bool, response: Response): (r: (Card, Effect))
    requires c.participants.ParticipantList?
    requires item.Some? ==> item.value < |c.participants.rows|
    ensures r.1 == OnClick(c.participants.rows, target, item, confirmed, response)
    ensures r.0.title == c.title && r.0.description == c.description && r.0.schedule == c.schedule
    ensures r.0.spotsLeft == c.spotsLeft
    ensures r.0.participants == ParticipantList(c.participants.activity, r.1.rows)
  {
    var e := OnClick(c.participants.rows, target, item, confirmed, response);
    (c.(participants := c.participants.(rows := e.rows)), e)
  }

  /**
   After a successful removal from a rendered card the spots-left count is one
   short of capacity minus the rows shown, and removing the only participant
   leaves an empty list, not the "No participants yet" placeholder.
   */
  lemma RemovalLeavesCardStale(name: string, d: Details, j: nat)
    requires j < |Participants(d)|
    requires name != "" && Participants(d)[j] != ""
    ensures var c := CardFor(name, d);
      var r := ClickInCard(c, Some(ButtonOf(c.participants.rows[j])), Some(j), true, Removed);
      && r.0.spotsLeft + RowCount(r.0.participants) == Capacity(d) - 1
      && (|Participants(d)| == 1 ==> r.0.participants == ParticipantList(name, []))
  {
  }

  /** Declining the prompt issues no request and changes nothing, whatever was clicked. */
  lemma DeclineIsInert(rows: seq<Row>, target: Option<DeleteButton>, item: Option<nat>, response: Response)
    requires item.Some? ==> item.value < |rows|
    ensures OnClick(rows, target, item, false, response) == Effect(None, rows, None)
  {
  }

  /**
   Confirming the removal of a rendered row that the server accepts issues the
   request for that row's (activity, email) and removes exactly that item, even
   when another item carries the same tag; the rest keep their order and data.
   */
  lemma RemovesClickedRow(rows: seq<Row>, i: nat)
    requires i < |rows|
    requires rows[i].email != "" && rows[i].activity != ""
    ensures var e := OnClick(rows, Some(ButtonOf(rows[i])), Some(i), true, Removed);
      && e.request == Some(UnregisterRequest(rows[i].activity, rows[i].email))
      && e.alert.None?
      && |e.rows| == |rows| - 1
      && multiset(e.rows) + multiset{rows[i]} == multiset(rows)
      && (forall k :: 0 <= k < i ==> e.rows[k] == rows[k])
      && (forall k :: i <= k < |e.rows| ==> e.rows[k] == rows[k + 1])
  {
  }

  /**
   A row rendered for an empty email (or under an activity with an empty name)
   has a delete button that does nothing: the attribute is present but falsy.
   */
  lemma EmptyTagIsInert(rows: seq<Row>, i: nat, confirmed: bool, response: Response)
    requires i < |rows|
    requires rows[i].email == "" || rows[i].activity == ""
    ensures OnClick(rows, Some(ButtonOf(rows[i])), Some(i), confirmed, response) == Effect(None, rows, None)
  {
  }
}
