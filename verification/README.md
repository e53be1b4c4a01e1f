# Activity board client — a Dafny model

The activity board is the browser client of a signup application. It fetches
the activities (name, description, schedule, capacity, participant emails)
and renders one card per activity plus a dropdown of activity names. It lets
a user sign up for an activity through a form. It lets a participant be
unregistered by clicking the delete button on their list item.

This project models the pure logic of that client (`src/static/app.js`) as
immutable datatypes and total functions, and proves what the code promises:

- `html.dfy` (module `Html`): the `escapeHtml` encoder, with a decoder for the
  five character references. The proofs cover the output's safety, identity
  on safe text, distribution over concatenation, growth, round trip and
  injectivity.
- `render.dfy` (module `Render`): the data derivation inside `fetchActivities`.
  It covers participant defaulting, spots left, cards, participant rows, the
  "No participants yet" placeholder, the dropdown and the failure paragraph.
  The render loop is the method `Refresh`.
- `unregister.dfy` (module `Unregister`): the delegated delete-button click
  handler. It covers the attribute and confirmation guards, removal of the
  clicked list item, and the alert text.
- `signup.dfy` (module `Signup`): the form submit handler. It covers the
  status message text and class, form reset, refresh, and the hide timer
  being started.
- `messages.dfy` (module `Messages`): requests, response bodies, and the
  JavaScript `a || b || fallback` chains that choose error texts.
- `wrappers.dfy` (module `Wrappers`): `Option`.

JavaScript values are modelled as follows:

- A JSON field that is absent or null is `None`.
- A `participants` value that is not an array is `None`. It counts as no one
  (`Array.isArray(...) ? ... : []`).
- `max_participants || 0` is `Capacity`. An absent, null or zero capacity
  reads as 0.
- A string is truthy when it is present and non-empty (`Messages.Truthy`).
- A refused unregister whose body is not JSON reads as a body with neither
  `detail` nor `message` (`.catch(() => ({}))`, app.js:112; `Unregister.Response.Refused`).
- The DOM is represented by the view model `Render.View`:
  - the list area is either cards or the failure paragraph;
  - the dropdown is a sequence of options;
  - a participant list item is a `Row`, carrying the `(activity, email)` tag
    its delete button holds.

Three behaviours of the code are worth stating plainly:

- A failed refresh keeps the dropdown only when the fetch or the JSON
  decoding fails (app.js:17-18). A body that decodes to `null` has already
  reset the dropdown to the placeholder (app.js:22). An activity whose value
  is `null` makes the render throw, and the dropdown keeps the options
  appended before it. In every failure case the list shows the failure
  paragraph (`Render.Refresh`).
- Spots left is `(max_participants || 0) - participants.length`, with a
  non-array participant list read as empty (app.js:29-30). It is not
  clamped, so it can be negative.
- A successful unregister only removes the clicked list item (app.js:109-110).
  The card's spots-left count is not recomputed, and removing the last item
  leaves an empty list rather than the "No participants yet" placeholder
  (`Unregister.ClickInCard`, `Unregister.RemovalLeavesCardStale`).

On the encoder's output, `Html.Unescape` (which decodes only the five
references) agrees with an HTML parser reading the text back, with two
exceptions. The parser normalises a carriage return, alone or before a line
feed, to a line feed, and it drops U+0000 in body text; `Unescape` keeps both.
Apart from those, the agreement holds because every `&` in that output begins
one of the five references, and no `<` is left
(`Html.AmpersandsStartEntities`, `Html.EscapeHtml`).

## Model

| member | source | states |
|---|---|---|
| `Html.EscapeChar` | src/static/app.js:9-10 | each of `& < > " '` becomes a reference of length at least 4 that starts the text; every other character is kept as is; a replacement holds no tag or quote delimiter and no `&` after its first character |
| `Html.EscapeHtml` | src/static/app.js:8-12 | the encoded text is never shorter than the input and contains none of `<`, `>`, `"`, `'` |
| `Html.AmpersandsStartEntities` | src/static/app.js:9-10 | every `&` in the encoded text is the first character of one of `&amp; &lt; &gt; &quot; &#39;` |
| `Html.EscapeConcat` | src/static/app.js:9-11 | characters are encoded independently: encoding `a + b` equals encoding `a` followed by encoding `b` |
| `Html.EscapeGrowsOnSpecial` | src/static/app.js:9-10 | a string with at least one special character gets strictly longer |
| `Html.EscapeIdentityIffSafe` | src/static/app.js:9-11 | the encoder returns its input unchanged exactly when the input holds none of `& < > " '` |
| `Html.RoundTrip` | src/static/app.js:9-10 | decoding the five references recovers the original string |
| `Html.EscapeInjective` | src/static/app.js:9-10 | two strings with the same encoding are equal |
| `Messages.FirstTruthy` | src/static/app.js:113 | the result is the value of the first present, non-empty candidate; with none, it is the fallback; it is non-empty whenever the fallback is |
| `Messages.UnregisterAlertText` | src/static/app.js:112-113 | a refused unregister shows `detail`, else `message`, else "Failed to unregister participant" |
| `Messages.SignupErrorText` | src/static/app.js:145 | a refused signup shows `detail`, else "An error occurred"; `message` is not consulted |
| `Render.RowsFor` | src/static/app.js:39-60 | one list item per email, in order, each tagged with the activity name and that email |
| `Render.CardFor` | src/static/app.js:29-76 | spots left plus the number of rendered participant rows equals `max_participants \|\| 0`; the card shows the placeholder exactly when there are no participants (including a non-array value); otherwise the list is tagged with the activity and holds one row per participant, in order |
| `Render.Refresh` | src/static/app.js:15-88 | a failed fetch shows the failure paragraph and keeps the prior dropdown; a null body leaves only the placeholder option; otherwise the dropdown is the placeholder followed by one option per entry, in entry order. Cards appear (one per entry, in order) exactly when no entry's value is null; otherwise rendering stops at the first null value and the list shows the failure paragraph |
| `Render.CardTextIsLiteral` | src/static/app.js:69-74 | a card's name, description and schedule markup contains none of `<`, `>`, `"`, `'`, every `&` in it opens a reference, and it decodes back to the server text (description and schedule default to empty) |
| `Render.SpotsLeftExamples` | src/static/app.js:29-30 | capacity 10 with two participants leaves 8; capacity 1 with two leaves -1 (no clamping); no capacity and no participant array leaves 0 |
| `Unregister.RemoveAt` | src/static/app.js:108-110 | removing item `i` drops exactly one copy of that item; the items before it keep their positions and the items after it shift down by one |
| `Unregister.RequestFor` | src/static/app.js:96-100 | a request is issued exactly when both `data-email` and `data-activity` are present and non-empty and the user confirmed; it targets that activity and email |
| `Unregister.OnClick` | src/static/app.js:92-119 | with no request issued, nothing changes and no alert is shown; the rows change only when a request succeeds, and then exactly the enclosing item is removed; an alert is shown exactly when a request was issued and not answered with success: the fallback chain on a refused response, a fixed text on a network failure |
| `Unregister.ClickInCard` | src/static/app.js:107-110 | a click inside a card's participant list changes only its list items, as `OnClick` says; the title, description, schedule and spots-left count stay as they were, and the list stays a list |
| `Unregister.RemovalLeavesCardStale` | src/static/app.js:107-110 | after a successful removal from a rendered card, spots left plus the rows shown is one less than the capacity; removing the only participant leaves an empty list, not the placeholder |
| `Unregister.DeclineIsInert` | src/static/app.js:100 | declining the confirmation issues no request, leaves the rows unchanged and shows no alert |
| `Unregister.RemovesClickedRow` | src/static/app.js:103-110 | confirming the removal of a rendered row that the server accepts issues the request for that row's activity and email, and removes exactly that row, even when another row has the same tag |
| `Unregister.EmptyTagIsInert` | src/static/app.js:96-98 | a row rendered with an empty email or under an empty activity name has a delete button that issues no request and changes nothing |
| `Signup.OnSubmit` | src/static/app.js:122-161 | the request is issued for the form's activity and email on every submit (no client-side validation). Success shows the server `message` (empty when absent) with class "success" (and only success has that class), resets the form and refreshes; a refused response shows a non-empty `detail`-or-fallback text with class "error"; a failure shows the fixed failure text. The hide timer starts except on a failure |

## Left out

- Render.CardFor: capacities are exact integers, while JavaScript numbers are doubles. Above 2^53 the source's `(max_participants || 0) - participants.length` rounds (a capacity of 9007199254740994 with one participant gives 9007199254740992), and the model does not.
- Signup.OnSubmit: strings are sequences of Unicode scalar values, so a lone UTF-16 surrogate (JSON `"\ud800"`) cannot occur in the model. In the source, `encodeURIComponent` throws on one (app.js:103, 130), which issues no request and takes the catch branch; the same holds for `Unregister.OnClick`.
- Network and decoding: `fetch` and `response.json()` are outcome parameters (`Render.Payload`, `Unregister.Response`, `Signup.Response`).
- The DOM itself: element creation, `innerHTML`, `closest`, `remove`, class lists and event listeners. Their effect appears only through the view-model datatypes. The list item enclosing a clicked button is given as an index into the rows.
- The `confirm` and `alert` dialogs: confirmation is a boolean input, and an alert is the text it would show.
- The five-second hide timer and races between overlapping messages or refreshes. These are timing concerns. `Signup.OnSubmit` only records whether the timer is started.
- URL encoding with `encodeURIComponent`: a request carries the raw activity name and email.
- `console.error` logging.
- Activity ordering: `Object.entries` order is taken as given. The model does not reorder integer-like keys.
- JSON values of unexpected types are not modelled. This covers a non-string `detail`, `message`, description, schedule or email, and a non-integer capacity.
- The "No participants yet" and "Failed to load activities" paragraphs are the constructors `Render.NoParticipants` and `Render.LoadFailed`; their fixed texts are not part of the model.
- Card markup: the card is a record of its escaped fields, not the template string. The fixed "Participants" heading and the delete button's label and title are not modelled.
- The server and its tests (`tests/test_app.py`): the server code is not part of this model, so its duplicate-signup and missing-participant responses are outcome parameters.
