/**
 The data derivation of the board's refresh: from the decoded `GET /activities`
 payload to a view model holding the activity cards and the activity dropdown.
 DOM nodes are represented by the datatypes below; the render loop that walks
 `Object.entries` is modelled by the method `Refresh`.
 */
module Render {
  import opened Wrappers
  import opened Html

  /**
   The fields of one activity value that the board reads. A field that is
   absent, null or (for `participants`) not an array is `None`.
   */
  datatype Details = Details(
    description: Option<string>,
    schedule: Option<string>,
    maxParticipants: Option<int>,
    participants: Option<seq<string>>)

  /** One `[name, value]` pair of `Object.entries`; the value is `None` when it is JSON null. */
  type Entry = (string, Option<Details>)

  /** What the read request produced. */
  datatype Payload =
    | FetchFailed                          // the request or the JSON decoding failed
    | NullPayload                          // the body decoded to JSON null
    | Activities(entries: seq<Entry>)      // the body's entries, in `Object.entries` order

  /** A participant list item: the email shown and the (activity, email) tag its delete button carries. */
  datatype Row = Row(activity: string, email: string)

  /** The participants section of a card: a placeholder paragraph, or a list tagged with the activity. */
  datatype ParticipantsBlock =
    | NoParticipants
    | ParticipantList(activity: string, rows: seq<Row>)

  /** One activity card; `title`, `description` and `schedule` are the markup inserted, already escaped. */
  datatype Card = Card(
    title: string,
    description: string,
    schedule: string,
    spotsLeft: int,
    participants: ParticipantsBlock)

  datatype SelectOption = SelectOption(value: string, text: string)

  /** The activities list area: the cards, or the fixed failure paragraph. */
  datatype ListView = Cards(cards: seq<Card>) | LoadFailed

  datatype View = View(list: ListView, dropdown: seq<SelectOption>)

  /** The first dropdown option, whose empty value selects nothing. */
  const Placeholder := SelectOption("", "-- Select an activity --")

  /** `participants` when it is an array, otherwise no one. */
  function Participants(d: Details): seq<string> {
    d.participants.GetOr([])
  }

  /** `max_participants || 0`. */
  function Capacity(d: Details): int {
    d.maxParticipants.GetOr(0)
  }

  /** `field || ""`. */
  function Text(f: Option<string>): string {
    f.GetOr("")
  }

  function RowCount(b: ParticipantsBlock): nat {
    match b
    case NoParticipants => 0
    case ParticipantList(_, rows) => |rows|
  }

  /** The dropdown option for an activity: its name as both value and label. */
  function OptionFor(name: string): SelectOption {
    SelectOption(name, name)
  }

  /** One list item per email, in order, each tagged with the activity and that email. */
  function RowsFor(activity: string, emails: seq<string>): (rows: seq<Row>)
    ensures |rows| == |emails|
    ensures forall j :: 0 <= j < |rows| ==> rows[j].activity == activity && rows[j].email == emails[j]
  {
    if |emails| == 0 then [] else [Row(activity, emails[0])] + RowsFor(activity, emails[1..])
  }

  /** The card rendered for the activity `name` with value `d`. */
  function CardFor(name: string, d: Details): (c: Card)
    ensures c.spotsLeft + RowCount(c.participants) == Capacity(d)
    ensures c.participants.NoParticipants? <==> |Participants(d)| == 0
    ensures c.participants.ParticipantList? ==>
      && c.participants.activity == name
      && |c.participants.rows| == |Participants(d)|
      && forall j :: 0 <= j < |c.participants.rows| ==>
           c.participants.rows[j] == Row(name, Participants(d)[j])
  {
    var emails := Participants(d);
    var block := if |emails| > 0 then ParticipantList(name, RowsFor(name, emails)) else NoParticipants;
    Card(
      EscapeHtml(name),
      EscapeHtml(Text(d.description)),
      EscapeHtml(Text(d.schedule)),
      Capacity(d) - |emails|,
      block)
  }

  /**
   The view a completed render of `es` leaves: the placeholder, then one option
   per entry up to the first null value; the cards, one per entry in order, only
   when no value is null, and otherwise the failure paragraph.
   */
  ghost predicate ListsActivities(es: seq<Entry>, v: View) {
    var n := |v.dropdown| - 1;
    && 0 <= n <= |es|
    && v.dropdown[0] == Placeholder
    && (forall k :: 0 <= k < n ==> es[k].1.Some? && v.dropdown[k + 1] == OptionFor(es[k].0))
    && (n < |es| ==> es[n].1.None? && v.list.LoadFailed?)
    && (n == |es| ==> v.list.Cards? && |v.list.cards| == |es|)
    && (v.list.Cards? ==>
          n == |es| &&
          forall k :: 0 <= k < |v.list.cards| ==> v.list.cards[k] == CardFor(es[k].0, es[k].1.value))
  }

  /**
   One refresh: `prior` is the dropdown before it. A failed fetch replaces only
   the list; otherwise the dropdown is reset to the placeholder and the entries
   are rendered in order until one of them has a null value, on which the
   render throws and the list shows the failure paragraph.
   */
  method Refresh(prior: seq<SelectOption>, payload: Payload) returns (v: View)
    ensures payload.FetchFailed? ==> v == View(LoadFailed, prior)
    ensures payload.NullPayload? ==> v == View(LoadFailed, [Placeholder])
    ensures payload.Activities? ==> ListsActivities(payload.entries, v)
  {
    if payload.FetchFailed? {
      return View(LoadFailed, prior);
    }
    if payload.NullPayload? {
      return View(LoadFailed, [Placeholder]);
    }
    var es := payload.entries;
    var cards: seq<Card> := [];
    var options := [Placeholder];
    var i := 0;
    while i < |es|
      invariant 0 <= i <= |es|
      invariant |cards| == i && |options| == i + 1 && options[0] == Placeholder
      invariant forall k :: 0 <= k < i ==> es[k].1.Some? && options[k + 1] == OptionFor(es[k].0)
      invariant forall k :: 0 <= k < i ==> es[k].1.Some? && cards[k] == CardFor(es[k].0, es[k].1.value)
    {
      var (name, value) := es[i];
      if value.None? {
        return View(LoadFailed, options);
      }
      cards := cards + [CardFor(name, value.value)];
      options := options + [OptionFor(name)];
      i := i + 1;
    }
    return View(Cards(cards), options);
  }

  /**
   Server text reaches the card only in escaped form: no tag or attribute
   delimiter, every `&` opening a reference, and decoding gives back the text.
   */
  lemma CardTextIsLiteral(name: string, d: Details)
    ensures var c := CardFor(name, d);
      && Unescape(c.title) == name
      && Unescape(c.description) == Text(d.description)
      && Unescape(c.schedule) == Text(d.schedule)
      && AmpersandsAreEntities(c.title)
      && AmpersandsAreEntities(c.description)
      && AmpersandsAreEntities(c.schedule)
      && (forall i :: 0 <= i < |c.title| ==> !IsDelimiter(c.title[i]))
      && (forall i :: 0 <= i < |c.description| ==> !IsDelimiter(c.description[i]))
      && (forall i :: 0 <= i < |c.schedule| ==> !IsDelimiter(c.schedule[i]))
  {
    RoundTrip(name);
    RoundTrip(Text(d.description));
    RoundTrip(Text(d.schedule));
    AmpersandsStartEntities(name);
    AmpersandsStartEntities(Text(d.description));
    AmpersandsStartEntities(Text(d.schedule));
  }

  /** Ten places and two participants leave eight; nothing clamps an over-full activity at zero. */
  lemma SpotsLeftExamples()
    ensures CardFor("Chess Club", Details(None, None, Some(10), Some(["a@x.edu", "b@x.edu"]))).spotsLeft == 8
    ensures CardFor("Chess Club", Details(None, None, Some(1), Some(["a@x.edu", "b@x.edu"]))).spotsLeft == -1
    ensures CardFor("Chess Club", Details(None, None, None, None)).spotsLeft == 0
  {
  }
}
