/**
  The edit screen (`EditEventView`): it loads one stored event into the form,
  checks the edited fields with its own variant of the form checks, and writes
  them back with `update_event`. Its date and time patterns are anchored only at
  the start, it has no length limits, and its conflict query always leaves out the
  event being edited.
 */
module EditEvent {
  import opened Options
  import opened Text
  import opened Ledger
  import opened EventForm

  // ----- the unanchored patterns -----

  /** `^\d{4}-\d{2}-\d{2}` matches: the text starts with the date shape. */
  predicate DatePrefix(d: string) {
    && |d| >= 10
    && IsDigit(d[0]) && IsDigit(d[1]) && IsDigit(d[2]) && IsDigit(d[3])
    && d[4] == '-' && IsDigit(d[5]) && IsDigit(d[6])
    && d[7] == '-' && IsDigit(d[8]) && IsDigit(d[9])
  }

  /** `^([01]\d|2[0-3]):([0-5]\d)` matches: the text starts with the time shape. */
  predicate TimePrefix(t: string) {
    && |t| >= 5
    && (('0' <= t[0] <= '1' && IsDigit(t[1])) || (t[0] == '2' && '0' <= t[1] <= '3'))
    && t[2] == ':'
    && '0' <= t[3] <= '5' && IsDigit(t[4])
  }

  /** The prefix patterns are the anchored shapes applied to the first characters. */
  lemma PrefixesAreShapes(d: string, t: string)
    ensures DatePrefix(d) <==> |d| >= 10 && DateShape(d[..10])
    ensures TimePrefix(t) <==> |t| >= 5 && TimeShape(t[..5])
    ensures DatePrefix(d) && |d| == 10 ==> DateShape(d)
    ensures TimePrefix(t) && |t| == 5 ==> TimeShape(t)
  {
    if |d| >= 10 {
      var p := d[..10];
      assert p[0] == d[0] && p[1] == d[1] && p[2] == d[2] && p[3] == d[3] && p[4] == d[4];
      assert p[5] == d[5] && p[6] == d[6] && p[7] == d[7] && p[8] == d[8] && p[9] == d[9];
    }
    if |t| >= 5 {
      var p := t[..5];
      assert p[0] == t[0] && p[1] == t[1] && p[2] == t[2] && p[3] == t[3] && p[4] == t[4];
    }
  }

  /** How `map(int, t.split(':'))` reads a time that starts with the `HH:MM` shape
      and holds no second colon: the hour is the two digits, and the minutes are
      whatever `int` makes of all the text after the colon. */
  lemma PrefixTimeValue(t: string, h: nat, m: int)
    requires TimePrefix(t) && ':' !in t[3..] && h == Digits2(t[0], t[1]) && PyInt(t[3..]) == Some(m)
    ensures TimeMinutes(t).Some? && TimeMinutes(t).value == h * 60 + m
  {
    var parts := PrefixParts(t);
    TwoDigitsInt(t[0], t[1]);
    PartsMinutesPair(parts[0], parts[1], h, m);
  }

  /** When `int` refuses the text after the colon, the parse fails. */
  lemma PrefixTimeNone(t: string)
    requires TimePrefix(t) && ':' !in t[3..] && PyInt(t[3..]) == None
    ensures TimeMinutes(t) == None
  {
    var parts := PrefixParts(t);
    PartsMinutesSecondNone(parts[0], parts[1]);
  }

  lemma PartsMinutesSecondNone(p: string, q: string)
    requires PyInt(q) == None
    ensures PartsMinutes([p, q]) == None
  {
    var parts := [p, q];
    assert parts[1] == q;
  }

  lemma PrefixParts(t: string) returns (parts: seq<string>)
    requires TimePrefix(t) && ':' !in t[3..]
    ensures parts == Split(t, ':') == [[t[0], t[1]], t[3..]]
  {
    PrefixSplit(t);
    SplitNone(t[3..], ':');
    parts := Split(t, ':');
  }

  /** A second colon makes the unpacking into two values fail. */
  lemma PrefixTimeColon(t: string)
    requires TimePrefix(t) && ':' in t[3..]
    ensures TimeMinutes(t) == None
  {
    PrefixSplit(t);
    SplitMany(t[3..], ':');
  }

  lemma PrefixSplit(t: string)
    requires TimePrefix(t)
    ensures Split(t, ':') == [[t[0], t[1]]] + Split(t[3..], ':')
  {
    assert ':' !in t[..2];
    SplitFirst(t, ':', 2);
    assert t[..2] == [t[0], t[1]];
  }

  /** A text holding the separator splits into at least two parts. */
  lemma SplitMany(s: string, c: char)
    requires c in s
    ensures |Split(s, c)| >= 2
  {
    var i := IndexOf(s, c).value;
    SplitFirst(s, c, i);
  }

  // ----- the checks -----

  /** `validate_inputs` of the edit screen, on the stripped fields: the name, date
      and times must be present; the date and the times must start with their
      shapes; both times must parse as `h, m` and the end must come later; then the
      price, a real day not in the past, and no other event on that date than the
      one being edited. */
  function CheckEdit(db: Database, g: EventFields, price: PriceParse, today: Date, eventId: int): Check
    reads db
  {
    if g.name == "" || g.date == "" || g.time == "" || g.endTime == "" then Fail(MissingFields)
    else if !DatePrefix(g.date) then Fail(DateFormat)
    else if !TimePrefix(g.time) then Fail(StartTimeFormat)
    else if !TimePrefix(g.endTime) then Fail(EndTimeFormat)
    else if TimeOrderCheck(g.time, g.endTime) != Pass then TimeOrderCheck(g.time, g.endTime)
    else if PriceCheck(price) != Pass then PriceCheck(price)
    else if DateCheck(g.date, today) != Pass then DateCheck(g.date, today)
    else if db.DateHasEvent(g.date, Some(eventId)) then Fail(DateConflict(g.date))
    else Pass
  }

  /** The edit screen's check on the fields as they stand in the form. */
  function ValidateEdit(db: Database, f: EventFields, price: PriceParse, today: Date, eventId: int): Check
    reads db
  {
    CheckEdit(db, Trimmed(f), price, today, eventId)
  }

  /** Every rule of the edit screen at once, without the order of the checks. */
  predicate EditRules(db: Database, g: EventFields, price: PriceParse, today: Date, eventId: int)
    reads db
  {
    && g.name != ""
    && DateShape(g.date) && ValidDate(DateFields(g.date)) && !DateBefore(DateFields(g.date), today)
    && TimePrefix(g.time) && TimePrefix(g.endTime)
    && TimeMinutes(g.time).Some? && TimeMinutes(g.endTime).Some?
    && TimeMinutes(g.time).value < TimeMinutes(g.endTime).value
    && price.Number? && price.value >= 0.0
    && !exists ev :: ev in db.events && ev.date == g.date && ev.id != eventId
  }

  /** The edited form is accepted exactly when every rule holds. */
  lemma CheckEditAccepts(db: Database, g: EventFields, price: PriceParse, today: Date, eventId: int)
    ensures CheckEdit(db, g, price, today, eventId) == Pass <==> EditRules(db, g, price, today, eventId)
  {
    if CheckEdit(db, g, price, today, eventId) == Pass {
      PassMeetsEditRules(db, g, price, today, eventId);
    }
    if EditRules(db, g, price, today, eventId) {
      EditRulesPass(db, g, price, today, eventId);
    }
  }

  lemma PassMeetsEditRules(db: Database, g: EventFields, price: PriceParse, today: Date, eventId: int)
    requires CheckEdit(db, g, price, today, eventId) == Pass
    ensures EditRules(db, g, price, today, eventId)
  {
    assert DateCheck(g.date, today) == Pass;
    assert StrptimeDate(g.date) == Some(DateFields(g.date));
    assert TimeOrderCheck(g.time, g.endTime) == Pass;
  }

  lemma EditRulesPass(db: Database, g: EventFields, price: PriceParse, today: Date, eventId: int)
    requires EditRules(db, g, price, today, eventId)
    ensures CheckEdit(db, g, price, today, eventId) == Pass
  {
    ShapeIsPrefix(g.date);
    OrderedTimesPass(g.time, g.endTime);
    FieldsDatePasses(g.date, today);
  }

  lemma ShapeIsPrefix(d: string)
    requires DateShape(d)
    ensures DatePrefix(d)
  {
  }

  lemma OrderedTimesPass(time: string, endTime: string)
    requires TimeMinutes(time).Some? && TimeMinutes(endTime).Some?
    requires TimeMinutes(time).value < TimeMinutes(endTime).value
    ensures TimeOrderCheck(time, endTime) == Pass
  {
  }

  lemma FieldsDatePasses(d: string, today: Date)
    requires DateShape(d) && ValidDate(DateFields(d)) && !DateBefore(DateFields(d), today)
    ensures DateCheck(d, today) == Pass
  {
  }

  /** Neither the length of the name nor the description is looked at: any
      non-empty name and any description give the same answer. */
  lemma NoLengthLimits(db: Database, g: EventFields, price: PriceParse, today: Date, eventId: int,
                       name: string, description: string)
    requires (name == "") == (g.name == "")
    ensures CheckEdit(db, g.(name := name, description := description), price, today, eventId)
         == CheckEdit(db, g, price, today, eventId)
  {
  }

  /** Text after a well-formed date passes the format check and is refused only as
      "Invalid date", once the times and the price have passed. */
  lemma TrailingDateRejected(db: Database, g: EventFields, price: PriceParse, today: Date, eventId: int)
    requires g.name != "" && DatePrefix(g.date) && |g.date| > 10
    requires TimePrefix(g.time) && TimePrefix(g.endTime)
    requires TimeOrderCheck(g.time, g.endTime) == Pass && PriceCheck(price) == Pass
    ensures CheckEdit(db, g, price, today, eventId) == Fail(InvalidDate)
  {
    assert StrptimeDate(g.date) == None;
  }

  lemma TrailingDateExample()
    ensures DatePrefix("2030-01-01xyz") && |"2030-01-01xyz"| > 10
  {
  }

  /** One character after a well-formed time that is neither a digit, an
      underscore, a colon nor white space passes the format check but not the
      parse. */
  lemma TrailingCharMinutes(t: string)
    requires TimePrefix(t) && |t| == 6
    requires !IsDigit(t[5]) && t[5] != '_' && t[5] != ':' && !IsSpace(t[5])
    ensures TimeMinutes(t) == None
  {
    var rest := t[3..];
    assert rest == [t[3], t[4], t[5]];
    assert ':' !in rest;
    assert PyInt(rest) == None by {
      assert !IsSpace(rest[0]);
      StripTrimmed(rest);
      assert !IsDigitRun(rest);
    }
    PrefixTimeNone(t);
  }

  /** A time with a stray character after it is refused as "Invalid time format"
      once the date and the end time have passed their format checks. */
  lemma TrailingTimeRejected(db: Database, g: EventFields, price: PriceParse, today: Date, eventId: int)
    requires g.name != "" && DatePrefix(g.date) && TimePrefix(g.endTime)
    requires TimePrefix(g.time) && |g.time| == 6
    requires !IsDigit(g.time[5]) && g.time[5] != '_' && g.time[5] != ':' && !IsSpace(g.time[5])
    ensures CheckEdit(db, g, price, today, eventId) == Fail(InvalidTimeFormat)
  {
    TrailingCharMinutes(g.time);
  }

  /** "10:30x" is such a time. */
  lemma TrailingTimeExample()
    ensures var t := "10:30x";
      TimePrefix(t) && |t| == 6 && !IsDigit(t[5]) && t[5] != '_' && t[5] != ':' && !IsSpace(t[5])
  {
  }

  /** Any run of digits after a well-formed time is read into the minutes,
      however long it is. */
  lemma DigitRunMinutes(t: string, m: nat)
    requires TimePrefix(t) && IsDigitRun(t[3..]) && DigitsValue(t[3..]) == m
    ensures TimeMinutes(t).Some? && TimeMinutes(t).value == Digits2(t[0], t[1]) * 60 + m
  {
    assert ':' !in t[3..] by {
      forall i | 0 <= i < |t[3..]| ensures t[3..][i] != ':' {
        assert IsDigit(t[3..][i]) || t[3..][i] == '_';
      }
    }
    PyIntDigits(t[3..]);
    PrefixTimeValue(t, Digits2(t[0], t[1]), m);
  }

  lemma ThreeDigitsValue(a: char, b: char, c: char)
    requires IsDigit(a) && IsDigit(b) && IsDigit(c)
    ensures DigitsValue([a, b, c]) == Digits2(a, b) * 10 + DigitValue(c)
  {
    var u := [a, b, c];
    assert u[..2] == [a, b];
    TwoDigitsValue(a, b);
  }

  /** The characters of "10:301". */
  predicate Overlong(t: string) {
    |t| == 6 && t[0] == '1' && t[1] == '0' && t[2] == ':' && t[3] == '3' && t[4] == '0' && t[5] == '1'
  }

  lemma OverlongText()
    ensures Overlong("10:301")
  {
  }

  /** "10:301" passes the format checks and is read as ten hours and 301 minutes,
      901 minutes after midnight, where the create screen refuses it. */
  lemma OverlongMinutesAccepted(t: string)
    requires Overlong(t)
    ensures TimePrefix(t) && !TimeShape(t)
    ensures TimeMinutes(t) == Some(901)
  {
    OverlongRest(t);
    DigitRunMinutes(t, 301);
  }

  lemma OverlongRest(t: string)
    requires Overlong(t)
    ensures IsDigitRun(t[3..]) && DigitsValue(t[3..]) == 301
  {
    var rest := t[3..];
    assert rest == [t[3], t[4], t[5]];
    ThreeDigitsValue(t[3], t[4], t[5]);
  }

  /** The edit check with the patterns anchored at the end as well, as on the
      create screen. */
  function CheckEditAnchored(db: Database, g: EventFields, price: PriceParse, today: Date, eventId: int): (c: Check)
    reads db
  {
    if g.name == "" || g.date == "" || g.time == "" || g.endTime == "" then Fail(MissingFields)
    else if !DateShape(g.date) then Fail(DateFormat)
    else if !TimeShape(g.time) then Fail(StartTimeFormat)
    else if !TimeShape(g.endTime) then Fail(EndTimeFormat)
    else if TimeOrderCheck(g.time, g.endTime) != Pass then TimeOrderCheck(g.time, g.endTime)
    else if PriceCheck(price) != Pass then PriceCheck(price)
    else if DateCheck(g.date, today) != Pass then DateCheck(g.date, today)
    else if db.DateHasEvent(g.date, Some(eventId)) then Fail(DateConflict(g.date))
    else Pass
  }

  /** With anchored patterns an accepted time is exactly `HH:MM` and is read as
      written; an accepted form is one the unanchored check accepts too, and the
      parse never fails. */
  lemma AnchoredAcceptsShapedTimes(db: Database, g: EventFields, price: PriceParse, today: Date, eventId: int)
    ensures CheckEditAnchored(db, g, price, today, eventId) != Fail(InvalidTimeFormat)
    ensures CheckEditAnchored(db, g, price, today, eventId) == Pass ==>
      && TimeShape(g.time) && TimeShape(g.endTime)
      && TimeMinutes(g.time) == Some(ShapeMinutes(g.time))
      && TimeMinutes(g.endTime) == Some(ShapeMinutes(g.endTime))
      && ShapeMinutes(g.time) < ShapeMinutes(g.endTime)
      && CheckEdit(db, g, price, today, eventId) == Pass
  {
    var c := CheckEditAnchored(db, g, price, today, eventId);
    if g.name != "" && DateShape(g.date) && TimeShape(g.time) && TimeShape(g.endTime) {
      assert TimeOrderCheck(g.time, g.endTime) != Fail(InvalidTimeFormat);
    }
    if c == Pass {
      ShapedTimesParse(g.time, g.endTime);
    }
  }

  lemma PassedPrice(db: Database, g: EventFields, price: PriceParse, today: Date, eventId: int)
    ensures CheckEdit(db, g, price, today, eventId) == Pass ==> price.Number? && price.value >= 0.0
  {
  }

  // ----- the screen -----

  function NotFoundMessage(eventId: int): string {
    "Event with ID " + IntToString(eventId) + " not found"
  }

  function UpdatedMessage(name: string): string {
    "Event '" + name + "' updated successfully!"
  }

  const UpdateFailedMessage := "Failed to update event"

  /** The venue and capacity `save_changes` always writes. */
  const EditVenue := "Castle Hill High School auditorium"
  const EditCapacity := 550

  class EditEventView {
    const db: Database
    const eventId: int
    const hasBack: bool
    /** The event as loaded when the screen was opened. */
    const event: Option<Event>
    /** Whether the form was built (it is not for a missing event). */
    const formShown: bool
    /** The form's fields, which the user edits. */
    var fields: EventFields
    /** The error shown when the event is missing. */
    const notFound: Option<string>
    /** Whether `back_callback` was called because the event is missing. */
    const wentBack: bool

    /** `__init__`: loads the event; for a missing id shows an error, goes back
        when it can, and builds no form; otherwise fills the form from the event.
        `priceText` is what `str` makes of the stored price. */
    constructor(db: Database, eventId: int, hasBack: bool, priceText: string)
      ensures this.db == db && this.eventId == eventId && this.hasBack == hasBack
      ensures event == db.EventById(eventId)
      ensures formShown <==> event.Some?
      ensures event.None? ==> notFound == Some(NotFoundMessage(eventId)) && wentBack == hasBack
      ensures event.Some? ==>
        && notFound == None && !wentBack
        && fields == EventFields(event.value.name, event.value.description + "\n", event.value.date,
                                 event.value.time, event.value.endTime, priceText)
    {
      var loaded := db.EventById(eventId);
      this.db := db;
      this.eventId := eventId;
      this.hasBack := hasBack;
      event := loaded;
      formShown := loaded.Some?;
      if loaded.None? {
        notFound := Some(NotFoundMessage(eventId));
        wentBack := hasBack;
        fields := EventFields("", "", "", "", "", "");
      } else {
        var ev := loaded.value;
        notFound := None;
        wentBack := false;
        fields := EventFields(ev.name, ev.description + "\n", ev.date, ev.time, ev.endTime, priceText);
      }
    }

    /** `save_changes`: a refused form writes nothing and shows the first failing
        check; an accepted one is written back with `update_event` under the edited
        id, and the dialog reports the outcome. `dialog` is the text shown and
        `back` whether `back_callback` is called. */
    method SaveChanges(price: PriceParse, today: Date) returns (c: Check, dialog: string, back: bool)
      requires db.Valid() && formShown
      modifies db`events
      ensures db.Valid()
      ensures c == old(ValidateEdit(db, fields, price, today, eventId))
      ensures Saved(old(db.events), c, price, dialog, back)
    {
      c := ValidateEdit(db, fields, price, today, eventId);
      if c != Pass {
        return c, Message(c.error), false;
      }
      var g := Trimmed(fields);
      PassedPrice(db, g, price, today, eventId);
      dialog, back := Write(g, price.value);
    }

    /** The state after `save_changes` with outcome `c`: a refusal changes nothing
        and shows its message; an accepted form is written as `Written` says. */
    ghost predicate Saved(events0: seq<Event>, c: Check, price: PriceParse, dialog: string, back: bool)
      reads this, db
    {
      && (c != Pass ==> db.events == events0 && dialog == Message(c.error) && !back)
      && (c == Pass ==> price.Number? && Written(events0, Trimmed(fields), price.value, dialog, back))
    }

    /** The edited event as `save_changes` writes it: the stripped fields, the
        price, and the fixed venue and capacity. */
    function EditedEvent(g: EventFields, price: real): (ev: Event)
      reads this
      ensures ev.id == eventId && ev.venue == EditVenue && ev.capacity == EditCapacity && ev.price == price
    {
      Event(eventId, g.name, g.description, g.date, g.time, g.endTime, EditVenue, EditCapacity, price)
    }

    /** The state after writing `g`: for a missing event the store is unchanged
        and a failure is shown; otherwise the event is replaced in place, success
        is shown and the screen goes back when it can. */
    ghost predicate Written(events0: seq<Event>, g: EventFields, price: real, dialog: string, back: bool)
      reads this, db
    {
      && (FindEvent(events0, eventId).None? ==>
            db.events == events0 && dialog == UpdateFailedMessage && !back)
      && (FindEvent(events0, eventId).Some? ==>
            && db.events == ReplaceEvent(events0, eventId, EditedEvent(g, price))
            && db.EventById(eventId) == Some(EditedEvent(g, price))
            && dialog == UpdatedMessage(g.name)
            && back == hasBack)
    }

    /** The `update_event` call and the dialog that reports it. */
    method Write(g: EventFields, price: real) returns (dialog: string, back: bool)
      requires db.Valid()
      modifies db`events
      ensures db.Valid()
      ensures Written(old(db.events), g, price, dialog, back)
    {
      var ok := db.UpdateEvent(eventId, Some(g.name), Some(g.description), Some(g.date), Some(g.time),
                               Some(g.endTime), EditVenue, EditCapacity, Some(price));
      if ok {
        dialog, back := UpdatedMessage(g.name), hasBack;
      } else {
        dialog, back := UpdateFailedMessage, false;
      }
    }
  }
}
