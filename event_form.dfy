/**
  The event form shared by the create and edit screens (`BaseEventView`): the
  calendar rules `strptime` applies to a `YYYY-MM-DD` date, the `HH:MM` time
  format, the ordered checks of `validate_inputs`, the keystroke limiters of the
  name and description fields, and the values a new form starts with.
 */
module EventForm {
  import opened Options
  import opened Text
  import opened Ledger

  // ----- calendar dates -----

  datatype Date = Date(year: int, month: int, day: int)

  predicate LeapYear(y: int) {
    y % 4 == 0 && (y % 100 != 0 || y % 400 == 0)
  }

  function DaysIn(y: int, m: int): (n: int)
    requires 1 <= m <= 12
    ensures 28 <= n <= 31
    ensures m == 2 ==> (n == 29 <==> LeapYear(y))
  {
    if m == 2 then (if LeapYear(y) then 29 else 28)
    else if m == 4 || m == 6 || m == 9 || m == 11 then 30
    else 31
  }

  /** What `datetime.date` accepts: years 1 to 9999 and a day of the month. */
  predicate ValidDate(d: Date) {
    && 1 <= d.year <= 9999
    && 1 <= d.month <= 12
    && 1 <= d.day <= DaysIn(d.year, d.month)
  }

  /** `a < b` on dates. */
  predicate DateBefore(a: Date, b: Date) {
    a.year < b.year
    || (a.year == b.year && a.month < b.month)
    || (a.year == b.year && a.month == b.month && a.day < b.day)
  }

  /** The day after `d` (`d + timedelta(days=1)`). */
  function NextDay(d: Date): (r: Date)
    requires ValidDate(d) && d.year < 9999
    ensures ValidDate(r) && DateBefore(d, r)
    ensures forall c :: ValidDate(c) && DateBefore(d, c) ==> !DateBefore(c, r)
  {
    if d.day < DaysIn(d.year, d.month) then Date(d.year, d.month, d.day + 1)
    else if d.month < 12 then Date(d.year, d.month + 1, 1)
    else Date(d.year + 1, 1, 1)
  }

  /** The text matched by `^\d{4}-\d{2}-\d{2}$` once stripped. */
  predicate DateShape(s: string) {
    && |s| == 10
    && IsDigit(s[0]) && IsDigit(s[1]) && IsDigit(s[2]) && IsDigit(s[3])
    && s[4] == '-' && IsDigit(s[5]) && IsDigit(s[6])
    && s[7] == '-' && IsDigit(s[8]) && IsDigit(s[9])
  }

  function Digits2(a: char, b: char): (n: nat)
    requires IsDigit(a) && IsDigit(b)
    ensures n < 100
  {
    DigitValue(a) * 10 + DigitValue(b)
  }

  /** The year, month and day written in a `YYYY-MM-DD` text. */
  function DateFields(s: string): Date
    requires DateShape(s)
  {
    Date(Digits2(s[0], s[1]) * 100 + Digits2(s[2], s[3]), Digits2(s[5], s[6]), Digits2(s[8], s[9]))
  }

  /** `strptime(s, "%Y-%m-%d").date()`, for a text that starts with the
      `YYYY-MM-DD` shape (the only texts it is handed): the date when the whole text
      is that shape and names a real day, `None` where it raises `ValueError`
      (trailing text, month 00 or 13, a day the month does not have, year 0). */
  function StrptimeDate(s: string): (r: Option<Date>)
    ensures r.Some? ==> DateShape(s) && ValidDate(r.value)
    ensures |s| != 10 ==> r.None?
  {
    if DateShape(s) && ValidDate(DateFields(s)) then Some(DateFields(s)) else None
  }

  /** Zero-padded two digits. */
  function Pad2(n: nat): (r: string)
    requires n < 100
    ensures |r| == 2 && IsDigit(r[0]) && IsDigit(r[1]) && Digits2(r[0], r[1]) == n
  {
    [DigitChar(n / 10), DigitChar(n % 10)]
  }

  /** `strftime("%Y-%m-%d")`: the year unpadded, month and day in two digits. */
  function FormatDate(d: Date): string
    requires ValidDate(d)
  {
    NatToString(d.year) + "-" + Pad2(d.month) + "-" + Pad2(d.day)
  }

  lemma FourDigitYear(y: nat)
    requires 1000 <= y <= 9999
    ensures NatToString(y) == [DigitChar(y / 1000), DigitChar(y / 100 % 10), DigitChar(y / 10 % 10), DigitChar(y % 10)]
  {
    assert NatToString(y / 1000) == [DigitChar(y / 1000)];
    assert NatToString(y / 100) == NatToString(y / 1000) + [DigitChar(y / 100 % 10)];
    assert NatToString(y / 10) == NatToString(y / 100) + [DigitChar(y / 10 % 10)];
  }

  /** The four digits `str` writes for a year from 1000 to 9999 read back as that year. */
  lemma FourDigitYearRead(y: nat)
    requires 1000 <= y <= 9999
    ensures var s := NatToString(y);
      && |s| == 4 && IsDigit(s[0]) && IsDigit(s[1]) && IsDigit(s[2]) && IsDigit(s[3])
      && Digits2(s[0], s[1]) * 100 + Digits2(s[2], s[3]) == y
  {
    FourDigitYear(y);
    NatToStringValue(y);
    FourDigitsValue(NatToString(y));
  }

  lemma FourDigitsValue(s: string)
    requires |s| == 4 && IsDigit(s[0]) && IsDigit(s[1]) && IsDigit(s[2]) && IsDigit(s[3])
    ensures DigitsValue(s) == Digits2(s[0], s[1]) * 100 + Digits2(s[2], s[3])
  {
    TwoDigitsValue(s[0], s[1]);
    assert s[..3][..2] == s[..2] == [s[0], s[1]];
    assert DigitsValue(s[..3]) == DigitsValue(s[..2]) * 10 + DigitValue(s[2]);
  }

  /** A year, a dash, two digits, a dash and two digits has the date shape and reads
      back as its parts. */
  lemma DateTextRead(ys: string, ms: string, ds: string)
    requires |ys| == 4 && IsDigit(ys[0]) && IsDigit(ys[1]) && IsDigit(ys[2]) && IsDigit(ys[3])
    requires |ms| == 2 && IsDigit(ms[0]) && IsDigit(ms[1]) && |ds| == 2 && IsDigit(ds[0]) && IsDigit(ds[1])
    ensures var s := ys + "-" + ms + "-" + ds;
      && DateShape(s)
      && DateFields(s) == Date(Digits2(ys[0], ys[1]) * 100 + Digits2(ys[2], ys[3]), Digits2(ms[0], ms[1]), Digits2(ds[0], ds[1]))
  {
    var s := ys + "-" + ms + "-" + ds;
    assert s[0] == ys[0] && s[1] == ys[1] && s[2] == ys[2] && s[3] == ys[3] && s[4] == '-';
    assert s[5] == ms[0] && s[6] == ms[1] && s[7] == '-' && s[8] == ds[0] && s[9] == ds[1];
  }

  /** A four-digit date is written in the form the date check reads back. */
  lemma FormatDateRoundTrip(d: Date)
    requires ValidDate(d) && 1000 <= d.year
    ensures DateShape(FormatDate(d))
    ensures StrptimeDate(FormatDate(d)).Some? && StrptimeDate(FormatDate(d)).value == d
  {
    FourDigitYearRead(d.year);
    DateTextRead(NatToString(d.year), Pad2(d.month), Pad2(d.day));
  }

  // ----- times -----

  /** The text matched by `^([01]\d|2[0-3]):([0-5]\d)$` once stripped. */
  predicate TimeShape(t: string) {
    && |t| == 5
    && (('0' <= t[0] <= '1' && IsDigit(t[1])) || (t[0] == '2' && '0' <= t[1] <= '3'))
    && t[2] == ':'
    && '0' <= t[3] <= '5' && IsDigit(t[4])
  }

  /** Minutes after midnight as written in an `HH:MM` text. */
  function ShapeMinutes(t: string): (n: nat)
    requires TimeShape(t)
    ensures n < 24 * 60
  {
    Digits2(t[0], t[1]) * 60 + Digits2(t[3], t[4])
  }

  /** `h, m = map(int, t.split(':')); h * 60 + m`, `None` where that raises
      `ValueError` (not exactly two parts, or a part `int` refuses). */
  function TimeMinutes(t: string): Option<int> {
    PartsMinutes(Split(t, ':'))
  }

  /** The unpacking `h, m = map(int, parts)`. */
  function PartsMinutes(parts: seq<string>): Option<int> {
    if |parts| != 2 then None
    else match (PyInt(parts[0]), PyInt(parts[1]))
      case (Some(h), Some(m)) => Some(h * 60 + m)
      case _ => None
  }

  lemma TwoDigitsValue(a: char, b: char)
    requires IsDigit(a) && IsDigit(b)
    ensures DigitsValue([a, b]) == Digits2(a, b)
  {
    assert [a, b][..1] == [a];
    assert [a][..0] == [];
    assert DigitsValue([a]) == DigitValue(a);
    assert DigitsValue([a, b]) == DigitsValue([a]) * 10 + DigitValue(b);
  }

  lemma TwoDigitsInt(a: char, b: char)
    requires IsDigit(a) && IsDigit(b)
    ensures PyInt([a, b]) == Some(Digits2(a, b))
  {
    assert IsDigitRun([a, b]);
    PyIntDigits([a, b]);
    TwoDigitsValue(a, b);
  }

  /** A time the format check accepts is split and read back as written. */
  lemma TimeShapeMinutes(t: string)
    requires TimeShape(t)
    ensures TimeMinutes(t).Some? && TimeMinutes(t).value == ShapeMinutes(t)
  {
    var a, b, c, d := t[0], t[1], t[3], t[4];
    assert t == [a, b, ':', c, d];
    DigitsMinutes(a, b, c, d, Digits2(a, b), Digits2(c, d));
  }

  /** `"ab:cd"` with four digits is read as `ab` hours and `cd` minutes. */
  lemma DigitsMinutes(a: char, b: char, c: char, d: char, h: nat, m: nat)
    requires IsDigit(a) && IsDigit(b) && IsDigit(c) && IsDigit(d)
    requires h == Digits2(a, b) && m == Digits2(c, d)
    ensures TimeMinutes([a, b, ':', c, d]) == Some(h * 60 + m)
  {
    DigitsParts(a, b, c, d);
    DigitPairsMinutes(a, b, c, d, h, m);
  }

  lemma DigitPairsMinutes(a: char, b: char, c: char, d: char, h: nat, m: nat)
    requires IsDigit(a) && IsDigit(b) && IsDigit(c) && IsDigit(d)
    requires h == Digits2(a, b) && m == Digits2(c, d)
    ensures PartsMinutes([[a, b], [c, d]]) == Some(h * 60 + m)
  {
    TwoDigitsInt(a, b);
    TwoDigitsInt(c, d);
    PartsMinutesPair([a, b], [c, d], h, m);
  }

  lemma PartsMinutesPair(p: string, q: string, h: int, m: int)
    requires PyInt(p) == Some(h) && PyInt(q) == Some(m)
    ensures PartsMinutes([p, q]) == Some(h * 60 + m)
  {
    var parts := [p, q];
    assert parts[0] == p && parts[1] == q;
  }

  lemma DigitsParts(a: char, b: char, c: char, d: char)
    requires IsDigit(a) && IsDigit(b) && IsDigit(c) && IsDigit(d)
    ensures Split([a, b, ':', c, d], ':') == [[a, b], [c, d]]
  {
    var t := [a, b, ':', c, d];
    assert t[..2] == [a, b] && t[3..] == [c, d];
    assert ':' !in t[..2];
    SplitFirst(t, ':', 2);
    assert ':' !in t[3..];
    SplitNone(t[3..], ':');
  }

  // ----- prices -----

  /** What `float(price)` gives: no number (`ValueError`), or a value. */
  datatype PriceParse = NotANumber | Number(value: real)

  // ----- validation -----

  /** The fields as they stand in the form; the description is the text widget's
      content, which normally ends in a newline. */
  datatype EventFields = EventFields(name: string, description: string, date: string,
                                     time: string, endTime: string, price: string)

  /** The reasons `validate_inputs` refuses a form, in the order it checks them. */
  datatype FormError =
    | MissingFields
    | NameTooLong
    | DescriptionTooLong
    | DateFormat
    | StartTimeFormat
    | EndTimeFormat
    | EndNotAfterStart
    | InvalidTimeFormat
    | PriceNegative
    | PriceNotANumber
    | DateInPast
    | InvalidDate
    | DateConflict(date: string)

  /** The text of the error dialog. */
  function Message(e: FormError): string {
    match e
    case MissingFields => "Name, date, start time, and end time are required fields"
    case NameTooLong => "Event name must be 40 characters or less"
    case DescriptionTooLong => "Description must be 1000 characters or less"
    case DateFormat => "Date must be in YYYY-MM-DD format"
    case StartTimeFormat => "Start time must be in HH:MM format (24-hour)"
    case EndTimeFormat => "End time must be in HH:MM format (24-hour)"
    case EndNotAfterStart => "End time must be after start time"
    case InvalidTimeFormat => "Invalid time format"
    case PriceNegative => "Price must be a positive number"
    case PriceNotANumber => "Price must be a number"
    case DateInPast => "Event date cannot be in the past"
    case InvalidDate => "Invalid date"
    case DateConflict(date) => "An event is already scheduled on " + date + ".\nThe venue can only host one event per day."
  }

  datatype Check = Pass | Fail(error: FormError)

  const NameLimit := 40
  const DescriptionLimit := 1000

  /** The end-after-start check on two times that passed their format checks. */
  function TimeOrderCheck(time: string, endTime: string): (c: Check)
    ensures c == Pass || c == Fail(EndNotAfterStart) || c == Fail(InvalidTimeFormat)
    ensures TimeShape(time) && TimeShape(endTime) ==>
      && (c == Pass <==> ShapeMinutes(time) < ShapeMinutes(endTime))
      && c != Fail(InvalidTimeFormat)
  {
    ShapedTimesParse(time, endTime);
    match (TimeMinutes(time), TimeMinutes(endTime))
    case (Some(s), Some(e)) => if e <= s then Fail(EndNotAfterStart) else Pass
    case _ => Fail(InvalidTimeFormat)
  }

  lemma ShapedTimesParse(time: string, endTime: string)
    ensures TimeShape(time) ==> TimeMinutes(time) == Some(ShapeMinutes(time))
    ensures TimeShape(endTime) ==> TimeMinutes(endTime) == Some(ShapeMinutes(endTime))
  {
    if TimeShape(time) {
      TimeShapeMinutes(time);
    }
    if TimeShape(endTime) {
      TimeShapeMinutes(endTime);
    }
  }

  /** The price check, on the value `float` gave. */
  function PriceCheck(price: PriceParse): (c: Check)
    ensures c == Pass <==> price.Number? && price.value >= 0.0
    ensures c == Pass || c == Fail(PriceNotANumber) || c == Fail(PriceNegative)
  {
    match price
    case NotANumber => Fail(PriceNotANumber)
    case Number(v) => if v < 0.0 then Fail(PriceNegative) else Pass
  }

  /** The date check: a real day, and not before `today`. */
  function DateCheck(date: string, today: Date): (c: Check)
    ensures c == Pass <==> StrptimeDate(date).Some? && !DateBefore(StrptimeDate(date).value, today)
    ensures c == Pass || c == Fail(InvalidDate) || c == Fail(DateInPast)
  {
    match StrptimeDate(date)
    case None => Fail(InvalidDate)
    case Some(d) => if DateBefore(d, today) then Fail(DateInPast) else Pass
  }

  /** `if exclude_event_id:`: an id is passed on only when it is truthy, so 0 is dropped. */
  function Truthy(exclude: Option<int>): (r: Option<int>)
    ensures r.Some? <==> exclude.Some? && exclude.value != 0
    ensures r.Some? ==> r == exclude
  {
    if exclude.Some? && exclude.value != 0 then exclude else None
  }

  /** The fields as `validate_inputs` reads them: each of them stripped. */
  function Trimmed(f: EventFields): EventFields {
    EventFields(Strip(f.name), Strip(f.description), Strip(f.date), Strip(f.time), Strip(f.endTime), Strip(f.price))
  }

  /** `validate_inputs(exclude_event_id)`: the first check the stripped fields fail,
      or `Pass`. `price` is what `float` makes of the stripped price field, and
      `today` is the current date. */
  function ValidateInputs(db: Database, f: EventFields, price: PriceParse, today: Date,
                          excludeEventId: Option<int>): Check
    reads db
  {
    CheckTrimmed(db, Trimmed(f), price, today, excludeEventId)
  }

  /** The checks in order, on fields already stripped. */
  function CheckTrimmed(db: Database, g: EventFields, price: PriceParse, today: Date,
                        excludeEventId: Option<int>): Check
    reads db
  {
    if g.name == "" || g.date == "" || g.time == "" || g.endTime == "" then Fail(MissingFields)
    else if |g.name| > NameLimit then Fail(NameTooLong)
    else if |g.description| > DescriptionLimit then Fail(DescriptionTooLong)
    else if !DateShape(g.date) then Fail(DateFormat)
    else if !TimeShape(g.time) then Fail(StartTimeFormat)
    else if !TimeShape(g.endTime) then Fail(EndTimeFormat)
    else ShapedChecks(db, g, price, today, excludeEventId)
  }

  /** The rest of the chain, run once every field has its shape. */
  function ShapedChecks(db: Database, g: EventFields, price: PriceParse, today: Date,
                        excludeEventId: Option<int>): (c: Check)
    reads db
    ensures TimeShape(g.time) && TimeShape(g.endTime) ==> c != Fail(InvalidTimeFormat)
  {
    if TimeOrderCheck(g.time, g.endTime) != Pass then TimeOrderCheck(g.time, g.endTime)
    else if PriceCheck(price) != Pass then PriceCheck(price)
    else if DateCheck(g.date, today) != Pass then DateCheck(g.date, today)
    else if db.DateHasEvent(g.date, Truthy(excludeEventId)) then Fail(DateConflict(g.date))
    else Pass
  }

  /** Every rule of the form, stated on the stripped fields without the order the
      checks run in. */
  predicate AllRules(db: Database, g: EventFields, price: PriceParse, today: Date, excludeEventId: Option<int>)
    reads db
  {
    && 0 < |g.name| <= NameLimit
    && |g.description| <= DescriptionLimit
    && DateShape(g.date) && ValidDate(DateFields(g.date)) && !DateBefore(DateFields(g.date), today)
    && TimeShape(g.time) && TimeShape(g.endTime) && ShapeMinutes(g.time) < ShapeMinutes(g.endTime)
    && price.Number? && price.value >= 0.0
    && !exists ev :: ev in db.events && ev.date == g.date &&
         (excludeEventId.None? || excludeEventId.value == 0 || ev.id != excludeEventId.value)
  }

  /** The form is accepted exactly when every rule holds of its stripped fields. */
  lemma ValidateInputsAccepts(db: Database, f: EventFields, price: PriceParse, today: Date, excludeEventId: Option<int>)
    ensures ValidateInputs(db, f, price, today, excludeEventId) == Pass <==> AllRules(db, Trimmed(f), price, today, excludeEventId)
  {
    CheckTrimmedAccepts(db, Trimmed(f), price, today, excludeEventId);
  }

  lemma CheckTrimmedAccepts(db: Database, g: EventFields, price: PriceParse, today: Date, excludeEventId: Option<int>)
    ensures CheckTrimmed(db, g, price, today, excludeEventId) == Pass <==> AllRules(db, g, price, today, excludeEventId)
  {
    var c := CheckTrimmed(db, g, price, today, excludeEventId);
    if c == Pass {
      assert DateShape(g.date) && TimeShape(g.time) && TimeShape(g.endTime);
      assert TimeOrderCheck(g.time, g.endTime) == Pass;
      assert DateCheck(g.date, today) == Pass;
      assert StrptimeDate(g.date) == Some(DateFields(g.date));
      assert !db.DateHasEvent(g.date, Truthy(excludeEventId));
      ConflictRule(db, g.date, excludeEventId);
    } else if AllRules(db, g, price, today, excludeEventId) {
      assert StrptimeDate(g.date) == Some(DateFields(g.date));
      assert DateCheck(g.date, today) == Pass;
      assert TimeOrderCheck(g.time, g.endTime) == Pass;
      ConflictRule(db, g.date, excludeEventId);
      assert false;
    }
  }

  /** The conflict query with the truthiness of the id applied. */
  lemma ConflictRule(db: Database, date: string, excludeEventId: Option<int>)
    ensures db.DateHasEvent(date, Truthy(excludeEventId)) <==>
      exists ev :: ev in db.events && ev.date == date &&
        (excludeEventId.None? || excludeEventId.value == 0 || ev.id != excludeEventId.value)
  {
  }

  /** The int parse of the times cannot fail once both format checks passed, so
      "Invalid time format" is never shown by this form. */
  lemma NoInvalidTimeFormat(db: Database, f: EventFields, price: PriceParse, today: Date, excludeEventId: Option<int>)
    ensures ValidateInputs(db, f, price, today, excludeEventId) != Fail(InvalidTimeFormat)
  {
    CheckTrimmedNoInvalidTime(db, Trimmed(f), price, today, excludeEventId);
  }

  lemma CheckTrimmedNoInvalidTime(db: Database, g: EventFields, price: PriceParse, today: Date, excludeEventId: Option<int>)
    ensures CheckTrimmed(db, g, price, today, excludeEventId) != Fail(InvalidTimeFormat)
  {
  }

  /** An event may end on the minute it starts only by being refused. */
  lemma EqualTimesRejected(db: Database, f: EventFields, price: PriceParse, today: Date, excludeEventId: Option<int>)
    requires var g := Trimmed(f);
      && 0 < |g.name| <= NameLimit && |g.description| <= DescriptionLimit && DateShape(g.date)
      && TimeShape(g.time) && g.endTime == g.time
    ensures ValidateInputs(db, f, price, today, excludeEventId) == Fail(EndNotAfterStart)
  {
    CheckTrimmedEqualTimes(db, Trimmed(f), price, today, excludeEventId);
  }

  lemma CheckTrimmedEqualTimes(db: Database, g: EventFields, price: PriceParse, today: Date, excludeEventId: Option<int>)
    requires && 0 < |g.name| <= NameLimit && |g.description| <= DescriptionLimit && DateShape(g.date)
      && TimeShape(g.time) && g.endTime == g.time
    ensures CheckTrimmed(db, g, price, today, excludeEventId) == Fail(EndNotAfterStart)
  {
    assert TimeOrderCheck(g.time, g.endTime) == Fail(EndNotAfterStart);
  }

  /** An event today passes the date check; one the day before does not. */
  lemma TodayAccepted(today: Date)
    requires ValidDate(today) && 1000 <= today.year
    ensures DateCheck(FormatDate(today), today) == Pass
  {
    FormatDateRoundTrip(today);
  }

  // ----- keystroke limiters -----

  const NameNavigationKeys: seq<string> := ["BackSpace", "Delete", "Left", "Right", "Home", "End", "Tab"]
  const DescriptionNavigationKeys: seq<string> := ["BackSpace", "Delete", "Left", "Right", "Up", "Down", "Home", "End", "Tab"]

  /** `limit_name_input`: whether the key is blocked ("break"). */
  function LimitNameInput(current: string, keysym: string): bool {
    keysym !in NameNavigationKeys && |current| >= NameLimit
  }

  /** The description's length as the limiter counts it: without one trailing newline. */
  function DescriptionLength(current: string): (n: nat)
    ensures |current| > 0 && current[|current| - 1] == '\n' ==> n == |current| - 1
    ensures |current| == 0 || current[|current| - 1] != '\n' ==> n == |current|
  {
    if |current| > 0 && current[|current| - 1] == '\n' then |current| - 1 else |current|
  }

  /** `limit_description_input`. */
  function LimitDescriptionInput(current: string, keysym: string): bool {
    keysym !in DescriptionNavigationKeys && DescriptionLength(current) >= DescriptionLimit
  }

  /** One key press in a field: its key name and, for a printable key, the
      character it types. */
  datatype Key = Key(keysym: string, ch: Option<char>)

  /** One key press in the name field: a printable key that is not blocked adds its
      character at the end and BackSpace removes the last one. */
  function TypeNameKey(text: string, k: Key): (t: string)
    ensures |t| <= |text| || (|t| == |text| + 1 && |text| < NameLimit)
  {
    if LimitNameInput(text, k.keysym) then text
    else if k.keysym == "BackSpace" then (if text == "" then text else text[..|text| - 1])
    else if k.keysym in NameNavigationKeys then text
    else if k.ch.Some? then text + [k.ch.value]
    else text
  }

  /** The name field after the keys, pressed one at a time. */
  function TypeName(text: string, keys: seq<Key>): string
    decreases |keys|
  {
    if keys == [] then text else TypeName(TypeNameKey(text, keys[0]), keys[1..])
  }

  /** Typed one key at a time, the name never grows past the limit. */
  lemma {:induction false} TypeNameBounded(text: string, keys: seq<Key>)
    requires |text| <= NameLimit
    ensures |TypeName(text, keys)| <= NameLimit
    decreases |keys|
  {
    if keys != [] {
      TypeNameBounded(TypeNameKey(text, keys[0]), keys[1..]);
    }
  }

  /** A key is blocked only at the limit, and a navigation key never is. */
  lemma LimitersBlockAtLimit(current: string, keysym: string)
    ensures LimitNameInput(current, keysym) ==> |current| >= NameLimit
    ensures LimitDescriptionInput(current, keysym) ==> |current| >= DescriptionLimit
    ensures keysym in NameNavigationKeys ==> !LimitNameInput(current, keysym) && !LimitDescriptionInput(current, keysym)
    ensures LimitDescriptionInput(current + "\n", keysym) <==> keysym !in DescriptionNavigationKeys && |current| >= DescriptionLimit
  {
    var s := current + "\n";
    assert s[|s| - 1] == '\n';
  }

  // ----- defaults -----

  const DefaultStart := "19:00"
  const DefaultEnd := "21:00"
  const DefaultPrice := "25.00"

  /** `set_default_values` on an empty form: tomorrow, 19:00 to 21:00, 25.00. */
  function DefaultFields(today: Date): EventFields
    requires ValidDate(today) && today.year < 9999
  {
    EventFields("", "", FormatDate(NextDay(today)), DefaultStart, DefaultEnd, DefaultPrice)
  }

  /** The defaults pass the date and time format checks, the end-after-start check
      and the not-in-the-past check. */
  lemma DefaultsPassChecks(today: Date)
    requires ValidDate(today) && 1000 <= today.year < 9999
    ensures var f := DefaultFields(today);
      && DateShape(Strip(f.date)) && TimeShape(Strip(f.time)) && TimeShape(Strip(f.endTime))
      && TimeOrderCheck(Strip(f.time), Strip(f.endTime)) == Pass
      && DateCheck(Strip(f.date), today) == Pass
  {
    var f := DefaultFields(today);
    DefaultDate(today);
    DefaultTimesStripped();
    DefaultTimes();
    assert Strip(f.date) == FormatDate(NextDay(today));
  }

  lemma DefaultDate(today: Date)
    requires ValidDate(today) && 1000 <= today.year < 9999
    ensures var s := FormatDate(NextDay(today));
      Strip(s) == s && DateShape(s) && DateCheck(s, today) == Pass
  {
    var d := NextDay(today);
    assert !DateBefore(d, today);
    FormatDateRoundTrip(d);
    var s := FormatDate(d);
    assert Strip(s) == s by {
      assert IsDigit(s[0]) && IsDigit(s[9]);
      StripTrimmed(s);
    }
    DatePasses(s, today, d);
  }

  lemma DatePasses(s: string, today: Date, d: Date)
    requires StrptimeDate(s).Some? && StrptimeDate(s).value == d && !DateBefore(d, today)
    ensures DateCheck(s, today) == Pass
  {
  }

  lemma DefaultTimesStripped()
    ensures Strip(DefaultStart) == DefaultStart && Strip(DefaultEnd) == DefaultEnd
  {
    StripTrimmed(DefaultStart);
    StripTrimmed(DefaultEnd);
  }

  lemma DefaultTimes()
    ensures TimeShape(DefaultStart) && TimeShape(DefaultEnd)
    ensures TimeOrderCheck(DefaultStart, DefaultEnd) == Pass
  {
    DefaultTimesOrder();
    TimeOrderPasses(DefaultStart, DefaultEnd);
  }

  lemma TimeOrderPasses(time: string, endTime: string)
    requires TimeShape(time) && TimeShape(endTime) && ShapeMinutes(time) < ShapeMinutes(endTime)
    ensures TimeOrderCheck(time, endTime) == Pass
  {
  }

  lemma DefaultTimesOrder()
    ensures TimeShape(DefaultStart) && TimeShape(DefaultEnd)
    ensures ShapeMinutes(DefaultStart) < ShapeMinutes(DefaultEnd)
  {
    assert ShapeMinutes(DefaultStart) == 19 * 60;
    assert ShapeMinutes(DefaultEnd) == 21 * 60;
  }
}
