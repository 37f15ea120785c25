/**
  The user dashboard (`UserDashboardView`): the seats left for each upcoming
  event, the events the user has seats for, what an event card shows, and the
  text and file name of a reservation's QR code.
 */
module Dashboard {
  import opened Options
  import opened SeqUtil
  import opened Text
  import opened Ledger
  import opened Layout

  // ----- seats left -----

  /** The seats of event `e` that `get_reserved_seats(e, "")` reports: every holder
      except one whose username is the empty string. */
  function BookedSeats(rows: seq<Reservation>, e: int): set<Seat> {
    set x | x in rows && x.eventId == e && x.username != "" :: x.seat
  }

  /** `get_available_seats_count`: 0 for an unknown event, otherwise the event's
      capacity less the seats booked for it. */
  function AvailableSeatsCount(db: Database, id: int): (n: int)
    reads db
    ensures db.EventById(id).None? ==> n == 0
    ensures db.Valid() && db.EventById(id).Some? ==>
      n == db.EventById(id).value.capacity - |BookedSeats(db.reservations, id)|
  {
    match db.EventById(id)
    case None => 0
    case Some(ev) =>
      BookedCount(db, id);
      ev.capacity - |db.GetReservedSeats(id, "")|
  }

  /** The reserved-seat list has no repeats, so its length is the number of seats. */
  lemma BookedCount(db: Database, id: int)
    ensures db.Valid() ==> |db.GetReservedSeats(id, "")| == |BookedSeats(db.reservations, id)|
  {
    if db.Valid() {
      BookedCountValid(db, id);
    }
  }

  lemma BookedCountValid(db: Database, id: int)
    requires db.Valid()
    ensures |db.GetReservedSeats(id, "")| == |BookedSeats(db.reservations, id)|
  {
    var others := SeatsWhere(db.reservations, id, "", false);
    SeatsWhereDistinct(db.reservations, id, "", false);
    DistinctPermutation(others, db.GetReservedSeats(id, ""));
    DistinctCard(db.GetReservedSeats(id, ""));
    var booked := BookedSeats(db.reservations, id);
    assert SetOf(db.GetReservedSeats(id, "")) == booked by {
      forall s ensures s in SetOf(db.GetReservedSeats(id, "")) <==> s in booked {
        if s in booked {
          var x :| x in db.reservations && x.eventId == id && x.username != "" && x.seat == s;
        }
      }
    }
  }

  /** The seats of event `e` that anyone holds. */
  function HeldSeats(rows: seq<Reservation>, e: int): set<Seat> {
    set x | x in rows && x.eventId == e :: x.seat
  }

  /** The seats of the map nobody holds: the count that reaches 0 exactly when the
      map is full. */
  function FreeMapSeats(db: Database, id: int): (n: int)
    reads db
    ensures 0 <= n <= TotalSeats(Rows)
    ensures n == 0 <==> db.EventById(id).None? || forall s :: InLayout(Rows, s) ==> Held(db.reservations, id, s)
  {
    MapSeatsCount();
    RowsTotal();
    match db.EventById(id)
    case None => 0
    case Some(_) =>
      var free := MapSeats() - HeldSeats(db.reservations, id);
      assert free <= MapSeats();
      if free == {} then
        forall s | InLayout(Rows, s) ensures Held(db.reservations, id, s) {
          assert s !in free;
        }
        0
      else
        var s :| s in free;
        assert InLayout(Rows, s) && !Held(db.reservations, id, s);
        |free|
  }

  /** With every seat of the map booked, an event of the default capacity still
      shows 100 seats left, in green. */
  lemma FullMapShowsSeatsLeft(db: Database, id: int)
    requires db.Valid()
    requires db.EventById(id).Some? && db.EventById(id).value.capacity == DefaultCapacity
    requires BookedSeats(db.reservations, id) == MapSeats()
    ensures AvailableSeatsCount(db, id) == 100
    ensures AvailabilityLabel(AvailableSeatsCount(db, id), DefaultCapacity).green
    ensures forall s :: InLayout(Rows, s) ==> Held(db.reservations, id, s)
  {
    MapSeatsCount();
    forall s | InLayout(Rows, s) ensures Held(db.reservations, id, s) {
      assert s in BookedSeats(db.reservations, id);
    }
  }

  /** Counting the map's free seats instead, a full map shows none left, in red. */
  lemma FullMapShowsNoneLeft(db: Database, id: int)
    requires db.EventById(id).Some?
    requires forall s :: InLayout(Rows, s) ==> Held(db.reservations, id, s)
    ensures FreeMapSeats(db, id) == 0
    ensures !AvailabilityLabel(FreeMapSeats(db, id), DefaultCapacity).green
  {
  }

  // ----- event cards -----

  /** The availability line of an event card: its text and whether it is green. */
  datatype Label = Label(text: string, green: bool)

  function AvailabilityLabel(available: int, capacity: int): (l: Label)
    ensures l.green <==> available > 0
  {
    Label("Available Seats: " + IntToString(available) + " of " + IntToString(capacity), available > 0)
  }

  /** A future event the user holds seats for, with those seats attached. */
  datatype ReservedEvent = ReservedEvent(event: Event, reservedSeats: seq<Seat>)

  /** The count on a reserved card. */
  function ReservedCardCount(r: ReservedEvent): nat {
    |r.reservedSeats|
  }

  /** The user holds some seat of the event. */
  predicate HasSeats(rows: seq<Reservation>, u: string, ev: Event) {
    |SeatsWhere(rows, ev.id, u, true)| > 0
  }

  function EventsOf(rs: seq<ReservedEvent>): (evs: seq<Event>)
    ensures |evs| == |rs|
    ensures forall k :: 0 <= k < |rs| ==> evs[k] == rs[k].event
  {
    seq(|rs|, k requires 0 <= k < |rs| => rs[k].event)
  }

  /** The reserved list `load_events` builds from `evs`: the events the user holds
      seats for, in the order of `evs`, each with the user's seats. */
  function ReservedOf(db: Database, evs: seq<Event>, u: string): (r: seq<ReservedEvent>)
    reads db
    ensures var rows := db.reservations; EventsOf(r) == Filter(evs, (ev: Event) => HasSeats(rows, u, ev))
    ensures forall k :: 0 <= k < |r| ==>
      r[k].reservedSeats == db.GetUserReservedSeats(r[k].event.id, u) && |r[k].reservedSeats| > 0
  {
    if evs == [] then []
    else
      var init := ReservedOf(db, evs[..|evs| - 1], u);
      var ev := evs[|evs| - 1];
      var seats := db.GetUserReservedSeats(ev.id, u);
      assert |seats| == db.GetUserReservationCount(ev.id, u);
      if |seats| > 0 then
        assert EventsOf(init + [ReservedEvent(ev, seats)]) == EventsOf(init) + [ev];
        init + [ReservedEvent(ev, seats)]
      else init
  }

  lemma ReservedOfStep(db: Database, evs: seq<Event>, u: string, i: nat)
    requires i < |evs|
    ensures var seats := db.GetUserReservedSeats(evs[i].id, u);
      ReservedOf(db, evs[..i + 1], u) ==
        if |seats| > 0 then ReservedOf(db, evs[..i], u) + [ReservedEvent(evs[i], seats)]
        else ReservedOf(db, evs[..i], u)
  {
    assert evs[..i + 1][..i] == evs[..i];
  }

  /** Each reserved card counts the user's seats for its event. */
  lemma ReservedCardCounts(db: Database, evs: seq<Event>, u: string, k: nat)
    requires k < |ReservedOf(db, evs, u)|
    ensures var r := ReservedOf(db, evs, u)[k];
      ReservedCardCount(r) == db.GetUserReservationCount(r.event.id, u) > 0
  {
  }

  /** `event_ids_with_reservations`: the ids of the reserved events. */
  function IdsOf(rs: seq<ReservedEvent>): (ids: set<int>)
    ensures forall id :: id in ids <==> exists k :: 0 <= k < |rs| && rs[k].event.id == id
  {
    set k | 0 <= k < |rs| :: rs[k].event.id
  }

  lemma IdsOfAppend(rs: seq<ReservedEvent>, r: ReservedEvent)
    ensures IdsOf(rs + [r]) == IdsOf(rs) + {r.event.id}
  {
    var all := rs + [r];
    assert all[|rs|] == r;
    forall id | id in IdsOf(rs) ensures id in IdsOf(all) {
      var k :| 0 <= k < |rs| && rs[k].event.id == id;
      assert all[k] == rs[k];
    }
  }

  /** `load_events`: every future event for the available panel, and the ones the
      user holds seats for, with the set of their ids. */
  method LoadEvents(db: Database, u: string, today: string)
    returns (available: seq<Event>, reserved: seq<ReservedEvent>, ids: set<int>)
    ensures available == db.GetFutureEvents(today)
    ensures reserved == ReservedOf(db, available, u)
    ensures ids == IdsOf(reserved)
  {
    available := db.GetFutureEvents(today);
    reserved := [];
    ids := {};
    for i := 0 to |available|
      invariant reserved == ReservedOf(db, available[..i], u)
      invariant ids == IdsOf(reserved)
    {
      var ev := available[i];
      var userSeats := db.GetUserReservedSeats(ev.id, u);
      ReservedOfStep(db, available, u, i);
      if |userSeats| > 0 {
        ids := ids + {ev.id};
        IdsOfAppend(reserved, ReservedEvent(ev, userSeats));
        reserved := reserved + [ReservedEvent(ev, userSeats)];
      }
    }
    assert available[..|available|] == available;
  }

  // ----- the QR code -----

  /** `str((row, num))`. */
  function SeatStr(s: Seat): string {
    "(" + Repr(s.row) + ", " + IntToString(s.number) + ")"
  }

  /** `", ".join(str(seat) for seat in seats)`. */
  function SeatList(seats: seq<Seat>): string {
    if seats == [] then ""
    else if |seats| == 1 then SeatStr(seats[0])
    else SeatStr(seats[0]) + ", " + SeatList(seats[1..])
  }

  /** The text encoded in the QR code. */
  function QrPayload(u: string, name: string, seats: seq<Seat>): string {
    u + " -- " + name + " -- SEATS " + SeatList(seats)
  }

  /** The file the QR image is written to. */
  function QrFilename(id: int, u: string): string {
    "reservation_qr_event" + IntToString(id) + "_" + u + ".ppm"
  }

  /** A QR payload starts with the user and the event name, and the rest of it reads
      back as the seats it lists. */
  lemma QrPayloadReadsBack(u: string, name: string, seats: seq<Seat>)
    requires forall k :: 0 <= k < |seats| ==> PlainRow(seats[k])
    ensures var t := QrPayload(u, name, seats); var head := u + " -- " + name + " -- SEATS ";
      && |head| <= |t| && t[..|head|] == head
      && ParseSeatList(t[|head|..]) == Some(seats)
  {
    var t := QrPayload(u, name, seats);
    var head := u + " -- " + name + " -- SEATS ";
    assert t == head + SeatList(seats);
    assert t[|head|..] == SeatList(seats);
    SeatListRoundTrip(seats);
  }

  /** `str(i)` holds no underscore. */
  lemma IntToStringNoUnderscore(i: int)
    ensures '_' !in IntToString(i)
  {
    var s := IntToString(i);
    var digits := NatToString(if i < 0 then -i else i);
    if i < 0 {
      assert s == "-" + digits;
    }
    forall k | 0 <= k < |s| ensures s[k] != '_' {
      if i < 0 && k > 0 {
        assert s[k] == digits[k - 1];
      }
    }
  }

  /** Text up to the first separator `c`, and the text after it, are determined by
      the whole. */
  lemma FirstSeparator(a: string, u1: string, b: string, u2: string, c: char)
    requires c !in a && c !in b && a + [c] + u1 == b + [c] + u2
    ensures a == b && u1 == u2
  {
    var x := a + [c] + u1;
    assert forall i :: 0 <= i < |a| ==> x[i] == a[i];
    assert forall i :: 0 <= i < |b| ==> x[i] == b[i];
    assert x[|a|] == c && x[|b|] == c;
    assert |a| == |b|;
    assert a == x[..|a|] == b;
    assert u1 == x[|a| + 1..] == u2;
  }

  /** The same text between the same prefix and suffix is the same text. */
  lemma Unwrap(p: string, x: string, y: string, q: string)
    requires p + x + q == p + y + q
    ensures x == y
  {
    var f := p + x + q;
    assert |x| == |y|;
    assert x == f[|p|..|p| + |x|] == y;
  }

  /** Different events or users never share a QR file: the file name determines both. */
  lemma QrFilenameInjective(id1: int, u1: string, id2: int, u2: string)
    requires QrFilename(id1, u1) == QrFilename(id2, u2)
    ensures id1 == id2 && u1 == u2
  {
    QrFilenameMiddle(id1, u1);
    QrFilenameMiddle(id2, u2);
    Unwrap("reservation_qr_event", IntToString(id1) + "_" + u1, IntToString(id2) + "_" + u2, ".ppm");
    IntToStringNoUnderscore(id1);
    IntToStringNoUnderscore(id2);
    FirstSeparator(IntToString(id1), u1, IntToString(id2), u2, '_');
    IntToStringInjective(id1, id2);
  }

  /** The file name's middle part: the event id, an underscore and the user. */
  lemma QrFilenameMiddle(id: int, u: string)
    ensures QrFilename(id, u) == "reservation_qr_event" + (IntToString(id) + "_" + u) + ".ppm"
  {
  }

  lemma IntToStringInjective(i: int, j: int)
    requires IntToString(i) == IntToString(j)
    ensures i == j
  {
    IntToStringRoundTrip(i);
    IntToStringRoundTrip(j);
  }

  /** Rows written by `repr` without escapes. */
  predicate PlainRow(s: Seat) {
    forall i :: 0 <= i < |s.row| ==> IsPlainChar(s.row[i])
  }

  /** Reads one `('row', num)` off the front of `t`, returning the rest. */
  function ParseSeat(t: string): (r: Option<(Seat, string)>)
    ensures r.Some? ==> |r.value.1| < |t|
  {
    match StripPrefix("(", t)
    case None => None
    case Some(quoted) =>
      match StripPrefix("'", quoted)
      case None => None
      case Some(body) =>
        match SplitAt(body, '\'')
        case None => None
        case Some((row, afterRow)) =>
          match StripPrefix(", ", afterRow)
          case None => None
          case Some(numAndRest) =>
            match SplitAt(numAndRest, ')')
            case None => None
            case Some((num, rest)) =>
              match PyInt(num)
              case None => None
              case Some(n) => Some((Seat(row, n), rest))
  }

  /** Reads a `", "`-separated list of seats that makes up all of `t`. */
  function ParseSeatList(t: string): Option<seq<Seat>>
    decreases |t|
  {
    if t == "" then Some([])
    else match ParseSeat(t)
      case None => None
      case Some((s, rest)) =>
        if rest == "" then Some([s])
        else match StripPrefix(", ", rest)
          case None => None
          case Some(more) =>
            match ParseSeatList(more)
            case None => None
            case Some(ss) => Some([s] + ss)
  }

  lemma NoQuoteInPlainRow(s: Seat)
    requires PlainRow(s)
    ensures '\'' !in s.row
  {
    forall k | 0 <= k < |s.row| ensures s.row[k] != '\'' {
      assert IsPlainChar(s.row[k]);
    }
  }

  lemma NoParenInNumber(i: int)
    ensures ')' !in IntToString(i)
  {
    var num := IntToString(i);
    var digits := NatToString(if i < 0 then -i else i);
    forall k | 0 <= k < |num| ensures num[k] != ')' {
      if i < 0 && k > 0 {
        assert num[k] == digits[k - 1];
      }
    }
  }

  /** The pieces of a seat's text, regrouped the way the parser takes them. */
  lemma SeatTextShape(row: string, num: string, rest: string)
    ensures "(" + ("'" + row + "'") + ", " + num + ")" + rest
         == "(" + ("'" + (row + ['\''] + (", " + (num + [')'] + rest))))
  {
  }

  /** One seat is read back from its text, whatever follows it. */
  lemma ParseSeatStr(s: Seat, rest: string)
    requires PlainRow(s)
    ensures ParseSeat(SeatStr(s) + rest) == Some((s, rest))
  {
    ReprPlain(s.row);
    var num := IntToString(s.number);
    NoQuoteInPlainRow(s);
    NoParenInNumber(s.number);
    IntToStringRoundTrip(s.number);
    var numAndRest := num + [')'] + rest;
    var afterRow := ", " + numAndRest;
    var body := s.row + ['\''] + afterRow;
    assert SeatStr(s) == "(" + ("'" + s.row + "'") + ", " + num + ")";
    SeatTextShape(s.row, num, rest);
    StripPrefixConcat("(", "'" + body);
    StripPrefixConcat("'", body);
    SplitAtConcat(s.row, '\'', afterRow);
    StripPrefixConcat(", ", numAndRest);
    SplitAtConcat(num, ')', rest);
  }

  lemma ParseSeatListOne(t: string, s: Seat)
    requires t != "" && ParseSeat(t) == Some((s, ""))
    ensures ParseSeatList(t) == Some([s])
  {
  }

  lemma ParseSeatListCons(t: string, s: Seat, rest: string, more: string, ss: seq<Seat>)
    requires t != "" && ParseSeat(t) == Some((s, rest)) && rest != ""
    requires StripPrefix(", ", rest) == Some(more) && ParseSeatList(more) == Some(ss)
    ensures ParseSeatList(t) == Some([s] + ss)
  {
  }

  /** The seat list of a QR payload reads back as the seats it was built from. */
  lemma {:induction false} SeatListRoundTrip(seats: seq<Seat>)
    requires forall k :: 0 <= k < |seats| ==> PlainRow(seats[k])
    ensures ParseSeatList(SeatList(seats)) == Some(seats)
    decreases |seats|
  {
    if |seats| == 1 {
      SeatListSingle(seats);
    } else if |seats| > 1 {
      SeatListRoundTrip(seats[1..]);
      SeatListStep(seats);
    }
  }

  lemma SeatListSingle(seats: seq<Seat>)
    requires |seats| == 1 && PlainRow(seats[0])
    ensures ParseSeatList(SeatList(seats)) == Some(seats)
  {
    ParseSeatStr(seats[0], "");
    var t := SeatList(seats);
    assert t == SeatStr(seats[0]) + "";
    ParseSeatListOne(t, seats[0]);
    assert [seats[0]] == seats;
  }

  lemma SeatListStep(seats: seq<Seat>)
    requires |seats| > 1 && PlainRow(seats[0])
    requires ParseSeatList(SeatList(seats[1..])) == Some(seats[1..])
    ensures ParseSeatList(SeatList(seats)) == Some(seats)
  {
    var tail := seats[1..];
    var rest := ", " + SeatList(tail);
    var t := SeatList(seats);
    assert t == SeatStr(seats[0]) + rest;
    ParseSeatStr(seats[0], rest);
    StripPrefixConcat(", ", SeatList(tail));
    assert t != "" && rest != "";
    ParseSeatListCons(t, seats[0], rest, SeatList(tail), tail);
    assert [seats[0]] + tail == seats;
  }
}
