/**
  The reservation ledger and event catalog kept in SQLite by `DatabaseManager`:
  the `events` table, the `user_reservation` table with its
  UNIQUE(event_id, seat_row, seat_number) constraint, and the commands and
  queries the views run against them. The store is one in-memory state and
  every command is atomic.
 */
module Ledger {
  import opened Options
  import opened SeqUtil
  import opened Text

  /** A seat as the reservation table records it: row label and number in the row. */
  datatype Seat = Seat(row: string, number: int)

  /** A row of `user_reservation` (its status column always holds 'reserved'). */
  datatype Reservation = Reservation(username: string, eventId: int, seat: Seat)

  /** A row of `events`. */
  datatype Event = Event(
    id: int, name: string, description: string, date: string, time: string,
    endTime: string, venue: string, capacity: int, price: real)

  const DefaultVenue: string := "Castle Hill High School auditorium"
  const DefaultCapacity: int := 550
  /** The most seats one user may hold for one event. */
  const SeatLimit: int := 4

  // ----- the reservation table -----

  /** Some row reserves seat `s` of event `e`. */
  predicate Held(rows: seq<Reservation>, e: int, s: Seat) {
    exists r :: r in rows && r.eventId == e && r.seat == s
  }

  /** UNIQUE(event_id, seat_row, seat_number): no seat of an event is reserved twice. */
  predicate SeatsUnique(rows: seq<Reservation>) {
    forall i, j :: 0 <= i < j < |rows| && rows[i].eventId == rows[j].eventId ==> rows[i].seat != rows[j].seat
  }

  /** The seats of event `e`'s rows in table order, `u`'s own (`own`) or everyone else's. */
  function SeatsWhere(rows: seq<Reservation>, e: int, u: string, own: bool): (r: seq<Seat>)
    ensures |r| <= |rows|
    ensures forall s :: s in r <==>
      exists x :: x in rows && x.eventId == e && (x.username == u) == own && x.seat == s
  {
    if rows == [] then []
    else
      var x := rows[|rows| - 1];
      var init := SeatsWhere(rows[..|rows| - 1], e, u, own);
      assert rows == rows[..|rows| - 1] + [x];
      if x.eventId == e && (x.username == u) == own then init + [x.seat] else init
  }

  /** All seats of event `e`'s rows, in table order. */
  function EventSeats(rows: seq<Reservation>, e: int): (r: seq<Seat>)
    ensures forall s :: s in r <==> Held(rows, e, s)
  {
    if rows == [] then []
    else
      var x := rows[|rows| - 1];
      var init := EventSeats(rows[..|rows| - 1], e);
      assert rows == rows[..|rows| - 1] + [x];
      if x.eventId == e then init + [x.seat] else init
  }

  /** Under the uniqueness constraint no seat is listed twice. */
  lemma {:induction false} SeatsWhereDistinct(rows: seq<Reservation>, e: int, u: string, own: bool)
    requires SeatsUnique(rows)
    ensures Distinct(SeatsWhere(rows, e, u, own))
  {
    if rows != [] {
      var init := rows[..|rows| - 1];
      var x := rows[|rows| - 1];
      assert SeatsUnique(init);
      SeatsWhereDistinct(init, e, u, own);
      assert rows == init + [x];
      if x.eventId == e && (x.username == u) == own {
        forall y | y in init && y.eventId == e ensures y.seat != x.seat {
          var i :| 0 <= i < |init| && init[i] == y;
          assert rows[i] == y;
        }
        var a := SeatsWhere(init, e, u, own);
        assert SeatsWhere(rows, e, u, own) == a + [x.seat];
        assert x.seat !in a;
        assert forall i :: 0 <= i < |a| ==> a[i] != x.seat;
      }
    }
  }

  /** The seats of event `e` split by owner: `u`'s and the others' together are all of them. */
  lemma {:induction false} SeatsWherePartition(rows: seq<Reservation>, e: int, u: string)
    ensures multiset(SeatsWhere(rows, e, u, false)) + multiset(SeatsWhere(rows, e, u, true))
         == multiset(EventSeats(rows, e))
  {
    if rows != [] {
      SeatsWherePartition(rows[..|rows| - 1], e, u);
    }
  }

  lemma {:induction false} SeatsWhereAppend(a: seq<Reservation>, b: seq<Reservation>, e: int, u: string, own: bool)
    ensures SeatsWhere(a + b, e, u, own) == SeatsWhere(a, e, u, own) + SeatsWhere(b, e, u, own)
  {
    if b != [] {
      var ab := a + b;
      assert ab[..|ab| - 1] == a + b[..|b| - 1];
      SeatsWhereAppend(a, b[..|b| - 1], e, u, own);
    } else {
      assert a + b == a;
    }
  }

  /** The rows that reserving `ss` for `u` at event `e` appends, one per seat. */
  function RowsFor(u: string, e: int, ss: seq<Seat>): (rs: seq<Reservation>)
    ensures |rs| == |ss|
    ensures forall k :: 0 <= k < |ss| ==> rs[k] == Reservation(u, e, ss[k])
  {
    seq(|ss|, k requires 0 <= k < |ss| => Reservation(u, e, ss[k]))
  }

  lemma {:induction false} SeatsWhereRowsFor(u: string, e: int, ss: seq<Seat>, v: string, own: bool)
    ensures SeatsWhere(RowsFor(u, e, ss), e, v, own) == if (u == v) == own then ss else []
  {
    if ss != [] {
      var ss' := ss[..|ss| - 1];
      assert RowsFor(u, e, ss)[..|ss| - 1] == RowsFor(u, e, ss');
      SeatsWhereRowsFor(u, e, ss', v, own);
      assert ss == ss' + [ss[|ss| - 1]];
    }
  }

  lemma HeldAfter(rows: seq<Reservation>, u: string, e: int, ss: seq<Seat>, s: Seat)
    ensures Held(rows + RowsFor(u, e, ss), e, s) <==> Held(rows, e, s) || s in ss
  {
    var all := rows + RowsFor(u, e, ss);
    if s in ss {
      var k :| 0 <= k < |ss| && ss[k] == s;
      assert all[|rows| + k] == Reservation(u, e, s);
    }
    if Held(all, e, s) {
      var r :| r in all && r.eventId == e && r.seat == s;
      var k :| 0 <= k < |all| && all[k] == r;
      if k >= |rows| {
        assert ss[k - |rows|] == s;
      }
    }
  }

  /** Adding a row for a seat not yet held for its event keeps the constraint. */
  lemma UniqueAppend(rows: seq<Reservation>, x: Reservation)
    requires SeatsUnique(rows) && !Held(rows, x.eventId, x.seat)
    ensures SeatsUnique(rows + [x])
  {
    var all := rows + [x];
    forall i, j | 0 <= i < j < |all| && all[i].eventId == all[j].eventId
      ensures all[i].seat != all[j].seat
    {
      if j == |rows| {
        assert all[i] in rows;
      }
    }
  }

  // ----- reserve_seats -----

  /** Where the per-seat insert loop has got to: the table, and the seats so far
      that went into it and that were refused. */
  datatype Booking = Booking(rows: seq<Reservation>, reserved: seq<Seat>, failed: seq<Seat>)

  /** The per-seat INSERT loop of `reserve_seats`: a seat of `e` already held, by an
      earlier row or by an earlier seat of the same request, violates the uniqueness
      constraint and is refused; any other seat adds one row for `u`. */
  function InsertEach(rows: seq<Reservation>, u: string, e: int, seats: seq<Seat>): Booking
  {
    if seats == [] then Booking(rows, [], [])
    else
      var b := InsertEach(rows, u, e, seats[..|seats| - 1]);
      var s := seats[|seats| - 1];
      if Held(b.rows, e, s) then Booking(b.rows, b.reserved, b.failed + [s])
      else Booking(b.rows + [Reservation(u, e, s)], b.reserved + [s], b.failed)
  }

  /** The loop keeps every row it started from, in place. */
  lemma InsertEachGrows(rows: seq<Reservation>, u: string, e: int, seats: seq<Seat>)
    ensures rows <= InsertEach(rows, u, e, seats).rows
  {
    InsertEachShape(rows, u, e, seats);
  }

  /** The loop only appends, one row per reserved seat, and keeps the request's order
      in both `reserved` and `failed`, which together are exactly the request. */
  lemma {:induction false} InsertEachShape(rows: seq<Reservation>, u: string, e: int, seats: seq<Seat>)
    ensures var b := InsertEach(rows, u, e, seats);
      && b.rows == rows + RowsFor(u, e, b.reserved)
      && Interleaves(seats, b.reserved, b.failed)
      && multiset(seats) == multiset(b.reserved) + multiset(b.failed)
  {
    var b := InsertEach(rows, u, e, seats);
    if seats != [] {
      var init := seats[..|seats| - 1];
      var b' := InsertEach(rows, u, e, init);
      InsertEachShape(rows, u, e, init);
      if !Held(b'.rows, e, seats[|seats| - 1]) {
        assert RowsFor(u, e, b.reserved) == RowsFor(u, e, b'.reserved) + [Reservation(u, e, seats[|seats| - 1])];
      }
    }
    InterleavesMultiset(seats, b.reserved, b.failed);
  }

  /** A requested seat is reserved iff nobody held it beforehand, and then exactly
      once: a seat asked for twice is reserved at most once. */
  lemma {:induction false} InsertEachReserved(rows: seq<Reservation>, u: string, e: int, seats: seq<Seat>)
    ensures var b := InsertEach(rows, u, e, seats);
      && Distinct(b.reserved)
      && (forall s :: s in b.reserved <==> s in seats && !Held(rows, e, s))
  {
    if seats != [] {
      var init := seats[..|seats| - 1];
      var s := seats[|seats| - 1];
      var b' := InsertEach(rows, u, e, init);
      InsertEachReserved(rows, u, e, init);
      InsertEachShape(rows, u, e, init);
      HeldAfter(rows, u, e, b'.reserved, s);
      assert seats == init + [s];
    }
  }

  /** The loop never breaks the uniqueness constraint. */
  lemma {:induction false} InsertEachUnique(rows: seq<Reservation>, u: string, e: int, seats: seq<Seat>)
    requires SeatsUnique(rows)
    ensures SeatsUnique(InsertEach(rows, u, e, seats).rows)
  {
    if seats != [] {
      var b' := InsertEach(rows, u, e, seats[..|seats| - 1]);
      InsertEachUnique(rows, u, e, seats[..|seats| - 1]);
      if !Held(b'.rows, e, seats[|seats| - 1]) {
        UniqueAppend(b'.rows, Reservation(u, e, seats[|seats| - 1]));
      }
    }
  }

  /** The user's own seats grow by exactly the reserved ones; every other user's
      seats, and every other event's, stay as they were. */
  lemma InsertEachOwners(rows: seq<Reservation>, u: string, e: int, seats: seq<Seat>, v: string, e': int)
    ensures var b := InsertEach(rows, u, e, seats);
      && SeatsWhere(b.rows, e, u, true) == SeatsWhere(rows, e, u, true) + b.reserved
      && SeatsWhere(b.rows, e, u, false) == SeatsWhere(rows, e, u, false)
      && (v != u ==> SeatsWhere(b.rows, e, v, true) == SeatsWhere(rows, e, v, true))
      && (e' != e ==> SeatsWhere(b.rows, e', v, true) == SeatsWhere(rows, e', v, true))
  {
    var b := InsertEach(rows, u, e, seats);
    InsertEachShape(rows, u, e, seats);
    SeatsWhereAppend(rows, RowsFor(u, e, b.reserved), e, u, true);
    SeatsWhereAppend(rows, RowsFor(u, e, b.reserved), e, u, false);
    SeatsWhereAppend(rows, RowsFor(u, e, b.reserved), e, v, true);
    SeatsWhereAppend(rows, RowsFor(u, e, b.reserved), e', v, true);
    SeatsWhereRowsFor(u, e, b.reserved, u, true);
    SeatsWhereRowsFor(u, e, b.reserved, u, false);
    SeatsWhereRowsFor(u, e, b.reserved, v, true);
    if e' != e {
      assert SeatsWhere(RowsFor(u, e, b.reserved), e', v, true) == [] by {
        NoSeatsOfOtherEvent(u, e, b.reserved, e', v);
      }
    }
  }

  lemma {:induction false} NoSeatsOfOtherEvent(u: string, e: int, ss: seq<Seat>, e': int, v: string)
    requires e' != e
    ensures SeatsWhere(RowsFor(u, e, ss), e', v, true) == []
  {
    if ss != [] {
      assert RowsFor(u, e, ss)[..|ss| - 1] == RowsFor(u, e, ss[..|ss| - 1]);
      NoSeatsOfOtherEvent(u, e, ss[..|ss| - 1], e', v);
    }
  }

  /** A request with no refusals booked every requested seat for the user. */
  lemma InsertEachAllBooked(rows: seq<Reservation>, u: string, e: int, seats: seq<Seat>)
    requires |InsertEach(rows, u, e, seats).failed| == 0
    ensures var b := InsertEach(rows, u, e, seats);
      && multiset(b.reserved) == multiset(seats)
      && (forall s :: s in b.reserved <==> s in seats)
      && (forall s :: s in seats ==> Reservation(u, e, s) in b.rows)
  {
    var b := InsertEach(rows, u, e, seats);
    InsertEachShape(rows, u, e, seats);
    AllBooked(rows, u, e, seats, b.rows, b.reserved, b.failed);
  }

  lemma AllBooked(rows: seq<Reservation>, u: string, e: int, seats: seq<Seat>,
                  rows': seq<Reservation>, reserved: seq<Seat>, failed: seq<Seat>)
    requires rows' == rows + RowsFor(u, e, reserved)
    requires multiset(seats) == multiset(reserved) + multiset(failed)
    requires |failed| == 0
    ensures multiset(reserved) == multiset(seats)
    ensures forall s :: s in reserved <==> s in seats
    ensures forall s :: s in seats ==> Reservation(u, e, s) in rows'
  {
    assert multiset(failed) == multiset{};
    forall s ensures s in reserved <==> s in seats {
      assert s in reserved <==> s in multiset(reserved);
      assert s in seats <==> s in multiset(seats);
    }
    forall s | s in seats ensures Reservation(u, e, s) in rows' {
      var k :| 0 <= k < |reserved| && reserved[k] == s;
      assert rows'[|rows| + k] == RowsFor(u, e, reserved)[k];
    }
  }

  /** The quota: a request that fits beside the seats already held can never leave
      the user with more than `SeatLimit` seats for the event. */
  lemma QuotaKept(rows: seq<Reservation>, u: string, e: int, seats: seq<Seat>)
    requires |SeatsWhere(rows, e, u, true)| + |seats| <= SeatLimit
    ensures |SeatsWhere(InsertEach(rows, u, e, seats).rows, e, u, true)| <= SeatLimit
  {
    var b := InsertEach(rows, u, e, seats);
    InsertEachOwners(rows, u, e, seats, u, e);
    InsertEachShape(rows, u, e, seats);
    InterleavesMultiset(seats, b.reserved, b.failed);
  }

  /** What `reserve_seats` returns. */
  datatype ReserveResult = ReserveResult(success: bool, reserved: seq<Seat>, failed: seq<Seat>, message: Option<string>)

  /** The refusal text of the quota pre-check. */
  function QuotaMessage(count: int): string {
    "You can only reserve up to 4 seats total. You currently have " + IntToString(count)
      + " reservation(s) and can add " + IntToString(SeatLimit - count) + " more."
  }

  // ----- the event table -----

  /** ORDER BY date, time. */
  predicate EventLe(a: Event, b: Event) {
    StrLt(a.date, b.date) || (a.date == b.date && !StrLt(b.time, a.time))
  }

  /** ORDER BY seat_row, seat_number. */
  predicate SeatLe(a: Seat, b: Seat) {
    StrLt(a.row, b.row) || (a.row == b.row && a.number <= b.number)
  }

  lemma SeatLeTotalPreorder()
    ensures TotalPreorder(SeatLe)
  {
    forall a: Seat, b: Seat ensures SeatLe(a, b) || SeatLe(b, a) {
      StrLtTotal(a.row, b.row);
    }
    forall a: Seat, b: Seat, c: Seat | SeatLe(a, b) && SeatLe(b, c) ensures SeatLe(a, c) {
      if StrLt(a.row, b.row) && StrLt(b.row, c.row) {
        StrLtTransitive(a.row, b.row, c.row);
      }
    }
  }

  lemma EventLeTotalPreorder()
    ensures TotalPreorder(EventLe)
  {
    forall a: Event, b: Event ensures EventLe(a, b) || EventLe(b, a) {
      StrLtTotal(a.date, b.date);
      StrLtTotal(a.time, b.time);
      if StrLt(a.time, b.time) {
        StrLtAsymmetric(a.time, b.time);
      }
    }
    forall a: Event, b: Event, c: Event | EventLe(a, b) && EventLe(b, c) ensures EventLe(a, c) {
      if StrLt(a.date, b.date) && StrLt(b.date, c.date) {
        StrLtTransitive(a.date, b.date, c.date);
      }
      if a.date == b.date == c.date {
        StrLtIrreflexive(a.date);
        StrLtTotal(a.time, b.time);
        StrLtTotal(b.time, c.time);
        if a.time != b.time && b.time != c.time {
          StrLtTransitive(a.time, b.time, c.time);
          StrLtAsymmetric(a.time, c.time);
        }
      }
    }
  }

  /** The first event with id `id`. */
  function FindEvent(evs: seq<Event>, id: int): (r: Option<Event>)
    ensures r.Some? ==> r.value in evs && r.value.id == id
    ensures r.None? <==> forall ev :: ev in evs ==> ev.id != id
  {
    if evs == [] then None
    else if evs[0].id == id then Some(evs[0])
    else
      assert evs == [evs[0]] + evs[1..];
      FindEvent(evs[1..], id)
  }

  /** SELECT COUNT(*) FROM events WHERE date = ? [AND id != ?]. */
  function CountOnDate(evs: seq<Event>, date: string, exclude: Option<int>): (n: nat)
    ensures n <= |evs|
  {
    if evs == [] then 0
    else
      var ev := evs[|evs| - 1];
      CountOnDate(evs[..|evs| - 1], date, exclude)
        + if ev.date == date && (exclude.None? || ev.id != exclude.value) then 1 else 0
  }

  predicate Conflicts(ev: Event, date: string, exclude: Option<int>) {
    ev.date == date && (exclude.None? || ev.id != exclude.value)
  }

  /** Appending an event whose id is above every stored id: counted with that id
      excluded, the date has exactly the events it had before; counted without an
      exclusion, it gains one exactly when the new event is on that date. */
  lemma CountAppended(evs: seq<Event>, ev: Event, date: string)
    requires forall i :: 0 <= i < |evs| ==> evs[i].id < ev.id
    ensures CountOnDate(evs + [ev], date, Some(ev.id)) == CountOnDate(evs, date, None)
    ensures CountOnDate(evs + [ev], date, None) == CountOnDate(evs, date, None) + if ev.date == date then 1 else 0
  {
    assert (evs + [ev])[..|evs|] == evs;
    CountBelowId(evs, date, ev.id);
  }

  lemma {:induction false} CountBelowId(evs: seq<Event>, date: string, id: int)
    requires forall i :: 0 <= i < |evs| ==> evs[i].id < id
    ensures CountOnDate(evs, date, Some(id)) == CountOnDate(evs, date, None)
  {
    if evs != [] {
      CountBelowId(evs[..|evs| - 1], date, id);
    }
  }

  lemma {:induction false} CountOnDatePositive(evs: seq<Event>, date: string, exclude: Option<int>)
    ensures CountOnDate(evs, date, exclude) > 0 <==> exists ev :: ev in evs && Conflicts(ev, date, exclude)
  {
    if evs != [] {
      var init := evs[..|evs| - 1];
      CountOnDatePositive(init, date, exclude);
      var last := evs[|evs| - 1];
      assert evs == init + [last];
      assert CountOnDate(evs, date, exclude)
        == CountOnDate(init, date, exclude) + if Conflicts(last, date, exclude) then 1 else 0;
      if exists ev :: ev in evs && Conflicts(ev, date, exclude) {
        var ev :| ev in evs && Conflicts(ev, date, exclude);
        if ev != last {
          assert ev in init;
        }
      }
      if exists ev :: ev in init && Conflicts(ev, date, exclude) {
        var ev :| ev in init && Conflicts(ev, date, exclude);
        assert ev in evs;
      }
    }
  }

  /** UPDATE events SET … WHERE id = `id`. */
  function ReplaceEvent(evs: seq<Event>, id: int, ev: Event): (r: seq<Event>)
    ensures |r| == |evs|
    ensures forall k :: 0 <= k < |evs| ==> r[k] == if evs[k].id == id then ev else evs[k]
  {
    seq(|evs|, k requires 0 <= k < |evs| => if evs[k].id == id then ev else evs[k])
  }

  /** Replacing the event with id `id` by one that keeps the id leaves every id where
      it was, so the ids still ascend, and the replacement is what a lookup finds. */
  lemma ReplaceEventFacts(evs: seq<Event>, id: int, ev: Event, k: nat)
    requires k < |evs| && evs[k].id == id && ev.id == id
    ensures var r := ReplaceEvent(evs, id, ev);
      && (forall j :: 0 <= j < |r| ==> r[j].id == evs[j].id)
      && (IdsAscend(evs) ==> IdsAscend(r))
      && FindEvent(r, id).Some? && FindEvent(r, id).value == ev
  {
    var r := ReplaceEvent(evs, id, ev);
    assert r[k] == ev;
    assert forall x :: x in r && x.id == id ==> x == ev;
  }

  predicate IdIsNot(id: int, ev: Event) { ev.id != id }

  predicate NotRow(x: Reservation, r: Reservation) { r != x }

  /** Deleting from a table keeps the uniqueness constraint. */
  lemma {:induction false} FilterUnique(rows: seq<Reservation>, p: Reservation -> bool)
    requires SeatsUnique(rows)
    ensures SeatsUnique(Filter(rows, p))
  {
    if rows != [] {
      var init := rows[..|rows| - 1];
      var last := rows[|rows| - 1];
      FilterUnique(init, p);
      if p(last) {
        var f := Filter(init, p);
        forall i | 0 <= i < |f| && f[i].eventId == last.eventId ensures f[i].seat != last.seat {
          assert f[i] in init;
          var k :| 0 <= k < |init| && init[k] == f[i];
          assert rows[k] == f[i];
        }
      }
    }
  }

  /** AUTOINCREMENT ids, in insertion order. */
  predicate IdsAscend(evs: seq<Event>) {
    forall i, j :: 0 <= i < j < |evs| ==> evs[i].id < evs[j].id
  }

  lemma {:induction false} FilterIdsAscend(evs: seq<Event>, p: Event -> bool)
    requires IdsAscend(evs)
    ensures IdsAscend(Filter(evs, p))
  {
    if evs != [] {
      var init := evs[..|evs| - 1];
      var last := evs[|evs| - 1];
      assert IdsAscend(init) by {
        forall i, j | 0 <= i < j < |init| ensures init[i].id < init[j].id {
          assert init[i] == evs[i] && init[j] == evs[j];
        }
      }
      FilterIdsAscend(init, p);
      var f := Filter(init, p);
      if p(last) {
        forall i | 0 <= i < |f| ensures f[i].id < last.id {
          assert f[i] in init;
          var k :| 0 <= k < |init| && init[k] == f[i];
          assert evs[k] == f[i];
        }
        var g := Filter(evs, p);
        assert g == f + [last];
        forall i, j | 0 <= i < j < |g| ensures g[i].id < g[j].id {
          if j == |f| {
            assert g[i] == f[i];
          } else {
            assert g[i] == f[i] && g[j] == f[j];
          }
        }
      }
    }
  }

  /** The SQLite database as the application sees it. */
  class Database {
    var events: seq<Event>
    var reservations: seq<Reservation>
    /** The id AUTOINCREMENT hands to the next event: ids are never reused. */
    var nextEventId: int

    ghost predicate Valid()
      reads this
    {
      && SeatsUnique(reservations)
      && nextEventId >= 1
      && (forall i :: 0 <= i < |events| ==> 1 <= events[i].id < nextEventId)
      && IdsAscend(events)
    }

    /** `setup_database` on a fresh file: empty tables. */
    constructor ()
      ensures Valid()
      ensures events == [] && reservations == []
    {
      events := [];
      reservations := [];
      nextEventId := 1;
    }

    // ----- queries -----

    /** `get_event_by_id`. */
    function EventById(id: int): (r: Option<Event>)
      reads this
      ensures r.Some? ==> r.value in events && r.value.id == id
      ensures r.None? <==> forall ev :: ev in events ==> ev.id != id
    {
      FindEvent(events, id)
    }

    /** `get_future_events`: the events dated `today` or later (string comparison of
        YYYY-MM-DD dates, as SQL does it), ordered by date then time. */
    function GetFutureEvents(today: string): (r: seq<Event>)
      reads this
      ensures SortedBy(r, EventLe)
      ensures forall ev :: ev in r <==> ev in events && !StrLt(ev.date, today)
      ensures forall ev :: multiset(r)[ev] == if StrLt(ev.date, today) then 0 else multiset(events)[ev]
    {
      var upcoming := Filter(events, (ev: Event) => !StrLt(ev.date, today));
      EventLeTotalPreorder();
      SortBySorted(upcoming, EventLe);
      SortByMembers(upcoming, EventLe);
      FilterMultiset(events, (ev: Event) => !StrLt(ev.date, today));
      SortBy(upcoming, EventLe)
    }

    /** `get_reserved_seats(e, u)`: the seats of event `e` held by users other than
        `u`, ordered by row then number. */
    function GetReservedSeats(e: int, u: string): (r: seq<Seat>)
      reads this
      ensures SortedBy(r, SeatLe)
      ensures forall s :: s in r <==>
        exists x :: x in reservations && x.eventId == e && x.username != u && x.seat == s
    {
      var others := SeatsWhere(reservations, e, u, false);
      SeatLeTotalPreorder();
      SortBySorted(others, SeatLe);
      SortByMembers(others, SeatLe);
      SortBy(others, SeatLe)
    }

    /** `get_user_reserved_seats(e, u)`: the seats of event `e` held by `u`, ordered. */
    function GetUserReservedSeats(e: int, u: string): (r: seq<Seat>)
      reads this
      ensures SortedBy(r, SeatLe)
      ensures forall s :: s in r <==>
        exists x :: x in reservations && x.eventId == e && x.username == u && x.seat == s
    {
      var own := SeatsWhere(reservations, e, u, true);
      SeatLeTotalPreorder();
      SortBySorted(own, SeatLe);
      SortByMembers(own, SeatLe);
      SortBy(own, SeatLe)
    }

    /** `get_user_reservation_count(e, u)`. */
    function GetUserReservationCount(e: int, u: string): (n: nat)
      reads this
      ensures n == |GetUserReservedSeats(e, u)|
    {
      |SeatsWhere(reservations, e, u, true)|
    }

    /** `date_has_event(date, exclude)`: some event is on `date`, other than the one
        with id `exclude` when that is given. */
    function DateHasEvent(date: string, exclude: Option<int>): (b: bool)
      reads this
      ensures b <==> exists ev :: ev in events && ev.date == date && (exclude.None? || ev.id != exclude.value)
    {
      CountOnDatePositive(events, date, exclude);
      CountOnDate(events, date, exclude) > 0
    }

    // ----- commands -----

    /** `create_event`: appends the event under a fresh id and returns that id. There
        is no date-conflict check here; only the form validators make one. */
    method CreateEvent(name: string, description: string, date: string, time: string, endTime: string,
                       venue: string := DefaultVenue, capacity: int := DefaultCapacity, price: real := 0.0)
      returns (id: int)
      requires Valid()
      modifies this`events, this`nextEventId
      ensures Valid()
      ensures id == old(nextEventId) && nextEventId == id + 1
      ensures events == old(events) + [Event(id, name, description, date, time, endTime, venue, capacity, price)]
      ensures EventById(id) == Some(Event(id, name, description, date, time, endTime, venue, capacity, price))
      ensures DateHasEvent(date, None) && !DateHasEvent(date, Some(id)) == !old(DateHasEvent(date, None))
    {
      id := nextEventId;
      var ev := Event(id, name, description, date, time, endTime, venue, capacity, price);
      CountAppended(events, ev, date);
      events := events + [ev];
      nextEventId := nextEventId + 1;
      assert ev in events;
    }

    /** `update_event`: a missing id changes nothing and answers false; otherwise every
        field given as `None` keeps its stored value, while venue and capacity are
        written whatever they are. */
    method UpdateEvent(id: int, name: Option<string> := None, description: Option<string> := None,
                       date: Option<string> := None, time: Option<string> := None,
                       endTime: Option<string> := None, venue: string := DefaultVenue,
                       capacity: int := DefaultCapacity, price: Option<real> := None)
      returns (ok: bool)
      requires Valid()
      modifies this`events
      ensures Valid()
      ensures ok <==> old(EventById(id)).Some?
      ensures !ok ==> events == old(events)
      ensures ok ==>
        var cur := old(EventById(id)).value;
        var ev := Event(id, name.GetOr(cur.name), description.GetOr(cur.description), date.GetOr(cur.date),
                        time.GetOr(cur.time), endTime.GetOr(cur.endTime), venue, capacity, price.GetOr(cur.price));
        && events == ReplaceEvent(old(events), id, ev)
        && EventById(id) == Some(ev)
    {
      var current := EventById(id);
      if current.None? {
        return false;
      }
      var cur := current.value;
      var ev := Event(id, name.GetOr(cur.name), description.GetOr(cur.description), date.GetOr(cur.date),
                      time.GetOr(cur.time), endTime.GetOr(cur.endTime), venue, capacity, price.GetOr(cur.price));
      ghost var k :| 0 <= k < |events| && events[k] == cur;
      ReplaceEventFacts(events, id, ev, k);
      events := ReplaceEvent(events, id, ev);
      ok := true;
    }

    /** `delete_event`: removes the event with that id, if any, and always answers
        true; the event's reservations are not removed. */
    method DeleteEvent(id: int) returns (ok: bool)
      requires Valid()
      modifies this`events
      ensures Valid()
      ensures ok
      ensures events == Filter(old(events), (ev: Event) => IdIsNot(id, ev))
      ensures EventById(id) == None
    {
      FilterIdsAscend(events, (ev: Event) => IdIsNot(id, ev));
      events := Filter(events, (ev: Event) => IdIsNot(id, ev));
      forall i | 0 <= i < |events| ensures 1 <= events[i].id < nextEventId {
        assert events[i] in old(events);
      }
      ok := true;
    }

    /** `cancel_reservation(u, e, row, number)`: deletes the row matching all four
        values and answers whether there was one. */
    method CancelReservation(u: string, e: int, row: string, number: int) returns (ok: bool)
      requires Valid()
      modifies this`reservations
      ensures Valid()
      ensures ok <==> Reservation(u, e, Seat(row, number)) in old(reservations)
      ensures reservations == Filter(old(reservations), (r: Reservation) => NotRow(Reservation(u, e, Seat(row, number)), r))
      ensures Reservation(u, e, Seat(row, number)) !in reservations
    {
      var target := Reservation(u, e, Seat(row, number));
      ok := target in reservations;
      FilterUnique(reservations, (r: Reservation) => NotRow(target, r));
      reservations := Filter(reservations, (r: Reservation) => NotRow(target, r));
    }

    /** `reserve_seats(u, e, seats)`: refuses the whole request when it would take `u`
        past the quota; otherwise tries each seat on its own, and succeeds iff none
        was refused. */
    method ReserveSeats(u: string, e: int, seats: seq<Seat>) returns (res: ReserveResult)
      requires Valid()
      modifies this`reservations
      ensures Valid()
      ensures old(GetUserReservationCount(e, u)) + |seats| > SeatLimit ==>
        && res == ReserveResult(false, [], seats, Some(QuotaMessage(old(GetUserReservationCount(e, u)))))
        && reservations == old(reservations)
      ensures old(GetUserReservationCount(e, u)) + |seats| <= SeatLimit ==>
        var b := InsertEach(old(reservations), u, e, seats);
        && reservations == b.rows
        && res == ReserveResult(|b.failed| == 0, b.reserved, b.failed, None)
        && GetUserReservationCount(e, u) == old(GetUserReservationCount(e, u)) + |res.reserved| <= SeatLimit
    {
      var count := GetUserReservationCount(e, u);
      if count + |seats| > SeatLimit {
        return ReserveResult(false, [], seats, Some(QuotaMessage(count)));
      }
      var reserved: seq<Seat> := [];
      var failed: seq<Seat> := [];
      for i := 0 to |seats|
        invariant Booking(reservations, reserved, failed) == InsertEach(old(reservations), u, e, seats[..i])
      {
        var s := seats[i];
        assert seats[..i + 1][..i] == seats[..i];
        if Held(reservations, e, s) {
          failed := failed + [s];
        } else {
          reservations := reservations + [Reservation(u, e, s)];
          reserved := reserved + [s];
        }
      }
      assert seats[..|seats|] == seats;
      InsertEachUnique(old(reservations), u, e, seats);
      InsertEachOwners(old(reservations), u, e, seats, u, e);
      QuotaKept(old(reservations), u, e, seats);
      res := ReserveResult(|failed| == 0, reserved, failed, None);
    }
  }

  /** A cancel by anyone but the seat's holder finds no row, since the constraint
      leaves one holder per seat. */
  lemma NonOwnerCancelFinds(rows: seq<Reservation>, owner: string, u: string, e: int, s: Seat)
    requires SeatsUnique(rows)
    requires Reservation(owner, e, s) in rows && owner != u
    ensures Reservation(u, e, s) !in rows
  {
  }
}
