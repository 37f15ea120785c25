/**
  The administrator's seat map (`AdminStageView`): every reservation of one event
  as (row, number, username) triples, one entry per seat of the map saying whether
  it is reserved and by whom, the header statistics, the admin cancel flow and the
  list the CSV export is built from.
 */
module AdminStage {
  import opened Options
  import opened SeqUtil
  import opened Text
  import opened Ledger
  import opened Layout

  /** A `(seat_row, seat_number, username)` row of `get_all_reserved_seats`. */
  datatype Holder = Holder(row: string, number: int, username: string)

  /** ORDER BY seat_row, seat_number. */
  predicate HolderLe(a: Holder, b: Holder) {
    SeatLe(Seat(a.row, a.number), Seat(b.row, b.number))
  }

  lemma HolderLeTotalPreorder()
    ensures TotalPreorder(HolderLe)
  {
    SeatLeTotalPreorder();
    forall a: Holder, b: Holder ensures HolderLe(a, b) || HolderLe(b, a) {
      assert SeatLe(Seat(a.row, a.number), Seat(b.row, b.number)) || SeatLe(Seat(b.row, b.number), Seat(a.row, a.number));
    }
    forall a: Holder, b: Holder, c: Holder | HolderLe(a, b) && HolderLe(b, c) ensures HolderLe(a, c) {
      assert SeatLe(Seat(a.row, a.number), Seat(c.row, c.number));
    }
  }

  /** The triples of event `e`, in table order. */
  function HoldersOf(rows: seq<Reservation>, e: int): (hs: seq<Holder>)
    ensures forall h :: h in hs <==> Reservation(h.username, e, Seat(h.row, h.number)) in rows
  {
    if rows == [] then []
    else
      var x := rows[|rows| - 1];
      var init := HoldersOf(rows[..|rows| - 1], e);
      assert rows == rows[..|rows| - 1] + [x];
      if x.eventId == e then init + [Holder(x.seat.row, x.seat.number, x.username)] else init
  }

  /** `get_all_reserved_seats`: every reservation of event `e`, ordered by row then number. */
  function GetAllReservedSeats(db: Database, e: int): (hs: seq<Holder>)
    reads db
    ensures SortedBy(hs, HolderLe)
    ensures forall h :: h in hs <==> Reservation(h.username, e, Seat(h.row, h.number)) in db.reservations
  {
    var all := HoldersOf(db.reservations, e);
    HolderLeTotalPreorder();
    SortBySorted(all, HolderLe);
    SortByMembers(all, HolderLe);
    SortBy(all, HolderLe)
  }

  /** Some triple is for seat `s`. */
  predicate HeldIn(hs: set<Holder>, s: Seat) {
    exists h :: h in hs && h.row == s.row && h.number == s.number
  }

  /** With the uniqueness constraint, the triples loaded from the ledger name at
      most one holder per seat, so the first match is the only one. */
  lemma HoldersUnique(db: Database, e: int, h1: Holder, h2: Holder)
    requires db.Valid()
    requires h1 in GetAllReservedSeats(db, e) && h2 in GetAllReservedSeats(db, e)
    requires h1.row == h2.row && h1.number == h2.number
    ensures h1 == h2
  {
    if h1.username != h2.username {
      NonOwnerCancelFinds(db.reservations, h1.username, h2.username, e, Seat(h1.row, h1.number));
    }
  }

  /** No seat has two holders among the triples. */
  ghost predicate OneHolderPerSeat(hs: set<Holder>) {
    forall h1, h2 :: h1 in hs && h2 in hs && h1.row == h2.row && h1.number == h2.number ==> h1 == h2
  }

  /** The triples the view loads have one holder per seat. */
  lemma LoadedHoldersUnique(db: Database, e: int)
    requires db.Valid()
    ensures OneHolderPerSeat(SetOf(GetAllReservedSeats(db, e)))
  {
    var loaded := SetOf(GetAllReservedSeats(db, e));
    forall h1, h2 | h1 in loaded && h2 in loaded && h1.row == h2.row && h1.number == h2.number
      ensures h1 == h2
    {
      HoldersUnique(db, e, h1, h2);
    }
  }

  /** What the admin view keeps per seat: reserved or not, and by whom. */
  datatype AdminSeat = AdminSeat(reserved: bool, username: Option<string>)

  /** The entry agrees with the triples: reserved iff some triple is for the seat,
      and then the username is that of such a triple. */
  predicate Describes(hs: set<Holder>, s: Seat, a: AdminSeat) {
    && (a.reserved <==> HeldIn(hs, s))
    && (a.reserved ==> a.username.Some? && Holder(s.row, s.number, a.username.value) in hs)
    && (!a.reserved ==> a.username == None)
  }

  /** One line of the export: `seat_id` is the row followed by the number. */
  datatype ExportRow = ExportRow(seatId: string, row: string, seat: int, username: string)

  function ExportRowOf(h: Holder): ExportRow {
    ExportRow(h.row + IntToString(h.number), h.row, h.number, h.username)
  }

  /** The sort key `(row, seat)`. */
  predicate ExportLe(a: ExportRow, b: ExportRow) {
    SeatLe(Seat(a.row, a.seat), Seat(b.row, b.seat))
  }

  lemma ExportLeTotalPreorder()
    ensures TotalPreorder(ExportLe)
  {
    SeatLeTotalPreorder();
    forall a: ExportRow, b: ExportRow ensures ExportLe(a, b) || ExportLe(b, a) {
      assert SeatLe(Seat(a.row, a.seat), Seat(b.row, b.seat)) || SeatLe(Seat(b.row, b.seat), Seat(a.row, a.seat));
    }
    forall a: ExportRow, b: ExportRow, c: ExportRow | ExportLe(a, b) && ExportLe(b, c) ensures ExportLe(a, c) {
      assert SeatLe(Seat(a.row, a.seat), Seat(c.row, c.seat));
    }
  }

  datatype AdminCancelOutcome = AdminDeclined | AdminCancelled | AdminCancelFailed

  class AdminStageView {
    const db: Database
    const eventId: int
    /** The seat map, `Rows`. */
    const rows: seq<RowSpec>
    /** `self.event` is not `None`. */
    const eventPresent: bool
    /** The triples loaded when the view opened; nothing reloads them. */
    var reservedSeats: set<Holder>
    var seatButtons: map<Seat, AdminSeat>
    var totalSeats: int
    var reservedCount: int
    /** The "Available" figure of the header. */
    var available: int

    ghost predicate Valid()
      reads this
    {
      && rows != []
      && (forall s :: s in seatButtons <==> InLayout(rows, s))
      && (eventPresent ==> reservedCount == |reservedSeats|)
      && (eventPresent ==> available == totalSeats - reservedCount)
    }

    constructor (db: Database, eventId: int)
      requires db.Valid()
      ensures Valid()
      ensures OneHolderPerSeat(reservedSeats)
      ensures this.db == db && this.eventId == eventId && rows == Rows
      ensures eventPresent == db.EventById(eventId).Some?
      ensures reservedSeats == SetOf(GetAllReservedSeats(db, eventId))
      ensures totalSeats == TotalSeats(Rows) == 450
      ensures reservedCount == |reservedSeats|
      ensures available == totalSeats - reservedCount
      ensures forall s :: s in seatButtons ==> Describes(reservedSeats, s, seatButtons[s])
    {
      this.db := db;
      this.eventId := eventId;
      rows := Rows;
      eventPresent := db.EventById(eventId).Some?;
      var loaded := SetOf(GetAllReservedSeats(db, eventId));
      reservedSeats := loaded;
      seatButtons := map[];
      RowsTotal();
      totalSeats := TotalSeats(Rows);
      reservedCount := |loaded|;
      available := TotalSeats(Rows) - |loaded|;
      new;
      LoadedHoldersUnique(db, eventId);
      InitializeSeats();
    }

    /** The search in `create_seat_button`: the triples in the set's iteration
        order, stopping at the first one for seat `s`. */
    method FindHolder(s: Seat) returns (entry: AdminSeat)
      ensures Describes(reservedSeats, s, entry)
    {
      var hs := Enumerate(reservedSeats);
      var isReserved := false;
      var username: Option<string> := None;
      var k := 0;
      while k < |hs|
        invariant 0 <= k <= |hs|
        invariant isReserved <==> username.Some?
        invariant !isReserved ==> forall j :: 0 <= j < k ==> !(hs[j].row == s.row && hs[j].number == s.number)
        invariant forall u :: username == Some(u) ==> Holder(s.row, s.number, u) in reservedSeats
        decreases |hs| - k, if isReserved then 0 else 1
      {
        if hs[k].row == s.row && hs[k].number == s.number {
          isReserved := true;
          username := Some(hs[k].username);
          break;
        }
        k := k + 1;
      }
      if !isReserved {
        forall h | h in reservedSeats ensures !(h.row == s.row && h.number == s.number) {
          assert h in hs;
        }
      }
      entry := AdminSeat(isReserved, username);
    }

    /** `initialize_seats`: an entry for every seat of the map. */
    method InitializeSeats()
      requires rows != [] && (eventPresent ==> reservedCount == |reservedSeats|)
      requires eventPresent ==> available == totalSeats - reservedCount
      modifies this`seatButtons
      ensures Valid()
      ensures forall s :: s in seatButtons ==> Describes(reservedSeats, s, seatButtons[s])
    {
      var ps := InitialiseSeats(rows);
      AllPlacementsSeats(rows, CenterCol(rows));
      var seats := SeatsOf(ps);
      seatButtons := map[];
      for k := 0 to |ps|
        invariant forall s :: s in seatButtons <==> s in seats[..k]
        invariant forall s :: s in seatButtons ==> Describes(reservedSeats, s, seatButtons[s])
      {
        var s := ps[k].seat;
        var entry := FindHolder(s);
        seatButtons := seatButtons[s := entry];
        assert seats[..k + 1] == seats[..k] + [s];
      }
      assert seats[..|ps|] == seats;
    }

    /** `update_stats`: with an event loaded, the reserved figure is recounted from
        the triples, which a cancel does not touch. */
    method UpdateStats()
      modifies this`reservedCount, this`available
      ensures eventPresent ==> reservedCount == |reservedSeats| && available == totalSeats - reservedCount
      ensures !eventPresent ==> reservedCount == old(reservedCount) && available == old(available)
    {
      if eventPresent {
        reservedCount := |reservedSeats|;
        available := totalSeats - reservedCount;
      }
    }

    /** The username `cancel_reservation` passes to the ledger for seat `s`: the
        entry's holder, `None` for a seat not reserved, "Unknown" for no entry. */
    function CancelUsername(s: Seat): Option<string>
      reads this
    {
      if s in seatButtons then seatButtons[s].username else Some("Unknown")
    }

    /** `cancel_reservation(s)`, with the admin's answer to the confirmation dialog as
        `confirm`. The ledger is asked to delete the reservation of the seat's stored
        holder; a `None` holder is compared as SQL NULL and matches no row. On success
        the seat's entry is cleared and the reserved figure is decremented, after which
        `update_stats` recounts it from the unchanged triples. */
    method CancelReservation(s: Seat, confirm: bool) returns (outcome: AdminCancelOutcome)
      requires Valid() && db.Valid()
      modifies this`seatButtons, this`reservedCount, this`available, db`reservations
      ensures Valid() && db.Valid()
      ensures reservedSeats == old(reservedSeats)
      ensures !confirm ==> outcome == AdminDeclined && db.reservations == old(db.reservations)
      ensures confirm && old(CancelUsername(s)).None? ==> outcome == AdminCancelFailed && db.reservations == old(db.reservations)
      ensures confirm && old(CancelUsername(s)).Some? ==>
        var target := Reservation(old(CancelUsername(s)).value, eventId, s);
        && (outcome == AdminCancelled <==> target in old(db.reservations))
        && db.reservations == Filter(old(db.reservations), (r: Reservation) => NotRow(target, r))
      ensures outcome == AdminCancelled ==>
        && (s in old(seatButtons) ==> seatButtons == old(seatButtons)[s := AdminSeat(false, None)])
        && (s !in old(seatButtons) ==> seatButtons == old(seatButtons))
        && (eventPresent ==> reservedCount == old(reservedCount))
        && (!eventPresent ==> reservedCount == old(reservedCount) - 1)
      ensures outcome != AdminCancelled ==> seatButtons == old(seatButtons) && reservedCount == old(reservedCount)
      ensures available == old(available)
    {
      var username := CancelUsername(s);
      if !confirm {
        return AdminDeclined;
      }
      var success := false;
      if username.Some? {
        success := db.CancelReservation(username.value, eventId, s.row, s.number);
      }
      if success {
        if s in seatButtons {
          seatButtons := seatButtons[s := AdminSeat(false, None)];
        }
        reservedCount := reservedCount - 1;
        UpdateStats();
        outcome := AdminCancelled;
      } else {
        outcome := AdminCancelFailed;
      }
    }

    /** `cancel_reservation` with the triples kept in step with the ledger: the
        cancelled triple also leaves `reservedSeats`, so the recount made by
        `update_stats` drops by one and the entries keep describing the triples. */
    method CancelReservationRecounted(s: Seat, confirm: bool) returns (outcome: AdminCancelOutcome)
      requires Valid() && db.Valid() && OneHolderPerSeat(reservedSeats)
      requires forall t :: t in seatButtons ==> Describes(reservedSeats, t, seatButtons[t])
      modifies this`seatButtons, this`reservedSeats, this`reservedCount, this`available, db`reservations
      ensures Valid() && db.Valid() && OneHolderPerSeat(reservedSeats)
      ensures forall t :: t in seatButtons ==> Describes(reservedSeats, t, seatButtons[t])
      ensures !confirm ==> outcome == AdminDeclined && db.reservations == old(db.reservations)
      ensures confirm && old(CancelUsername(s)).None? ==> outcome == AdminCancelFailed && db.reservations == old(db.reservations)
      ensures confirm && old(CancelUsername(s)).Some? ==>
        var target := Reservation(old(CancelUsername(s)).value, eventId, s);
        && (outcome == AdminCancelled <==> target in old(db.reservations))
        && db.reservations == Filter(old(db.reservations), (r: Reservation) => NotRow(target, r))
      ensures outcome == AdminCancelled ==>
        && reservedSeats == old(reservedSeats) - {Holder(s.row, s.number, old(CancelUsername(s)).value)}
        && (s in old(seatButtons) ==> seatButtons == old(seatButtons)[s := AdminSeat(false, None)])
        && (s in old(seatButtons) ==> reservedCount == old(reservedCount) - 1)
      ensures outcome != AdminCancelled ==>
        seatButtons == old(seatButtons) && reservedSeats == old(reservedSeats) && reservedCount == old(reservedCount)
      ensures outcome == AdminCancelled && eventPresent && s in old(seatButtons) ==> available == old(available) + 1
      ensures outcome != AdminCancelled || !eventPresent ==> available == old(available)
    {
      var username := CancelUsername(s);
      if !confirm {
        return AdminDeclined;
      }
      var success := false;
      if username.Some? {
        success := db.CancelReservation(username.value, eventId, s.row, s.number);
      }
      if success {
        DropHolder(s, username.value);
        outcome := AdminCancelled;
      } else {
        outcome := AdminCancelFailed;
      }
    }

    /** The screen side of a successful recounted cancel of `s`, held by `u`: the
        triple leaves the set, the entry is cleared and the figures are recounted. */
    method DropHolder(s: Seat, u: string)
      requires Valid() && OneHolderPerSeat(reservedSeats) && CancelUsername(s) == Some(u)
      requires forall t :: t in seatButtons ==> Describes(reservedSeats, t, seatButtons[t])
      modifies this`seatButtons, this`reservedSeats, this`reservedCount, this`available
      ensures Valid() && OneHolderPerSeat(reservedSeats)
      ensures forall t :: t in seatButtons ==> Describes(reservedSeats, t, seatButtons[t])
      ensures reservedSeats == old(reservedSeats) - {Holder(s.row, s.number, u)}
      ensures s in old(seatButtons) ==> seatButtons == old(seatButtons)[s := AdminSeat(false, None)]
      ensures s in old(seatButtons) ==> reservedCount == old(reservedCount) - 1
      ensures eventPresent && s in old(seatButtons) ==> available == old(available) + 1
      ensures !eventPresent ==> available == old(available)
    {
      var h := Holder(s.row, s.number, u);
      ghost var before := reservedSeats;
      if s in seatButtons {
        assert h in before;
        seatButtons := seatButtons[s := AdminSeat(false, None)];
      }
      reservedSeats := reservedSeats - {h};
      reservedCount := reservedCount - 1;
      UpdateStats();
      forall t | t in seatButtons ensures Describes(reservedSeats, t, seatButtons[t]) {
        if t != s {
          if HeldIn(before, t) {
            var g :| g in before && g.row == t.row && g.number == t.number;
            assert g in reservedSeats;
          }
        }
      }
    }

    /** The list `export_reservation_data` writes: one row per triple, sorted by row
        then seat number, or nothing when there are no reservations. */
    method ExportRows() returns (r: Option<seq<ExportRow>>)
      ensures r.None? <==> reservedSeats == {}
      ensures r.Some? ==>
        && SortedBy(r.value, ExportLe)
        && |r.value| == |reservedSeats|
        && (forall x :: x in r.value <==> exists h :: h in reservedSeats && x == ExportRowOf(h))
    {
      var hs := Enumerate(reservedSeats);
      var allReservations: seq<ExportRow> := [];
      for k := 0 to |hs|
        invariant |allReservations| == k
        invariant forall j :: 0 <= j < k ==> allReservations[j] == ExportRowOf(hs[j])
      {
        allReservations := allReservations + [ExportRowOf(hs[k])];
      }
      if |allReservations| == 0 {
        return None;
      }
      var sorted := SortBy(allReservations, ExportLe);
      ExportLeTotalPreorder();
      SortBySorted(allReservations, ExportLe);
      SortByMembers(allReservations, ExportLe);
      forall x ensures x in sorted <==> exists h :: h in reservedSeats && x == ExportRowOf(h) {
        if x in sorted {
          var j :| 0 <= j < |allReservations| && allReservations[j] == x;
          assert hs[j] in reservedSeats;
        }
        if exists h :: h in reservedSeats && x == ExportRowOf(h) {
          var h :| h in reservedSeats && x == ExportRowOf(h);
          var j :| 0 <= j < |hs| && hs[j] == h;
          assert allReservations[j] == x;
        }
      }
      r := Some(sorted);
    }
  }
}
