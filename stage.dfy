/**
  The customer's seat-selection screen (`StageView`): the seats other users hold,
  the user's own seats, the seats selected but not yet booked, the user's
  reservation count, and one button per seat of the map. Message boxes become
  outcome values and the confirmation dialog becomes a parameter.
 */
module Stage {
  import opened SeqUtil
  import opened Ledger
  import opened Layout

  /** What clicking a seat's button does. */
  datatype Action = Disabled | CancelOwn | ToggleSelect

  /** A seat button's stored state: its action and the "selected" flag. */
  datatype SeatButton = SeatButton(action: Action, selected: bool)

  /** `create_seat_button`'s choice: a seat held by someone else is disabled, which
      takes priority; one of the user's own offers cancelling; any other toggles. */
  function Classify(reserved: set<Seat>, userReserved: set<Seat>, s: Seat): (a: Action)
    ensures a == Disabled <==> s in reserved
    ensures a == CancelOwn <==> s !in reserved && s in userReserved
    ensures a == ToggleSelect <==> s !in reserved && s !in userReserved
  {
    if s in reserved then Disabled
    else if s in userReserved then CancelOwn
    else ToggleSelect
  }

  /** Loaded from the ledger, the classification says who holds the seat: disabled
      iff another user holds it, cancel iff the user holds it, toggle iff it is free. */
  lemma ClassifyFromLedger(db: Database, e: int, u: string, s: Seat)
    requires db.Valid()
    ensures var a := Classify(SetOf(db.GetReservedSeats(e, u)), SetOf(db.GetUserReservedSeats(e, u)), s);
      && (a == Disabled <==> exists x :: x in db.reservations && x.eventId == e && x.username != u && x.seat == s)
      && (a == CancelOwn <==> Reservation(u, e, s) in db.reservations)
      && (a == ToggleSelect <==> !Held(db.reservations, e, s))
  {
    var rows := db.reservations;
    if Reservation(u, e, s) in rows {
      forall x | x in rows && x.eventId == e && x.seat == s ensures x.username == u {
        if x.username != u {
          NonOwnerCancelFinds(rows, x.username, u, e, s);
        }
      }
    }
  }

  /** The button `create_seat_button` makes for `s` from the screen's three sets. */
  function MakeButton(reserved: set<Seat>, userReserved: set<Seat>, selected: set<Seat>, s: Seat): SeatButton {
    SeatButton(Classify(reserved, userReserved, s), s in selected)
  }

  /** The book button's rule: something is selected and it fits in what is left of
      the quota. */
  predicate BookEnabled(selected: set<Seat>, count: int) {
    |selected| > 0 && |selected| <= SeatLimit - count
  }

  datatype ToggleOutcome = NoButton | LimitReached | Deselected | Selected

  datatype CancelOutcome = NotOwnSeat | Declined | Cancelled | CancelFailed

  datatype ReserveOutcome =
    | NoSelection
    | OverLimit(remaining: int)
    | Booked(reserved: seq<Seat>)
    | BookingFailed(failed: seq<Seat>)

  class StageView {
    const db: Database
    const eventId: int
    const username: string
    /** The seat map, `Rows`. */
    const rows: seq<RowSpec>
    /** Seats of this event held by other users. */
    var reservedSeats: set<Seat>
    /** Seats of this event held by this user. */
    var userReservedSeats: set<Seat>
    /** Seats picked but not yet booked. */
    var selectedSeats: set<Seat>
    var userReservationCount: int
    var seatButtons: map<Seat, SeatButton>
    var bookEnabled: bool

    /** Every seat of the map has a button, the buttons' "selected" flags mirror
        the selection, and only seats with a button are selected. */
    ghost predicate Valid()
      reads this
    {
      && (forall s :: s in seatButtons <==> InLayout(rows, s))
      && (forall s :: s in seatButtons ==> (seatButtons[s].selected <==> s in selectedSeats))
      && selectedSeats <= seatButtons.Keys
      && rows != []
    }

    /** Every button is the one `create_seat_button` makes from the current sets. */
    ghost predicate Shown()
      reads this`seatButtons, this`reservedSeats, this`userReservedSeats, this`selectedSeats
    {
      forall s :: s in seatButtons ==> seatButtons[s] == MakeButton(reservedSeats, userReservedSeats, selectedSeats, s)
    }

    constructor (db: Database, eventId: int, username: string)
      requires db.Valid()
      ensures Valid()
      ensures this.db == db && this.eventId == eventId && this.username == username && rows == Rows
      ensures reservedSeats == SetOf(db.GetReservedSeats(eventId, username))
      ensures userReservedSeats == SetOf(db.GetUserReservedSeats(eventId, username))
      ensures userReservationCount == db.GetUserReservationCount(eventId, username)
      ensures selectedSeats == {} && !bookEnabled
      ensures forall s :: s in seatButtons ==>
        seatButtons[s] == MakeButton(reservedSeats, userReservedSeats, selectedSeats, s)
    {
      this.db := db;
      this.eventId := eventId;
      this.username := username;
      rows := Rows;
      reservedSeats := SetOf(db.GetReservedSeats(eventId, username));
      userReservedSeats := SetOf(db.GetUserReservedSeats(eventId, username));
      userReservationCount := db.GetUserReservationCount(eventId, username);
      selectedSeats := {};
      seatButtons := map[];
      bookEnabled := false;
      new;
      InitializeSeats();
      UpdateReservedDisplay();
      UpdateSelectedDisplay();
    }

    /** `initialize_seats`: one button per seat of the map, made from the current sets. */
    method InitializeSeats()
      requires rows != []
      modifies this`seatButtons
      ensures forall s :: s in seatButtons <==> InLayout(rows, s)
      ensures Shown()
    {
      var ps := InitialiseSeats(rows);
      AllPlacementsSeats(rows, CenterCol(rows));
      var seats := SeatsOf(ps);
      seatButtons := map[];
      for k := 0 to |ps|
        invariant forall s :: s in seatButtons <==> s in seats[..k]
        invariant Shown()
      {
        var s := ps[k].seat;
        seatButtons := seatButtons[s := MakeButton(reservedSeats, userReservedSeats, selectedSeats, s)];
        assert seats[..k + 1] == seats[..k] + [s];
      }
      assert seats[..|ps|] == seats;
    }

    /** `update_reserved_display`: re-reads the user's count from the ledger. */
    method UpdateReservedDisplay()
      modifies this`userReservationCount
      ensures userReservationCount == db.GetUserReservationCount(eventId, username)
    {
      userReservationCount := db.GetUserReservationCount(eventId, username);
    }

    /** `update_selected_display`: the book button follows `BookEnabled`. */
    method UpdateSelectedDisplay()
      modifies this`bookEnabled
      ensures bookEnabled == BookEnabled(selectedSeats, userReservationCount)
    {
      if |selectedSeats| > 0 {
        var remainingSlots := SeatLimit - userReservationCount;
        bookEnabled := |selectedSeats| <= remainingSlots;
      } else {
        bookEnabled := false;
      }
    }

    /** `toggle_seat`: without a button nothing happens; picking one more seat is
        refused once count and selection already reach the quota; otherwise the
        seat's membership in the selection flips, and its flag with it. */
    method ToggleSeat(s: Seat) returns (outcome: ToggleOutcome)
      requires Valid()
      modifies this`selectedSeats, this`seatButtons, this`bookEnabled
      ensures Valid()
      ensures s !in old(seatButtons) ==> outcome == NoButton
      ensures outcome == NoButton || outcome == LimitReached ==>
        selectedSeats == old(selectedSeats) && seatButtons == old(seatButtons) && bookEnabled == old(bookEnabled)
      ensures s in old(seatButtons) && s !in old(selectedSeats) ==>
        if userReservationCount + |old(selectedSeats)| >= SeatLimit then outcome == LimitReached
        else outcome == Selected && selectedSeats == old(selectedSeats) + {s}
      ensures s in old(seatButtons) && s in old(selectedSeats) ==>
        outcome == Deselected && selectedSeats == old(selectedSeats) - {s}
      ensures outcome == Selected || outcome == Deselected ==>
        && seatButtons == old(seatButtons)[s := old(seatButtons)[s].(selected := outcome == Selected)]
        && bookEnabled == BookEnabled(selectedSeats, userReservationCount)
      ensures old(userReservationCount + |selectedSeats|) <= SeatLimit ==>
        userReservationCount + |selectedSeats| <= SeatLimit
      ensures old(Shown()) ==> Shown()
    {
      if s !in seatButtons {
        return NoButton;
      }
      var data := seatButtons[s];
      var selected := data.selected;
      assert selected <==> s in selectedSeats;
      if !selected && userReservationCount + |selectedSeats| >= SeatLimit {
        return LimitReached;
      }
      SetSelected(s, !selected);
      outcome := if selected then Deselected else Selected;
    }

    /** The update a permitted toggle makes: seat `s` joins the selection when `on`
        and leaves it otherwise, its button's flag follows, and so does the book
        button. */
    method SetSelected(s: Seat, on: bool)
      requires Valid() && s in seatButtons && (on <==> s !in selectedSeats)
      modifies this`selectedSeats, this`seatButtons, this`bookEnabled
      ensures Valid()
      ensures bookEnabled == BookEnabled(selectedSeats, userReservationCount)
      ensures selectedSeats == if on then old(selectedSeats) + {s} else old(selectedSeats) - {s}
      ensures |selectedSeats| == if on then |old(selectedSeats)| + 1 else |old(selectedSeats)| - 1
      ensures seatButtons == old(seatButtons)[s := old(seatButtons)[s].(selected := on)]
      ensures old(Shown()) ==> Shown()
    {
      seatButtons := seatButtons[s := seatButtons[s].(selected := on)];
      selectedSeats := if on then selectedSeats + {s} else selectedSeats - {s};
      UpdateSelectedDisplay();
    }

    /** `refresh_seat_buttons`: reloads both sets from the ledger and rebuilds the buttons. */
    method RefreshSeatButtons()
      requires rows != [] && forall s :: s in selectedSeats ==> InLayout(rows, s)
      modifies this`reservedSeats, this`userReservedSeats, this`seatButtons
      ensures Valid()
      ensures reservedSeats == SetOf(db.GetReservedSeats(eventId, username))
      ensures userReservedSeats == SetOf(db.GetUserReservedSeats(eventId, username))
      ensures Shown()
    {
      reservedSeats := SetOf(db.GetReservedSeats(eventId, username));
      userReservedSeats := SetOf(db.GetUserReservedSeats(eventId, username));
      seatButtons := map[];
      InitializeSeats();
    }

    /** What a successful cancel does after the ledger call: the count and both sets
        are read back from the ledger and the buttons rebuilt. */
    method Reload()
      requires Valid()
      modifies this`reservedSeats, this`userReservedSeats, this`seatButtons, this`userReservationCount
      ensures Valid()
      ensures userReservationCount == db.GetUserReservationCount(eventId, username)
      ensures reservedSeats == SetOf(db.GetReservedSeats(eventId, username))
      ensures userReservedSeats == SetOf(db.GetUserReservedSeats(eventId, username))
      ensures Shown()
    {
      UpdateReservedDisplay();
      RefreshSeatButtons();
    }

    /** `cancel_seat_reservation(s)`, with the user's answer to the confirmation
        dialog as `confirm`: only the user's own seats can be cancelled, and a
        cancel the ledger accepts reloads the count and the buttons. */
    method CancelSeatReservation(s: Seat, confirm: bool) returns (outcome: CancelOutcome)
      requires Valid() && db.Valid()
      modifies this`reservedSeats, this`userReservedSeats, this`seatButtons, this`userReservationCount, db`reservations
      ensures Valid() && db.Valid()
      ensures s !in old(userReservedSeats) ==> outcome == NotOwnSeat
      ensures s in old(userReservedSeats) && !confirm ==> outcome == Declined
      ensures outcome == NotOwnSeat || outcome == Declined ==>
        db.reservations == old(db.reservations) && unchanged(this)
      ensures s in old(userReservedSeats) && confirm ==>
        var target := Reservation(username, eventId, s);
        && (outcome == Cancelled <==> target in old(db.reservations))
        && db.reservations == Filter(old(db.reservations), (r: Reservation) => NotRow(target, r))
      ensures outcome == CancelFailed ==> unchanged(this)
      ensures outcome == Cancelled ==>
        && s !in userReservedSeats
        && userReservationCount == db.GetUserReservationCount(eventId, username)
        && reservedSeats == SetOf(db.GetReservedSeats(eventId, username))
        && userReservedSeats == SetOf(db.GetUserReservedSeats(eventId, username))
        && selectedSeats == old(selectedSeats) && Shown()
    {
      if s !in userReservedSeats {
        return NotOwnSeat;
      }
      if !confirm {
        return Declined;
      }
      var success := db.CancelReservation(username, eventId, s.row, s.number);
      if success {
        userReservedSeats := userReservedSeats - {s};
        Reload();
        outcome := Cancelled;
      } else {
        outcome := CancelFailed;
      }
    }

    /** What `reserve_selected_seats` does once every seat was booked: the count
        grows by the booked seats, the user's seats are read back, the selection is
        cleared and the screen reloads. */
    method AfterBooking(reserved: seq<Seat>)
      requires Valid()
      modifies this
      ensures Valid()
      ensures selectedSeats == {} && !bookEnabled
      ensures userReservationCount == db.GetUserReservationCount(eventId, username)
      ensures reservedSeats == SetOf(db.GetReservedSeats(eventId, username))
      ensures userReservedSeats == SetOf(db.GetUserReservedSeats(eventId, username))
      ensures forall s :: s in seatButtons ==>
        seatButtons[s] == MakeButton(reservedSeats, userReservedSeats, selectedSeats, s)
    {
      userReservationCount := userReservationCount + |reserved|;
      userReservedSeats := SetOf(db.GetUserReservedSeats(eventId, username));
      selectedSeats := {};
      UpdateReservedDisplay();
      UpdateSelectedDisplay();
      RefreshSeatButtons();
    }

    /** `reserve_selected_seats`: an empty selection, or one past the quota by the
        screen's own count, is turned away before the ledger is asked; otherwise the
        selection, listed as `requested`, goes to `reserve_seats`. If every seat was
        booked the selection is cleared and the screen reloads from the ledger; if
        not, the screen stays as it was, though the seats that were free remain
        booked in the ledger. */
    method ReserveSelectedSeats() returns (outcome: ReserveOutcome, requested: seq<Seat>)
      requires Valid() && db.Valid()
      modifies this, db`reservations
      ensures Valid() && db.Valid()
      ensures Distinct(requested) && forall s :: s in requested <==> s in old(selectedSeats)
      ensures old(selectedSeats) == {} <==> outcome == NoSelection
      ensures outcome.OverLimit? <==>
        old(selectedSeats) != {} && old(userReservationCount) + |old(selectedSeats)| > SeatLimit
      ensures outcome.OverLimit? ==> outcome.remaining == SeatLimit - old(userReservationCount)
      ensures db.reservations ==
        if outcome.OverLimit? || old(db.GetUserReservationCount(eventId, username)) + |requested| > SeatLimit
        then old(db.reservations)
        else InsertEach(old(db.reservations), username, eventId, requested).rows
      ensures old(db.reservations) <= db.reservations
      ensures !outcome.Booked? ==> unchanged(this)
      ensures outcome.Booked? || outcome.BookingFailed? ==>
        Booking(old(db.reservations), old(db.GetUserReservationCount(eventId, username)), requested, outcome)
      ensures outcome.Booked? ==> Reloaded(old(selectedSeats), outcome.reserved)
      ensures outcome.Booked? ==>
        userReservationCount == old(db.GetUserReservationCount(eventId, username)) + |outcome.reserved|
    {
      var seatsToReserve := Enumerate(selectedSeats);
      requested := seatsToReserve;
      if |seatsToReserve| == 0 {
        return NoSelection, requested;
      }
      var totalSeatsAfter := userReservationCount + |seatsToReserve|;
      if totalSeatsAfter > SeatLimit {
        return OverLimit(SeatLimit - userReservationCount), requested;
      }
      outcome := BookSeats(seatsToReserve);
    }

    /** The outcome `reserve_seats(username, eventId, seats)` reports from `rows`,
        where the user held `count` seats: refused whole past the quota, otherwise
        the per-seat insert loop, successful iff nothing failed. */
    ghost predicate Booking(rows: seq<Reservation>, count: int, seats: seq<Seat>, outcome: ReserveOutcome)
      reads this
    {
      var over := count + |seats| > SeatLimit;
      var b := InsertEach(rows, username, eventId, seats);
      && (outcome.Booked? <==> !over && |b.failed| == 0)
      && (outcome.Booked? ==> outcome.reserved == b.reserved)
      && (outcome.BookingFailed? ==> outcome.failed == if over then seats else b.failed)
    }

    /** The screen after a booking of `reserved` for the selection `selected`: the
        selection is cleared, every selected seat is the user's in the ledger, and
        the count, the sets and the buttons are read back from the ledger. */
    ghost predicate Reloaded(selected: set<Seat>, reserved: seq<Seat>)
      reads this, db
    {
      && SetOf(reserved) == selected
      && selectedSeats == {} && !bookEnabled
      && userReservationCount == db.GetUserReservationCount(eventId, username)
      && reservedSeats == SetOf(db.GetReservedSeats(eventId, username))
      && userReservedSeats == SetOf(db.GetUserReservedSeats(eventId, username))
      && Shown()
      && (forall s :: s in selected ==> Reservation(username, eventId, s) in db.reservations)
    }

    /** The ledger call of `reserve_selected_seats`, for the selection listed as `seats`. */
    method BookSeats(seats: seq<Seat>) returns (outcome: ReserveOutcome)
      requires Valid() && db.Valid()
      requires forall s :: s in seats <==> s in selectedSeats
      modifies this, db`reservations
      ensures Valid() && db.Valid()
      ensures outcome.Booked? || outcome.BookingFailed?
      ensures db.reservations ==
        if old(db.GetUserReservationCount(eventId, username)) + |seats| > SeatLimit then old(db.reservations)
        else InsertEach(old(db.reservations), username, eventId, seats).rows
      ensures old(db.reservations) <= db.reservations
      ensures Booking(old(db.reservations), old(db.GetUserReservationCount(eventId, username)), seats, outcome)
      ensures outcome.BookingFailed? ==> unchanged(this)
      ensures outcome.Booked? ==> Reloaded(old(selectedSeats), outcome.reserved)
      ensures outcome.Booked? ==>
        userReservationCount == old(db.GetUserReservationCount(eventId, username)) + |outcome.reserved|
    {
      ghost var rows := db.reservations;
      var result := db.ReserveSeats(username, eventId, seats);
      InsertEachGrows(rows, username, eventId, seats);
      if result.success {
        InsertEachAllBooked(rows, username, eventId, seats);
        AfterBooking(result.reserved);
        outcome := Booked(result.reserved);
      } else {
        outcome := BookingFailed(result.failed);
      }
    }
  }
}
