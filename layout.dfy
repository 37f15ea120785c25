/**
  The auditorium seat map shared by the booking and admin stage views: fourteen
  rows of fixed sizes, each split into a left and a right half around a centre
  aisle, with seats numbered left to right across both halves.
 */
module Layout {
  import opened SeqUtil
  import opened Ledger

  /** One row of the map: its letter and how many seats it has. */
  datatype RowSpec = RowSpec(letter: string, size: nat)

  const Rows: seq<RowSpec> := [
    RowSpec("A", 24), RowSpec("B", 24), RowSpec("C", 28), RowSpec("D", 28),
    RowSpec("E", 32), RowSpec("F", 32), RowSpec("G", 36), RowSpec("H", 36),
    RowSpec("I", 36), RowSpec("J", 36), RowSpec("K", 36), RowSpec("L", 36),
    RowSpec("M", 34), RowSpec("N", 32)]

  /** `max(size for each row)`. */
  function MaxSize(rows: seq<RowSpec>): (m: nat)
    requires rows != []
    ensures forall i :: 0 <= i < |rows| ==> rows[i].size <= m
    ensures exists i :: 0 <= i < |rows| && rows[i].size == m
  {
    if |rows| == 1 then rows[0].size
    else
      var m := MaxSize(rows[..|rows| - 1]);
      var last := rows[|rows| - 1].size;
      if last > m then last else m
  }

  function TotalSeats(rows: seq<RowSpec>): nat {
    if rows == [] then 0 else TotalSeats(rows[..|rows| - 1]) + rows[|rows| - 1].size
  }

  /** The grid column of the aisle: five past the widest row. */
  function CenterCol(rows: seq<RowSpec>): nat
    requires rows != []
  {
    MaxSize(rows) + 5
  }

  /** The seat is on the map: a row with that letter has a seat with that number. */
  predicate InLayout(rows: seq<RowSpec>, s: Seat) {
    exists i :: 0 <= i < |rows| && rows[i].letter == s.row && 1 <= s.number <= rows[i].size
  }

  lemma RowsShape()
    ensures |Rows| == 14
    ensures forall i :: 0 <= i < |Rows| ==> Rows[i].letter == [(('A' as int) + i) as char]
    ensures MaxSize(Rows) == 36 && CenterCol(Rows) == 41
  {
  }

  /** The fourteen rows hold 450 seats. */
  lemma RowsTotal()
    ensures TotalSeats(Rows) == 450
  {
    assert Rows[..1][..0] == Rows[..0];
    assert TotalSeats(Rows[..1]) == 24;
    assert Rows[..2][..1] == Rows[..1];
    assert TotalSeats(Rows[..2]) == 48;
    assert Rows[..3][..2] == Rows[..2];
    assert TotalSeats(Rows[..3]) == 76;
    assert Rows[..4][..3] == Rows[..3];
    assert TotalSeats(Rows[..4]) == 104;
    assert Rows[..5][..4] == Rows[..4];
    assert TotalSeats(Rows[..5]) == 136;
    assert Rows[..6][..5] == Rows[..5];
    assert TotalSeats(Rows[..6]) == 168;
    assert Rows[..7][..6] == Rows[..6];
    assert TotalSeats(Rows[..7]) == 204;
    assert Rows[..8][..7] == Rows[..7];
    assert TotalSeats(Rows[..8]) == 240;
    assert Rows[..9][..8] == Rows[..8];
    assert TotalSeats(Rows[..9]) == 276;
    assert Rows[..10][..9] == Rows[..9];
    assert TotalSeats(Rows[..10]) == 312;
    assert Rows[..11][..10] == Rows[..10];
    assert TotalSeats(Rows[..11]) == 348;
    assert Rows[..12][..11] == Rows[..11];
    assert TotalSeats(Rows[..12]) == 384;
    assert Rows[..13][..12] == Rows[..12];
    assert TotalSeats(Rows[..13]) == 418;
    assert Rows[..14][..13] == Rows[..13];
    assert TotalSeats(Rows[..14]) == 450;
    assert Rows[..14] == Rows;
  }

  /** No two rows share a letter. */
  lemma RowsLabelsDistinct()
    ensures forall i, j :: 0 <= i < j < |Rows| ==> Rows[i].letter != Rows[j].letter
  {
    RowsShape();
  }

  // ----- placement -----

  /** Where `initialise_seats` asks for a seat button: grid row and column, and the seat. */
  datatype Placement = Placement(gridRow: nat, col: int, seat: Seat)

  /** The seats of row `r`, left half then right half. */
  function RowPlacements(r: nat, row: RowSpec, center: int): (ps: seq<Placement>)
    ensures |ps| == row.size
  {
    var left := row.size / 2;
    seq(left, c requires 0 <= c < left => Placement(r, center - left + c, Seat(row.letter, c + 1)))
      + seq(row.size - left, c requires 0 <= c < row.size - left => Placement(r, center + 1 + c, Seat(row.letter, left + c + 1)))
  }

  /** Numbering: the k-th seat of a row is seat k + 1, so a row of size n has seats
      1..n, each once; the left half holds 1..n/2 and the right half the rest. */
  lemma RowNumbering(r: nat, row: RowSpec, center: int)
    ensures var ps := RowPlacements(r, row, center);
      forall k :: 0 <= k < |ps| ==> ps[k].gridRow == r && ps[k].seat == Seat(row.letter, k + 1)
  {
  }

  /** Columns: the left half ends just before the aisle, the right half starts just
      after it; columns strictly increase and none is the aisle's. */
  lemma RowColumns(r: nat, row: RowSpec, center: int)
    ensures var ps := RowPlacements(r, row, center);
      && (forall k :: 0 <= k < |ps| ==> ps[k].col != center)
      && (forall k :: 0 <= k < |ps| ==> (ps[k].col < center <==> k < row.size / 2))
      && (forall k, l :: 0 <= k < l < |ps| ==> ps[k].col < ps[l].col)
      && (forall k :: 0 <= k < |ps| ==> center - row.size / 2 <= ps[k].col <= center + row.size - row.size / 2)
  {
    var ps := RowPlacements(r, row, center);
    var left := row.size / 2;
    assert forall k :: 0 <= k < left ==> ps[k].col == center - left + k;
    assert forall k :: left <= k < |ps| ==> ps[k].col == center + 1 + k - left;
  }

  /** The left row letter sits at `center - size/2 - 1`, which for any row of the map
      is at least 4 and so never a negative grid column. */
  lemma LabelColumnNonNegative(rows: seq<RowSpec>, i: nat)
    requires i < |rows|
    ensures CenterCol(rows) - rows[i].size / 2 - 1 >= 4
  {
  }

  /** Every seat button `initialise_seats` asks for, row by row. */
  function AllPlacements(rows: seq<RowSpec>, center: int): (ps: seq<Placement>)
    ensures |ps| == TotalSeats(rows)
  {
    if rows == [] then []
    else AllPlacements(rows[..|rows| - 1], center) + RowPlacements(|rows| - 1, rows[|rows| - 1], center)
  }

  function SeatsOf(ps: seq<Placement>): (ss: seq<Seat>)
    ensures |ss| == |ps|
    ensures forall k :: 0 <= k < |ps| ==> ss[k] == ps[k].seat
  {
    seq(|ps|, k requires 0 <= k < |ps| => ps[k].seat)
  }

  /** The buttons are exactly the seats of the map. */
  lemma {:induction false} AllPlacementsSeats(rows: seq<RowSpec>, center: int)
    ensures forall s :: s in SeatsOf(AllPlacements(rows, center)) <==> InLayout(rows, s)
  {
    if rows != [] {
      var init := rows[..|rows| - 1];
      var last := rows[|rows| - 1];
      AllPlacementsSeats(init, center);
      var a := AllPlacements(init, center);
      var b := RowPlacements(|rows| - 1, last, center);
      RowNumbering(|rows| - 1, last, center);
      assert SeatsOf(a + b) == SeatsOf(a) + SeatsOf(b);
      forall s ensures s in SeatsOf(a + b) <==> InLayout(rows, s) {
        if s in SeatsOf(b) {
          var k :| 0 <= k < |b| && SeatsOf(b)[k] == s;
          assert rows[|rows| - 1].letter == s.row && 1 <= s.number <= rows[|rows| - 1].size;
        }
        if InLayout(rows, s) {
          var i :| 0 <= i < |rows| && rows[i].letter == s.row && 1 <= s.number <= rows[i].size;
          if i < |init| {
            assert init[i] == rows[i];
            assert InLayout(init, s);
          } else {
            assert SeatsOf(b)[s.number - 1] == s;
          }
        }
        if InLayout(init, s) {
          var i :| 0 <= i < |init| && init[i].letter == s.row && 1 <= s.number <= init[i].size;
          assert rows[i] == init[i];
        }
      }
    }
  }

  /** With distinct labels, no seat gets two buttons. */
  lemma {:induction false} AllPlacementsDistinct(rows: seq<RowSpec>, center: int)
    requires forall i, j :: 0 <= i < j < |rows| ==> rows[i].letter != rows[j].letter
    ensures Distinct(SeatsOf(AllPlacements(rows, center)))
  {
    if rows != [] {
      var init := rows[..|rows| - 1];
      var last := rows[|rows| - 1];
      AllPlacementsDistinct(init, center);
      AllPlacementsSeats(init, center);
      var a := AllPlacements(init, center);
      var b := RowPlacements(|rows| - 1, last, center);
      RowNumbering(|rows| - 1, last, center);
      var sa, sb := SeatsOf(a), SeatsOf(b);
      assert SeatsOf(a + b) == sa + sb;
      forall i, j | 0 <= i < j < |sa + sb| ensures (sa + sb)[i] != (sa + sb)[j] {
        if i < |sa| && j >= |sa| {
          assert sa[i] in sa;
          var r :| 0 <= r < |init| && init[r].letter == sa[i].row && 1 <= sa[i].number <= init[r].size;
          assert rows[r] == init[r];
          assert sb[j - |sa|].row == last.letter;
        }
      }
    }
  }

  /** The seats of the map, as a set. */
  function MapSeats(): (r: set<Seat>)
    ensures forall s :: s in r <==> InLayout(Rows, s)
  {
    AllPlacementsSeats(Rows, CenterCol(Rows));
    SetOf(SeatsOf(AllPlacements(Rows, CenterCol(Rows))))
  }

  /** The map has 450 distinct seats. */
  lemma MapSeatsCount()
    ensures |MapSeats()| == 450
  {
    RowsLabelsDistinct();
    AllPlacementsDistinct(Rows, CenterCol(Rows));
    DistinctCard(SeatsOf(AllPlacements(Rows, CenterCol(Rows))));
    RowsTotal();
  }

  lemma RowPlacementAt(r: nat, row: RowSpec, center: int, k: nat)
    requires k < row.size
    ensures RowPlacements(r, row, center)[k] ==
      var left := row.size / 2;
      if k < left then Placement(r, center - left + k, Seat(row.letter, k + 1))
      else Placement(r, center + 1 + (k - left), Seat(row.letter, left + (k - left) + 1))
  {
  }

  /** One pass of the outer loop of `initialise_seats`: the left half, then the right. */
  method PlaceRow(r: nat, row: RowSpec, center: int) returns (ps: seq<Placement>)
    ensures ps == RowPlacements(r, row, center)
  {
    var leftCount := row.size / 2;
    var rightCount := row.size - leftCount;
    ghost var spec := RowPlacements(r, row, center);
    ps := [];
    for c := 0 to leftCount
      invariant ps == spec[..c]
    {
      RowPlacementAt(r, row, center, c);
      ps := ps + [Placement(r, center - leftCount + c, Seat(row.letter, c + 1))];
      assert spec[..c + 1] == spec[..c] + [spec[c]];
    }
    for c := 0 to rightCount
      invariant ps == spec[..leftCount + c]
    {
      RowPlacementAt(r, row, center, leftCount + c);
      ps := ps + [Placement(r, center + 1 + c, Seat(row.letter, leftCount + c + 1))];
      assert spec[..leftCount + c + 1] == spec[..leftCount + c] + [spec[leftCount + c]];
    }
    assert spec[..row.size] == spec;
  }

  /** `initialise_seats`: the placements, in the order the nested loops visit them. */
  method InitialiseSeats(rows: seq<RowSpec>) returns (ps: seq<Placement>)
    requires rows != []
    ensures ps == AllPlacements(rows, CenterCol(rows))
  {
    var maxSeats := MaxSize(rows);
    var center := maxSeats + 5;
    ps := [];
    for r := 0 to |rows|
      invariant ps == AllPlacements(rows[..r], center)
    {
      var rowPs := PlaceRow(r, rows[r], center);
      ps := ps + rowPs;
      ghost var pre := rows[..r + 1];
      assert pre[..r] == rows[..r] && pre[r] == rows[r] && |pre| == r + 1;
      assert AllPlacements(pre, center) == AllPlacements(rows[..r], center) + RowPlacements(r, rows[r], center);
    }
    assert rows[..|rows|] == rows;
  }
}
