/**
 * Hall editing (src/components/Halls/HallForm.tsx): building a fresh
 * rows-by-columns grid, toggling one seat, and submitting a hall whose
 * `capacity` is counted from the layout. The form's state (name, rows,
 * columns, layout) is a class whose methods are the event handlers.
 */
module HallForm {
  import opened Seqs
  import opened Text
  import opened Types
  import opened SeatAssignmentUtils

  // ---------------------------------------------------------------------
  // Fresh layouts

  /** `seat-${row}-${col}`. */
  function GridSeatId(row: nat, column: nat): string {
    "seat-" + Decimal(row) + "-" + Decimal(column)
  }

  /** The seat `generateLayout` puts at [row][column]: available, labelled like `getSeatByPosition`. */
  function FreshSeat(row: RowIndex, column: nat): Seat {
    Seat(GridSeatId(row, column), row, column, true, SeatByPosition(row, column))
  }

  /** `layout` is what `generateLayout(rows, columns)` builds. */
  ghost predicate IsFreshLayout(layout: Layout, rows: nat, columns: nat) {
    && rows <= RowLimit
    && |layout| == rows
    && (forall r :: 0 <= r < rows ==> |layout[r]| == columns)
    && (forall r, c :: 0 <= r < rows && 0 <= c < columns ==> layout[r][c] == FreshSeat(r, c))
  }

  /** `generateLayout`: two nested loops filling row after row. */
  method GenerateLayout(rows: nat, columns: nat) returns (layout: Layout)
    requires rows <= RowLimit
    ensures IsFreshLayout(layout, rows, columns)
  {
    layout := [];
    var row := 0;
    while row < rows
      invariant 0 <= row <= rows
      invariant |layout| == row
      invariant forall r :: 0 <= r < row ==> |layout[r]| == columns
      invariant forall r, c :: 0 <= r < row && 0 <= c < columns ==> layout[r][c] == FreshSeat(r, c)
    {
      var seats: seq<Seat> := [];
      var col := 0;
      while col < columns
        invariant 0 <= col <= columns
        invariant |seats| == col
        invariant forall c :: 0 <= c < col ==> seats[c] == FreshSeat(row, c)
      {
        seats := seats + [FreshSeat(row, col)];
        col := col + 1;
      }
      layout := layout + [seats];
      row := row + 1;
    }
  }

  /** Different grid positions get different seat ids. */
  lemma GridSeatIdInjective(r1: nat, c1: nat, r2: nat, c2: nat)
    requires GridSeatId(r1, c1) == GridSeatId(r2, c2)
    ensures r1 == r2 && c1 == c2
  {
    var a, b, c, d := Decimal(r1), Decimal(c1), Decimal(r2), Decimal(c2);
    DigitsExclude(a, '-');
    DigitsExclude(c, '-');
    var s1, s2 := GridSeatId(r1, c1), GridSeatId(r2, c2);
    assert s1[5..] == a + "-" + b;
    assert s2[5..] == c + "-" + d;
    SeparatorSplit(a, b, c, d, '-');
    DecimalInjective(r1, r2);
    DecimalInjective(c1, c2);
  }

  /** A fresh layout has pairwise distinct seat ids. */
  lemma FreshLayoutDistinctIds(layout: Layout, rows: nat, columns: nat)
    requires IsFreshLayout(layout, rows, columns)
    ensures GridDistinctIds(layout)
  {
    forall r1, c1, r2, c2 |
      0 <= r1 < |layout| && 0 <= c1 < |layout[r1]| && 0 <= r2 < |layout| && 0 <= c2 < |layout[r2]|
      && (r1 != r2 || c1 != c2)
      ensures layout[r1][c1].id != layout[r2][c2].id
    {
      if layout[r1][c1].id == layout[r2][c2].id {
        GridSeatIdInjective(r1, c1, r2, c2);
      }
    }
  }

  /** A layout whose rows all have `columns` seats flattens to rows * columns seats. */
  lemma {:induction false} FlattenLength(layout: Layout, columns: nat)
    requires forall r :: 0 <= r < |layout| ==> |layout[r]| == columns
    ensures |Flatten(layout)| == |layout| * columns
  {
    if layout != [] {
      FlattenLength(layout[1..], columns);
      assert |layout| * columns == columns + (|layout| - 1) * columns;
    }
  }

  /** Every seat of a fresh layout is available, so its capacity is rows * columns. */
  lemma FreshLayoutCapacity(layout: Layout, rows: nat, columns: nat)
    requires IsFreshLayout(layout, rows, columns)
    ensures AvailableSeats(layout) == Flatten(layout)
    ensures |AvailableSeats(layout)| == rows * columns
  {
    var flat := Flatten(layout);
    forall i | 0 <= i < |flat| ensures IsAvailable(flat[i]) {
      FlattenMembership(layout, flat[i]);
    }
    FilterKeepsAll(flat, IsAvailable);
    FlattenLength(layout, columns);
  }

  // ---------------------------------------------------------------------
  // Toggling

  function Flip(s: Seat): Seat {
    s.(isAvailable := !s.isAvailable)
  }

  /** `toggleSeat`'s new layout: the seat at index [row][col] flipped, everything else as it was. */
  function WithSeatToggled(layout: Layout, row: int, col: int): Layout {
    seq(|layout|, r requires 0 <= r < |layout| =>
      seq(|layout[r]|, c requires 0 <= c < |layout[r]| =>
        if r == row && c == col then Flip(layout[r][c]) else layout[r][c]))
  }

  /** Toggling keeps the grid's shape and every other seat, and negates only the chosen seat's availability. */
  lemma ToggleTouchesOneSeat(layout: Layout, row: int, col: int)
    ensures var t := WithSeatToggled(layout, row, col);
      && |t| == |layout|
      && (forall r :: 0 <= r < |t| ==> |t[r]| == |layout[r]|)
      && (forall r, c :: 0 <= r < |t| && 0 <= c < |t[r]| && (r != row || c != col) ==> t[r][c] == layout[r][c])
      && (0 <= row < |layout| && 0 <= col < |layout[row]| ==>
            t[row][col].isAvailable == !layout[row][col].isAvailable
            && t[row][col].id == layout[row][col].id
            && t[row][col].row == layout[row][col].row
            && t[row][col].column == layout[row][col].column
            && t[row][col].seatLabel == layout[row][col].seatLabel)
  {
  }

  /** A position outside the grid matches no seat, so nothing changes. */
  lemma ToggleOutsideGrid(layout: Layout, row: int, col: int)
    requires !(0 <= row < |layout| && 0 <= col < |layout[row]|)
    ensures WithSeatToggled(layout, row, col) == layout
  {
    var t := WithSeatToggled(layout, row, col);
    forall r | 0 <= r < |layout| ensures t[r] == layout[r] {
      assert forall c :: 0 <= c < |layout[r]| ==> t[r][c] == layout[r][c];
    }
  }

  /** Toggling the same seat twice restores the layout. */
  lemma ToggleTwiceRestores(layout: Layout, row: int, col: int)
    ensures WithSeatToggled(WithSeatToggled(layout, row, col), row, col) == layout
  {
    var t := WithSeatToggled(WithSeatToggled(layout, row, col), row, col);
    forall r | 0 <= r < |layout| ensures t[r] == layout[r] {
      assert forall c :: 0 <= c < |layout[r]| ==> t[r][c] == layout[r][c];
    }
  }

  /** Row by row: only the chosen row changes, and in it only the chosen seat. */
  lemma ToggleRows(layout: Layout, row: int, col: int)
    ensures var t := WithSeatToggled(layout, row, col);
      && |t| == |layout|
      && (forall r :: 0 <= r < |layout| && r != row ==> t[r] == layout[r])
      && (0 <= row < |layout| && 0 <= col < |layout[row]| ==> t[row] == layout[row][col := Flip(layout[row][col])])
  {
    var t := WithSeatToggled(layout, row, col);
    forall r | 0 <= r < |layout| && r != row ensures t[r] == layout[r] {
      assert forall c :: 0 <= c < |layout[r]| ==> t[r][c] == layout[r][c];
    }
  }

  /** Toggling a seat inside the grid moves the available count by exactly one. */
  lemma {:induction false} ToggleShiftsCapacityByOne(layout: Layout, row: int, col: int)
    requires 0 <= row < |layout| && 0 <= col < |layout[row]|
    ensures |AvailableSeats(WithSeatToggled(layout, row, col))|
         == |AvailableSeats(layout)| + (if layout[row][col].isAvailable then -1 else 1)
  {
    var t := WithSeatToggled(layout, row, col);
    ToggleRows(layout, row, col);
    FilterConcat(layout[0], Flatten(layout[1..]), IsAvailable);
    FilterConcat(t[0], Flatten(t[1..]), IsAvailable);
    if row == 0 {
      assert t[1..] == layout[1..];
      FilterCountUpdate(layout[0], col, Flip(layout[0][col]), IsAvailable);
    } else {
      var u := WithSeatToggled(layout[1..], row - 1, col);
      ToggleRows(layout[1..], row - 1, col);
      assert t[1..] == u by {
        forall r | 0 <= r < |u| ensures t[1..][r] == u[r] {
          if r != row - 1 {
            assert u[r] == layout[r + 1];
          }
        }
      }
      ToggleShiftsCapacityByOne(layout[1..], row - 1, col);
    }
  }

  /** Toggling keeps seat ids distinct. */
  lemma ToggleKeepsDistinctIds(layout: Layout, row: int, col: int)
    requires GridDistinctIds(layout)
    ensures GridDistinctIds(WithSeatToggled(layout, row, col))
  {
    var t: Layout := WithSeatToggled(layout, row, col);
    forall r, c | 0 <= r < |t| && 0 <= c < |t[r]| ensures SeatId(t[r][c]) == SeatId(layout[r][c]) {
    }
  }

  // ---------------------------------------------------------------------
  // Counts

  predicate IsBlocked(s: Seat) { !s.isAvailable }

  /** The "Blocked Seats" figure: `layout.flat().filter(seat => !seat.isAvailable).length`. */
  function BlockedCount(layout: Layout): nat {
    |Filter(Flatten(layout), IsBlocked)|
  }

  /** The available and blocked figures add up to the number of seats in the layout. */
  lemma AvailablePlusBlocked(layout: Layout)
    ensures |AvailableSeats(layout)| + BlockedCount(layout) == |Flatten(layout)|
  {
    FilterComplement(Flatten(layout), IsAvailable, IsBlocked);
  }

  /** The hall invariant `handleSubmit` establishes: capacity is the number of available seats. */
  ghost predicate CapacityConsistent(h: Hall) {
    h.capacity == |AvailableSeats(h.layout)|
  }

  // ---------------------------------------------------------------------
  // The form

  datatype Dimension = Rows | Columns

  /** Default grid size of a new hall. */
  const DefaultRows: nat := 10
  const DefaultColumns: nat := 10

  class HallFormState {
    /** The hall being edited, None when creating one. */
    const hall: Option<Hall>
    var name: string
    var rows: nat
    var columns: nat
    var layout: Layout

    /** Initial form state followed by the mount effect: load the edited hall, or generate a default grid. */
    constructor (hall: Option<Hall>)
      ensures this.hall == hall
      ensures hall.Some? ==> name == hall.value.name && rows == hall.value.rows
                             && columns == hall.value.columns && layout == hall.value.layout
      ensures hall.None? ==> name == "" && rows == DefaultRows && columns == DefaultColumns
                             && IsFreshLayout(layout, DefaultRows, DefaultColumns)
    {
      this.hall := hall;
      if hall.Some? {
        name, rows, columns, layout := hall.value.name, hall.value.rows, hall.value.columns, hall.value.layout;
      } else {
        var grid := GenerateLayout(DefaultRows, DefaultColumns);
        name, rows, columns, layout := "", DefaultRows, DefaultColumns, grid;
      }
    }

    /** `handleDimensionsChange`: store the new dimension and regenerate the grid, discarding toggles. */
    method ChangeDimension(field: Dimension, value: nat)
      requires (if field == Rows then value else rows) <= RowLimit
      modifies this`rows, this`columns, this`layout
      ensures rows == (if field == Rows then value else old(rows))
      ensures columns == (if field == Columns then value else old(columns))
      ensures IsFreshLayout(layout, rows, columns)
    {
      if field == Rows {
        rows := value;
      } else {
        columns := value;
      }
      layout := GenerateLayout(rows, columns);
    }

    /** `toggleSeat`. */
    method ToggleSeat(row: int, col: int)
      modifies this`layout
      ensures layout == WithSeatToggled(old(layout), row, col)
    {
      layout := WithSeatToggled(layout, row, col);
    }

    /** `resetLayout`: regenerate from the current dimensions. */
    method ResetLayout()
      requires rows <= RowLimit
      modifies this`layout
      ensures IsFreshLayout(layout, rows, columns)
    {
      layout := GenerateLayout(rows, columns);
    }

    /**
     * `handleSubmit`: the hall to save. Capacity is counted from the layout;
     * an edited hall keeps a non-empty id and creation time, otherwise the
     * clock-derived `nowId` and `nowIso` are used.
     */
    method Submit(nowId: string, nowIso: string) returns (h: Hall)
      ensures CapacityConsistent(h)
      ensures h.layout == layout && h.name == name && h.rows == rows && h.columns == columns
      ensures h.id == if hall.Some? && hall.value.id != "" then hall.value.id else nowId
      ensures h.createdAt == if hall.Some? && hall.value.createdAt != "" then hall.value.createdAt else nowIso
    {
      var capacity := |AvailableSeats(layout)|;
      var id := if hall.Some? && hall.value.id != "" then hall.value.id else nowId;
      var createdAt := if hall.Some? && hall.value.createdAt != "" then hall.value.createdAt else nowIso;
      h := Hall(id, name, rows, columns, capacity, layout, createdAt);
    }
  }
}
