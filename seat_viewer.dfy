/**
 * The seating chart (src/components/Exams/SeatViewer.tsx): the record shown
 * in each grid cell, the cell's state, the CSV export of the assignments and
 * the footer's count of seats left.
 */
module SeatViewer {
  import opened Seqs
  import opened Text
  import opened Types
  import opened SeatAssignmentUtils
  import opened HallForm

  predicate IsAt(a: SeatAssignment, row: int, column: int) {
    a.row == row && a.column == column
  }

  /** `getSeatAssignment`: the first record at that row and column, or None (`undefined`). */
  function SeatAssignmentAt(assignments: seq<SeatAssignment>, row: int, column: int): (r: Option<SeatAssignment>)
    ensures r.None? <==> forall a :: a in assignments ==> !IsAt(a, row, column)
    ensures r.Some? ==> exists k :: 0 <= k < |assignments| && assignments[k] == r.value
                                   && IsAt(r.value, row, column)
                                   && forall j :: 0 <= j < k ==> !IsAt(assignments[j], row, column)
  {
    Find(assignments, (a: SeatAssignment) => IsAt(a, row, column))
  }

  datatype Cell = Blocked | Assigned(assignment: SeatAssignment) | Available

  /** The state of the cell at grid position [rowIndex][colIndex] holding `seat`. */
  function CellOf(seat: Seat, assignments: seq<SeatAssignment>, rowIndex: nat, colIndex: nat): (c: Cell)
    ensures c.Blocked? <==> !seat.isAvailable
    ensures c.Assigned? <==> seat.isAvailable && exists a :: a in assignments && IsAt(a, rowIndex, colIndex)
    ensures c.Assigned? ==> c.assignment in assignments && IsAt(c.assignment, rowIndex, colIndex)
  {
    if !seat.isAvailable then Blocked
    else match SeatAssignmentAt(assignments, rowIndex, colIndex)
      case Some(a) => Assigned(a)
      case None => Available
  }

  /** The seat at every grid position records that position as its row and column. */
  ghost predicate SeatsAtOwnPositions(layout: Layout) {
    forall r, c :: 0 <= r < |layout| && 0 <= c < |layout[r]| ==> layout[r][c].row == r && layout[r][c].column == c
  }

  /** A layout the hall form generates, toggled any number of times, has its seats at their own positions. */
  lemma FormLayoutsSeatsAtOwnPositions(layout: Layout, rows: nat, columns: nat, row: int, col: int)
    ensures IsFreshLayout(layout, rows, columns) ==> SeatsAtOwnPositions(layout)
    ensures SeatsAtOwnPositions(layout) ==> SeatsAtOwnPositions(WithSeatToggled(layout, row, col))
  {
    ToggleTouchesOneSeat(layout, row, col);
  }

  /**
   * On a layout whose seats sit at their own positions, every student the
   * generator placed shows up in the chart: the cell at the record's row and
   * column is an available seat and is drawn as assigned.
   */
  lemma GeneratedSeatsShowAssigned(examId: string, students: seq<User>, hall: Hall, studentOrder: seq<nat>, seatOrder: seq<nat>, a: SeatAssignment)
    requires IsPermutation(studentOrder, |students|)
    requires IsPermutation(seatOrder, |AvailableSeats(hall.layout)|)
    requires |students| <= |AvailableSeats(hall.layout)|
    requires SeatsAtOwnPositions(hall.layout)
    requires Seating(examId, students, hall, studentOrder, seatOrder).Generated?
    requires a in Seating(examId, students, hall, studentOrder, seatOrder).assignments
    ensures a.row < |hall.layout| && a.column < |hall.layout[a.row]|
    ensures var out := Seating(examId, students, hall, studentOrder, seatOrder).assignments;
      CellOf(hall.layout[a.row][a.column], out, a.row, a.column).Assigned?
  {
    var out := Seating(examId, students, hall, studentOrder, seatOrder).assignments;
    SeatingUsesPoolSeats(examId, students, hall, studentOrder, seatOrder);
    var i :| 0 <= i < |out| && out[i] == a;
    var seat := Permute(AvailableSeats(hall.layout), seatOrder)[i];
    AvailableSeatsMembership(hall.layout, seat);
    var r, c :| 0 <= r < |hall.layout| && 0 <= c < |hall.layout[r]| && hall.layout[r][c] == seat;
    assert IsAt(a, a.row, a.column);
  }

  // ---------------------------------------------------------------------
  // CSV export

  const ViewerCsvColumns: seq<string> := ["Seat Position", "Student Name", "Roll Number", "Row", "Column"]

  /** The header line: the column names separated by commas. */
  function ViewerCsvHeader(): string {
    Join(ViewerCsvColumns, ',')
  }

  /** The fields of one record's line: its seat label, name, roll number, then the 1-based row and column. */
  function CsvFields(a: SeatAssignment): seq<string> {
    [SeatByPosition(a.row, a.column), a.studentName, a.rollNumber, Decimal(a.row + 1), Decimal(a.column + 1)]
  }

  /** One record's line: its fields separated by commas, unquoted. */
  function CsvLine(a: SeatAssignment): string {
    Join(CsvFields(a), ',')
  }

  /** One line per record, in order. */
  function CsvLines(assignments: seq<SeatAssignment>): (lines: seq<string>)
    ensures |lines| == |assignments|
  {
    seq(|assignments|, i requires 0 <= i < |assignments| => CsvLine(assignments[i]))
  }

  /** `exportLayout`'s text: the header, then one line per record in order, joined by newlines. */
  function ExportLayout(assignments: seq<SeatAssignment>): string {
    Join([ViewerCsvHeader()] + CsvLines(assignments), '\n')
  }

  /** A seat label holds neither a comma nor a newline. */
  lemma SeatLabelIsPlain(row: RowIndex, column: nat, c: char)
    requires c == ',' || c == '\n'
    ensures c !in SeatByPosition(row, column)
  {
    DigitsExclude(Decimal(column + 1), c);
  }

  /** No column name holds a comma or a newline. */
  lemma ColumnNamesArePlain()
    ensures forall k :: 0 <= k < |ViewerCsvColumns| ==> ',' !in ViewerCsvColumns[k] && '\n' !in ViewerCsvColumns[k]
  {
  }

  /** The header is one line of five comma-separated column names. */
  lemma HeaderIsOneLine()
    ensures '\n' !in ViewerCsvHeader()
    ensures Split(ViewerCsvHeader(), ',') == ViewerCsvColumns
  {
    ColumnNamesArePlain();
    JoinExcludes(ViewerCsvColumns, ',', '\n');
    SplitJoin(ViewerCsvColumns, ',');
  }

  /** A record's line is one line when its name and roll number are. */
  lemma CsvLineIsOneLine(a: SeatAssignment)
    requires '\n' !in a.studentName && '\n' !in a.rollNumber
    ensures '\n' !in CsvLine(a)
  {
    SeatLabelIsPlain(a.row, a.column, '\n');
    DigitsExclude(Decimal(a.row + 1), '\n');
    DigitsExclude(Decimal(a.column + 1), '\n');
    JoinExcludes(CsvFields(a), ',', '\n');
  }

  /**
   * Reading the export back line by line gives the header followed by
   * exactly one line per record, in order, provided no name or roll number
   * contains a newline.
   */
  lemma ExportLayoutLines(assignments: seq<SeatAssignment>)
    requires forall a :: a in assignments ==> '\n' !in a.studentName && '\n' !in a.rollNumber
    ensures var lines := Split(ExportLayout(assignments), '\n');
      && lines == [ViewerCsvHeader()] + CsvLines(assignments)
      && |lines| == |assignments| + 1
  {
    var lines := CsvLines(assignments);
    HeaderIsOneLine();
    forall i | 0 <= i < |lines| ensures '\n' !in lines[i] {
      CsvLineIsOneLine(assignments[i]);
    }
    SplitHeaderAndLines(ViewerCsvHeader(), lines, '\n');
  }

  /**
   * Splitting a line at its commas gives back the record's fields, and the
   * last two read back as its row and column plus one, provided the name and
   * roll number hold no comma.
   */
  lemma CsvLineFields(a: SeatAssignment)
    requires ',' !in a.studentName && ',' !in a.rollNumber
    ensures var fields := Split(CsvLine(a), ',');
      && |fields| == 5
      && fields[0] == SeatByPosition(a.row, a.column)
      && fields[1] == a.studentName && fields[2] == a.rollNumber
      && AllDigits(fields[3]) && DecimalValue(fields[3]) == a.row + 1
      && AllDigits(fields[4]) && DecimalValue(fields[4]) == a.column + 1
  {
    SeatLabelIsPlain(a.row, a.column, ',');
    DigitsExclude(Decimal(a.row + 1), ',');
    DigitsExclude(Decimal(a.column + 1), ',');
    SplitJoin(CsvFields(a), ',');
    DecimalRoundTrip(a.row + 1);
    DecimalRoundTrip(a.column + 1);
  }

  // ---------------------------------------------------------------------
  // Footer

  /** The footer's "Available" figure. */
  function SeatsLeft(hall: Hall, assignments: seq<SeatAssignment>): int {
    hall.capacity - |assignments|
  }

  /**
   * For a hall whose capacity is consistent, the footer after a generation
   * counts exactly the available seats no student received, so it is never
   * negative.
   */
  lemma SeatsLeftAfterGeneration(examId: string, students: seq<User>, hall: Hall, studentOrder: seq<nat>, seatOrder: seq<nat>)
    requires IsPermutation(studentOrder, |students|)
    requires IsPermutation(seatOrder, |AvailableSeats(hall.layout)|)
    requires CapacityConsistent(hall)
    requires Seating(examId, students, hall, studentOrder, seatOrder).Generated?
    ensures var out := Seating(examId, students, hall, studentOrder, seatOrder).assignments;
      SeatsLeft(hall, out) == |AvailableSeats(hall.layout)| - |students| >= 0
  {
  }
}
