/**
 * The records every component manipulates (src/types/index.ts). Union
 * string types become enumerations; optional fields become `Option`.
 */
module Types {
  import opened Seqs

  /**
   * Row letters are `String.fromCharCode(65 + row)`. Up to this bound that
   * code point is a Unicode scalar value (below the surrogate range), so the
   * letter is a Dafny `char`; rows 26 and up give '[', '\', ']', ... exactly
   * as the browser does.
   */
  const RowLimit: nat := 0xD800 - 65

  type RowIndex = r: nat | r < RowLimit

  datatype Role = Admin | Student

  datatype User = User(id: string, email: string, name: string, role: Role, rollNumber: Option<string>)

  /** One position of a hall's grid (`SeatLayout`); `seatLabel` is the record's `label` field (`label` is a Dafny keyword). */
  datatype Seat = Seat(id: string, row: RowIndex, column: nat, isAvailable: bool, seatLabel: string)

  /** `SeatLayout[][]`: rows of seats. */
  type Layout = seq<seq<Seat>>

  /**
   * `capacity` is a number stored next to the layout; nothing in the record
   * ties it to the layout (see `HallForm.CapacityConsistent`).
   */
  datatype Hall = Hall(
    id: string,
    name: string,
    rows: nat,
    columns: nat,
    capacity: int,
    layout: Layout,
    createdAt: string)

  datatype ExamStatus = Scheduled | Ongoing | Completed

  datatype Exam = Exam(
    id: string,
    name: string,
    subject: string,
    date: string,
    time: string,
    duration: int,
    hallId: string,
    createdAt: string,
    status: ExamStatus)

  /** One student in one seat for one exam; it refers to the others only through string ids. */
  datatype SeatAssignment = SeatAssignment(
    id: string,
    examId: string,
    studentId: string,
    hallId: string,
    seatId: string,
    studentName: string,
    rollNumber: string,
    row: RowIndex,
    column: nat)

  /** The string a status has in the records. */
  function StatusName(status: ExamStatus): string {
    match status
    case Scheduled => "scheduled"
    case Ongoing => "ongoing"
    case Completed => "completed"
  }

  /** Each status has its own record string. */
  lemma StatusNameInjective(a: ExamStatus, b: ExamStatus)
    requires StatusName(a) == StatusName(b)
    ensures a == b
  {
    assert StatusName(a)[0] == StatusName(b)[0];
  }

  function UserId(u: User): string { u.id }

  function SeatId(s: Seat): string { s.id }

  function HallId(h: Hall): string { h.id }

  function ExamId(e: Exam): string { e.id }

  function AssignmentExamId(a: SeatAssignment): string { a.examId }

  function AssignmentStudentId(a: SeatAssignment): string { a.studentId }

  function AssignmentSeatId(a: SeatAssignment): string { a.seatId }
}
