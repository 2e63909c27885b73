/**
 * The four collections the application keeps in browser storage under the
 * keys 'users', 'halls', 'exams' and 'seatAssignments'. Every screen reads
 * and overwrites the same stored lists, so they are the fields of one shared
 * object; a screen's handler names in its `modifies` clause the one list it
 * writes.
 */
module Storage {
  import opened Types

  class RecordStore {
    var users: seq<User>
    var halls: seq<Hall>
    var exams: seq<Exam>
    var seatAssignments: seq<SeatAssignment>

    constructor (users: seq<User>, halls: seq<Hall>, exams: seq<Exam>, seatAssignments: seq<SeatAssignment>)
      ensures this.users == users && this.halls == halls
      ensures this.exams == exams && this.seatAssignments == seatAssignments
    {
      this.users := users;
      this.halls := halls;
      this.exams := exams;
      this.seatAssignments := seatAssignments;
    }
  }
}
