/**
 * The seat-assignment engine (src/utils/seatAssignment.ts): the pool of
 * available seats, the generator that pairs shuffled students with shuffled
 * seats, the per-student lookup and the seat label.
 *
 * The two random shuffles are index orders supplied by the caller
 * (`studentOrder`, `seatOrder`), each a permutation of its list.
 */
module SeatAssignmentUtils {
  import opened Seqs
  import opened Text
  import opened Types

  // ---------------------------------------------------------------------
  // Seat pool

  /** The rows of a layout laid end to end (`layout.flat()`). */
  function Flatten(layout: Layout): seq<Seat> {
    if layout == [] then [] else layout[0] + Flatten(layout[1..])
  }

  predicate IsAvailable(s: Seat) { s.isAvailable }

  /** The seats that can be assigned, in row-major order (`layout.flat().filter(seat => seat.isAvailable)`). */
  function AvailableSeats(layout: Layout): seq<Seat> {
    Filter(Flatten(layout), IsAvailable)
  }

  /** A seat is in the flattened layout exactly when it sits at some grid position. */
  lemma {:induction false} FlattenMembership(layout: Layout, x: Seat)
    ensures x in Flatten(layout)
        <==> exists r, c :: 0 <= r < |layout| && 0 <= c < |layout[r]| && layout[r][c] == x
  {
    if layout != [] {
      FlattenMembership(layout[1..], x);
      if x in Flatten(layout[1..]) {
        var r, c :| 0 <= r < |layout[1..]| && 0 <= c < |layout[1..][r]| && layout[1..][r][c] == x;
        assert layout[r + 1][c] == x;
      }
      if exists r, c :: 0 <= r < |layout| && 0 <= c < |layout[r]| && layout[r][c] == x {
        var r, c :| 0 <= r < |layout| && 0 <= c < |layout[r]| && layout[r][c] == x;
        if r > 0 {
          assert layout[1..][r - 1][c] == x;
        } else {
          assert layout[0][c] == x;
        }
      }
    }
  }

  /** The pool holds exactly the available seats of the layout. */
  lemma AvailableSeatsMembership(layout: Layout, x: Seat)
    ensures x in AvailableSeats(layout)
        <==> x.isAvailable && exists r, c :: 0 <= r < |layout| && 0 <= c < |layout[r]| && layout[r][c] == x
  {
    FlattenMembership(layout, x);
  }

  /** No two grid positions carry the same seat id. */
  ghost predicate GridDistinctIds(layout: Layout) {
    forall r1, c1, r2, c2 ::
      0 <= r1 < |layout| && 0 <= c1 < |layout[r1]| && 0 <= r2 < |layout| && 0 <= c2 < |layout[r2]|
      && (r1 != r2 || c1 != c2)
      ==> layout[r1][c1].id != layout[r2][c2].id
  }

  /** Distinct ids on the grid stay distinct once the grid is flattened. */
  lemma {:induction false} FlattenDistinctIds(layout: Layout)
    requires GridDistinctIds(layout)
    ensures DistinctKeys(Flatten(layout), SeatId)
  {
    if layout != [] {
      var head, rest := layout[0], layout[1..];
      assert GridDistinctIds(rest) by {
        forall r1, c1, r2, c2 |
          0 <= r1 < |rest| && 0 <= c1 < |rest[r1]| && 0 <= r2 < |rest| && 0 <= c2 < |rest[r2]|
          && (r1 != r2 || c1 != c2)
          ensures rest[r1][c1].id != rest[r2][c2].id
        {
          assert rest[r1][c1] == layout[r1 + 1][c1] && rest[r2][c2] == layout[r2 + 1][c2];
        }
      }
      FlattenDistinctIds(rest);
      assert DistinctKeys(head, SeatId) by {
        forall i, j | 0 <= i < j < |head| ensures SeatId(head[i]) != SeatId(head[j]) {
          assert head[i] == layout[0][i] && head[j] == layout[0][j];
        }
      }
      var tail := Flatten(rest);
      forall i, j | 0 <= i < |head| && 0 <= j < |tail| ensures SeatId(head[i]) != SeatId(tail[j]) {
        assert tail[j] in tail;
        FlattenMembership(rest, tail[j]);
        var r, c :| 0 <= r < |rest| && 0 <= c < |rest[r]| && rest[r][c] == tail[j];
        assert layout[r + 1][c] == tail[j];
        assert layout[0][i] == head[i];
      }
      DistinctKeysConcat(head, tail, SeatId);
    }
  }

  /** With distinct ids on the grid, the pool's seat ids are pairwise distinct. */
  lemma PoolDistinctIds(layout: Layout)
    requires GridDistinctIds(layout)
    ensures DistinctKeys(AvailableSeats(layout), SeatId)
  {
    FlattenDistinctIds(layout);
    FilterDistinctKeys(Flatten(layout), IsAvailable, SeatId);
  }

  // ---------------------------------------------------------------------
  // Seat label

  /** `String.fromCharCode(65 + row)`. */
  function RowLetter(row: RowIndex): char {
    (65 + row) as char
  }

  /** `getSeatByPosition`: the row letter followed by the 1-based column number; the hall plays no part. */
  function SeatByPosition(row: RowIndex, column: nat): string {
    [RowLetter(row)] + Decimal(column + 1)
  }

  /** Rows 0 to 25 are lettered 'A' to 'Z'. */
  lemma RowLetterAlphabetic(row: RowIndex)
    requires row < 26
    ensures 'A' <= RowLetter(row) <= 'Z'
  {
  }

  /** Labels as the seating chart shows them. */
  lemma SeatByPositionExamples()
    ensures SeatByPosition(0, 0) == "A1"
    ensures SeatByPosition(4, 9) == "E10"
    ensures SeatByPosition(25, 0) == "Z1"
  {
    assert Decimal(10) == Decimal(1) + [DigitChar(0)];
  }

  /** Two grid positions never share a label: the label determines the position. */
  lemma SeatByPositionInjective(r1: RowIndex, c1: nat, r2: RowIndex, c2: nat)
    requires SeatByPosition(r1, c1) == SeatByPosition(r2, c2)
    ensures r1 == r2 && c1 == c2
  {
    var l1, l2 := SeatByPosition(r1, c1), SeatByPosition(r2, c2);
    assert l1[0] == RowLetter(r1) && l2[0] == RowLetter(r2);
    assert l1[1..] == Decimal(c1 + 1) && l2[1..] == Decimal(c2 + 1);
    DecimalInjective(c1 + 1, c2 + 1);
  }

  // ---------------------------------------------------------------------
  // Generation

  /** `student.rollNumber || ''`: a missing roll number is stored as the empty string. */
  function RollNumberOrEmpty(student: User): string {
    match student.rollNumber
    case Some(n) => n
    case None => ""
  }

  /** The record for one (student, seat) pair (seatAssignment.ts, lines 23-33). */
  function MakeAssignment(examId: string, hallId: string, student: User, seat: Seat): SeatAssignment {
    SeatAssignment(
      examId + "-" + student.id + "-" + seat.id,
      examId,
      student.id,
      hallId,
      seat.id,
      student.name,
      RollNumberOrEmpty(student),
      seat.row,
      seat.column)
  }

  /** The i-th student gets the i-th seat. */
  function Pairing(examId: string, hallId: string, students: seq<User>, seats: seq<Seat>): (r: seq<SeatAssignment>)
    requires |students| <= |seats|
    ensures |r| == |students|
  {
    seq(|students|, i requires 0 <= i < |students| => MakeAssignment(examId, hallId, students[i], seats[i]))
  }

  datatype Generation = Generated(assignments: seq<SeatAssignment>) | NotEnoughSeats

  /**
   * What `generateSeatAssignments` returns for given shuffles: a refusal when
   * there are more students than available seats, otherwise the shuffled
   * students paired position by position with the shuffled pool.
   */
  function Seating(examId: string, students: seq<User>, hall: Hall, studentOrder: seq<nat>, seatOrder: seq<nat>): Generation
    requires IsPermutation(studentOrder, |students|)
    requires IsPermutation(seatOrder, |AvailableSeats(hall.layout)|)
  {
    var pool := AvailableSeats(hall.layout);
    PermutationFacts(studentOrder, |students|);
    PermutationFacts(seatOrder, |pool|);
    if |students| > |pool| then NotEnoughSeats
    else Generated(Pairing(examId, hall.id, Permute(students, studentOrder), Permute(pool, seatOrder)))
  }

  /** `generateSeatAssignments`: the capacity check, the two shuffles, then one `push` per student. */
  method GenerateSeatAssignments(examId: string, students: seq<User>, hall: Hall, studentOrder: seq<nat>, seatOrder: seq<nat>)
    returns (r: Generation)
    requires IsPermutation(studentOrder, |students|)
    requires IsPermutation(seatOrder, |AvailableSeats(hall.layout)|)
    ensures r.NotEnoughSeats? <==> |students| > |AvailableSeats(hall.layout)|
    ensures r == Seating(examId, students, hall, studentOrder, seatOrder)
  {
    var availableSeats := AvailableSeats(hall.layout);
    if |students| > |availableSeats| {
      return NotEnoughSeats;
    }
    PermutationFacts(studentOrder, |students|);
    PermutationFacts(seatOrder, |availableSeats|);
    var shuffledStudents := Permute(students, studentOrder);
    var shuffledSeats := Permute(availableSeats, seatOrder);
    var assignments: seq<SeatAssignment> := [];
    var index := 0;
    while index < |shuffledStudents|
      invariant 0 <= index <= |shuffledStudents|
      invariant assignments == Pairing(examId, hall.id, shuffledStudents[..index], shuffledSeats)
    {
      var student, seat := shuffledStudents[index], shuffledSeats[index];
      assignments := assignments + [MakeAssignment(examId, hall.id, student, seat)];
      index := index + 1;
    }
    assert shuffledStudents[..index] == shuffledStudents;
    r := Generated(assignments);
  }

  /** With enough seats, generation succeeds with one record per student, pairing the i-th shuffled student with the i-th shuffled seat. */
  lemma SeatingPairsShuffledLists(examId: string, students: seq<User>, hall: Hall, studentOrder: seq<nat>, seatOrder: seq<nat>)
    requires IsPermutation(studentOrder, |students|)
    requires IsPermutation(seatOrder, |AvailableSeats(hall.layout)|)
    requires |students| <= |AvailableSeats(hall.layout)|
    ensures Seating(examId, students, hall, studentOrder, seatOrder).Generated?
    ensures var out := Seating(examId, students, hall, studentOrder, seatOrder).assignments;
      && |out| == |students| == |studentOrder| && |seatOrder| == |AvailableSeats(hall.layout)|
      && forall i :: 0 <= i < |out| ==>
           && studentOrder[i] < |students| && seatOrder[i] < |AvailableSeats(hall.layout)|
           && out[i] == MakeAssignment(examId, hall.id, students[studentOrder[i]], AvailableSeats(hall.layout)[seatOrder[i]])
  {
    PermutationFacts(studentOrder, |students|);
    PermutationFacts(seatOrder, |AvailableSeats(hall.layout)|);
  }

  /**
   * The generated records name every input student exactly as often as the
   * input does, and name distinct students when the input ids are distinct.
   */
  lemma SeatingCoversStudents(examId: string, students: seq<User>, hall: Hall, studentOrder: seq<nat>, seatOrder: seq<nat>)
    requires IsPermutation(studentOrder, |students|)
    requires IsPermutation(seatOrder, |AvailableSeats(hall.layout)|)
    requires |students| <= |AvailableSeats(hall.layout)|
    ensures Seating(examId, students, hall, studentOrder, seatOrder).Generated?
    ensures var out := Seating(examId, students, hall, studentOrder, seatOrder).assignments;
      multiset(Keys(out, AssignmentStudentId)) == multiset(Keys(students, UserId))
    ensures var out := Seating(examId, students, hall, studentOrder, seatOrder).assignments;
      DistinctKeys(students, UserId) ==> DistinctKeys(out, AssignmentStudentId)
  {
    var pool := AvailableSeats(hall.layout);
    PermutationFacts(studentOrder, |students|);
    PermutationFacts(seatOrder, |pool|);
    var shuffled := Permute(students, studentOrder);
    var out := Pairing(examId, hall.id, shuffled, Permute(pool, seatOrder));
    assert Keys(out, AssignmentStudentId) == Keys(shuffled, UserId);
    KeysPermute(students, studentOrder, UserId);
    PermuteIsRearrangement(Keys(students, UserId), studentOrder);
    if DistinctKeys(students, UserId) {
      PermuteDistinctKeys(students, studentOrder, UserId);
      assert forall i :: 0 <= i < |out| ==> out[i].studentId == shuffled[i].id;
    }
  }

  /**
   * Every generated record sits on an available seat of the hall, copying
   * that seat's id, row and column; when the layout's seat ids are distinct,
   * no two records share a seat.
   */
  lemma SeatingUsesPoolSeats(examId: string, students: seq<User>, hall: Hall, studentOrder: seq<nat>, seatOrder: seq<nat>)
    requires IsPermutation(studentOrder, |students|)
    requires IsPermutation(seatOrder, |AvailableSeats(hall.layout)|)
    requires |students| <= |AvailableSeats(hall.layout)|
    ensures Seating(examId, students, hall, studentOrder, seatOrder).Generated?
    ensures var out := Seating(examId, students, hall, studentOrder, seatOrder).assignments;
      && InRange(seatOrder, |AvailableSeats(hall.layout)|)
      && var seats := Permute(AvailableSeats(hall.layout), seatOrder);
      && |out| == |students| <= |seats|
      && forall i :: 0 <= i < |out| ==>
           && seats[i] in AvailableSeats(hall.layout)
           && seats[i].id == out[i].seatId && seats[i].row == out[i].row && seats[i].column == out[i].column
    ensures var out := Seating(examId, students, hall, studentOrder, seatOrder).assignments;
      GridDistinctIds(hall.layout) ==> DistinctKeys(out, AssignmentSeatId)
  {
    var pool := AvailableSeats(hall.layout);
    PermutationFacts(studentOrder, |students|);
    PermutationFacts(seatOrder, |pool|);
    var seats := Permute(pool, seatOrder);
    var out := Pairing(examId, hall.id, Permute(students, studentOrder), seats);
    forall i | 0 <= i < |out| ensures seats[i] in pool {
      assert seats[i] == pool[seatOrder[i]];
    }
    if GridDistinctIds(hall.layout) {
      PoolDistinctIds(hall.layout);
      PermuteDistinctKeys(pool, seatOrder, SeatId);
      forall i, j | 0 <= i < j < |out| ensures out[i].seatId != out[j].seatId {
        assert out[i].seatId == SeatId(seats[i]) && out[j].seatId == SeatId(seats[j]);
      }
    }
  }

  /** Every generated record carries the exam's id and the hall's id. */
  lemma SeatingStampsExamAndHall(examId: string, students: seq<User>, hall: Hall, studentOrder: seq<nat>, seatOrder: seq<nat>)
    requires IsPermutation(studentOrder, |students|)
    requires IsPermutation(seatOrder, |AvailableSeats(hall.layout)|)
    ensures var g := Seating(examId, students, hall, studentOrder, seatOrder);
      g.Generated? ==> forall a :: a in g.assignments ==> a.examId == examId && a.hallId == hall.id
  {
  }

  // ---------------------------------------------------------------------
  // Lookup

  predicate IsRecordOf(a: SeatAssignment, studentId: string, examId: string) {
    a.studentId == studentId && a.examId == examId
  }

  /** `findStudentSeat`: the first record for this student and exam, or None (`undefined`). */
  function FindStudentSeat(assignments: seq<SeatAssignment>, studentId: string, examId: string): (r: Option<SeatAssignment>)
    ensures r.None? <==> forall a :: a in assignments ==> !IsRecordOf(a, studentId, examId)
    ensures r.Some? ==> exists k :: 0 <= k < |assignments| && assignments[k] == r.value
                                   && IsRecordOf(r.value, studentId, examId)
                                   && forall j :: 0 <= j < k ==> !IsRecordOf(assignments[j], studentId, examId)
  {
    Find(assignments, (a: SeatAssignment) => IsRecordOf(a, studentId, examId))
  }
}
