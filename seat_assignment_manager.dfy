/**
 * The per-exam seat assignment screen
 * (src/components/Exams/SeatAssignmentManager.tsx): which students are
 * selected, the generation of a seating for them with its capacity guard,
 * saving the seating into the stored assignments, and the CSV export.
 *
 * The screen's state (`selectedStudents`, `currentAssignments`) is a class
 * whose methods are the event handlers; the stored collections belong to
 * the shared `RecordStore`.
 */
module SeatAssignmentManager {
  import opened Seqs
  import opened Text
  import opened Types
  import opened Collections
  import opened Storage
  import opened SeatAssignmentUtils
  import opened HallForm

  // ---------------------------------------------------------------------
  // Derived values

  predicate IsStudent(u: User) { u.role == Student }

  /** `students`: the users whose role is student, in stored order. */
  function StudentsOf(users: seq<User>): (r: seq<User>)
    ensures forall u :: u in r <==> u in users && u.role == Student
  {
    Filter(users, IsStudent)
  }

  /** `hall`: the first stored hall with the exam's hall id. */
  function HallOf(halls: seq<Hall>, exam: Exam): (r: Option<Hall>)
    ensures r.None? <==> forall h :: h in halls ==> h.id != exam.hallId
    ensures r.Some? ==> r.value in halls && r.value.id == exam.hallId
    ensures r.Some? ==> exists k :: 0 <= k < |halls| && halls[k] == r.value
                                    && forall j :: 0 <= j < k ==> halls[j].id != exam.hallId
  {
    ById(halls, HallId, exam.hallId)
  }

  /** `existingAssignments`: the stored records of this exam, in stored order. */
  function ExistingFor(assignments: seq<SeatAssignment>, examId: string): (r: seq<SeatAssignment>)
    ensures forall a :: a in r <==> a in assignments && a.examId == examId
  {
    WithKey(assignments, AssignmentExamId, examId)
  }

  function IsSelectedIn(selected: seq<string>): User -> bool {
    (u: User) => u.id in selected
  }

  /** `selectedStudentData`: the students whose id is selected, in student-list order. */
  function SelectedStudentData(students: seq<User>, selected: seq<string>): (r: seq<User>)
    ensures forall u :: u in r <==> u in students && u.id in selected
  {
    Filter(students, IsSelectedIn(selected))
  }

  /** Selecting every student's id selects the whole student list, in its order. */
  lemma SelectingAllGivesStudentList(students: seq<User>, selected: seq<string>)
    requires forall u :: u in students ==> u.id in selected
    ensures SelectedStudentData(students, selected) == students
  {
    FilterKeepsAll(students, IsSelectedIn(selected));
  }

  // ---------------------------------------------------------------------
  // Selection

  function Identity(s: string): string { s }

  /** No id occurs twice. */
  ghost predicate NoDuplicates(s: seq<string>) {
    DistinctKeys(s, Identity)
  }

  function IsNot(id: string): string -> bool {
    (x: string) => x != id
  }

  /** `handleStudentToggle`'s new selection: drop `id` when it is selected, append it otherwise. */
  function Toggled(selected: seq<string>, id: string): (r: seq<string>)
    ensures id in r <==> id !in selected
    ensures forall x :: x != id ==> (x in r <==> x in selected)
  {
    if id in selected then Filter(selected, IsNot(id)) else selected + [id]
  }

  /** Toggling never introduces a duplicate id. */
  lemma ToggledNoDuplicates(selected: seq<string>, id: string)
    requires NoDuplicates(selected)
    ensures NoDuplicates(Toggled(selected, id))
  {
    if id in selected {
      FilterDistinctKeys(selected, IsNot(id), Identity);
    } else {
      var r := selected + [id];
      forall i, j | 0 <= i < j < |r| ensures r[i] != r[j] {
        if j == |selected| {
          assert r[i] == selected[i];
        }
      }
    }
  }

  /**
   * Toggling the same id twice restores the selection as a set: exactly the
   * same sequence when the id was not selected, and the id moved to the end
   * when it was.
   */
  lemma ToggleTwice(selected: seq<string>, id: string)
    ensures Toggled(Toggled(selected, id), id)
         == if id in selected then Filter(selected, IsNot(id)) + [id] else selected
    ensures forall x :: x in Toggled(Toggled(selected, id), id) <==> x in selected
  {
    if id !in selected {
      FilterConcat(selected, [id], IsNot(id));
      FilterKeepsAll(selected, IsNot(id));
      FilterKeepsNone([id], IsNot(id));
    }
  }

  /** `handleSelectAll`'s new selection: clear it when its size equals the number of students, otherwise every student id. */
  function SelectAll(selected: seq<string>, students: seq<User>): (r: seq<string>)
    ensures |selected| == |students| ==> r == []
    ensures |selected| != |students| ==> |r| == |students| && forall i :: 0 <= i < |r| ==> r[i] == students[i].id
    ensures |selected| != |students| ==> forall u :: u in students ==> u.id in r
  {
    if |selected| == |students| then []
    else
      assert forall u :: u in students ==> u.id in Keys(students, UserId) by {
        forall u | u in students ensures u.id in Keys(students, UserId) {
          var i :| 0 <= i < |students| && students[i] == u;
          assert Keys(students, UserId)[i] == UserId(students[i]) == u.id;
        }
      }
      Keys(students, UserId)
  }

  /** Ids of distinct students form a selection without duplicates. */
  lemma StudentKeysNoDuplicates(students: seq<User>)
    requires DistinctKeys(students, UserId)
    ensures NoDuplicates(Keys(students, UserId))
  {
  }

  /** A sequence without duplicates has as many distinct elements as positions. */
  lemma {:induction false} DistinctCardinality(s: seq<string>)
    requires NoDuplicates(s)
    ensures |set x | x in s| == |s|
  {
    if s != [] {
      assert NoDuplicates(s[1..]) by {
        forall i, j | 0 <= i < j < |s[1..]| ensures s[1..][i] != s[1..][j] {
          assert s[1..][i] == s[i + 1] && s[1..][j] == s[j + 1];
        }
      }
      DistinctCardinality(s[1..]);
      assert s[0] !in s[1..] by {
        forall k | 0 <= k < |s[1..]| ensures s[1..][k] != s[0] {
          assert s[1..][k] == s[k + 1];
        }
      }
      assert (set x | x in s) == {s[0]} + (set x | x in s[1..]);
    }
  }

  /** A subset as large as its superset is the whole superset. */
  lemma SubsetOfSameSize(a: set<string>, b: set<string>)
    requires a <= b && |a| == |b|
    ensures a == b
  {
    assert |b - a| == |b| - |a|;
  }

  /**
   * When the selection has no duplicates and holds only student ids, and
   * student ids are distinct, `handleSelectAll`'s length test
   * `selectedStudents.length === students.length` holds exactly when every
   * student is selected.
   */
  lemma SelectAllLengthTest(selected: seq<string>, students: seq<User>)
    requires NoDuplicates(selected) && DistinctKeys(students, UserId)
    requires forall x :: x in selected ==> x in Keys(students, UserId)
    ensures |selected| == |students| <==> forall u :: u in students ==> u.id in selected
  {
    var ids := Keys(students, UserId);
    var a, b := set x | x in selected, set x | x in ids;
    DistinctCardinality(selected);
    StudentKeysNoDuplicates(students);
    DistinctCardinality(ids);
    assert a <= b;
    if |selected| == |students| {
      SubsetOfSameSize(a, b);
      forall u | u in students ensures u.id in selected {
        var i :| 0 <= i < |students| && students[i] == u;
        assert ids[i] == u.id;
        assert u.id in b;
      }
    }
    if forall u :: u in students ==> u.id in selected {
      forall x | x in b ensures x in a {
        var i :| 0 <= i < |ids| && ids[i] == x;
        assert students[i] in students;
      }
      assert a == b;
    }
  }

  /**
   * For a selection without duplicates that holds only student ids, "select
   * all" clears the selection exactly when every student is already
   * selected, and otherwise leaves every student selected.
   */
  lemma SelectAllFlips(selected: seq<string>, students: seq<User>)
    requires NoDuplicates(selected) && DistinctKeys(students, UserId)
    requires forall x :: x in selected ==> x in Keys(students, UserId)
    ensures SelectAll(selected, students) == [] <==> forall u :: u in students ==> u.id in selected
    ensures !(forall u :: u in students ==> u.id in selected) ==>
              forall u :: u in students ==> u.id in SelectAll(selected, students)
  {
    SelectAllLengthTest(selected, students);
    if |selected| != |students| {
      var u :| u in students && u.id !in selected;
      assert u.id in SelectAll(selected, students);
    }
  }

  // ---------------------------------------------------------------------
  // Saving

  /** `saveAssignments`' new store: the other exams' records in stored order, then the current ones. */
  function ReplaceForExam(stored: seq<SeatAssignment>, examId: string, current: seq<SeatAssignment>): seq<SeatAssignment> {
    WithoutKey(stored, AssignmentExamId, examId) + current
  }

  /** All records belong to the exam. */
  ghost predicate AllOfExam(assignments: seq<SeatAssignment>, examId: string) {
    forall a :: a in assignments ==> a.examId == examId
  }

  /** Saving leaves every other exam's records exactly as they were, in order. */
  lemma SaveKeepsOtherExams(stored: seq<SeatAssignment>, examId: string, current: seq<SeatAssignment>, other: string)
    requires AllOfExam(current, examId) && other != examId
    ensures ExistingFor(ReplaceForExam(stored, examId, current), other) == ExistingFor(stored, other)
  {
    var rest := WithoutKey(stored, AssignmentExamId, examId);
    FilterConcat(rest, current, KeyIs(AssignmentExamId, other));
    FilterKeepsNone(current, KeyIs(AssignmentExamId, other));
    FilterNarrower(stored, KeyIsNot(AssignmentExamId, examId), KeyIs(AssignmentExamId, other));
  }

  /** After saving, this exam's stored records are exactly the current ones. */
  lemma SaveStoresCurrent(stored: seq<SeatAssignment>, examId: string, current: seq<SeatAssignment>)
    requires AllOfExam(current, examId)
    ensures ExistingFor(ReplaceForExam(stored, examId, current), examId) == current
  {
    var rest := WithoutKey(stored, AssignmentExamId, examId);
    var mine := KeyIs(AssignmentExamId, examId);
    FilterConcat(rest, current, mine);
    forall i | 0 <= i < |rest| ensures !mine(rest[i]) {
      assert rest[i] in rest;
    }
    FilterKeepsNone(rest, mine);
    forall i | 0 <= i < |current| ensures mine(current[i]) {
      assert current[i] in current;
    }
    FilterKeepsAll(current, mine);
    assert Filter(rest + current, mine) == [] + current;
  }

  /** Saving A and then B for the same exam is saving B alone. */
  lemma SaveTwice(stored: seq<SeatAssignment>, examId: string, first: seq<SeatAssignment>, second: seq<SeatAssignment>)
    requires AllOfExam(first, examId)
    ensures ReplaceForExam(ReplaceForExam(stored, examId, first), examId, second)
         == ReplaceForExam(stored, examId, second)
  {
    var rest := WithoutKey(stored, AssignmentExamId, examId);
    WithoutKeyConcat(rest, first, AssignmentExamId, examId);
    WithoutKeyIdempotent(stored, AssignmentExamId, examId);
    FilterKeepsNone(first, KeyIsNot(AssignmentExamId, examId));
    assert WithoutKey(rest + first, AssignmentExamId, examId) == rest;
  }

  /** After saving, a student's seat for this exam is looked up among the current records only. */
  lemma SaveThenFindStudentSeat(stored: seq<SeatAssignment>, examId: string, current: seq<SeatAssignment>, studentId: string)
    ensures FindStudentSeat(ReplaceForExam(stored, examId, current), studentId, examId)
         == FindStudentSeat(current, studentId, examId)
  {
    var rest := WithoutKey(stored, AssignmentExamId, examId);
    FindSkipsPrefix(rest, current, (a: SeatAssignment) => IsRecordOf(a, studentId, examId));
  }

  // ---------------------------------------------------------------------
  // Export

  const ManagerCsvColumns: seq<string> := ["Student Name", "Roll Number", "Hall", "Seat Position", "Row", "Column"]

  /** `${hall?.name}`: the hall's name, or the text "undefined" when the exam's hall is missing. */
  function HallNameText(hall: Option<Hall>): string {
    match hall
    case Some(h) => h.name
    case None => "undefined"
  }

  /** One record's line: name, roll number, hall name, seat label, then the 1-based row and column. */
  function ManagerCsvLine(a: SeatAssignment, hall: Option<Hall>): string {
    Join([a.studentName, a.rollNumber, HallNameText(hall), SeatByPosition(a.row, a.column), Decimal(a.row + 1), Decimal(a.column + 1)], ',')
  }

  function ManagerCsvLines(current: seq<SeatAssignment>, hall: Option<Hall>): (lines: seq<string>)
    ensures |lines| == |current|
  {
    seq(|current|, i requires 0 <= i < |current| => ManagerCsvLine(current[i], hall))
  }

  /** `exportAssignments`' text: nothing when there are no current records, else the header and one line per record. */
  function ExportAssignments(current: seq<SeatAssignment>, hall: Option<Hall>): Option<string> {
    if |current| == 0 then None
    else Some(Join([Join(ManagerCsvColumns, ',')] + ManagerCsvLines(current, hall), '\n'))
  }

  /** A manager line is one line when the record's name and roll number and the hall's name are. */
  lemma ManagerCsvLineIsOneLine(a: SeatAssignment, hall: Option<Hall>)
    requires '\n' !in a.studentName && '\n' !in a.rollNumber && '\n' !in HallNameText(hall)
    ensures '\n' !in ManagerCsvLine(a, hall)
  {
    DigitsExclude(Decimal(a.column + 1), '\n');
    DigitsExclude(Decimal(a.row + 1), '\n');
    assert '\n' !in SeatByPosition(a.row, a.column);
    JoinExcludes([a.studentName, a.rollNumber, HallNameText(hall), SeatByPosition(a.row, a.column), Decimal(a.row + 1), Decimal(a.column + 1)], ',', '\n');
  }

  /**
   * The export exists exactly when there are current records, and then reads
   * back as the header followed by one line per record, in order, provided
   * no name or roll number holds a newline.
   */
  lemma ExportAssignmentsLines(current: seq<SeatAssignment>, hall: Option<Hall>)
    requires forall a :: a in current ==> '\n' !in a.studentName && '\n' !in a.rollNumber
    requires '\n' !in HallNameText(hall)
    ensures ExportAssignments(current, hall).Some? <==> |current| > 0
    ensures ExportAssignments(current, hall).Some? ==>
      var lines := Split(ExportAssignments(current, hall).value, '\n');
      && lines == [Join(ManagerCsvColumns, ',')] + ManagerCsvLines(current, hall)
      && |lines| == |current| + 1
  {
    if |current| > 0 {
      var lines := ManagerCsvLines(current, hall);
      JoinExcludes(ManagerCsvColumns, ',', '\n');
      forall i | 0 <= i < |lines| ensures '\n' !in lines[i] {
        ManagerCsvLineIsOneLine(current[i], hall);
      }
      SplitHeaderAndLines(Join(ManagerCsvColumns, ','), lines, '\n');
    }
  }

  // ---------------------------------------------------------------------
  // The screen

  datatype Outcome =
    | Skipped            // no hall, or nothing selected
    | OverCapacity       // more selected students than `hall.capacity`
    | GeneratorRejected  // the generator threw: more students than available seats
    | Replaced           // a new seating became the current one

  /** A consistent hall passes the generator whenever it passes the screen's capacity guard. */
  lemma GuardSufficesForConsistentHall(examId: string, students: seq<User>, hall: Hall, studentOrder: seq<nat>, seatOrder: seq<nat>)
    requires IsPermutation(studentOrder, |students|)
    requires IsPermutation(seatOrder, |AvailableSeats(hall.layout)|)
    requires CapacityConsistent(hall) && |students| <= hall.capacity
    ensures Seating(examId, students, hall, studentOrder, seatOrder).Generated?
    ensures AllOfExam(Seating(examId, students, hall, studentOrder, seatOrder).assignments, examId)
  {
    SeatingStampsExamAndHall(examId, students, hall, studentOrder, seatOrder);
  }

  class ManagerState {
    const exam: Exam
    const store: RecordStore
    var selectedStudents: seq<string>
    var currentAssignments: seq<SeatAssignment>

    /** The current seating belongs to this screen's exam. */
    ghost predicate Valid()
      reads this
    {
      AllOfExam(currentAssignments, exam.id)
    }

    /** Initial state followed by the mount effect: load this exam's stored seating and select its students. */
    constructor (exam: Exam, store: RecordStore)
      ensures this.exam == exam && this.store == store
      ensures Valid()
      ensures var existing := ExistingFor(store.seatAssignments, exam.id);
        if |existing| > 0 then currentAssignments == existing && selectedStudents == Keys(existing, AssignmentStudentId)
        else currentAssignments == [] && selectedStudents == []
    {
      this.exam := exam;
      this.store := store;
      var existing := ExistingFor(store.seatAssignments, exam.id);
      if |existing| > 0 {
        currentAssignments := existing;
        selectedStudents := Keys(existing, AssignmentStudentId);
      } else {
        currentAssignments := [];
        selectedStudents := [];
      }
    }

    /** `handleStudentToggle`. */
    method HandleStudentToggle(studentId: string)
      modifies this`selectedStudents
      ensures selectedStudents == Toggled(old(selectedStudents), studentId)
    {
      selectedStudents := Toggled(selectedStudents, studentId);
    }

    /** `handleSelectAll`. */
    method HandleSelectAll()
      modifies this`selectedStudents
      ensures selectedStudents == SelectAll(old(selectedStudents), StudentsOf(store.users))
    {
      selectedStudents := SelectAll(selectedStudents, StudentsOf(store.users));
    }

    /**
     * `generateAssignments`. The two orders stand for the generator's
     * shuffles of the selected students and of the hall's available seats.
     */
    method GenerateAssignments(studentOrder: seq<nat>, seatOrder: seq<nat>) returns (outcome: Outcome)
      requires Valid()
      requires IsPermutation(studentOrder, |SelectedStudentData(StudentsOf(store.users), selectedStudents)|)
      requires HallOf(store.halls, exam).Some? ==>
                 IsPermutation(seatOrder, |AvailableSeats(HallOf(store.halls, exam).value.layout)|)
      modifies this`currentAssignments
      ensures Valid()
      ensures var hall := HallOf(store.halls, exam);
        var data := SelectedStudentData(StudentsOf(store.users), selectedStudents);
        && (outcome == Skipped <==> hall.None? || |selectedStudents| == 0)
        && (outcome == OverCapacity <==> hall.Some? && |selectedStudents| > 0 && |data| > hall.value.capacity)
        && (outcome == GeneratorRejected <==>
              hall.Some? && |selectedStudents| > 0 && |data| <= hall.value.capacity
              && |data| > |AvailableSeats(hall.value.layout)|)
        && (outcome == Replaced ==>
              currentAssignments == Seating(exam.id, data, hall.value, studentOrder, seatOrder).assignments)
        && (outcome != Replaced ==> currentAssignments == old(currentAssignments))
        && (hall.Some? && CapacityConsistent(hall.value) ==> outcome != GeneratorRejected)
    {
      var hall := HallOf(store.halls, exam);
      if hall.None? || |selectedStudents| == 0 {
        return Skipped;
      }
      var data := SelectedStudentData(StudentsOf(store.users), selectedStudents);
      if |data| > hall.value.capacity {
        return OverCapacity;
      }
      var generated := GenerateSeatAssignments(exam.id, data, hall.value, studentOrder, seatOrder);
      match generated
      case NotEnoughSeats =>
        outcome := GeneratorRejected;
      case Generated(assignments) =>
        SeatingStampsExamAndHall(exam.id, data, hall.value, studentOrder, seatOrder);
        currentAssignments := assignments;
        outcome := Replaced;
    }

    /**
     * "View Layout": the seating chart receives `currentAssignments` itself,
     * and its printed student list sorts that array in place by student name.
     * `order` is that sort's rearrangement; `nameBefore` stands for
     * `localeCompare(..) < 0`, and no name comes before an earlier one.
     */
    method ViewLayout(order: seq<nat>, nameBefore: (string, string) -> bool)
      requires Valid()
      requires InRange(order, |currentAssignments|) && IsPermutation(order, |currentAssignments|)
      requires forall i, j :: 0 <= i < j < |order| ==>
                 !nameBefore(currentAssignments[order[j]].studentName, currentAssignments[order[i]].studentName)
      modifies this`currentAssignments
      ensures currentAssignments == Permute(old(currentAssignments), order)
      ensures multiset(currentAssignments) == multiset(old(currentAssignments))
      ensures forall i, j :: 0 <= i < j < |currentAssignments| ==>
                !nameBefore(currentAssignments[j].studentName, currentAssignments[i].studentName)
      ensures Valid()
    {
      PermuteIsRearrangement(currentAssignments, order);
      var sorted := Permute(currentAssignments, order);
      forall a | a in sorted ensures a.examId == exam.id {
        assert a in multiset(sorted);
      }
      currentAssignments := sorted;
    }

    /** `saveAssignments`. */
    method SaveAssignments()
      requires Valid()
      modifies store`seatAssignments
      ensures store.seatAssignments == ReplaceForExam(old(store.seatAssignments), exam.id, currentAssignments)
      ensures ExistingFor(store.seatAssignments, exam.id) == currentAssignments
      ensures forall other :: other != exam.id ==>
                ExistingFor(store.seatAssignments, other) == ExistingFor(old(store.seatAssignments), other)
    {
      var otherAssignments := WithoutKey(store.seatAssignments, AssignmentExamId, exam.id);
      forall other | other != exam.id
        ensures ExistingFor(otherAssignments + currentAssignments, other) == ExistingFor(store.seatAssignments, other)
      {
        SaveKeepsOtherExams(store.seatAssignments, exam.id, currentAssignments, other);
      }
      SaveStoresCurrent(store.seatAssignments, exam.id, currentAssignments);
      store.seatAssignments := otherAssignments + currentAssignments;
    }
  }
}
