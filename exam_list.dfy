/**
 * The exams screen (src/components/Exams/ExamList.tsx): delete and save
 * exams as the halls screen does halls, the hall name shown on each exam
 * card, and the badge colour of each status.
 */
module ExamList {
  import opened Seqs
  import opened Types
  import opened Collections
  import opened Storage

  const UnknownHall: string := "Unknown Hall"

  /**
   * `getHallName`: the name of the first hall with that id; "Unknown Hall"
   * when there is none, and also when that hall's name is empty
   * (`hall?.name || 'Unknown Hall'`).
   */
  function HallName(halls: seq<Hall>, hallId: string): (r: string)
    ensures (forall h :: h in halls ==> h.id != hallId) ==> r == UnknownHall
    ensures forall k :: 0 <= k < |halls| && halls[k].id == hallId && (forall j :: 0 <= j < k ==> halls[j].id != hallId)
                        ==> r == if halls[k].name != "" then halls[k].name else UnknownHall
    ensures r != ""
  {
    match ById(halls, HallId, hallId)
    case Some(h) => if h.name != "" then h.name else UnknownHall
    case None => UnknownHall
  }

  const ScheduledColor: string := "bg-blue-100 text-blue-800"
  const OngoingColor: string := "bg-yellow-100 text-yellow-800"
  const CompletedColor: string := "bg-green-100 text-green-800"
  const DefaultColor: string := "bg-gray-100 text-gray-800"

  /** `getStatusColor`: a class string for any string, gray for anything that is not a status name. */
  function StatusColor(status: string): (r: string)
    ensures r == DefaultColor <==> forall st: ExamStatus :: status != StatusName(st)
  {
    if status == "scheduled" then assert status == StatusName(Scheduled); ScheduledColor
    else if status == "ongoing" then assert status == StatusName(Ongoing); OngoingColor
    else if status == "completed" then assert status == StatusName(Completed); CompletedColor
    else DefaultColor
  }

  /** The three statuses get three different colours. */
  lemma StatusColorsDistinct(a: ExamStatus, b: ExamStatus)
    requires a != b
    ensures StatusColor(StatusName(a)) != StatusColor(StatusName(b))
  {
  }

  class ExamListState {
    const store: RecordStore
    /** The exam open in the form: Some when editing, None when creating. */
    var editingExam: Option<Exam>

    constructor (store: RecordStore)
      ensures this.store == store && editingExam.None?
    {
      this.store := store;
      editingExam := None;
    }

    /** `handleDelete`: `confirmed` is the user's answer to the confirmation prompt. */
    method HandleDelete(examId: string, confirmed: bool)
      modifies store`exams
      ensures store.exams == if confirmed then WithoutKey(old(store.exams), ExamId, examId) else old(store.exams)
    {
      if confirmed {
        store.exams := WithoutKey(store.exams, ExamId, examId);
      }
    }

    /** `handleEdit`: open the form on an existing exam. */
    method HandleEdit(exam: Exam)
      modifies this`editingExam
      ensures editingExam == Some(exam)
    {
      editingExam := Some(exam);
    }

    /** The form's `onSave`: update in place when editing, append otherwise, then close the form. */
    method SaveExam(exam: Exam)
      modifies store`exams, this`editingExam
      ensures store.exams == if old(editingExam).Some? then ReplaceByKey(old(store.exams), ExamId, exam)
                             else old(store.exams) + [exam]
      ensures editingExam.None?
    {
      if editingExam.Some? {
        store.exams := ReplaceByKey(store.exams, ExamId, exam);
      } else {
        store.exams := store.exams + [exam];
      }
      editingExam := None;
    }
  }
}
