# Exam seat assignment — a Dafny model

This project models the core of Exam-Seat-pro, an exam-hall seating application. The core has these parts:

- **The seat-assignment engine** (`src/utils/seatAssignment.ts`):
  - It builds the pool of available seats of a hall.
  - It refuses when there are more students than available seats.
  - Otherwise it pairs a shuffled student list with a shuffled seat pool, one record per student.
  - It looks up a student's seat and writes the `A1`-style seat label.
- **The record types** (`src/types/index.ts`): `User`, `Hall` with its seat grid, `Exam` and `SeatAssignment`, as Dafny datatypes.
- **The hall form** (`src/components/Halls/HallForm.tsx`):
  - It generates a rows-by-columns grid and toggles single seats.
  - On submit it counts the hall's `capacity` from the grid.
  - This is where the invariant "capacity = number of available seats" is established.
- **The seat assignment screen** (`src/components/Exams/SeatAssignmentManager.tsx`):
  - student selection (toggle one, select all);
  - the capacity guard before generation;
  - saving one exam's seating into the stored assignments;
  - the CSV export.
- **The seating chart** (`src/components/Exams/SeatViewer.tsx`): which record a grid cell shows, the cell's state, the CSV export and the footer count.
- **The hall and exam lists** (`src/components/Halls/HallList.tsx`, `src/components/Exams/ExamList.tsx`):
  - delete by id, update in place and append;
  - the hall name shown on an exam and the status badge colour.

Modules:

- `Seqs` holds generic sequence facts: `filter`, `find`, `map` replacement and permutations.
- `Text` holds decimal rendering, `join` and `split`.
- `Types` holds the records.
- `Collections` holds the id-keyed edits both list screens make.
- `Storage` holds a `RecordStore` class whose four sequence fields are the four stored collections.
- `SeatAssignmentUtils`, `HallForm`, `HallList`, `ExamList`, `SeatViewer` and `SeatAssignmentManager` follow the source files of the same names.
- Each screen that holds state is a class whose fields are the screen's state and whose methods are its event handlers. Each method names in `modifies` exactly the stored list or field it writes. For example, deleting a hall can change only `store.halls`.

The two random shuffles of the generator are index orders supplied by the caller. Each must be a permutation (`Seqs.IsPermutation`), so the generator's result is a function of its inputs (`SeatAssignmentUtils.Seating`).

Two behaviours of the code worth noting:

- The generator's exception text is a fixed 'Not enough seats available for all students'. The message that names the two counts is the screen's `alert`, which compares the selection against `hall.capacity`.
- An edited hall keeps its stored grid even when it no longer matches `rows` × `columns`.

## Model

| member | source | states |
|---|---|---|
| `Types.StatusNameInjective` | src/types/index.ts:36 | the three exam statuses have three different record strings |
| `Storage.RecordStore.constructor` | src/components/Exams/SeatAssignmentManager.tsx:14-16 | the four stored lists `users`, `halls`, `exams` and `seatAssignments` hold the given values |
| `Text.DecimalRoundTrip` | src/utils/seatAssignment.ts:55 | the decimal text of a number reads back as that number |
| `SeatAssignmentUtils.FlattenMembership` | src/utils/seatAssignment.ts:9 | a seat is in `layout.flat()` exactly when it sits at some row and column of the grid |
| `SeatAssignmentUtils.AvailableSeatsMembership` | src/utils/seatAssignment.ts:9 | a seat is in the pool exactly when it is available and sits somewhere in the grid |
| `SeatAssignmentUtils.PoolDistinctIds` | src/utils/seatAssignment.ts:9 | when the grid's seat ids are distinct, the pool's seat ids are distinct |
| `SeatAssignmentUtils.GenerateSeatAssignments` | src/utils/seatAssignment.ts:3-37 | refuses exactly when there are more students than available seats; otherwise it returns the shuffled students paired position by position with the shuffled pool, with the loop building that list one record per student |
| `SeatAssignmentUtils.SeatingPairsShuffledLists` | src/utils/seatAssignment.ts:16-22 | with enough seats there is one record per student, and record i pairs the i-th shuffled student with the i-th shuffled seat |
| `SeatAssignmentUtils.SeatingCoversStudents` | src/utils/seatAssignment.ts:16-26 | the records' student ids are the input students' ids as a multiset, and are pairwise distinct when the input ids are |
| `SeatAssignmentUtils.SeatingUsesPoolSeats` | src/utils/seatAssignment.ts:19-32 | record i copies the id, row and column of seat i of the shuffled pool, and that seat is an available seat of the hall; with distinct grid ids no two records share a seat |
| `SeatAssignmentUtils.SeatingStampsExamAndHall` | src/utils/seatAssignment.ts:24-27 | every generated record carries the exam id and the hall id |
| `SeatAssignmentUtils.FindStudentSeat` | src/utils/seatAssignment.ts:39-47 | None exactly when no record matches both student and exam; otherwise the first record that does |
| `SeatAssignmentUtils.RowLetterAlphabetic` | src/utils/seatAssignment.ts:54 | rows 0 to 25 are lettered 'A' to 'Z' |
| `SeatAssignmentUtils.SeatByPositionExamples` | src/utils/seatAssignment.ts:49-56 | (0,0) is "A1", (4,9) is "E10" and (25,0) is "Z1" |
| `SeatAssignmentUtils.SeatByPositionInjective` | src/utils/seatAssignment.ts:54-55 | two grid positions never share a label |
| `SeatAssignmentUtils.AvailableSeats` | src/utils/seatAssignment.ts:9 | no contract; defined as the available seats of the flattened grid in grid order; `AvailableSeatsMembership` and `PoolDistinctIds` state its properties |
| `SeatAssignmentUtils.MakeAssignment` | src/utils/seatAssignment.ts:23-33 | no contract; defined as the record of lines 23-33, with id `examId-studentId-seatId` and an absent roll number as the empty string; `SeatingStampsExamAndHall` and `SeatingUsesPoolSeats` state its properties |
| `SeatAssignmentUtils.Seating` | src/utils/seatAssignment.ts:3-37 | no contract; the generator's result as a function of its inputs and the two orders; `SeatingPairsShuffledLists`, `SeatingCoversStudents`, `SeatingUsesPoolSeats` and `SeatingStampsExamAndHall` state its properties |
| `SeatAssignmentUtils.SeatByPosition` | src/utils/seatAssignment.ts:49-56 | no contract; defined as the row letter `65 + row` followed by the decimal of `column + 1`; `SeatByPositionExamples` and `SeatByPositionInjective` state its properties |
| `HallForm.GenerateLayout` | src/components/Halls/HallForm.tsx:32-47 | the nested loops build `rows` rows of `columns` seats; the seat at [r][c] has id "seat-r-c", row r, column c, is available and is labelled like `getSeatByPosition` |
| `HallForm.GridSeatIdInjective` | src/components/Halls/HallForm.tsx:38 | different grid positions get different "seat-r-c" ids |
| `HallForm.FreshLayoutDistinctIds` | src/components/Halls/HallForm.tsx:37-43 | a generated grid has pairwise distinct seat ids |
| `HallForm.FlattenLength` | src/components/Halls/HallForm.tsx:173 | a grid of rows with `columns` seats each holds rows × columns seats |
| `HallForm.FreshLayoutCapacity` | src/components/Halls/HallForm.tsx:36-41 | every seat of a generated grid is available, so its available count is rows × columns |
| `HallForm.ToggleTouchesOneSeat` | src/components/Halls/HallForm.tsx:55-64 | toggling keeps the grid's shape and every other seat, and negates only the chosen seat's availability |
| `HallForm.ToggleOutsideGrid` | src/components/Halls/HallForm.tsx:56-62 | toggling a position outside the grid changes nothing |
| `HallForm.ToggleTwiceRestores` | src/components/Halls/HallForm.tsx:59 | toggling the same seat twice restores the grid |
| `HallForm.ToggleShiftsCapacityByOne` | src/components/Halls/HallForm.tsx:59 | toggling a seat inside the grid moves the available count by exactly one, down if the seat was available |
| `HallForm.ToggleKeepsDistinctIds` | src/components/Halls/HallForm.tsx:56-62 | toggling keeps seat ids distinct |
| `HallForm.WithSeatToggled` | src/components/Halls/HallForm.tsx:55-62 | no contract; defined as the nested `map` that negates `isAvailable` at one row and column; `ToggleTouchesOneSeat`, `ToggleOutsideGrid`, `ToggleTwiceRestores`, `ToggleShiftsCapacityByOne` and `ToggleKeepsDistinctIds` state its properties |
| `HallForm.AvailablePlusBlocked` | src/components/Halls/HallForm.tsx:178-184 | the available and blocked figures add up to the number of seats in the grid |
| `HallForm.BlockedCount` | src/components/Halls/HallForm.tsx:184 | no contract; defined as the length of the blocked-seat filter of the flattened grid; `AvailablePlusBlocked` relates it to the available count |
| `HallForm.HallFormState.constructor` | src/components/Halls/HallForm.tsx:12-30 | an edited hall's name, dimensions and grid are loaded; a new hall starts as a fresh 10 × 10 grid |
| `HallForm.HallFormState.ChangeDimension` | src/components/Halls/HallForm.tsx:49-53 | the changed dimension is stored and the grid is regenerated from the new dimensions, discarding toggles |
| `HallForm.HallFormState.ToggleSeat` | src/components/Halls/HallForm.tsx:55-64 | the grid becomes the toggled grid |
| `HallForm.HallFormState.ResetLayout` | src/components/Halls/HallForm.tsx:84-86 | the grid becomes a fresh grid of the current dimensions |
| `HallForm.HallFormState.Submit` | src/components/Halls/HallForm.tsx:66-82 | the submitted hall's capacity is its number of available seats; an edited hall keeps a non-empty id and creation time |
| `Collections.ById` | src/components/Exams/ExamList.tsx:32 | None exactly when no record has the id; otherwise the first record that has it |
| `Collections.WithKey` | src/components/Exams/SeatAssignmentManager.tsx:23 | keeps exactly the records with the id |
| `Collections.WithoutKey` | src/components/Halls/HallList.tsx:16 | keeps exactly the records without the id |
| `Collections.WithoutKeyLookup` | src/components/Halls/HallList.tsx:16 | after a delete no record has the id, and every other id finds what it found before |
| `Collections.WithoutKeyAbsent` | src/components/Exams/ExamList.tsx:17 | deleting an id no record has changes nothing |
| `Collections.WithoutKeyIdempotent` | src/components/Halls/HallList.tsx:16 | deleting an id twice is deleting it once |
| `Collections.WithoutKeyConcat` | src/components/Exams/ExamList.tsx:17 | a delete works piece by piece, so the remaining records keep their order |
| `Collections.WithoutKeyDistinct` | src/components/Halls/HallList.tsx:16 | a delete keeps ids distinct |
| `Collections.ReplaceByKey` | src/components/Halls/HallList.tsx:37 | an update keeps the length of the list |
| `Collections.ReplaceByKeyLookup` | src/components/Halls/HallList.tsx:37 | after an update the id finds the new record if some record had it, and every other id finds what it found before |
| `Collections.ReplaceByKeyAbsent` | src/components/Exams/ExamList.tsx:56 | updating a record whose id is not stored changes nothing |
| `Collections.ReplaceByKeyInPlace` | src/components/Exams/ExamList.tsx:56 | an update rewrites only the positions holding the id, and the sequence of ids is unchanged |
| `Collections.ReplaceByKeyMembers` | src/components/Halls/HallList.tsx:37 | an update introduces no record other than the new one |
| `Collections.ReplaceByKeyDistinct` | src/components/Exams/ExamList.tsx:56 | an update keeps ids distinct |
| `Collections.AppendLookup` | src/components/Halls/HallList.tsx:39 | after an append an id finds the earlier record if one has it, otherwise the new one |
| `Collections.AppendDistinct` | src/components/Exams/ExamList.tsx:58 | appending a record with a new id keeps ids distinct |
| `HallList.DeleteKeepsCapacities` | src/components/Halls/HallList.tsx:16 | deleting keeps every stored hall's capacity consistent |
| `HallList.SaveKeepsCapacities` | src/components/Halls/HallList.tsx:35-42 | saving a consistent hall, updated or appended, keeps every stored capacity consistent |
| `HallList.HallListState.constructor` | src/components/Halls/HallList.tsx:9-11 | the screen works on the given stored lists, and no hall is open for editing |
| `HallList.HallListState.HandleDelete` | src/components/Halls/HallList.tsx:14-18 | a confirmed delete removes every hall with the id and keeps the rest in order; an unconfirmed one changes nothing; only the halls list can change |
| `HallList.HallListState.HandleEdit` | src/components/Halls/HallList.tsx:20-23 | the form opens on the given hall |
| `HallList.HallListState.SaveHall` | src/components/Halls/HallList.tsx:35-42 | an edited hall replaces the same-id hall in place, a new hall is appended, and the form closes |
| `ExamList.HallName` | src/components/Exams/ExamList.tsx:31-34 | the name of the first hall with the id, or "Unknown Hall" when there is none or its name is empty |
| `ExamList.StatusColor` | src/components/Exams/ExamList.tsx:36-47 | the gray default is returned exactly for strings that are not a status name |
| `ExamList.StatusColorsDistinct` | src/components/Exams/ExamList.tsx:37-43 | the three statuses get three different colours |
| `ExamList.ExamListState.constructor` | src/components/Exams/ExamList.tsx:9-12 | the screen works on the given stored lists, and no exam is open for editing |
| `ExamList.ExamListState.HandleDelete` | src/components/Exams/ExamList.tsx:15-19 | a confirmed delete removes every exam with the id and keeps the rest in order; an unconfirmed one changes nothing |
| `ExamList.ExamListState.HandleEdit` | src/components/Exams/ExamList.tsx:21-24 | the form opens on the given exam |
| `ExamList.ExamListState.SaveExam` | src/components/Exams/ExamList.tsx:54-61 | an edited exam replaces the same-id exam in place, a new exam is appended, and the form closes |
| `SeatViewer.SeatAssignmentAt` | src/components/Exams/SeatViewer.tsx:13-15 | None exactly when no record is at that row and column; otherwise the first that is |
| `SeatViewer.CellOf` | src/components/Exams/SeatViewer.tsx:107-112 | a cell is blocked exactly when its seat is unavailable, and assigned exactly when its seat is available and a record sits at its position |
| `SeatViewer.FormLayoutsSeatsAtOwnPositions` | src/components/Halls/HallForm.tsx:39-40 | generated grids, and grids toggled from them, record each seat's own position as its row and column |
| `SeatViewer.GeneratedSeatsShowAssigned` | src/components/Exams/SeatViewer.tsx:99-112 | on such a grid every generated record's cell is an available seat drawn as assigned |
| `SeatViewer.CsvLines` | src/components/Exams/SeatViewer.tsx:24-26 | there is one line per record |
| `SeatViewer.CsvLine` | src/components/Exams/SeatViewer.tsx:25-26 | no contract; defined as the seat label, name, roll number, `row + 1` and `column + 1` joined by commas; `CsvLineIsOneLine` and `CsvLineFields` state its properties |
| `SeatViewer.ExportLayout` | src/components/Exams/SeatViewer.tsx:21-27 | no contract; defined as the header and one line per record joined by newlines; `ExportLayoutLines` states that it splits back into them |
| `SeatViewer.SeatLabelIsPlain` | src/components/Exams/SeatViewer.tsx:25 | a seat label holds neither a comma nor a newline |
| `SeatViewer.HeaderIsOneLine` | src/components/Exams/SeatViewer.tsx:23 | the header is one line of the five column names |
| `SeatViewer.CsvLineIsOneLine` | src/components/Exams/SeatViewer.tsx:25 | a record's line holds no newline when its name and roll number hold none |
| `SeatViewer.ExportLayoutLines` | src/components/Exams/SeatViewer.tsx:22-27 | the export reads back as the header followed by exactly one line per record, in order |
| `SeatViewer.CsvLineFields` | src/components/Exams/SeatViewer.tsx:25 | a line splits at its commas into label, name, roll number and the 1-based row and column, which read back as the record's row + 1 and column + 1 |
| `SeatViewer.SeatsLeft` | src/components/Exams/SeatViewer.tsx:148 | no contract; defined as `hall.capacity` minus the number of records; `SeatsLeftAfterGeneration` states what it counts |
| `SeatViewer.SeatsLeftAfterGeneration` | src/components/Exams/SeatViewer.tsx:148 | on a consistent hall the footer's available figure after generation is the number of unassigned available seats, never negative |
| `SeatAssignmentManager.StudentsOf` | src/components/Exams/SeatAssignmentManager.tsx:21 | keeps exactly the users whose role is student |
| `SeatAssignmentManager.HallOf` | src/components/Exams/SeatAssignmentManager.tsx:22 | the first stored hall with the exam's hall id, as `find` returns it, or None exactly when no stored hall has that id |
| `SeatAssignmentManager.ExistingFor` | src/components/Exams/SeatAssignmentManager.tsx:23 | keeps exactly the stored records of the exam |
| `SeatAssignmentManager.SelectedStudentData` | src/components/Exams/SeatAssignmentManager.tsx:51 | keeps exactly the students whose id is selected |
| `SeatAssignmentManager.SelectingAllGivesStudentList` | src/components/Exams/SeatAssignmentManager.tsx:51 | when every student id is selected, the selected data is the student list in its order |
| `SeatAssignmentManager.Toggled` | src/components/Exams/SeatAssignmentManager.tsx:32-38 | the toggled id's membership flips, and every other id's membership is unchanged |
| `SeatAssignmentManager.ToggledNoDuplicates` | src/components/Exams/SeatAssignmentManager.tsx:34-36 | toggling never introduces a duplicate id |
| `SeatAssignmentManager.ToggleTwice` | src/components/Exams/SeatAssignmentManager.tsx:34-36 | toggling twice restores the selection as a set; it restores the same sequence when the id was not selected |
| `SeatAssignmentManager.SelectAll` | src/components/Exams/SeatAssignmentManager.tsx:40-46 | the selection is cleared when its length equals the number of students; otherwise it becomes the student ids in student order |
| `SeatAssignmentManager.SelectAllFlips` | src/components/Exams/SeatAssignmentManager.tsx:40-46 | for a duplicate-free selection of student ids, "select all" clears the selection exactly when every student is already selected, and otherwise leaves every student selected |
| `SeatAssignmentManager.StudentKeysNoDuplicates` | src/components/Exams/SeatAssignmentManager.tsx:44 | the ids of distinct students form a selection without duplicates |
| `SeatAssignmentManager.SelectAllLengthTest` | src/components/Exams/SeatAssignmentManager.tsx:41 | for a duplicate-free selection of student ids, the length test holds exactly when every student is selected |
| `SeatAssignmentManager.SaveKeepsOtherExams` | src/components/Exams/SeatAssignmentManager.tsx:68-70 | saving leaves every other exam's records as they were, in order |
| `SeatAssignmentManager.SaveStoresCurrent` | src/components/Exams/SeatAssignmentManager.tsx:68-70 | after saving, the exam's stored records are exactly the current ones |
| `SeatAssignmentManager.SaveTwice` | src/components/Exams/SeatAssignmentManager.tsx:66-72 | saving A and then B for one exam is saving B alone |
| `SeatAssignmentManager.SaveThenFindStudentSeat` | src/components/Exams/SeatAssignmentManager.tsx:70 | after saving, a student's seat for the exam is found among the current records only |
| `SeatAssignmentManager.ReplaceForExam` | src/components/Exams/SeatAssignmentManager.tsx:66-70 | no contract; defined as the other exams' stored records followed by the current ones; `SaveKeepsOtherExams`, `SaveStoresCurrent`, `SaveTwice` and `SaveThenFindStudentSeat` state its properties |
| `SeatAssignmentManager.HallNameText` | src/components/Exams/SeatAssignmentManager.tsx:80 | no contract; `${hall?.name}` is the hall's name, or the text "undefined" when the exam's hall is missing |
| `SeatAssignmentManager.ManagerCsvLine` | src/components/Exams/SeatAssignmentManager.tsx:79-81 | no contract; defined as name, roll number, hall name, seat label, `row + 1` and `column + 1` joined by commas; `ManagerCsvLineIsOneLine` states its property |
| `SeatAssignmentManager.ExportAssignments` | src/components/Exams/SeatAssignmentManager.tsx:74-82 | no contract; None when there are no current records, otherwise the header and one line per record joined by newlines; `ExportAssignmentsLines` states both cases |
| `SeatAssignmentManager.ManagerCsvLines` | src/components/Exams/SeatAssignmentManager.tsx:79-81 | there is one line per current record |
| `SeatAssignmentManager.ManagerCsvLineIsOneLine` | src/components/Exams/SeatAssignmentManager.tsx:80 | a line holds no newline when the name, roll number and hall name hold none |
| `SeatAssignmentManager.ExportAssignmentsLines` | src/components/Exams/SeatAssignmentManager.tsx:74-82 | the export exists exactly when there are current records, and reads back as the header followed by one line per record, in order |
| `SeatAssignmentManager.GuardSufficesForConsistentHall` | src/components/Exams/SeatAssignmentManager.tsx:53-59 | on a consistent hall, a selection that passes the capacity guard is never refused by the generator, and its records carry the exam's id |
| `SeatAssignmentManager.ManagerState.constructor` | src/components/Exams/SeatAssignmentManager.tsx:25-30 | a stored seating for the exam becomes the current one and its students are selected |
| `SeatAssignmentManager.ManagerState.HandleStudentToggle` | src/components/Exams/SeatAssignmentManager.tsx:32-38 | the selection becomes the toggled selection |
| `SeatAssignmentManager.ManagerState.HandleSelectAll` | src/components/Exams/SeatAssignmentManager.tsx:40-46 | the selection is cleared when its length equals the number of students, otherwise it becomes every student id |
| `SeatAssignmentManager.ManagerState.GenerateAssignments` | src/components/Exams/SeatAssignmentManager.tsx:48-64 | nothing happens without a hall or a selection; more selected students than `hall.capacity`, or a refusal by the generator, leaves the current seating unchanged; otherwise the seating is the generator's result; on a consistent hall the generator never refuses |
| `SeatAssignmentManager.ManagerState.ViewLayout` | src/components/Exams/SeatViewer.tsx:156-157 | the seating chart's printed list sorts the manager's own `currentAssignments` in place: the records become the given rearrangement of the old ones, are in name order, keep the same multiset of records and still belong to the exam |
| `SeatAssignmentManager.ManagerState.SaveAssignments` | src/components/Exams/SeatAssignmentManager.tsx:66-72 | the store becomes the other exams' records followed by the current ones: this exam's records are exactly the current ones, and every other exam's are unchanged |

## Left out

- Randomness: `sort(() => Math.random() - 0.5)` is replaced by a caller-supplied permutation of each list. The model says nothing about the distribution of seatings.
- Rows past the surrogate range: the row letter is `String.fromCharCode(65 + row)`, modelled as a Dafny `char` for rows below `0xD800 - 65`. Rows 26 to 29, which the form's input allows, give '[', '\', ']' and '^', as the browser does.
- HallForm.HallFormState.ChangeDimension: requires the row count to stay below that bound, because a `char` cannot hold a surrogate code point.
- Dimension input: `parseInt` of the field may give `NaN` or a negative number. The model takes the new value as a natural number, and the form's `max="30"` is not enforced by the handler.
- Exceptions, alerts and prompts:
  - The generator's `throw` is the `NotEnoughSeats` result.
  - The texts of `alert` are not modelled; the outcome of `generateAssignments` says which branch ran.
  - `confirm` is the boolean parameter `confirmed`.
- Persistence: `useLocalStorage` is not part of this model. The stored collections are the fields of `Storage.RecordStore`.
- React effects:
  - The seat screen's effect re-runs whenever the count of stored records for the exam changes. The model runs it only once, at construction.
  - The hall form's load effect is also folded into its constructor.
- Browser side effects: the `Blob`, object URL and anchor-click downloads, and `window.print`, are not modelled. The export functions return the CSV text instead.
- Clock values: `Date.now()` ids and ISO timestamps are the parameters `nowId` and `nowIso` of `HallForm.HallFormState.Submit`.
- Rendering:
  - the CSS class strings of seating-chart cells (the three cell states are the `Cell` datatype);
  - the tooltip and the first-name cell text;
  - the printed student list's rows; the in-place sort it performs is `SeatAssignmentManager.ManagerState.ViewLayout`;
  - the navigation flags `showForm`, `viewingHall` and `showViewer`.
- SeatAssignmentManager.ManagerState.ViewLayout: `localeCompare` is the caller-supplied relation `nameBefore`, and the sort's rearrangement is the caller-supplied `order`. The model states that the result is in that name order and is a rearrangement of the old records, not which collation the browser uses.
- JavaScript numbers: rows, columns, capacity and the CSV's `row + 1` and `column + 1` are doubles in the source and unbounded integers here. `Text.Decimal` matches `${n}` only below 10^21; from there on JavaScript prints exponent notation, and above 2^53 integers are not exact. `Text.DecimalRoundTrip`, `HallForm.GridSeatIdInjective` and `SeatAssignmentUtils.SeatByPositionInjective` therefore promise more for such values than the program delivers. No grid the form builds comes near these sizes.
- The `label` field of a seat is called `seatLabel`, because `label` is a Dafny keyword.
- Other screens: authentication, routing, dashboards, the exam form, the student list, the hall viewer and the student's own seat view are not part of this model.
