# Student marksheet system — a Dafny model

`lis.py` is a console program that keeps student records in one SQLite table,
`students`, keyed by roll number. A student has marks in five subjects
(English, Math, Science, Social, Nepali), each out of 100 with a pass mark of 40.
Each mark is asked for again and again until the user types a whole number in
range. The program computes a total, a percentage and a Pass/Fail verdict, stores
them with the marks, and writes a text marksheet named after the roll. Rows can
be added, updated, deleted, and their marksheet regenerated from the stored
values.

The model has one module per concern:

- `Catalog` (catalog.dfy) holds the subject catalog (name, full mark, pass mark)
  and the acceptance rule for a mark. `Subjects` is the program's own
  five-subject catalog; everything else takes the catalog as a parameter. The
  `Results` lemmas hold for any catalog, needing only one mark per subject (and
  `CalculateResult` a non-empty catalog, to divide by). The table and its
  operations assume a valid catalog: non-empty, distinct names, and
  0 <= pass <= full for every subject.
- `Validation` (validation.dfy) models the keyboard as a finite stream of
  entries. An entry is either a number or something `int()` refuses.
  - `GetValidMarks` is the retry loop for one subject.
  - `ReadMarks` is the loop over the catalog.
  - Both are proved against the specification functions `FirstAccepted` and
    `ReadAll`.
- `Results` (results.dfy) models `calculate_result`: the total, the exact
  percentage and the verdict, with lemmas on how the verdict reacts to single
  marks.
- `Decimal` (decimal.dfy) gives the decimal rendering of integers that the
  marksheet and its file name use. It is proved to be injective and to read back.
- `Marksheet` (marksheet.dfy) gives the file name and the ordered lines of a
  marksheet.
- `Store` (store.dfy) holds the `StudentTable` class. It keeps a
  `map<int, Record>` keyed by roll and has methods for add, update, delete and
  regenerate. Its invariant is that every stored row sits under its own roll,
  holds accepted marks, and carries the total, percentage and verdict computed
  from those marks.
- `Scenario` (scenario.dfy) is one worked session. Student 1 is added through a
  mistyped entry and an out-of-range entry. Adding roll 1 a second time is
  refused. Regenerating the marksheet by roll then gives the first file again.

An operation aborted before its commit leaves the table as it was. The model returns `Aborted(reason)` for that. Running out of input is
`EndOfInput`, which corresponds to `EOFError` from `input()`. A roll that
violates the primary key is `DuplicateRoll`.

The following points come from reading the code:

- `add_student` reads all five marks before the INSERT. A duplicate roll is
  therefore refused only after the marks have been typed, and an input stream
  that runs out makes the add fail with `EndOfInput` even for a duplicate roll.
- `update_student` and `delete_student` check the roll first. For a missing
  roll they print a message and return, so no input is read and the table is
  unchanged. The model's `NotFound` and `false` results stand for that message.
- Every write commits before the marksheet is saved, so the row and the
  marksheet come from the same computed values.

## Model

| member | source | states |
|---|---|---|
| Catalog.SubjectsValid | lis.py:30-36 | The hardcoded catalog has five subjects with distinct names, each with 0 <= pass <= full. |
| Validation.FirstAccepted | lis.py:40-48 | The index of the first entry from a position onwards that is a number in [0, full]. Every entry before it is rejected. None means that no remaining entry is acceptable. |
| Validation.GetValidMarks | lis.py:39-48 | The retry loop returns a mark only if it lies in [0, full] and is the first acceptable entry, and it consumes exactly the entries up to and including that one. Rejected entries are skipped and never clamped. If no entry is acceptable, it returns nothing and consumes all the input. |
| Validation.ReadMarks | lis.py:69-71 | The loop over the catalog reads the marks subject by subject, each with the retry rule, and equals the specification `ReadAll`. |
| Validation.ReadFromAccepted | lis.py:70-71 | Marks read from a subject onwards are each valid for their subject and each occur as an entry in the input consumed. |
| Validation.ReadAllAccepted | lis.py:69-71 | A successful read of the whole catalog gives one valid mark per subject, in catalog order, each one typed within the consumed input. |
| Results.AllMeetPassIff | lis.py:53 | The recursive verdict test holds exactly when every mark is at least its subject's pass mark. |
| Results.TotalBounds | lis.py:51 | With every mark in [0, full], the total lies between 0 and the sum of the full marks. |
| Results.SumAfterChange | lis.py:51 | Changing one mark changes the total by exactly the difference. |
| Results.CalculateResult | lis.py:50-54 | The total is the sum of the marks. percentage * number of subjects == total. The verdict is Pass if and only if every mark reaches its pass mark. For valid marks, 0 <= total <= sum of full marks. |
| Results.OneMarkBelowPassFails | lis.py:53 | Lowering any one mark below its pass mark makes the verdict Fail. |
| Results.OneMarkRaisedToPass | lis.py:53 | When every other mark already passes, raising one mark to its pass mark or above makes the verdict Pass. |
| Results.PassMarkBoundary | lis.py:50-54 | On the hardcoded catalog, five marks of 40 pass with total 200 and 40 per cent. One 39 among 40s fails. |
| Decimal.NatToString | lis.py:57-62 | The decimal rendering of a natural is non-empty and all digits, with no leading zero except for 0 itself. |
| Decimal.NatToStringRoundTrip | lis.py:57-62 | Reading back the decimal rendering of a natural gives that natural. |
| Decimal.IntToStringRoundTrip | lis.py:57-62 | Parsing the rendering of any integer, a leading '-' included, gives that integer back. |
| Decimal.IntToStringInjective | lis.py:57-62 | Different integers render differently. |
| Marksheet.FileNameInjective | lis.py:57 | The marksheet file name depends only on the roll, and different rolls get different files. |
| Marksheet.SubjectLines | lis.py:60-61 | One line per subject, in catalog order, each reading "name: mark/full". |
| Marksheet.SaveMarksheet | lis.py:56-62 | The file is marksheet_<roll>.txt. Its lines are, in order: Roll, Name, one line per subject in catalog order, Total, Percentage and Result, carrying exactly the values passed in. |
| Marksheet.SubjectLineReadsBack | lis.py:61 | A subject line starts with the subject name and ": ", followed by the mark, which parses back to itself, followed by '/'. |
| Store.MakeRecord | lis.py:73-77 | The row written keeps the roll, the name and the marks it was given, and its total, percentage and verdict are those computed from those same marks: total = sum of the marks, percentage * number of subjects == total, verdict Pass if and only if every mark reaches its pass mark. |
| Store.StoredSheetIsFresh | lis.py:139-146 | For a consistent row, the marksheet regenerated from the stored total, percentage and verdict equals the one computed afresh from its marks. It has the row's file name, its verdict is Pass if and only if every mark passes, and its total is within bounds. |
| Store.StoreKeepsConsistent | lis.py:73-79 | Storing a consistent row under its roll keeps every row of the table consistent. |
| Store.ReadRecordConsistent | lis.py:69-77 | A row built from marks read through the validation loop is consistent. |
| Store.StudentTable.constructor | lis.py:4-27 | The program starts with an empty table over the given catalog, and that table satisfies the invariant. |
| Store.StudentTable.Write | lis.py:75-78 | Writing a consistent row replaces or adds exactly that key. All other rows are untouched and the invariant is kept. |
| Store.StudentTable.AddStudent | lis.py:65-82 | If the input runs out, nothing changes. A roll already present is refused after the marks are read, and nothing changes. Otherwise exactly one row is added, with the total, percentage and verdict of the entered marks, and its marksheet is returned. |
| Store.StudentTable.UpdateStudent | lis.py:84-108 | A missing roll changes nothing and reads no input. Otherwise the row is replaced by one freshly computed from the new name and marks, under the same roll. The set of rolls and every other row stay the same. |
| Store.StudentTable.DeleteStudent | lis.py:111-124 | The result reports whether the roll existed. Exactly that key is removed and every other row is unchanged. |
| Store.StudentTable.GenerateMarksheetByRoll | lis.py:133-150 | A marksheet is produced exactly when the roll is stored. It is written from the stored values, named after the roll, and equal to the marksheet computed afresh from the stored marks. |
| Scenario.AshaInputsRead | lis.py:69-71 | Over any five subjects out of 100, the sample input yields the marks 80, 90, 70, 60 and 85, skipping a non-number and 105. |
| Scenario.AshaRecord | lis.py:50-54 | The sample marks give total 385, 77 per cent and Pass. |
| Scenario.AshaSheet | lis.py:56-62 | The sample row's marksheet is marksheet_1.txt with ten lines, among them "English: 80/100", "Total: 385" and "Result: Pass". |
| Scenario.AddAshaTwiceAndRegenerate | lis.py:65-150 | Adding roll 1 saves the expected marksheet. A second add of roll 1 is refused as a duplicate. Regenerating by roll gives the first marksheet again. |

## Left out

- The menu loop, the prompts and the printed messages (lis.py:152-176), and the
  text of the error messages. An aborted operation is only `Aborted(reason)`.
- `view_students` (lis.py:128-131). It only prints the rows and changes nothing.
- The SQLite connection, the schema setup and the removal of `students.db` at
  start-up (lis.py:4-27, 179). The table is a map, and the constructor is the
  empty table the program starts with.
- Reading the roll and the name from the keyboard. Both are parameters. A roll
  that `int()` refuses aborts the operation before anything else happens, which
  the model does not represent.
- How `int()` parses text (whitespace, signs, underscores). An entry is already
  either a number or `NotANumber`.
- The endless prompt. The input is a finite sequence, and running out of it is
  the model's `EndOfInput`.
- Store.StudentTable.AddStudent and Store.StudentTable.UpdateStudent each read
  their own input sequence and do not return how far they read. The program
  has one keyboard stream for the whole session, so the entries consumed by an
  operation (for example the marks typed for a duplicate add, read before the
  INSERT is refused) are gone before the next prompt; the model does not
  thread that stream from one operation to the next.
- SQLite's 64-bit limit on an INTEGER PRIMARY KEY. Rolls are unbounded integers.
- Creating and writing the marksheet file. The file is the returned `Sheet`. A
  write failure after the commit would leave the row stored without a
  marksheet, and that case is not modelled.
- Results.CalculateResult: the percentage is the exact rational total / number
  of subjects, not a Python float, so float rounding is not modelled.
- Marksheet.SaveMarksheet: the Percentage line keeps the exact value as
  `PercentageLine(p)`. The `:.2f` formatting and the trailing `%` are not
  modelled.
- A name containing a line break would split the Name line in the real file.
  The model keeps it as one line.
