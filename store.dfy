/**
 * The students table (lis.py:13-26) and the operations that change it:
 * add (lis.py:65-82), update (lis.py:84-108), delete (lis.py:111-124), and
 * the marksheet regenerated from a stored row (lis.py:133-150).
 *
 * The table is a map from roll number, its primary key, to the row. An
 * operation that fails leaves the map as it was: the program's catch-all
 * handler only reports the error.
 */
module Store {

  import opened Wrappers
  import opened Catalog
  import opened Results
  import opened Validation
  import opened Marksheet

  /** A row: roll, name, one mark column per subject in catalog order, and
      the derived total, percentage and verdict. */
  datatype Record = Record(roll: int, name: string, marks: seq<int>,
                           total: int, percentage: real, verdict: Verdict)

  /** The row written for a roll, a name and marks, with the derived fields
      computed from those same marks. */
  function MakeRecord(cat: seq<Subject>, roll: int, name: string, marks: seq<int>): (rec: Record)
    requires |cat| > 0 && |marks| == |cat|
    ensures rec.roll == roll && rec.name == name && rec.marks == marks
    ensures rec.total == Sum(marks)
    ensures rec.percentage * (|cat| as real) == rec.total as real
    ensures rec.verdict == Pass <==> forall i :: 0 <= i < |cat| ==> marks[i] >= cat[i].pass
  {
    var summary := CalculateResult(cat, marks);
    Record(roll, name, marks, summary.total, summary.percentage, summary.verdict)
  }

  /** A stored row is consistent when it sits under its own roll, holds one
      accepted mark per subject, and its derived fields are those computed
      from its marks. */
  predicate Consistent(cat: seq<Subject>, roll: int, rec: Record)
  {
    && |cat| > 0
    && rec.roll == roll
    && AllValid(cat, rec.marks)
    && rec == MakeRecord(cat, roll, rec.name, rec.marks)
  }

  /** The marksheet written from a stored row, using its stored fields. */
  function RecordSheet(cat: seq<Subject>, rec: Record): Sheet
    requires |rec.marks| == |cat|
  {
    SaveMarksheet(cat, rec.roll, rec.name, rec.marks, rec.total, rec.percentage, rec.verdict)
  }

  /** For a consistent row, regenerating the marksheet from the stored values
      gives the same file as computing the result afresh from its marks. */
  lemma StoredSheetIsFresh(cat: seq<Subject>, roll: int, rec: Record)
    requires Consistent(cat, roll, rec)
    ensures var summary := CalculateResult(cat, rec.marks);
            && RecordSheet(cat, rec).fileName == FileName(roll)
            && RecordSheet(cat, rec) ==
               SaveMarksheet(cat, roll, rec.name, rec.marks, summary.total, summary.percentage, summary.verdict)
            && (summary.verdict == Pass <==> forall i :: 0 <= i < |cat| ==> rec.marks[i] >= cat[i].pass)
            && 0 <= rec.total <= SumFull(cat)
  {
  }

  /** Every row of a table is consistent. */
  predicate AllConsistent(cat: seq<Subject>, rows: map<int, Record>)
  {
    forall roll :: roll in rows ==> Consistent(cat, roll, rows[roll])
  }

  /** Storing a consistent row under its roll keeps every row consistent. */
  lemma StoreKeepsConsistent(cat: seq<Subject>, rows: map<int, Record>, roll: int, rec: Record)
    requires AllConsistent(cat, rows) && Consistent(cat, roll, rec)
    ensures AllConsistent(cat, rows[roll := rec])
  {
  }

  /** Marks read successfully from the input make a consistent row. */
  lemma ReadRecordConsistent(cat: seq<Subject>, roll: int, name: string, inputs: seq<Entry>)
    requires ValidCatalog(cat) && ReadAll(cat, inputs).Some?
    ensures Consistent(cat, roll, MakeRecord(cat, roll, name, ReadAll(cat, inputs).value.marks))
  {
    ReadAllAccepted(cat, inputs);
  }

  datatype Failure = DuplicateRoll | NotFound | EndOfInput

  /** What an add or an update ends with: the marksheet it saved, or why it
      was aborted. */
  datatype Outcome = Saved(sheet: Sheet) | Aborted(failure: Failure)

  class StudentTable {

    const catalog: seq<Subject>
    var rows: map<int, Record>

    ghost predicate Valid()
      reads this
    {
      && ValidCatalog(catalog)
      && AllConsistent(catalog, rows)
    }

    /** A fresh, empty table, as the program starts with after removing the
        old database file. */
    constructor (cat: seq<Subject>)
      requires ValidCatalog(cat)
      ensures Valid() && catalog == cat && rows == map[]
    {
      catalog := cat;
      rows := map[];
    }

    /** Stores a consistent row under its roll, leaving every other row as
        it was. */
    method Write(roll: int, rec: Record)
      requires Valid() && Consistent(catalog, roll, rec)
      modifies this
      ensures Valid()
      ensures rows == old(rows)[roll := rec]
      ensures rows.Keys == old(rows).Keys + {roll}
      ensures roll in old(rows) ==> rows.Keys == old(rows).Keys
      ensures forall r :: r in old(rows) && r != roll ==> r in rows && rows[r] == old(rows)[r]
    {
      StoreKeepsConsistent(catalog, rows, roll, rec);
      rows := rows[roll := rec];
    }

    /** Reads the marks, then inserts the row; the primary key refuses a roll
        that is already present, and then nothing is written. */
    method AddStudent(roll: int, name: string, inputs: seq<Entry>) returns (outcome: Outcome)
      requires Valid()
      modifies this
      ensures Valid()
      ensures ReadAll(catalog, inputs).None? ==>
                outcome == Aborted(EndOfInput) && rows == old(rows)
      ensures ReadAll(catalog, inputs).Some? && roll in old(rows) ==>
                outcome == Aborted(DuplicateRoll) && rows == old(rows)
      ensures ReadAll(catalog, inputs).Some? && roll !in old(rows) ==>
                && rows == old(rows)[roll := MakeRecord(catalog, roll, name, ReadAll(catalog, inputs).value.marks)]
                && outcome == Saved(RecordSheet(catalog, rows[roll]))
      ensures outcome.Saved? ==> roll !in old(rows) && rows.Keys == old(rows).Keys + {roll}
      ensures forall r :: r in old(rows) ==> r in rows && rows[r] == old(rows)[r]
    {
      var read := ReadMarks(catalog, inputs);
      if read.None? {
        return Aborted(EndOfInput);
      }
      var rec := MakeRecord(catalog, roll, name, read.value.marks);
      if roll in rows {
        return Aborted(DuplicateRoll);
      }
      ReadRecordConsistent(catalog, roll, name, inputs);
      Write(roll, rec);
      outcome := Saved(SaveMarksheet(catalog, roll, name, rec.marks, rec.total, rec.percentage, rec.verdict));
    }

    /** Checks that the roll exists, then reads the new name's marks and
        rewrites the whole row, derived fields included, under the same roll. */
    method UpdateStudent(roll: int, name: string, inputs: seq<Entry>) returns (outcome: Outcome)
      requires Valid()
      modifies this
      ensures Valid()
      ensures roll !in old(rows) ==> outcome == Aborted(NotFound) && rows == old(rows)
      ensures roll in old(rows) && ReadAll(catalog, inputs).None? ==>
                outcome == Aborted(EndOfInput) && rows == old(rows)
      ensures roll in old(rows) && ReadAll(catalog, inputs).Some? ==>
                && rows == old(rows)[roll := MakeRecord(catalog, roll, name, ReadAll(catalog, inputs).value.marks)]
                && outcome == Saved(RecordSheet(catalog, rows[roll]))
      ensures rows.Keys == old(rows).Keys
      ensures forall r :: r in rows && r != roll ==> rows[r] == old(rows)[r]
    {
      if roll !in rows {
        return Aborted(NotFound);
      }
      var read := ReadMarks(catalog, inputs);
      if read.None? {
        return Aborted(EndOfInput);
      }
      var rec := MakeRecord(catalog, roll, name, read.value.marks);
      ReadRecordConsistent(catalog, roll, name, inputs);
      Write(roll, rec);
      outcome := Saved(SaveMarksheet(catalog, roll, name, rec.marks, rec.total, rec.percentage, rec.verdict));
    }

    /** Checks that the roll exists, then removes exactly that row. */
    method DeleteStudent(roll: int) returns (found: bool)
      requires Valid()
      modifies this
      ensures Valid()
      ensures found <==> roll in old(rows)
      ensures roll !in rows
      ensures rows.Keys == old(rows).Keys - {roll}
      ensures forall r :: r in rows ==> rows[r] == old(rows)[r]
    {
      if roll !in rows {
        return false;
      }
      rows := rows - {roll};
      found := true;
    }

    /** The marksheet of a stored row, written from its stored fields; None
        when no row has that roll. */
    method GenerateMarksheetByRoll(roll: int) returns (sheet: Option<Sheet>)
      requires Valid()
      ensures sheet.Some? <==> roll in rows
      ensures sheet.Some? ==> sheet.value == RecordSheet(catalog, rows[roll])
      ensures sheet.Some? ==> sheet.value.fileName == FileName(roll)
      ensures sheet.Some? ==>
                var rec := rows[roll];
                var summary := CalculateResult(catalog, rec.marks);
                sheet.value == SaveMarksheet(catalog, roll, rec.name, rec.marks,
                                             summary.total, summary.percentage, summary.verdict)
    {
      if roll in rows {
        var rec := rows[roll];
        StoredSheetIsFresh(catalog, roll, rec);
        sheet := Some(SaveMarksheet(catalog, rec.roll, rec.name, rec.marks, rec.total, rec.percentage, rec.verdict));
      } else {
        sheet := None;
      }
    }
  }

}
