/**
 * A session with the five-subject catalog: student 1, Asha, is added with
 * a mistyped entry and an out-of-range entry among her marks, then added a
 * second time, then her marksheet is regenerated by roll.
 */
module Scenario {

  import opened Wrappers
  import opened Catalog
  import opened Results
  import opened Validation
  import opened Decimal
  import opened Marksheet
  import opened Store

  const AshaInputs: seq<Entry> :=
    [Number(80), NotANumber, Number(105), Number(90), Number(70), Number(60), Number(85)]

  const AshaMarks: seq<int> := [80, 90, 70, 60, 85]

  /** Five subjects, each out of 100, like the hardcoded catalog. */
  predicate OutOfHundred(cat: seq<Subject>)
  {
    |cat| == 5 && forall i :: 0 <= i < 5 ==> cat[i].full == 100
  }

  lemma AshaNepaliRead(cat: seq<Subject>)
    requires OutOfHundred(cat)
    ensures ReadFrom(cat, AshaInputs, 4, 6) == Some(Read([85], 7))
  {
    assert FirstAccepted(cat[4], AshaInputs, 6) == Some(6);
    assert [85] + [] == [85];
  }

  lemma AshaSocialRead(cat: seq<Subject>)
    requires OutOfHundred(cat)
    ensures ReadFrom(cat, AshaInputs, 3, 5) == Some(Read([60, 85], 7))
  {
    AshaNepaliRead(cat);
    assert FirstAccepted(cat[3], AshaInputs, 5) == Some(5);
    assert [60] + [85] == [60, 85];
  }

  lemma AshaScienceRead(cat: seq<Subject>)
    requires OutOfHundred(cat)
    ensures ReadFrom(cat, AshaInputs, 2, 4) == Some(Read([70, 60, 85], 7))
  {
    AshaSocialRead(cat);
    assert FirstAccepted(cat[2], AshaInputs, 4) == Some(4);
    assert [70] + [60, 85] == [70, 60, 85];
  }

  /** Math skips the mistyped and the out-of-range entry and takes 90. */
  lemma AshaMathRead(cat: seq<Subject>)
    requires OutOfHundred(cat)
    ensures ReadFrom(cat, AshaInputs, 1, 1) == Some(Read([90, 70, 60, 85], 7))
  {
    AshaScienceRead(cat);
    assert FirstAccepted(cat[1], AshaInputs, 1) == Some(3) by {
      assert !Accepted(cat[1], AshaInputs[1]) && !Accepted(cat[1], AshaInputs[2]);
    }
    assert [90] + [70, 60, 85] == [90, 70, 60, 85];
  }

  /** English takes the first entry; the marks read are 80, 90, 70, 60, 85,
      and all seven entries are used. */
  lemma AshaInputsRead(cat: seq<Subject>)
    requires OutOfHundred(cat)
    ensures ReadAll(cat, AshaInputs) == Some(Read(AshaMarks, 7))
  {
    AshaMathRead(cat);
    assert FirstAccepted(cat[0], AshaInputs, 0) == Some(0);
    var rest := [90, 70, 60, 85];
    assert [80] + rest == AshaMarks by {
      assert ([80] + rest)[1..] == rest;
    }
  }

  /** Her row: total 385, 77 per cent, Pass. */
  lemma AshaRecord()
    ensures MakeRecord(Subjects, 1, "Asha", AshaMarks) == Record(1, "Asha", AshaMarks, 385, 77.0, Pass)
  {
    assert Sum(AshaMarks) == 385;
  }

  lemma EnglishLine()
    ensures SubjectLine(Subjects[0], 80) == "English: 80/100"
  {
    assert NatToString(10) == "10";
  }

  lemma TotalLine()
    ensures "Total: " + IntToString(385) == "Total: 385"
  {
    assert NatToString(38) == "38";
  }

  lemma ResultLine()
    ensures "Result: " + VerdictText(Pass) == "Result: Pass"
  {
  }

  lemma FirstFileName()
    ensures FileName(1) == "marksheet_1.txt"
  {
  }

  /** Her marksheet: the file for roll 1, with "English: 80/100" among its
      lines and the total, percentage and verdict at the end. */
  lemma AshaSheet()
    ensures var sheet := RecordSheet(Subjects, Record(1, "Asha", AshaMarks, 385, 77.0, Pass));
            && sheet.fileName == "marksheet_1.txt" && |sheet.lines| == 10
            && sheet.lines[2] == Text("English: 80/100")
            && sheet.lines[7] == Text("Total: 385")
            && sheet.lines[8] == PercentageLine(77.0)
            && sheet.lines[9] == Text("Result: Pass")
  {
    EnglishLine();
    TotalLine();
    ResultLine();
    FirstFileName();
  }

  method AddAshaTwiceAndRegenerate() returns (first: Outcome, second: Outcome, again: Option<Sheet>)
    ensures first.Saved? && first.sheet.fileName == "marksheet_1.txt" && |first.sheet.lines| == 10
    ensures first.sheet.lines[2] == Text("English: 80/100")
    ensures first.sheet.lines[7] == Text("Total: 385")
    ensures first.sheet.lines[8] == PercentageLine(77.0)
    ensures first.sheet.lines[9] == Text("Result: Pass")
    ensures second == Aborted(DuplicateRoll)
    ensures again == Some(first.sheet)
  {
    SubjectsValid();
    AshaInputsRead(Subjects);
    AshaRecord();
    AshaSheet();
    var table := new StudentTable(Subjects);
    first := table.AddStudent(1, "Asha", AshaInputs);
    second := table.AddStudent(1, "Someone else", AshaInputs);
    again := table.GenerateMarksheetByRoll(1);
  }

}
