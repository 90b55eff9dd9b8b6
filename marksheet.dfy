/**
 * The marksheet file (lis.py:56-63): a file named after the roll number
 * alone, holding, in order, the roll, the name, one "Subject: mark/full"
 * line per subject in catalog order, the total, the percentage and the
 * verdict.
 */
module Marksheet {

  import opened Wrappers
  import opened Catalog
  import opened Results
  import opened Decimal

  /** A line of the marksheet. The percentage line keeps its exact value; how
      it is written with two decimals is not part of this model. */
  datatype Line = Text(text: string) | PercentageLine(percentage: real)

  datatype Sheet = Sheet(fileName: string, lines: seq<Line>)

  function FileName(roll: int): string
  {
    "marksheet_" + IntToString(roll) + ".txt"
  }

  /** Distinct roll numbers never share a marksheet file, so writing one
      student's marksheet overwrites nobody else's. */
  lemma FileNameInjective(a: int, b: int)
    ensures FileName(a) == FileName(b) ==> a == b
  {
    if FileName(a) == FileName(b) {
      var n := |"marksheet_"|;
      assert |IntToString(a)| == |IntToString(b)|;
      assert IntToString(a) == FileName(a)[n..n + |IntToString(a)|];
      assert IntToString(b) == FileName(b)[n..n + |IntToString(b)|];
      IntToStringInjective(a, b);
    }
  }

  function VerdictText(v: Verdict): string
  {
    match v
    case Pass => "Pass"
    case Fail => "Fail"
  }

  function SubjectLine(s: Subject, mark: int): string
  {
    s.name + ": " + IntToString(mark) + "/" + IntToString(s.full)
  }

  /** One line per subject from subject i on, in catalog order. */
  function SubjectLines(cat: seq<Subject>, marks: seq<int>, i: nat): (r: seq<Line>)
    requires |marks| == |cat| && i <= |cat|
    ensures |r| == |cat| - i
    ensures forall j :: 0 <= j < |r| ==> r[j] == Text(SubjectLine(cat[i + j], marks[i + j]))
    decreases |cat| - i
  {
    if i == |cat| then []
    else
      var rest := SubjectLines(cat, marks, i + 1);
      var r := [Text(SubjectLine(cat[i], marks[i]))] + rest;
      assert forall j :: 0 < j < |r| ==> r[j] == rest[j - 1];
      r
  }

  /** The marksheet written from the values handed to it; nothing is
      recomputed here, so the total, percentage and verdict lines show exactly
      what the caller passes. */
  function SaveMarksheet(cat: seq<Subject>, roll: int, name: string, marks: seq<int>,
                         total: int, percentage: real, verdict: Verdict): (sheet: Sheet)
    requires |marks| == |cat|
    ensures sheet.fileName == FileName(roll)
    ensures |sheet.lines| == |cat| + 5
    ensures sheet.lines[0] == Text("Roll: " + IntToString(roll))
    ensures sheet.lines[1] == Text("Name: " + name)
    ensures forall i :: 0 <= i < |cat| ==> sheet.lines[2 + i] == Text(SubjectLine(cat[i], marks[i]))
    ensures sheet.lines[|cat| + 2] == Text("Total: " + IntToString(total))
    ensures sheet.lines[|cat| + 3] == PercentageLine(percentage)
    ensures sheet.lines[|cat| + 4] == Text("Result: " + VerdictText(verdict))
  {
    var head := [Text("Roll: " + IntToString(roll)), Text("Name: " + name)];
    var tail := [Text("Total: " + IntToString(total)), PercentageLine(percentage),
                 Text("Result: " + VerdictText(verdict))];
    Sheet(FileName(roll), head + SubjectLines(cat, marks, 0) + tail)
  }

  /** Each mark can be read back from its subject's line: the text after
      "Subject: " and before "/" is the mark in decimal. */
  lemma SubjectLineReadsBack(s: Subject, mark: int)
    ensures var start := |s.name| + 2;
            var digits := |IntToString(mark)|;
            && |SubjectLine(s, mark)| > start + digits
            && SubjectLine(s, mark)[..start] == s.name + ": "
            && ParseInt(SubjectLine(s, mark)[start..start + digits]) == Some(mark)
            && SubjectLine(s, mark)[start + digits] == '/'
  {
    var prefix := s.name + ": ";
    var digits := IntToString(mark);
    var suffix := "/" + IntToString(s.full);
    var line := SubjectLine(s, mark);
    assert line == prefix + digits + suffix;
    assert line[..|prefix|] == prefix;
    assert line[|prefix|..|prefix| + |digits|] == digits;
    assert line[|prefix| + |digits|] == suffix[0];
    IntToStringRoundTrip(mark);
  }

}
