/**
 * Result calculation (lis.py:50-54): the total of the marks, the percentage
 * as the total divided by the number of subjects (not by the sum of the full
 * marks), and the verdict, Pass exactly when every mark reaches its
 * subject's pass mark.
 */
module Results {

  import opened Catalog

  datatype Verdict = Pass | Fail

  datatype Summary = Summary(total: int, percentage: real, verdict: Verdict)

  /** The sum of the marks, as Python's sum() adds them up. */
  function Sum(marks: seq<int>): int
  {
    if marks == [] then 0 else marks[0] + Sum(marks[1..])
  }

  /** Python's all(...) over the marks, subject by subject in catalog order. */
  predicate AllMeetPass(cat: seq<Subject>, marks: seq<int>)
    requires |marks| == |cat|
  {
    marks == [] || (marks[0] >= cat[0].pass && AllMeetPass(cat[1..], marks[1..]))
  }

  lemma {:induction false} AllMeetPassIff(cat: seq<Subject>, marks: seq<int>)
    requires |marks| == |cat|
    ensures AllMeetPass(cat, marks) <==> forall i :: 0 <= i < |cat| ==> marks[i] >= cat[i].pass
  {
    if marks != [] {
      AllMeetPassIff(cat[1..], marks[1..]);
      assert forall i :: 1 <= i < |cat| ==> cat[1..][i - 1] == cat[i] && marks[1..][i - 1] == marks[i];
    }
  }

  /** With every mark accepted, the total lies between 0 and the sum of the
      full marks. */
  lemma {:induction false} TotalBounds(cat: seq<Subject>, marks: seq<int>)
    ensures AllValid(cat, marks) ==> 0 <= Sum(marks) <= SumFull(cat)
  {
    if marks != [] && AllValid(cat, marks) {
      assert AllValid(cat[1..], marks[1..]) by {
        assert forall i :: 0 <= i < |cat| - 1 ==> cat[1..][i] == cat[i + 1] && marks[1..][i] == marks[i + 1];
      }
      TotalBounds(cat[1..], marks[1..]);
      assert ValidMark(cat[0], marks[0]);
    }
  }

  /** Changing one mark changes the total by exactly the difference. */
  lemma {:induction false} SumAfterChange(marks: seq<int>, i: nat, v: int)
    requires i < |marks|
    ensures Sum(marks[i := v]) == Sum(marks) - marks[i] + v
  {
    if i > 0 {
      SumAfterChange(marks[1..], i - 1, v);
      assert marks[i := v][1..] == marks[1..][i - 1 := v];
    } else {
      assert marks[i := v][1..] == marks[1..];
    }
  }

  function CalculateResult(cat: seq<Subject>, marks: seq<int>): (r: Summary)
    requires |cat| > 0 && |marks| == |cat|
    ensures r.total == Sum(marks)
    ensures r.percentage * (|cat| as real) == r.total as real
    ensures r.verdict == Pass <==> forall i :: 0 <= i < |cat| ==> marks[i] >= cat[i].pass
    ensures AllValid(cat, marks) ==> 0 <= r.total <= SumFull(cat)
  {
    AllMeetPassIff(cat, marks);
    TotalBounds(cat, marks);
    var total := Sum(marks);
    Summary(total, total as real / |marks| as real, if AllMeetPass(cat, marks) then Pass else Fail)
  }

  /** Lowering any single mark below its pass mark turns the verdict to Fail,
      whatever the other marks are. */
  lemma OneMarkBelowPassFails(cat: seq<Subject>, marks: seq<int>, i: nat, v: int)
    requires |cat| > 0 && |marks| == |cat| && i < |cat|
    requires v < cat[i].pass
    ensures CalculateResult(cat, marks[i := v]).verdict == Fail
  {
    assert marks[i := v][i] < cat[i].pass;
  }

  /** Raising a failing mark to its pass mark or above, when every other mark
      already passes, turns the verdict to Pass. */
  lemma OneMarkRaisedToPass(cat: seq<Subject>, marks: seq<int>, i: nat, v: int)
    requires |cat| > 0 && |marks| == |cat| && i < |cat|
    requires forall j :: 0 <= j < |cat| && j != i ==> marks[j] >= cat[j].pass
    requires v >= cat[i].pass
    ensures CalculateResult(cat, marks[i := v]).verdict == Pass
  {
  }

  /** All five marks at the pass mark 40 give 200, 40 per cent and Pass; one
      of them at 39 gives Fail. */
  lemma PassMarkBoundary()
    ensures CalculateResult(Subjects, [40, 40, 40, 40, 40]) == Summary(200, 40.0, Pass)
    ensures CalculateResult(Subjects, [40, 40, 39, 40, 40]).verdict == Fail
  {
    assert [40, 40, 40, 40, 40][2 := 39] == [40, 40, 39, 40, 40];
    OneMarkBelowPassFails(Subjects, [40, 40, 40, 40, 40], 2, 39);
  }

}
