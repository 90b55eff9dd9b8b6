/**
 * The subject catalog: for each subject its full mark and its pass mark, in
 * the order the program iterates over them (lis.py:30-36), and the rule that
 * decides whether a mark is acceptable for a subject (lis.py:43).
 */
module Catalog {

  datatype Subject = Subject(name: string, full: int, pass: int)

  /** A catalog the program can work with: non-empty (the percentage divides
      by its size), distinct names (it is a dictionary), and each pass mark
      attainable. */
  predicate ValidCatalog(cat: seq<Subject>)
  {
    && |cat| > 0
    && (forall i :: 0 <= i < |cat| ==> 0 <= cat[i].pass <= cat[i].full)
    && (forall i, j :: 0 <= i < j < |cat| ==> cat[i].name != cat[j].name)
  }

  /** The five hardcoded subjects, each out of 100 with pass mark 40. */
  const Subjects: seq<Subject> := [
    Subject("English", 100, 40),
    Subject("Math", 100, 40),
    Subject("Science", 100, 40),
    Subject("Social", 100, 40),
    Subject("Nepali", 100, 40)
  ]

  lemma SubjectsValid()
    ensures ValidCatalog(Subjects) && |Subjects| == 5
  {
  }

  /** A mark is accepted for a subject exactly when it lies in [0, full]. */
  predicate ValidMark(s: Subject, mark: int)
  {
    0 <= mark <= s.full
  }

  /** One accepted mark per subject of the catalog, in catalog order. */
  predicate AllValid(cat: seq<Subject>, marks: seq<int>)
  {
    |marks| == |cat| && forall i :: 0 <= i < |cat| ==> ValidMark(cat[i], marks[i])
  }

  /** The sum of the full marks of the catalog. */
  function SumFull(cat: seq<Subject>): int
  {
    if cat == [] then 0 else cat[0].full + SumFull(cat[1..])
  }

}
