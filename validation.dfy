/**
 * Mark entry (lis.py:39-48 and the loops at lis.py:70-71, 95-96).
 *
 * What the operator types is a finite stream of entries, read from a
 * position onwards. Each entry either parses as an integer or does not; an
 * entry is accepted for a subject exactly when it is an integer in
 * [0, full]. Rejected entries are skipped and the next one is asked for; an
 * accepted one is returned unchanged, never clamped. Running out of entries
 * is the end of input, which in the program raises an error that aborts the
 * whole add or update.
 */
module Validation {

  import opened Wrappers
  import opened Catalog

  /** One line typed at the prompt, after Python's int() has looked at it. */
  datatype Entry = Number(value: int) | NotANumber

  predicate Accepted(s: Subject, e: Entry)
  {
    e.Number? && ValidMark(s, e.value)
  }

  /** The position of the first entry at or after `from` that is accepted for
      subject s, if any. */
  function FirstAccepted(s: Subject, inputs: seq<Entry>, from: nat): (r: Option<nat>)
    requires from <= |inputs|
    ensures r.Some? ==> from <= r.value < |inputs| && Accepted(s, inputs[r.value])
    ensures r.Some? ==> forall k :: from <= k < r.value ==> !Accepted(s, inputs[k])
    ensures r.None? ==> forall k :: from <= k < |inputs| ==> !Accepted(s, inputs[k])
    decreases |inputs| - from
  {
    if from == |inputs| then None
    else if Accepted(s, inputs[from]) then Some(from)
    else FirstAccepted(s, inputs, from + 1)
  }

  /** Asks for a mark for subject s, reading from position `from`, until one
      is accepted. Returns the accepted mark and the position after it, or
      None when the input runs out first. */
  method GetValidMarks(s: Subject, inputs: seq<Entry>, from: nat) returns (mark: Option<int>, next: nat)
    requires from <= |inputs|
    ensures from <= next <= |inputs|
    ensures mark.Some? <==> FirstAccepted(s, inputs, from).Some?
    ensures mark.Some? ==> ValidMark(s, mark.value)
    ensures mark.Some? ==> var k := FirstAccepted(s, inputs, from).value;
                            inputs[k] == Number(mark.value) && next == k + 1
    ensures mark.None? ==> next == |inputs|
  {
    next := from;
    while next < |inputs|
      invariant from <= next <= |inputs|
      invariant forall k :: from <= k < next ==> !Accepted(s, inputs[k])
    {
      var entry := inputs[next];
      next := next + 1;
      if entry.Number? && ValidMark(s, entry.value) {
        return Some(entry.value), next;
      }
    }
    mark := None;
  }

  /** The marks read for a run of subjects and the position after them. */
  datatype Read = Read(marks: seq<int>, next: nat)

  /** Puts marks read earlier in front of the outcome of reading the rest. */
  function Prepend(marks: seq<int>, r: Option<Read>): Option<Read>
  {
    match r
    case None => None
    case Some(rest) => Some(Read(marks + rest.marks, rest.next))
  }

  /** Reading one mark for each of the subjects cat[i..], in catalog order,
      from position `from`: each subject takes the entries up to its first
      accepted one, and the next subject goes on after it. */
  function ReadFrom(cat: seq<Subject>, inputs: seq<Entry>, i: nat, from: nat): (r: Option<Read>)
    requires i <= |cat| && from <= |inputs|
    ensures r.Some? ==> |r.value.marks| == |cat| - i
    decreases |cat| - i
  {
    if i == |cat| then Some(Read([], from))
    else match FirstAccepted(cat[i], inputs, from)
      case None => None
      case Some(k) => Prepend([inputs[k].value], ReadFrom(cat, inputs, i + 1, k + 1))
  }

  /** Reading the marks of the whole catalog from the start of the input. */
  function ReadAll(cat: seq<Subject>, inputs: seq<Entry>): (r: Option<Read>)
    ensures r.Some? ==> |r.value.marks| == |cat|
  {
    ReadFrom(cat, inputs, 0, 0)
  }

  /** An element of a slice is an element of any wider slice ending at the
      same place. */
  lemma InWiderSlice(inputs: seq<Entry>, e: Entry, wide: nat, narrow: nat, end: nat)
    requires wide <= narrow <= end <= |inputs|
    requires e in inputs[narrow..end]
    ensures e in inputs[wide..end]
  {
    var p :| 0 <= p < end - narrow && inputs[narrow..end][p] == e;
    assert inputs[wide..end][narrow - wide + p] == e;
  }

  /** What reading succeeds with is one accepted mark per subject, each one
      an entry typed in the part of the input it consumed. */
  lemma {:induction false} ReadFromAccepted(cat: seq<Subject>, inputs: seq<Entry>, i: nat, from: nat)
    requires i <= |cat| && from <= |inputs|
    ensures var r := ReadFrom(cat, inputs, i, from);
            r.Some? ==> && AllValid(cat[i..], r.value.marks)
                        && from <= r.value.next <= |inputs|
                        && forall j :: 0 <= j < |r.value.marks| ==>
                             Number(r.value.marks[j]) in inputs[from..r.value.next]
    decreases |cat| - i
  {
    if i < |cat| {
      match FirstAccepted(cat[i], inputs, from)
      case None =>
      case Some(k) =>
        ReadFromAccepted(cat, inputs, i + 1, k + 1);
        var rest := ReadFrom(cat, inputs, i + 1, k + 1);
        if rest.Some? {
          var r := ReadFrom(cat, inputs, i, from);
          var next := r.value.next;
          assert r.value.marks == [inputs[k].value] + rest.value.marks;
          assert cat[i..] == [cat[i]] + cat[i + 1..];
          assert inputs[k] == inputs[from..next][k - from];
          forall j | 1 <= j < |r.value.marks|
            ensures Number(r.value.marks[j]) in inputs[from..next]
          {
            InWiderSlice(inputs, Number(rest.value.marks[j - 1]), from, k + 1, next);
          }
        }
    }
  }

  lemma ReadAllAccepted(cat: seq<Subject>, inputs: seq<Entry>)
    ensures var r := ReadAll(cat, inputs);
            r.Some? ==> && AllValid(cat, r.value.marks)
                        && r.value.next <= |inputs|
                        && forall j :: 0 <= j < |cat| ==> Number(r.value.marks[j]) in inputs[..r.value.next]
  {
    ReadFromAccepted(cat, inputs, 0, 0);
    assert cat[0..] == cat;
    var r := ReadAll(cat, inputs);
    if r.Some? {
      assert inputs[0..r.value.next] == inputs[..r.value.next];
    }
  }

  /** The `for sub in subjects` loop that fills the marks dictionary. */
  method ReadMarks(cat: seq<Subject>, inputs: seq<Entry>) returns (r: Option<Read>)
    ensures r == ReadAll(cat, inputs)
  {
    var marks: seq<int> := [];
    var next: nat := 0;
    var i := 0;
    assert Prepend([], ReadAll(cat, inputs)) == ReadAll(cat, inputs) by {
      var all := ReadAll(cat, inputs);
      assert all.Some? ==> [] + all.value.marks == all.value.marks;
    }
    while i < |cat|
      invariant 0 <= i <= |cat| && next <= |inputs|
      invariant ReadAll(cat, inputs) == Prepend(marks, ReadFrom(cat, inputs, i, next))
    {
      var mark, after := GetValidMarks(cat[i], inputs, next);
      if mark.None? {
        return None;
      }
      assert Prepend(marks, ReadFrom(cat, inputs, i, next))
          == Prepend(marks + [mark.value], ReadFrom(cat, inputs, i + 1, after)) by {
        var rest := ReadFrom(cat, inputs, i + 1, after);
        assert rest.Some? ==> marks + ([mark.value] + rest.value.marks) == marks + [mark.value] + rest.value.marks;
      }
      marks, next, i := marks + [mark.value], after, i + 1;
    }
    assert marks + [] == marks;
    r := Some(Read(marks, next));
  }

}
