/** Ticking the genres of a book on the book form. The form lists every
    genre; a genre is ticked when its id text matches one of the book's genre
    ids. The controllers hold two versions of this nested loop: the one on the
    create path walks the book's genres and stops at the first matching
    candidate, the one on the update paths walks the candidates and looks at
    every book genre. */
module GenreMarks {

  /** Reference for the update-path loop: candidate `j` is ticked exactly when
      its id text is among the selected ids. */
  function MatchMarks(candidates: seq<string>, selected: seq<string>): (marks: seq<bool>)
    ensures |marks| == |candidates|
  {
    seq(|candidates|, j requires 0 <= j < |candidates| => candidates[j] in selected)
  }

  /** No earlier candidate has the same id text as candidate `j`. */
  predicate FirstOccurrence(candidates: seq<string>, j: nat)
    requires j < |candidates|
  {
    forall k | 0 <= k < j :: candidates[k] != candidates[j]
  }

  /** Reference for the create-path loop: the `break` leaves only the first
      candidate with a selected id text ticked. */
  function FirstMatchMarks(selected: seq<string>, candidates: seq<string>): (marks: seq<bool>)
    ensures |marks| == |candidates|
  {
    seq(|candidates|, j requires 0 <= j < |candidates| =>
      candidates[j] in selected && FirstOccurrence(candidates, j))
  }

  predicate Distinct(xs: seq<string>) {
    forall i, j | 0 <= i < j < |xs| :: xs[i] != xs[j]
  }

  /** With distinct candidate ids the two loops tick the same genres. */
  lemma FirstMatchMarksAgree(selected: seq<string>, candidates: seq<string>)
    requires Distinct(candidates)
    ensures FirstMatchMarks(selected, candidates) == MatchMarks(candidates, selected)
  {
  }

  /** With a selected id repeated among the candidates only the create-path
      loop leaves the later copy unticked. */
  lemma FirstMatchMarksDiffer(selected: seq<string>, candidates: seq<string>, i: nat, j: nat)
    requires i < j < |candidates| && candidates[i] == candidates[j] && candidates[j] in selected
    ensures MatchMarks(candidates, selected)[j] && !FirstMatchMarks(selected, candidates)[j]
    ensures FirstMatchMarks(selected, candidates) != MatchMarks(candidates, selected)
  {
    assert !FirstOccurrence(candidates, j);
  }

  /** The two loops tick the same genres exactly when no selected id occurs
      twice among the candidates. */
  lemma FirstMatchMarksAgreeIff(selected: seq<string>, candidates: seq<string>)
    ensures FirstMatchMarks(selected, candidates) == MatchMarks(candidates, selected) <==>
      forall j | 0 <= j < |candidates| && candidates[j] in selected :: FirstOccurrence(candidates, j)
  {
    if forall j | 0 <= j < |candidates| && candidates[j] in selected :: FirstOccurrence(candidates, j) {
      assert forall j | 0 <= j < |candidates| ::
        FirstMatchMarks(selected, candidates)[j] == MatchMarks(candidates, selected)[j];
    } else {
      var j :| 0 <= j < |candidates| && candidates[j] in selected && !FirstOccurrence(candidates, j);
      var i :| 0 <= i < j && candidates[i] == candidates[j];
      FirstMatchMarksDiffer(selected, candidates, i, j);
    }
  }

  /** The create-path loop (book create, re-rendering after a failed check). */
  method MarkOnCreate(selected: seq<string>, candidates: seq<string>) returns (marks: seq<bool>)
    ensures marks == FirstMatchMarks(selected, candidates)
  {
    marks := seq(|candidates|, _ => false);
    for i := 0 to |selected|
      invariant |marks| == |candidates|
      invariant forall j | 0 <= j < |candidates| ::
        marks[j] <==> candidates[j] in selected[..i] && FirstOccurrence(candidates, j)
    {
      assert selected[..i + 1] == selected[..i] + [selected[i]];
      ghost var before := marks;
      var j := 0;
      while j < |candidates|
        invariant 0 <= j <= |candidates|
        invariant marks == before
        invariant forall k | 0 <= k < j :: candidates[k] != selected[i]
      {
        if candidates[j] == selected[i] {
          marks := marks[j := true];
          break;
        }
        j := j + 1;
      }
    }
    assert selected[..|selected|] == selected;
  }

  /** The update-path loop (book update form, re-rendering after a failed check). */
  method MarkOnUpdate(candidates: seq<string>, selected: seq<string>) returns (marks: seq<bool>)
    ensures marks == MatchMarks(candidates, selected)
  {
    marks := seq(|candidates|, _ => false);
    for i := 0 to |candidates|
      invariant |marks| == |candidates|
      invariant forall k | 0 <= k < i :: marks[k] <==> candidates[k] in selected
      invariant forall k | i <= k < |candidates| :: !marks[k]
    {
      for j := 0 to |selected|
        invariant |marks| == |candidates|
        invariant marks[i] <==> candidates[i] in selected[..j]
        invariant forall k | 0 <= k < i :: marks[k] <==> candidates[k] in selected
        invariant forall k | i < k < |candidates| :: !marks[k]
      {
        assert selected[..j + 1] == selected[..j] + [selected[j]];
        if candidates[i] == selected[j] {
          marks := marks[i := true];
        }
      }
      assert selected[..|selected|] == selected;
    }
  }
}
