/** The list of past attempts on the results page (src/pages/Results.tsx): a
    pass/fail filter, a sort by date or by score, and the delete confirmation. */
module ResultsPage {
  import opened Base
  import opened QuizTypes
  import Sorting
  import QuizResults

  datatype ResultFilter = All | Passed | Failed

  /** The sorts modelled here; the third option, by title, compares with
      `localeCompare` and is not part of this model. */
  datatype SortOption = ByDate | ByScore

  /** An attempt passes at 60 percent or more. */
  predicate HasPassed(r: QuizResult)
  {
    r.score.percentage >= 60.0
  }

  /** The filter's callback. */
  predicate Keeps(filter: ResultFilter, r: QuizResult)
  {
    match filter
    case All => true
    case Passed => HasPassed(r)
    case Failed => !HasPassed(r)
  }

  function Percentage(r: QuizResult): real { r.score.percentage }

  function SortKey(sort: SortOption): QuizResult -> real
  {
    match sort
    case ByDate => QuizResults.Timestamp
    case ByScore => Percentage
  }

  /** The rows the page lists: filtered, then sorted with the larger key first. */
  function Shown(results: seq<QuizResult>, filter: ResultFilter, sort: SortOption): (rows: seq<QuizResult>)
    ensures Sorting.SortedDesc(rows, SortKey(sort))
    ensures multiset(rows) == multiset(Filter(results, r => Keeps(filter, r)))
  {
    Sorting.SortDesc(Filter(results, r => Keeps(filter, r)), SortKey(sort))
  }

  /** A row is listed exactly when it is one of the attempts and the filter
      keeps it. */
  lemma ShownExactly(results: seq<QuizResult>, filter: ResultFilter, sort: SortOption, x: QuizResult)
    ensures x in Shown(results, filter, sort) <==> x in results && Keeps(filter, x)
  {
    var kept := Filter(results, r => Keeps(filter, r));
    var rows := Shown(results, filter, sort);
    assert x in rows <==> x in multiset(rows);
    assert x in kept <==> x in multiset(kept);
    if x in results && Keeps(filter, x) {
      var i :| 0 <= i < |results| && results[i] == x;
    }
  }

  /** "All" keeps every attempt, so the page only reorders them. */
  lemma AllKeepsEverything(results: seq<QuizResult>, sort: SortOption)
    ensures multiset(Shown(results, All, sort)) == multiset(results)
  {
    FilterAllPass(results, r => Keeps(All, r));
  }

  /** Each attempt is listed under exactly one of "passed" and "failed": the
      two filters split the list between them. */
  lemma PassedFailedPartition(results: seq<QuizResult>)
    ensures multiset(Filter(results, r => Keeps(Passed, r))) + multiset(Filter(results, r => Keeps(Failed, r)))
         == multiset(results)
  {
    FilterComplement(results, r => Keeps(Passed, r), r => Keeps(Failed, r));
  }

  /** `confirmDelete`: with a result selected (an empty id counts as none), it
      is deleted and the selection cleared; the page goes back to the list
      exactly when the deleted result is the one on view. */
  method ConfirmDelete(store: QuizResults.ResultStore, selected: Option<string>, viewing: Option<string>)
    returns (selectedAfter: Option<string>, navigateBack: bool)
    modifies store
    ensures selected.None? || selected.value == "" ==>
      store.results == old(store.results) && selectedAfter == selected && !navigateBack
    ensures selected.Some? && selected.value != "" ==>
      var id := selected.value;
      && store.results == Filter(old(store.results), r => QuizResults.OtherId(id, r))
      && selectedAfter.None?
      && (navigateBack <==> viewing == selected)
  {
    if selected.Some? && selected.value != "" {
      store.DeleteResult(selected.value);
      selectedAfter := None;
      navigateBack := viewing == selected;
    } else {
      selectedAfter := selected;
      navigateBack := false;
    }
  }
}
