/** The quiz list of src/components/HomePage.tsx: deleting a quiz and searching
    by title. Lower-casing is locale-aware in JavaScript; here it is a function
    passed in. */
module HomePage {
  import opened Base
  import opened QuizTypes

  predicate OtherQuiz(id: string, q: Quiz) { q.id != id }
  predicate QuizHasId(id: string, q: Quiz) { q.id == id }

  /** `handleDelete(id)`: refused while at most one quiz exists; otherwise the
      quizzes with that id are dropped and the rest keep their order. */
  function DeleteQuiz(quizzes: seq<Quiz>, id: string): (r: Result<seq<Quiz>, string>)
    ensures r.Err? <==> |quizzes| <= 1
    ensures r.Err? ==> r.error == "Cannot delete the last quiz"
    ensures r.Ok? ==> r.value == Filter(quizzes, q => OtherQuiz(id, q))
  {
    if |quizzes| <= 1 then Err("Cannot delete the last quiz")
    else Ok(Filter(quizzes, q => OtherQuiz(id, q)))
  }

  /** An accepted delete removes exactly the quizzes with that id: what is
      kept and what is dropped add up to the list, and an unknown id
      changes nothing. */
  lemma DeleteQuizSplits(quizzes: seq<Quiz>, id: string)
    ensures |Filter(quizzes, q => OtherQuiz(id, q))| + |Filter(quizzes, q => QuizHasId(id, q))| == |quizzes|
    ensures (forall i :: 0 <= i < |quizzes| ==> quizzes[i].id != id) ==> Filter(quizzes, q => OtherQuiz(id, q)) == quizzes
  {
    DeleteQuizCounts(quizzes, id);
    if forall i :: 0 <= i < |quizzes| ==> quizzes[i].id != id {
      FilterAllPass(quizzes, q => OtherQuiz(id, q));
    }
  }

  lemma {:induction false} DeleteQuizCounts(quizzes: seq<Quiz>, id: string)
    ensures |Filter(quizzes, q => OtherQuiz(id, q))| + |Filter(quizzes, q => QuizHasId(id, q))| == |quizzes|
    decreases |quizzes|
  {
    if quizzes != [] {
      DeleteQuizCounts(quizzes[1..], id);
    }
  }

  /** The search filter's callback. */
  predicate Matches(lower: string -> string, term: string, q: Quiz)
  {
    Includes(lower(q.title), lower(term))
  }

  /** The quizzes whose lower-cased title contains the lower-cased term, in
      list order (before the title sort, which is not part of this model). */
  function Search(quizzes: seq<Quiz>, term: string, lower: string -> string): (r: seq<Quiz>)
    ensures forall i :: 0 <= i < |r| ==> r[i] in quizzes && Includes(lower(r[i].title), lower(term))
    ensures forall i :: 0 <= i < |quizzes| && Includes(lower(quizzes[i].title), lower(term)) ==> quizzes[i] in r
  {
    Filter(quizzes, q => Matches(lower, term, q))
  }

  /** An empty search box lists every quiz. */
  lemma EmptySearchKeepsAll(quizzes: seq<Quiz>, lower: string -> string)
    requires lower("") == ""
    ensures Search(quizzes, "", lower) == quizzes
  {
    forall i | 0 <= i < |quizzes|
      ensures Matches(lower, "", quizzes[i])
    {
      IncludesEmpty(lower(quizzes[i].title));
    }
    FilterAllPass(quizzes, q => Matches(lower, "", q));
  }
}
