/** The result store and score engine of src/hooks/useQuizResults.ts: each
    question of a finished attempt is classified as correct, incorrect or not
    attempted; the score deducts a quarter mark per incorrect answer and never
    goes below zero; results are kept newest-first in a list that can be
    filtered by quiz, sorted by time, pruned by id and reloaded. The browser
    storage the hook mirrors its list into is not modelled; what a read of it
    returns is passed in as a `StoredResults` value. Fresh result ids and the
    clock are parameters. */
module QuizResults {
  import opened Base
  import opened QuizTypes
  import Sorting

  datatype Outcome = Correct | Incorrect | NotAttempted

  /** `q.choices?.some(c => c.id === a)`. */
  predicate IsChoiceId(q: Question, a: string)
  {
    q.choices.Some? && exists i :: 0 <= i < |q.choices.value| && q.choices.value[i].id == a
  }

  /** How one question of an attempt is counted. */
  function Classify(q: Question, answers: map<string, string>): (o: Outcome)
    // only an answer that names one of the question's choices is an attempt,
    // even when it equals the recorded correct answer
    ensures o != NotAttempted <==> AnswerOf(answers, q.id) != "" && IsChoiceId(q, AnswerOf(answers, q.id))
    ensures o == Correct ==> AnswerOf(answers, q.id) == q.correctAnswer
    ensures o == Incorrect ==> AnswerOf(answers, q.id) != q.correctAnswer
  {
    var a := AnswerOf(answers, q.id);
    if a == "" || !IsChoiceId(q, a) then NotAttempted
    else if a == q.correctAnswer then Correct
    else Incorrect
  }

  datatype Counts = Counts(correct: nat, incorrect: nat, notAttempted: nat)

  function Count(c: Counts, o: Outcome): Counts
  {
    match o
    case Correct => c.(correct := c.correct + 1)
    case Incorrect => c.(incorrect := c.incorrect + 1)
    case NotAttempted => c.(notAttempted := c.notAttempted + 1)
  }

  /** The three counters after the `forEach` over `questions`. */
  function Tally(questions: seq<Question>, answers: map<string, string>): (c: Counts)
    ensures c.correct + c.incorrect + c.notAttempted == |questions|
    decreases |questions|
  {
    if questions == [] then Counts(0, 0, 0)
    else
      var n := |questions| - 1;
      Count(Tally(questions[..n], answers), Classify(questions[n], answers))
  }

  predicate HasOutcome(answers: map<string, string>, o: Outcome, q: Question)
  {
    Classify(q, answers) == o
  }

  /** The counter Tally keeps for outcome o. */
  function CountOf(c: Counts, o: Outcome): nat
  {
    match o
    case Correct => c.correct
    case Incorrect => c.incorrect
    case NotAttempted => c.notAttempted
  }

  /** Each counter is the number of questions with that outcome, so every
      question is counted exactly once. */
  lemma {:induction false} TallyCountsOutcome(questions: seq<Question>, answers: map<string, string>, o: Outcome)
    ensures CountOf(Tally(questions, answers), o) == |Filter(questions, q => HasOutcome(answers, o, q))|
    decreases |questions|
  {
    if questions != [] {
      var n := |questions| - 1;
      var pre, last := questions[..n], questions[n];
      var p := q => HasOutcome(answers, o, q);
      TallyCountsOutcome(pre, answers, o);
      FilterLastLength(questions, p);
    }
  }

  /** The counting loop of `saveResult`. */
  method CountAnswers(questions: seq<Question>, answers: map<string, string>) returns (c: Counts)
    ensures c == Tally(questions, answers)
  {
    var correctAnswers, wrongAnswers, notAttempted := 0, 0, 0;
    for i := 0 to |questions|
      invariant Counts(correctAnswers, wrongAnswers, notAttempted) == Tally(questions[..i], answers)
    {
      assert questions[..i + 1][..i] == questions[..i];
      var q := questions[i];
      var answer := AnswerOf(answers, q.id);
      if answer == "" || !IsChoiceId(q, answer) {
        notAttempted := notAttempted + 1;
      } else if answer == q.correctAnswer {
        correctAnswers := correctAnswers + 1;
      } else {
        wrongAnswers := wrongAnswers + 1;
      }
    }
    assert questions[..|questions|] == questions;
    c := Counts(correctAnswers, wrongAnswers, notAttempted);
  }

  /** The score of an attempt over `n` questions with counters `c`. */
  function ComputeScore(c: Counts, n: nat): (s: Score)
    requires n > 0
    ensures s.correct == c.correct && s.incorrect == c.incorrect && s.notAttempted == c.notAttempted
    ensures s.marksGained == c.correct && s.marksDeducted == c.incorrect as real / 4.0
    // the total is marks gained minus marks deducted, clamped at zero
    ensures s.marksGained as real >= s.marksDeducted ==> s.total == s.marksGained as real - s.marksDeducted
    ensures s.marksGained as real < s.marksDeducted ==> s.total == 0.0
    ensures 0.0 <= s.total <= c.correct as real
    ensures s.percentage * (n as real) == s.total * 100.0
    ensures c.correct + c.incorrect + c.notAttempted == n ==>
      0.0 <= s.percentage <= 100.0 && (s.percentage == 100.0 <==> c.correct == n)
  {
    var deducted := c.incorrect as real * 0.25;
    var total := if c.correct as real - deducted > 0.0 then c.correct as real - deducted else 0.0;
    var percentage := total / (n as real) * 100.0;
    PercentageBounds(total, c.correct, n);
    Score(total, percentage, c.correct, c.incorrect, c.notAttempted, c.correct, deducted)
  }

  lemma PercentageBounds(total: real, correct: nat, n: nat)
    requires n > 0 && 0.0 <= total <= correct as real
    ensures 0.0 <= total / (n as real) * 100.0
    ensures correct <= n ==> total / (n as real) * 100.0 <= 100.0
    ensures total / (n as real) * 100.0 == 100.0 <==> total == n as real
  {
    var p := total / (n as real);
    assert p * (n as real) == total;
    if correct <= n {
      assert total <= n as real;
    }
  }

  /** The record `saveResult` stores, or the message of the error it throws. */
  function MakeResult(quiz: Quiz, state: QuizState, freshId: string, now: int): (r: Result<QuizResult, string>)
    ensures r.Err? <==> |quiz.questions| == 0 || quiz.id == "" || quiz.title == ""
    ensures r.Err? ==> r.error == (if |quiz.questions| == 0 then "Invalid quiz data - missing questions"
                                   else "Invalid quiz data - missing required fields")
    ensures r.Ok? ==>
      var res := r.value;
      && res.id == freshId && res.quizId == quiz.id && res.quizTitle == quiz.title
      && res.quizSnapshot == quiz && res.state == state && res.timestamp == now
      && res.timeTaken == quiz.settings.timeLimit - state.timeRemaining
      && res.score.correct + res.score.incorrect + res.score.notAttempted == |quiz.questions|
      && 0.0 <= res.score.total <= res.score.correct as real
      && 0.0 <= res.score.percentage <= 100.0
      && res.score == ComputeScore(Tally(quiz.questions, state.answers), |quiz.questions|)
  {
    if |quiz.questions| == 0 then Err("Invalid quiz data - missing questions")
    else if quiz.id == "" || quiz.title == "" then Err("Invalid quiz data - missing required fields")
    else
      var c := Tally(quiz.questions, state.answers);
      Ok(QuizResult(freshId, quiz.id, quiz.title, quiz, state, now,
                    ComputeScore(c, |quiz.questions|),
                    quiz.settings.timeLimit - state.timeRemaining))
  }

  /** What `loadFromStorage` keeps of a stored result: it has an id and a quiz
      snapshot with at least one question. */
  predicate Loadable(r: QuizResult)
  {
    r.id != "" && |r.quizSnapshot.questions| > 0
  }

  predicate AllLoadable(results: seq<QuizResult>)
  {
    forall i :: 0 <= i < |results| ==> Loadable(results[i])
  }

  /** What reading `quiz-results` gives: no entry, text that does not parse as
      a list, or a list of records. */
  datatype StoredResults = NoEntry | Unreadable | Entries(results: seq<QuizResult>)

  /** The list `loadFromStorage` adopts. */
  function Loaded(stored: StoredResults): (r: seq<QuizResult>)
    ensures AllLoadable(r)
    ensures stored.Entries? ==> forall i :: 0 <= i < |stored.results| && Loadable(stored.results[i])
                                          ==> stored.results[i] in r
    ensures stored.Entries? ==> r == Filter(stored.results, Loadable)
    ensures !stored.Entries? ==> r == []
  {
    if stored.Entries? then Filter(stored.results, Loadable) else []
  }

  /** Writing a list whose every result is loadable and reading it back gives
      the same list. */
  lemma LoadRoundTrip(results: seq<QuizResult>)
    requires AllLoadable(results)
    ensures Loaded(Entries(results)) == results
  {
    FilterAllPass(results, Loadable);
  }

  predicate HasId(id: string, r: QuizResult) { r.id == id }
  predicate OtherId(id: string, r: QuizResult) { r.id != id }
  predicate OfQuiz(quizId: string, r: QuizResult) { r.quizId == quizId }

  function Timestamp(r: QuizResult): real { r.timestamp as real }

  class ResultStore {
    var results: seq<QuizResult>

    constructor ()
      ensures results == []
    {
      results := [];
    }

    /** `loadFromStorage`: adopt the loadable records of the stored list. */
    method LoadFromStorage(stored: StoredResults)
      modifies this
      ensures results == Loaded(stored)
    {
      match stored {
        case Entries(rs) => results := Filter(rs, Loadable);
        case _ => results := [];
      }
    }

    /** `saveResult(quiz, state)`: score the attempt and put the new record in
        front of the list. `freshId` stands for `crypto.randomUUID()`, which is
        never empty. */
    method SaveResult(quiz: Quiz, state: QuizState, freshId: string, now: int)
      returns (r: Result<QuizResult, string>)
      requires freshId != ""
      modifies this
      ensures r == MakeResult(quiz, state, freshId, now)
      ensures r.Ok? ==> results == [r.value] + old(results)
      ensures r.Err? ==> results == old(results)
      ensures AllLoadable(old(results)) ==> AllLoadable(results)
    {
      if |quiz.questions| == 0 {
        return Err("Invalid quiz data - missing questions");
      }
      if quiz.id == "" || quiz.title == "" {
        return Err("Invalid quiz data - missing required fields");
      }
      var timeTaken := quiz.settings.timeLimit - state.timeRemaining;
      var c := CountAnswers(quiz.questions, state.answers);
      var result := QuizResult(freshId, quiz.id, quiz.title, quiz, state, now,
                               ComputeScore(c, |quiz.questions|), timeTaken);
      results := [result] + results;
      r := Ok(result);
    }

    /** `getResult(id)`: the first record with that id, if any. */
    function GetResult(id: string): (r: Option<QuizResult>)
      reads this
      ensures r.Some? ==> r.value.id == id && r.value in results
      // no earlier record carries the id
      ensures r.Some? ==> exists i :: 0 <= i < |results| && results[i] == r.value
                                      && forall j :: 0 <= j < i ==> results[j].id != id
      ensures r.None? <==> forall i :: 0 <= i < |results| ==> results[i].id != id
    {
      Find(results, r => HasId(id, r))
    }

    /** `getResultsByQuiz(quizId)`. */
    function GetResultsByQuiz(quizId: string): (rs: seq<QuizResult>)
      reads this
      ensures forall i :: 0 <= i < |rs| ==> rs[i].quizId == quizId && rs[i] in results
      ensures forall i :: 0 <= i < |results| && results[i].quizId == quizId ==> results[i] in rs
    {
      Filter(results, r => OfQuiz(quizId, r))
    }

    /** `getAllResults()`: every record, most recent first. */
    function GetAllResults(): (rs: seq<QuizResult>)
      reads this
      ensures Sorting.SortedDesc(rs, Timestamp)
      ensures multiset(rs) == multiset(results)
    {
      Sorting.SortDesc(results, Timestamp)
    }

    /** `deleteResult(id)`. */
    method DeleteResult(id: string)
      modifies this
      ensures results == Filter(old(results), r => OtherId(id, r))
      ensures forall i :: 0 <= i < |results| ==> results[i].id != id
      ensures AllLoadable(old(results)) ==> AllLoadable(results)
    {
      results := Filter(results, r => OtherId(id, r));
    }

    /** `clearAllResults()`. */
    method ClearAllResults()
      modifies this
      ensures results == []
    {
      results := [];
    }
  }

  /** A newly saved result heads the list of its quiz's results, and the
      earlier ones follow in their previous order. */
  lemma SavedResultHeadsQuizResults(result: QuizResult, results: seq<QuizResult>)
    ensures Filter([result] + results, r => OfQuiz(result.quizId, r))
         == [result] + Filter(results, r => OfQuiz(result.quizId, r))
  {
    assert ([result] + results)[1..] == results;
  }

  /** Deleting the id of a freshly saved result restores the list as it was
      before the save. */
  lemma {:induction false} DeleteUndoesSave(result: QuizResult, results: seq<QuizResult>)
    requires forall i :: 0 <= i < |results| ==> results[i].id != result.id
    ensures Filter([result] + results, r => OtherId(result.id, r)) == results
  {
    assert ([result] + results)[1..] == results;
    FilterAllPass(results, r => OtherId(result.id, r));
  }

  /** Deleting keeps exactly the records with other ids: none is dropped and
      none is added. */
  lemma {:induction false} DeleteCount(results: seq<QuizResult>, id: string)
    ensures |Filter(results, r => OtherId(id, r))| + |Filter(results, r => HasId(id, r))| == |results|
    decreases |results|
  {
    if results != [] {
      DeleteCount(results[1..], id);
    }
  }
}
