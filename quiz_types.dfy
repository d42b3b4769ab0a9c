/** The records of src/types/quiz.ts and src/types/results.ts. Times are whole
    seconds and timestamps whole milliseconds; answers are a dictionary from
    question id to choice id, where "" means unanswered. */
module QuizTypes {
  import opened Base

  datatype QuestionType = MCQ | TrueFalse | ShortAnswer

  datatype Choice = Choice(id: string, text: string)

  /** `choices` is optional in the source record. */
  datatype Question = Question(
    id: string,
    qtype: QuestionType,
    text: string,
    choices: Option<seq<Choice>>,
    correctAnswer: string,
    explanation: string)

  datatype QuizSettings = QuizSettings(timeLimit: int, shuffleQuestions: bool)

  datatype Quiz = Quiz(
    id: string,
    title: string,
    description: string,
    questions: seq<Question>,
    settings: QuizSettings)

  /** An absent `isComplete` reads as false, so it is a plain boolean here. */
  datatype QuizState = QuizState(
    currentQuestionIndex: int,
    answers: map<string, string>,
    markedForReview: seq<string>,
    timeRemaining: int,
    isPaused: bool,
    startTime: int,
    totalPausedTime: int,
    isComplete: bool)

  datatype Score = Score(
    total: real,
    percentage: real,
    correct: nat,
    incorrect: nat,
    notAttempted: nat,
    marksGained: nat,
    marksDeducted: real)

  datatype QuizResult = QuizResult(
    id: string,
    quizId: string,
    quizTitle: string,
    quizSnapshot: Quiz,
    state: QuizState,
    timestamp: int,
    score: Score,
    timeTaken: int)

  /** `answers[id]` read as JavaScript does: a missing key gives undefined,
      which every caller treats like the empty answer. */
  function AnswerOf(answers: map<string, string>, id: string): (a: string)
    ensures id !in answers ==> a == ""
    ensures id in answers ==> a == answers[id]
  {
    if id in answers then answers[id] else ""
  }

  /** The ids of a list of questions, as a set. */
  function QuestionIds(questions: seq<Question>): (ids: set<string>)
    ensures forall i :: 0 <= i < |questions| ==> questions[i].id in ids
    ensures forall id :: id in ids ==> exists i :: 0 <= i < |questions| && questions[i].id == id
  {
    set i | 0 <= i < |questions| :: questions[i].id
  }
}
