/** The form editor of src/components/EditQuiz.tsx: the quiz being edited, the
    question count typed into the form, and the question picked for deletion.
    Confirmation prompts are boolean inputs, fresh question and quiz ids are
    parameters, and a number field read as NaN is None. */
module EditQuiz {
  import opened Base
  import opened QuizTypes

  /** The quiz the form starts with when nothing is being edited. */
  function EmptyQuiz(): (q: Quiz)
    ensures q.questions == [] && q.settings == QuizSettings(600, false)
  {
    Quiz("", "", "", [], QuizSettings(600, false))
  }

  /** A question added by raising the count: four lettered choices with no
      text, and no text, answer or explanation. */
  function BlankQuestion(id: string): (q: Question)
    ensures q.id == id && q.qtype == MCQ && q.text == "" && q.correctAnswer == "" && q.explanation == ""
    ensures q.choices == Some([Choice("A", ""), Choice("B", ""), Choice("C", ""), Choice("D", "")])
  {
    Question(id, MCQ, "", Some([Choice("A", ""), Choice("B", ""), Choice("C", ""), Choice("D", "")]), "", "")
  }

  /** One blank question per fresh id, in order. */
  function BlankQuestions(ids: seq<string>): (qs: seq<Question>)
    ensures |qs| == |ids|
    ensures forall i :: 0 <= i < |ids| ==> qs[i] == BlankQuestion(ids[i])
  {
    if ids == [] then [] else [BlankQuestion(ids[0])] + BlankQuestions(ids[1..])
  }

  predicate OtherQuestion(id: string, q: Question) { q.id != id }

  /** The question fields the form edits. */
  datatype Field = Text | CorrectAnswer | Explanation

  function UpdateField(q: Question, field: Field, value: string): (r: Question)
    ensures r.id == q.id && r.choices == q.choices && r.qtype == q.qtype
    ensures field == Text ==> r == q.(text := value)
    ensures field == CorrectAnswer ==> r == q.(correctAnswer := value)
    ensures field == Explanation ==> r == q.(explanation := value)
  {
    match field
    case Text => q.(text := value)
    case CorrectAnswer => q.(correctAnswer := value)
    case Explanation => q.(explanation := value)
  }

  /** `questions.map(q => q.id === id ? { ...q, [field]: value } : q)`. */
  function ChangeQuestion(qs: seq<Question>, id: string, field: Field, value: string): (r: seq<Question>)
    ensures |r| == |qs|
    ensures forall i :: 0 <= i < |qs| && qs[i].id == id ==> r[i] == UpdateField(qs[i], field, value)
    ensures forall i :: 0 <= i < |qs| && qs[i].id != id ==> r[i] == qs[i]
  {
    if qs == [] then []
    else [if qs[0].id == id then UpdateField(qs[0], field, value) else qs[0]]
         + ChangeQuestion(qs[1..], id, field, value)
  }

  /** Changing a field keeps every question's id and position, and doing the
      same change twice is the same as doing it once. */
  lemma ChangeQuestionKeepsIds(qs: seq<Question>, id: string, field: Field, value: string)
    ensures var r := ChangeQuestion(qs, id, field, value);
            (forall i :: 0 <= i < |qs| ==> r[i].id == qs[i].id)
            && ChangeQuestion(r, id, field, value) == r
  {
    var r := ChangeQuestion(qs, id, field, value);
    var r2 := ChangeQuestion(r, id, field, value);
    assert forall i :: 0 <= i < |r| ==> r2[i] == r[i];
  }

  // ---------------------------------------------------------------------------
  // Save-time validation

  datatype SaveError = BlankTitle | NoQuestions | BlankText | NoCorrectAnswer | TooFewChoices

  function SaveMessage(e: SaveError): string
  {
    match e
    case BlankTitle => "Please enter a quiz title"
    case NoQuestions => "Please add at least one question"
    case BlankText => "All questions must have text"
    case NoCorrectAnswer => "All questions must have a correct answer"
    case TooFewChoices => "Multiple choice questions must have at least 2 choices"
  }

  /** What the loop finds wrong with one question, if anything. */
  function QuestionProblem(q: Question): Option<SaveError>
  {
    if IsBlank(q.text) then Some(BlankText)
    else if q.correctAnswer == "" then Some(NoCorrectAnswer)
    else if q.choices.Some? && |q.choices.value| < 2 then Some(TooFewChoices)
    else None
  }

  /** A question the form lets through: text, a correct answer, and, when it
      has choices, at least two. */
  predicate SaveableQuestion(q: Question)
  {
    !IsBlank(q.text) && q.correctAnswer != "" && (q.choices.None? || |q.choices.value| >= 2)
  }

  /** The first problem among the questions, in order. */
  function FirstQuestionProblem(qs: seq<Question>): (e: Option<SaveError>)
    ensures e.None? <==> forall i :: 0 <= i < |qs| ==> SaveableQuestion(qs[i])
  {
    if qs == [] then None
    else if QuestionProblem(qs[0]).Some? then QuestionProblem(qs[0])
    else FirstQuestionProblem(qs[1..])
  }

  /** The problem reported is that of a question all of whose predecessors
      pass. */
  lemma {:induction false} FirstQuestionProblemIsFirst(qs: seq<Question>)
    ensures var e := FirstQuestionProblem(qs);
            e.Some? ==> exists i :: 0 <= i < |qs| && e == QuestionProblem(qs[i])
                                  && forall j :: 0 <= j < i ==> SaveableQuestion(qs[j])
  {
    if qs != [] && QuestionProblem(qs[0]).None? {
      var e := FirstQuestionProblem(qs[1..]);
      FirstQuestionProblemIsFirst(qs[1..]);
      if e.Some? {
        var i :| 0 <= i < |qs[1..]| && e == QuestionProblem(qs[1..][i])
                 && forall j :: 0 <= j < i ==> SaveableQuestion(qs[1..][j]);
        assert e == QuestionProblem(qs[i + 1]);
        assert forall j :: 0 <= j < i + 1 ==> SaveableQuestion(qs[j]) by {
          forall j | 0 <= j < i + 1 ensures SaveableQuestion(qs[j]) {
            if j > 0 { assert qs[j] == qs[1..][j - 1]; }
          }
        }
      }
    } else if qs != [] {
      assert FirstQuestionProblem(qs) == QuestionProblem(qs[0]);
    }
  }

  /** What `handleSave` rejects the quiz for, in the order it checks. */
  function SaveProblem(quiz: Quiz): (e: Option<SaveError>)
    ensures e.None? <==> !IsBlank(quiz.title) && |quiz.questions| > 0
                         && forall i :: 0 <= i < |quiz.questions| ==> SaveableQuestion(quiz.questions[i])
    ensures IsBlank(quiz.title) ==> e == Some(BlankTitle)
    ensures !IsBlank(quiz.title) && |quiz.questions| == 0 ==> e == Some(NoQuestions)
  {
    if IsBlank(quiz.title) then Some(BlankTitle)
    else if |quiz.questions| == 0 then Some(NoQuestions)
    else FirstQuestionProblem(quiz.questions)
  }

  /** The validation loop of `handleSave`, with its early returns. */
  method CheckForSave(quiz: Quiz) returns (e: Option<SaveError>)
    ensures e == SaveProblem(quiz)
  {
    if IsBlank(quiz.title) {
      return Some(BlankTitle);
    }
    if |quiz.questions| == 0 {
      return Some(NoQuestions);
    }
    var i := 0;
    while i < |quiz.questions|
      invariant 0 <= i <= |quiz.questions|
      invariant FirstQuestionProblem(quiz.questions) == FirstQuestionProblem(quiz.questions[i..])
    {
      var question := quiz.questions[i];
      assert quiz.questions[i..][1..] == quiz.questions[i + 1..];
      if IsBlank(question.text) {
        return Some(BlankText);
      }
      if question.correctAnswer == "" {
        return Some(NoCorrectAnswer);
      }
      if question.choices.Some? && |question.choices.value| < 2 {
        return Some(TooFewChoices);
      }
      i := i + 1;
    }
    return None;
  }

  /** The quiz list after a successful save: a new quiz (no route id) is
      appended with a fresh id; an existing one replaces every quiz with the
      route's id. */
  function SavedQuizzes(quizzes: seq<Quiz>, quiz: Quiz, routeId: Option<string>, freshId: string): (r: seq<Quiz>)
    ensures routeId.None? || routeId.value == "" ==> r == quizzes + [quiz.(id := freshId)]
    ensures routeId.Some? && routeId.value != "" ==>
      && |r| == |quizzes|
      && (forall i :: 0 <= i < |quizzes| && quizzes[i].id == routeId.value ==> r[i] == quiz)
      && (forall i :: 0 <= i < |quizzes| && quizzes[i].id != routeId.value ==> r[i] == quizzes[i])
  {
    if routeId.None? || routeId.value == "" then quizzes + [quiz.(id := freshId)]
    else Replace(quizzes, routeId.value, quiz)
  }

  function Replace(quizzes: seq<Quiz>, id: string, quiz: Quiz): (r: seq<Quiz>)
    ensures |r| == |quizzes|
    ensures forall i :: 0 <= i < |quizzes| ==> r[i] == if quizzes[i].id == id then quiz else quizzes[i]
  {
    if quizzes == [] then [] else [if quizzes[0].id == id then quiz else quizzes[0]] + Replace(quizzes[1..], id, quiz)
  }

  /** `handleSave`: the message of the first problem, or the new quiz list. */
  function Save(quizzes: seq<Quiz>, quiz: Quiz, routeId: Option<string>, freshId: string): (r: Result<seq<Quiz>, string>)
    ensures r.Err? <==> SaveProblem(quiz).Some?
    ensures r.Err? ==> r.error == SaveMessage(SaveProblem(quiz).value)
    ensures r.Ok? ==> r.value == SavedQuizzes(quizzes, quiz, routeId, freshId)
  {
    var e := SaveProblem(quiz);
    if e.Some? then Err(SaveMessage(e.value)) else Ok(SavedQuizzes(quizzes, quiz, routeId, freshId))
  }

  /** Questions added by raising the count keep the quiz from being saved
      until they are filled in. */
  lemma BlankQuestionsBlockSave(quiz: Quiz, freshIds: seq<string>)
    requires |freshIds| > 0
    ensures SaveProblem(quiz.(questions := quiz.questions + BlankQuestions(freshIds))).Some?
  {
    var qs := quiz.questions + BlankQuestions(freshIds);
    var k := |quiz.questions|;
    assert qs[k] == BlankQuestion(freshIds[0]);
    assert IsBlank(qs[k].text);
    assert !SaveableQuestion(qs[k]);
  }

  // ---------------------------------------------------------------------------
  // Time limit as hours and minutes

  /** A number field's value: `parseInt(v) || 0`, floored at 0. */
  function FieldValue(input: Option<int>): (n: nat)
    ensures input.Some? && input.value >= 0 ==> n == input.value
    ensures input.None? || input.value < 0 ==> n == 0
  {
    if input.Some? && input.value > 0 then input.value else 0
  }

  /** The time limit after typing into the hours field: the shown minutes
      stay, the seconds are dropped. */
  function SetHours(timeLimit: int, input: Option<int>): int
  {
    FieldValue(input) * 3600 + MinutesPart(timeLimit) * 60
  }

  /** The time limit after typing into the minutes field. */
  function SetMinutes(timeLimit: int, input: Option<int>): int
  {
    HoursPart(timeLimit) * 3600 + FieldValue(input) * 60
  }

  /** Typing h hours reads back as h hours, the minutes as they were, and
      no seconds. */
  lemma SetHoursRoundTrip(timeLimit: int, h: nat)
    requires timeLimit >= 0
    ensures var t := SetHours(timeLimit, Some(h));
            HoursPart(t) == h && MinutesPart(t) == MinutesPart(timeLimit) && SecondsPart(t) == 0
  {
    TimePartsRecompose(timeLimit);
    var m := MinutesPart(timeLimit);
    var t := h * 3600 + m * 60;
    assert t == 3600 * h + 60 * m;
    PartsOf(h, m, 0);
  }

  /** Typing m < 60 minutes reads back as m minutes and the hours as they
      were; 60 or more minutes spill over into the hours field. */
  lemma SetMinutesRoundTrip(timeLimit: int, m: nat)
    requires timeLimit >= 0
    ensures var t := SetMinutes(timeLimit, Some(m));
            && (m < 60 ==> HoursPart(t) == HoursPart(timeLimit) && MinutesPart(t) == m)
            && HoursPart(t) == HoursPart(timeLimit) + m / 60
            && SecondsPart(t) == 0
  {
    TimePartsRecompose(timeLimit);
    var h := HoursPart(timeLimit);
    var t := h * 3600 + m * 60;
    assert t == 3600 * (h + m / 60) + 60 * (m % 60);
    PartsOf(h + m / 60, m % 60, 0);
  }

  /** The parts of 3600h + 60m + s for in-range m and s are h, m and s. */
  lemma PartsOf(h: nat, m: nat, s: nat)
    requires m < 60 && s < 60
    ensures var t := 3600 * h + 60 * m + s;
            HoursPart(t) == h && MinutesPart(t) == m && SecondsPart(t) == s
  {
    var t := 3600 * h + 60 * m + s;
    DivideByHour(t, h, 60 * m + s);
    DivideByMinute(60 * m + s, m, s);
    DivideByMinute(t, 60 * h + m, s);
  }

  /** Quotient and remainder by 3600 are unique. */
  lemma DivideByHour(t: int, q: int, r: int)
    requires 0 <= r < 3600 && t == 3600 * q + r
    ensures t / 3600 == q && t % 3600 == r
  {
  }

  /** Quotient and remainder by 60 are unique. */
  lemma DivideByMinute(t: int, q: int, r: int)
    requires 0 <= r < 60 && t == 60 * q + r
    ensures t / 60 == q && t % 60 == r
  {
  }

  // ---------------------------------------------------------------------------
  // The form's state

  class Editor {
    var quiz: Quiz
    /** The count field; None is NaN, what `parseInt` gives for a cleared
        field, and stays NaN under arithmetic. */
    var desiredQuestionCount: Option<int>
    /** The id picked for deletion; None is `null`. */
    var questionToDelete: Option<string>

    /** The initial state, then the effect that adopts a quiz given to edit. */
    constructor (editQuiz: Option<Quiz>)
      ensures editQuiz.None? ==> quiz == EmptyQuiz() && desiredQuestionCount == Some(0)
      ensures editQuiz.Some? ==> quiz == editQuiz.value && desiredQuestionCount == Some(|editQuiz.value.questions|)
      ensures questionToDelete.None?
    {
      quiz := EmptyQuiz();
      desiredQuestionCount := Some(0);
      questionToDelete := None;
      if editQuiz.Some? {
        quiz := editQuiz.value;
        desiredQuestionCount := Some(|editQuiz.value.questions|);
      }
    }

    /** `handleQuestionCountChange(count)`. Lowering the count asks first:
        confirmed, the first questions are kept; cancelled, the field goes
        back to the current count. Raising it appends blank questions with
        the given fresh ids. A NaN count (None) fails both comparisons: the
        field becomes NaN and the quiz stays as it is. */
    method QuestionCountChange(count: Option<int>, confirmed: bool, freshIds: seq<string>)
      requires count.Some? && count.value > |quiz.questions| ==> |freshIds| == count.value - |quiz.questions|
      modifies this
      ensures count.None? ==> quiz == old(quiz) && desiredQuestionCount.None?
      ensures count.Some? ==>
              var newCount := if count.value > 0 then count.value else 0;
              var n := |old(quiz.questions)|;
              && (newCount < n && confirmed ==>
                    quiz == old(quiz).(questions := old(quiz.questions)[..newCount])
                    && desiredQuestionCount == Some(newCount))
              && (newCount < n && !confirmed ==> quiz == old(quiz) && desiredQuestionCount == Some(n))
              && (newCount > n ==>
                    quiz == old(quiz).(questions := old(quiz.questions) + BlankQuestions(freshIds))
                    && desiredQuestionCount == Some(newCount))
              && (newCount == n ==> quiz == old(quiz) && desiredQuestionCount == Some(newCount))
      ensures questionToDelete == old(questionToDelete)
    {
      if count.None? {
        desiredQuestionCount := None;
        return;
      }
      var newCount := if count.value > 0 then count.value else 0;
      desiredQuestionCount := Some(newCount);
      if newCount < |quiz.questions| {
        if confirmed {
          quiz := quiz.(questions := quiz.questions[..newCount]);
        } else {
          desiredQuestionCount := Some(|quiz.questions|);
        }
      } else if newCount > |quiz.questions| {
        quiz := quiz.(questions := quiz.questions + BlankQuestions(freshIds));
      }
    }

    /** The "Add Question" button: the count change for one more than the
        count field. After the field has been cleared (NaN) it does nothing. */
    method AddQuestion(confirmed: bool, freshIds: seq<string>)
      requires desiredQuestionCount.Some? && desiredQuestionCount.value + 1 > |quiz.questions| ==>
               |freshIds| == desiredQuestionCount.value + 1 - |quiz.questions|
      modifies this
      ensures old(desiredQuestionCount).None? ==> quiz == old(quiz) && desiredQuestionCount.None?
      ensures old(desiredQuestionCount).Some? && old(desiredQuestionCount).value + 1 > |old(quiz.questions)| ==>
              quiz == old(quiz).(questions := old(quiz.questions) + BlankQuestions(freshIds))
              && desiredQuestionCount == Some(old(desiredQuestionCount).value + 1)
              && |quiz.questions| == old(desiredQuestionCount).value + 1
      ensures questionToDelete == old(questionToDelete)
    {
      var count := if desiredQuestionCount.Some? then Some(desiredQuestionCount.value + 1) else None;
      QuestionCountChange(count, confirmed, freshIds);
    }

    /** `handleDeleteQuestion(id)`: refused while only one question is left;
        otherwise the id is held until the deletion is confirmed. */
    method DeleteQuestion(id: string) returns (refused: bool)
      modifies this
      ensures refused <==> |quiz.questions| <= 1
      ensures refused ==> questionToDelete == old(questionToDelete)
      ensures !refused ==> questionToDelete == Some(id)
      ensures quiz == old(quiz) && desiredQuestionCount == old(desiredQuestionCount)
    {
      if |quiz.questions| <= 1 {
        return true;
      }
      refused := false;
      questionToDelete := Some(id);
    }

    /** `confirmDeleteQuestion`: every question with the held id goes, and the
        count field drops by one. An empty held id counts as none. */
    method ConfirmDelete()
      modifies this
      ensures old(questionToDelete).None? || old(questionToDelete).value == "" ==>
        quiz == old(quiz) && desiredQuestionCount == old(desiredQuestionCount)
        && questionToDelete == old(questionToDelete)
      ensures old(questionToDelete).Some? && old(questionToDelete).value != "" ==>
        var id := old(questionToDelete).value;
        && quiz == old(quiz).(questions := Filter(old(quiz.questions), q => OtherQuestion(id, q)))
        && (old(desiredQuestionCount).Some? ==> desiredQuestionCount == Some(old(desiredQuestionCount).value - 1))
        && (old(desiredQuestionCount).None? ==> desiredQuestionCount.None?)
        && questionToDelete.None?
    {
      if questionToDelete.Some? && questionToDelete.value != "" {
        var id := questionToDelete.value;
        quiz := quiz.(questions := Filter(quiz.questions, q => OtherQuestion(id, q)));
        if desiredQuestionCount.Some? {
          desiredQuestionCount := Some(desiredQuestionCount.value - 1);
        }
        questionToDelete := None;
      }
    }

    /** `handleQuestionChange(id, field, value)`. */
    method QuestionChange(id: string, field: Field, value: string)
      modifies this
      ensures quiz == old(quiz).(questions := ChangeQuestion(old(quiz.questions), id, field, value))
      ensures desiredQuestionCount == old(desiredQuestionCount) && questionToDelete == old(questionToDelete)
    {
      quiz := quiz.(questions := ChangeQuestion(quiz.questions, id, field, value));
    }

    /** The hours field's change handler. */
    method ChangeHours(input: Option<int>)
      modifies this
      ensures quiz == old(quiz).(settings := old(quiz.settings).(timeLimit := SetHours(old(quiz.settings.timeLimit), input)))
      ensures desiredQuestionCount == old(desiredQuestionCount) && questionToDelete == old(questionToDelete)
    {
      quiz := quiz.(settings := quiz.settings.(timeLimit := SetHours(quiz.settings.timeLimit, input)));
    }

    /** The minutes field's change handler. */
    method ChangeMinutes(input: Option<int>)
      modifies this
      ensures quiz == old(quiz).(settings := old(quiz.settings).(timeLimit := SetMinutes(old(quiz.settings.timeLimit), input)))
      ensures desiredQuestionCount == old(desiredQuestionCount) && questionToDelete == old(questionToDelete)
    {
      quiz := quiz.(settings := quiz.settings.(timeLimit := SetMinutes(quiz.settings.timeLimit, input)));
    }
  }

  /** The delete guard counts questions, not ids: a confirmed delete drops
      every question with the held id, so when all of them share it the quiz
      is left with none, although the guard saw more than one. */
  lemma DeleteRemovesEveryCopy(qs: seq<Question>, id: string)
    requires forall i :: 0 <= i < |qs| ==> qs[i].id == id
    ensures Filter(qs, q => OtherQuestion(id, q)) == []
  {
    FilterNonePass(qs, q => OtherQuestion(id, q));
  }
}
