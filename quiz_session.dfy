/** The attempt state machine of src/components/Quiz.tsx: the `QuizState` the
    component holds and the handlers that move it (answering, review marks,
    navigation, pause, time updates, completion, retry and the save-slot
    actions). The component's save-slot store and result store are the two
    stores it talks to. Dialog flags, toasts, routing and the read-back of
    browser storage are not modelled; the clock and fresh ids are parameters. */
module QuizSession {
  import opened Base
  import opened QuizTypes
  import opened SaveSystem
  import opened QuizResults

  /** The state a new attempt starts from: first question, every question id
      mapped to the empty answer, no review marks, the full time limit, paused. */
  function FreshState(quiz: Quiz, now: int): (s: QuizState)
    ensures s.currentQuestionIndex == 0 && s.markedForReview == []
    ensures s.answers.Keys == QuestionIds(quiz.questions)
    ensures forall id :: id in s.answers ==> s.answers[id] == ""
    ensures s.timeRemaining == quiz.settings.timeLimit && s.isPaused && !s.isComplete
    ensures s.startTime == now && s.totalPausedTime == 0
  {
    QuizState(0, map id | id in QuestionIds(quiz.questions) :: "", [],
              quiz.settings.timeLimit, true, now, 0, false)
  }

  /** The state retry, start-fresh and clear-all reset to: like a fresh state
      but with no answer keys at all. */
  function ResetState(quiz: Quiz, now: int): (s: QuizState)
    ensures s == FreshState(quiz, now).(answers := map[])
  {
    QuizState(0, map[], [], quiz.settings.timeLimit, true, now, 0, false)
  }

  /** A provided initial state laid over a fresh one: every field comes from the
      provided state except the answers, where its entries override the fresh
      empty answers. */
  function MergeInitial(seed: QuizState, initial: QuizState): (s: QuizState)
    ensures s.answers.Keys == seed.answers.Keys + initial.answers.Keys
    ensures forall id :: id in initial.answers ==> s.answers[id] == initial.answers[id]
    ensures forall id :: id in seed.answers && id !in initial.answers ==> s.answers[id] == seed.answers[id]
    ensures s.(answers := initial.answers) == initial
  {
    initial.(answers := seed.answers + initial.answers)
  }

  /** The state the component starts with. */
  function InitialState(quiz: Quiz, initial: Option<QuizState>, now: int): (s: QuizState)
    ensures QuestionIds(quiz.questions) <= s.answers.Keys
    ensures initial.None? ==> s == FreshState(quiz, now)
    ensures initial.Some? ==> s == MergeInitial(FreshState(quiz, now), initial.value)
  {
    var seed := FreshState(quiz, now);
    if initial.Some? then MergeInitial(seed, initial.value) else seed
  }

  datatype Status = Review | Attempted | Unattempted

  /** `getQuestionStatus(id)`: a review mark wins over an answer. */
  function QuestionStatus(s: QuizState, id: string): (r: Status)
    ensures r == Review <==> id in s.markedForReview
    ensures r == Attempted <==> id !in s.markedForReview && AnswerOf(s.answers, id) != ""
    ensures r == Unattempted <==> id !in s.markedForReview && AnswerOf(s.answers, id) == ""
  {
    if id in s.markedForReview then Review
    else if AnswerOf(s.answers, id) != "" then Attempted
    else Unattempted
  }

  predicate NotId(id: string, x: string) { x != id }

  /** The review list after toggling `id`: added at the end when absent, every
      copy removed when present. */
  function ToggleReview(marks: seq<string>, id: string): (r: seq<string>)
    ensures id in r <==> id !in marks
    ensures forall x :: x != id ==> (x in r <==> x in marks)
  {
    if id in marks then Filter(marks, x => NotId(id, x)) else marks + [id]
  }

  /** Toggling twice restores membership, and restores the very list when the
      id was not marked to begin with. */
  lemma ToggleTwice(marks: seq<string>, id: string)
    ensures forall x :: x in ToggleReview(ToggleReview(marks, id), id) <==> x in marks
    ensures id !in marks ==> ToggleReview(ToggleReview(marks, id), id) == marks
  {
    if id !in marks {
      var once := marks + [id];
      assert id in once;
      FilterAppend(marks, [id], x => NotId(id, x));
      FilterAllPass(marks, x => NotId(id, x));
    }
  }

  /** The state both completion paths store and score. */
  function Finished(s: QuizState): (f: QuizState)
    ensures f.isComplete && f.isPaused && f.timeRemaining == 0
    ensures f.answers == s.answers && f.markedForReview == s.markedForReview
    ensures f.currentQuestionIndex == s.currentQuestionIndex && f.startTime == s.startTime
    ensures f.totalPausedTime == s.totalPausedTime
  {
    s.(isComplete := true, isPaused := true, timeRemaining := 0)
  }

  /** The state a failed manual completion reverts to. */
  function Reverted(s: QuizState): (f: QuizState)
    ensures !f.isComplete && f.isPaused && f.timeRemaining == 0
    ensures f.answers == s.answers && f.markedForReview == s.markedForReview
    ensures f.currentQuestionIndex == s.currentQuestionIndex && f.startTime == s.startTime
    ensures f.totalPausedTime == s.totalPausedTime
  {
    Finished(s).(isComplete := false, isPaused := true)
  }

  /** `formatTime(seconds)`: "1h 2m 3s", "2m 3s" or "3s"; the minutes are
      shown, even as "0m", whenever the hours are. */
  function FormatClock(seconds: int): (r: string)
    ensures EndsWith(r, IntToString(SecondsPart(seconds)) + "s")
    ensures 0 <= seconds < 60 ==> r == NatToString(seconds) + "s"
    ensures 60 <= seconds < 3600 ==> r == NatToString(seconds / 60) + "m " + NatToString(seconds % 60) + "s"
    ensures seconds >= 3600 ==>
      r == NatToString(seconds / 3600) + "h " + NatToString(seconds % 3600 / 60) + "m "
           + NatToString(seconds % 60) + "s"
  {
    var hours, minutes, secs := HoursPart(seconds), MinutesPart(seconds), SecondsPart(seconds);
    var parts := (if hours > 0 then IntToString(hours) + "h " else "")
               + (if minutes > 0 || hours > 0 then IntToString(minutes) + "m " else "");
    assert (parts + (IntToString(secs) + "s"))[|parts|..] == IntToString(secs) + "s";
    parts + (IntToString(secs) + "s")
  }

  class Session {
    const quiz: Quiz
    const saves: SaveStore
    const results: ResultStore
    var state: QuizState

    constructor (quiz: Quiz, saves: SaveStore, results: ResultStore, initial: Option<QuizState>, now: int)
      ensures this.quiz == quiz && this.saves == saves && this.results == results
      ensures state == InitialState(quiz, initial, now)
    {
      this.quiz := quiz;
      this.saves := saves;
      this.results := results;
      state := InitialState(quiz, initial, now);
    }

    /** The mount-time check: offer to load when saves exist and the attempt
        is not complete. */
    method Mount(stored: StoredSaves) returns (offerLoad: bool)
      modifies saves
      ensures saves.slots == (if stored.Entries? && |stored.slots| > 0 then stored.slots else [])
      ensures offerLoad <==> stored.Entries? && |stored.slots| > 0 && !state.isComplete
    {
      var hasSaves := saves.CheckForSaves(stored);
      offerLoad := hasSaves && !state.isComplete;
    }

    /** `handleMarkForReview` on the current question. */
    method MarkForReview()
      requires 0 <= state.currentQuestionIndex < |quiz.questions|
      modifies this
      ensures var id := quiz.questions[old(state).currentQuestionIndex].id;
              state == old(state).(markedForReview := ToggleReview(old(state).markedForReview, id))
    {
      var id := quiz.questions[state.currentQuestionIndex].id;
      state := state.(markedForReview := ToggleReview(state.markedForReview, id));
    }

    /** `handleNavigate(index)`: no range check of its own; every caller
        passes an index of an existing question. */
    method Navigate(index: int)
      requires 0 <= index < |quiz.questions|
      modifies this
      ensures state == old(state).(currentQuestionIndex := index)
    {
      state := state.(currentQuestionIndex := index);
    }

    /** `handleAnswer(answer)`: the current question's answer becomes `answer`
        (selecting again does not clear it); no other answer changes. */
    method Answer(answer: string)
      requires 0 <= state.currentQuestionIndex < |quiz.questions|
      modifies this
      ensures var id := quiz.questions[old(state).currentQuestionIndex].id;
              && state == old(state).(answers := old(state).answers[id := answer])
              && AnswerOf(state.answers, id) == answer
              && (answer != "" ==> QuestionStatus(state, id) != Unattempted)
              && forall other :: other != id ==> AnswerOf(state.answers, other) == AnswerOf(old(state).answers, other)
    {
      var id := quiz.questions[state.currentQuestionIndex].id;
      state := state.(answers := state.answers[id := answer]);
    }

    /** `handlePauseToggle`. Resuming clears the pause and restarts the clock;
        the delayed `setupAutosave(state)` it schedules sees the state from
        before the toggle, which is still paused, so it writes no slot. */
    method PauseToggle(freshId: string, now: int)
      modifies this, saves
      ensures old(state).isPaused ==> state == old(state).(isPaused := false, startTime := now)
      ensures !old(state).isPaused ==> state == old(state).(isPaused := true)
      ensures state.answers == old(state).answers && state.markedForReview == old(state).markedForReview
      ensures state.timeRemaining == old(state).timeRemaining
      ensures saves.slots == old(saves.slots)
    {
      var before := state;
      if before.isPaused {
        state := state.(isPaused := false, startTime := now);
        var scheduled := saves.SetupAutosave(before, freshId, now);
      } else {
        state := state.(isPaused := true);
      }
    }

    /** The effect that runs when the attempt starts, resumes or completes: an
        active attempt is written as the autosave, with a zero time remaining
        replaced by the full time limit. */
    method AutosaveEffect(freshId: string, now: int) returns (scheduled: bool)
      modifies saves
      ensures scheduled <==> !state.isPaused && !state.isComplete
      ensures !scheduled ==> saves.slots == old(saves.slots)
      ensures scheduled ==>
        var written := state.(timeRemaining := if state.timeRemaining != 0 then state.timeRemaining
                                               else quiz.settings.timeLimit);
        saves.slots == AfterCreate(old(saves.slots), written, AutosaveName, true, freshId, now,
                                   saves.maxManualSlots)
      ensures AtMostOneAutosave(old(saves.slots)) ==> AtMostOneAutosave(saves.slots)
    {
      scheduled := false;
      if !state.isPaused && !state.isComplete {
        var timeRemaining := if state.timeRemaining != 0 then state.timeRemaining else quiz.settings.timeLimit;
        scheduled := saves.SetupAutosave(state.(timeRemaining := timeRemaining), freshId, now);
      }
    }

    /** `handleTimeUpdate(newTime)`. */
    method TimeUpdate(newTime: int)
      modifies this
      ensures state == old(state).(timeRemaining := newTime)
    {
      state := state.(timeRemaining := newTime);
    }

    /** `saveAndNavigate(finalState)`: every save slot is dropped, then the
        final state is scored and stored as a result. */
    method SaveAndNavigate(finalState: QuizState, resultId: string, now: int)
      returns (r: Result<QuizResult, string>)
      requires resultId != ""
      modifies saves, results
      ensures saves.slots == []
      ensures r == MakeResult(quiz, finalState, resultId, now)
      ensures r.Ok? ==> results.results == [r.value] + old(results.results)
      ensures r.Err? ==> results.results == old(results.results)
    {
      saves.ClearAllSaves();
      r := results.SaveResult(quiz, finalState, resultId, now);
    }

    /** `handleTimeUp`: the attempt is finished and scored; on an error the
        finished state stays. */
    method TimeUp(resultId: string, now: int) returns (r: Result<QuizResult, string>)
      requires resultId != ""
      modifies this, saves, results
      ensures state == Finished(old(state))
      ensures saves.slots == []
      ensures r == MakeResult(quiz, Finished(old(state)), resultId, now)
      ensures r.Ok? ==> results.results == [r.value] + old(results.results)
      ensures r.Err? ==> results.results == old(results.results)
    {
      var finalState := Finished(state);
      state := finalState;
      r := SaveAndNavigate(finalState, resultId, now);
    }

    /** `handleComplete`: as time-up, except that an error reverts the attempt
        to not complete and paused (the time remaining stays 0 and the saves
        stay dropped). */
    method Complete(resultId: string, now: int) returns (r: Result<QuizResult, string>)
      requires resultId != ""
      modifies this, saves, results
      ensures r == MakeResult(quiz, Finished(old(state)), resultId, now)
      ensures saves.slots == []
      ensures r.Ok? ==> state == Finished(old(state)) && results.results == [r.value] + old(results.results)
      ensures r.Err? ==> state == Reverted(old(state)) && results.results == old(results.results)
    {
      var finalState := Finished(state);
      state := finalState;
      r := SaveAndNavigate(finalState, resultId, now);
      if r.Err? {
        state := state.(isComplete := false, isPaused := true);
      }
    }

    /** `handleRetry`. */
    method Retry(now: int)
      modifies this
      ensures state == ResetState(quiz, now)
    {
      state := QuizState(0, map[], [], quiz.settings.timeLimit, true, now, 0, false);
    }

    /** The save-slot dialog's save (the unreferenced `handleSaveQuiz` does the
        same): a manual save of the current state. */
    method SaveQuiz(name: string, freshId: string, now: int)
      modifies saves
      ensures saves.slots == AfterCreate(old(saves.slots), state, name, false, freshId, now, saves.maxManualSlots)
      ensures ManualCount(old(saves.slots)) <= saves.maxManualSlots ==> ManualCount(saves.slots) <= saves.maxManualSlots
    {
      saves.CreateSave(state, name, false, freshId, now);
    }

    /** `handleStartFresh`. */
    method StartFresh(now: int)
      modifies this
      ensures state == ResetState(quiz, now)
    {
      state := QuizState(0, map[], [], quiz.settings.timeLimit, true, now, 0, false);
    }

    /** `handleLoadSave(id)`: adopt the saved state as it is, or start fresh
        when no slot has that id. */
    method LoadSave(id: string, now: int)
      modifies this
      ensures Load(saves.slots, id).Some? ==> state == Load(saves.slots, id).value
      ensures Load(saves.slots, id).None? ==> state == ResetState(quiz, now)
    {
      var loaded := saves.LoadSave(id);
      if loaded.Some? {
        state := loaded.value;
      } else {
        StartFresh(now);
      }
    }

    /** The load action the save-slot dialog and the resume prompt are wired
        to: adopt the saved state as it is; an id with no slot changes nothing
        (there is no start-fresh fallback on these paths). */
    method DialogLoad(id: string)
      modifies this
      ensures Load(saves.slots, id).Some? ==> state == Load(saves.slots, id).value
      ensures Load(saves.slots, id).None? ==> state == old(state)
    {
      var loaded := saves.LoadSave(id);
      if loaded.Some? {
        state := loaded.value;
      }
    }

    /** The delete action the save-slot dialog is wired to: the store's
        `deleteSave` alone, so the attempt is never reset, even when the
        deleted slot is the autosave or the one it was loaded from. */
    method DialogDelete(id: string)
      modifies saves
      ensures saves.slots == AfterDelete(old(saves.slots), id)
      ensures state == old(state)
      ensures AtMostOneAutosave(old(saves.slots)) ==> AtMostOneAutosave(saves.slots)
    {
      saves.DeleteSave(id);
    }

    /** `handleDeleteSave(id)`: deleting the autosave, or the slot this attempt
        was loaded from (same start time), resets to a fresh state; the slot is
        deleted in every case. */
    method DeleteSave(id: string, now: int)
      modifies this, saves
      ensures var slot := Find(old(saves.slots), (s: SaveSlot) => s.id == id);
              var resets := slot.Some? && (slot.value.isAutosave || slot.value.state.startTime == old(state).startTime);
              && (resets ==> state == FreshState(quiz, now))
              && (!resets ==> state == old(state))
      ensures saves.slots == AfterDelete(old(saves.slots), id)
    {
      var slot := Find(saves.slots, (s: SaveSlot) => s.id == id);
      var isCurrentSave := slot.Some? && slot.value.state.startTime == state.startTime;
      if (slot.Some? && slot.value.isAutosave) || isCurrentSave {
        state := FreshState(quiz, now);
      }
      saves.DeleteSave(id);
    }

    /** `handleClearAllSaves`. */
    method ClearAllSaves(now: int)
      modifies this, saves
      ensures saves.slots == []
      ensures state == ResetState(quiz, now)
    {
      saves.ClearAllSaves();
      state := QuizState(0, map[], [], quiz.settings.timeLimit, true, now, 0, false);
    }
  }

  /** A merged initial state keeps a key for every question, so every question
      reads as answered or explicitly empty. */
  lemma MergeKeepsEveryQuestion(quiz: Quiz, initial: QuizState, now: int)
    ensures var s := MergeInitial(FreshState(quiz, now), initial);
            forall i :: 0 <= i < |quiz.questions| ==> quiz.questions[i].id in s.answers
  {
  }

  /** Both completion paths store a result scored on the answers held before
      finishing, and, because the finished state has no time left, its time
      taken is always the whole time limit, however early the attempt ended. */
  lemma FinishedResultTakesWholeLimit(quiz: Quiz, s: QuizState, resultId: string, now: int)
    ensures var r := MakeResult(quiz, Finished(s), resultId, now);
            r.Ok? ==>
              && r.value.score == ComputeScore(Tally(quiz.questions, s.answers), |quiz.questions|)
              && r.value.timeTaken == quiz.settings.timeLimit
  {
  }

  /** The result a completion evidently means to store: the finished state,
      with the time taken measured from the time remaining before it was set
      to 0. */
  function ElapsedResult(quiz: Quiz, s: QuizState, resultId: string, now: int): (r: Result<QuizResult, string>)
    ensures r.Err? <==> MakeResult(quiz, Finished(s), resultId, now).Err?
    ensures r.Ok? ==>
      && r.value.state == Finished(s)
      && r.value.score == ComputeScore(Tally(quiz.questions, s.answers), |quiz.questions|)
      && r.value.timeTaken + s.timeRemaining == quiz.settings.timeLimit
      && (0 <= s.timeRemaining <= quiz.settings.timeLimit ==> 0 <= r.value.timeTaken <= quiz.settings.timeLimit)
      && (s.timeRemaining > 0 ==> r.value.timeTaken < quiz.settings.timeLimit)
  {
    match MakeResult(quiz, Finished(s), resultId, now)
    case Ok(res) => Ok(res.(timeTaken := quiz.settings.timeLimit - s.timeRemaining))
    case Err(e) => Err(e)
  }
}
