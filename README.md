# Quizopia core in Dafny

Quizopia is a browser quiz application. A quiz is a list of multiple-choice
questions with a time limit. While a quiz runs, the player's progress
(`QuizState`: answers, review marks, remaining time, pause flag) lives in the
quiz page. It can be written to save slots, one of which is an autosave. A
finished quiz becomes a scored `QuizResult` in a result store. Quizzes are
created and edited in a form editor or as JSON. Base64 images in question
markdown are swapped for numbered placeholders.

This project models that core:

- **Records** (`QuizTypes`): the records of `src/types/quiz.ts` and `src/types/results.ts`.
- **Save system** (`SaveSystem`): the save-slot store of `useSaveSystem`.
  - `SaveStore` is a class whose `slots` field its methods reassign.
  - Each list update is specified by a function (`AfterCreate`, `AfterDelete`, `Load`).
  - Its invariant is "at most one autosave"; "manual slots stay within the cap" is also proved.
- **Result store** (`QuizResults`): the result store of `useQuizResults`.
  - Answer classification and counting are written as a loop proved against `Tally`.
  - Scoring uses a quarter-mark penalty and is clamped at zero.
  - The load filter, save, lookup, per-quiz list, newest-first listing, delete and clear are modelled.
- **Quiz page** (`QuizSession`): the state handlers of `Quiz.tsx`, as a `Session` class.
  - The class holds the state and the two stores.
- **Timer** (`CountdownTimer`): the countdown component.
- **Results view** (`ResultsDisplay`): the result view, covering the badge score, the rounded percentage and the duration text.
- **Results page** (`ResultsPage`): the pass/fail filter and sort, and delete confirmation.
- **Quiz list** (`HomePage`): quiz deletion and title search.
- **Form editor** (`EditQuiz`): the question-count field, delete-with-confirmation, field edits, save validation, and the hours/minutes fields of the time limit.
- **JSON validation** (`QuizJson`): the validator shared by the JSON creator and the JSON editor.
  - It works over a JSON value datatype, with JavaScript truthiness and the order in which errors are reported.
- **Images** (`ImageUtils`): `extractBase64Images` and `getImageSrc`.
  - The global regular expression is spelled out as the leftmost, lazy matcher it denotes.
  - `String.prototype.replace` with a string pattern is modelled together with its `$` substitution patterns.

Helpers shared by several modules are in `Base`:
- Option and Result;
- decimal text;
- JavaScript `%`;
- whitespace and `includes`;
- `filter`, `findIndex` and `find`.

`Sorting` holds the descending insertion sort used wherever results are ordered.

Clock readings (`Date.now()`) and fresh ids (`crypto.randomUUID`, `uuidv4`)
are parameters of the operations that use them. So are the user's answer to a
`window.confirm` dialog and the contents read back from `localStorage`.

Where the written description of the application and the code differ, the
model follows the code:

- Completing a quiz (by hand or on time-out) sets `timeRemaining` to 0 (`Quiz.tsx:355-361`, `381-387`). It does not freeze the clock at its current value. The stored time taken is therefore always the whole time limit (see Findings).
- A failed completion reverts `isComplete` only. The saves are already cleared and the remaining time stays 0 (`Quiz.tsx:398-403`).
- The autosave interval re-reads the stored autosave and writes that same state back. The slot's state therefore never advances between ticks (`useSaveSystem.ts:187-203`; `SaveSystem.TickNeverAdvancesAutosave`).
- The delayed `setupAutosave(state)` in the pause toggle sees the pre-toggle, paused state, so it writes nothing. The effect at `Quiz.tsx:179-199` is what writes the autosave.
- `handleLoadSave` and `handleDeleteSave` (`Quiz.tsx:427-494`) are not referenced anywhere in the component. The dialogs are wired to other code:
  - the save-slot dialog's load (`Quiz.tsx:745-751`) and the resume prompt's load buttons (`Quiz.tsx:777-783`) adopt a found save and otherwise change nothing (`Session.DialogLoad`);
  - the save-slot dialog's delete is the store's `deleteSave` alone (`Quiz.tsx:752`), so the attempt is never reset (`Session.DialogDelete`).
  The two unreferenced handlers are modelled as well (`Session.LoadSave`, `Session.DeleteSave`).
- `handleSaveQuiz` (`Quiz.tsx:421-425`) is not referenced either. The save-slot dialog's inline save (`Quiz.tsx:741-744`) makes the same `createSave(state, name)` call without the toast, and that is what `Session.SaveQuiz` models.
- `formatTime` in `Quiz.tsx:516-527` is not referenced anywhere in the component either: the timer displays its own text. It is modelled as `QuizSession.FormatClock` all the same.
- A cleared question-count field gives `parseInt("")`, which is NaN. The count field becomes NaN and the quiz is unchanged. From then on the "Add Question" button computes NaN + 1 and does nothing (`EditQuiz.Editor.QuestionCountChange`, `EditQuiz.Editor.AddQuestion`).
- Retry, "start fresh" and "clear all saves" reset the answers to an empty map. Deleting the current save or the autosave resets them to one empty answer per question.
- A result's `isCorrect` badge compares the raw answer with the correct answer. The score counts only non-empty answers, so the two disagree on an empty answer to a question whose correct answer is empty (`ResultsDisplay.BadgeMatchesScore`).

## Model

| member | source | states |
|---|---|---|
| QuizTypes.AnswerOf | src/components/Quiz.tsx:211 | A question with no recorded answer reads as the empty answer; a recorded answer reads as itself |
| QuizTypes.QuestionIds | src/components/Quiz.tsx:85 | The id set holds every question's id and nothing else |
| Base.JsRem | src/components/Quiz.tsx:518-519 | JavaScript `%`: equals the modulus for a non-negative dividend and lies in (-b, 0] for a negative one; in both cases it differs from the dividend by a multiple of b |
| Base.TimePartsRecompose | src/components/Quiz.tsx:517-519 | For a non-negative count, hours ≥ 0, minutes and seconds lie in 0..59, and 3600h + 60m + s gives the count back |
| Base.IncludesIffOccurs | src/components/HomePage.tsx:80 | `includes` holds exactly when the needle occurs at some position of the text |
| Base.Filter | src/hooks/useQuizResults.ts:232 | `filter` keeps only elements of the input that pass, keeps every element that passes, and never grows the list |
| Base.FirstIndex | src/hooks/useSaveSystem.ts:83 | `findIndex`: -1 when no element passes, otherwise an index that passes with no passing element before it |
| Base.Find | src/hooks/useQuizResults.ts:193 | `find`: nothing exactly when no element passes, otherwise the element at `findIndex` |
| Sorting.Insert | src/hooks/useQuizResults.ts:227 | Inserting into a descending list gives a descending list holding the old elements plus the new one |
| Sorting.SortDesc | src/hooks/useQuizResults.ts:227 | The output is sorted by descending key and is a permutation of the input |
| CountdownTimer.TickValue | src/components/Timer.tsx:41 | One tick takes a positive time down by one and never goes below zero |
| CountdownTimer.TicksFloorAtZero | src/components/Timer.tsx:39-45 | k ticks from t leave max(t - k, 0) |
| CountdownTimer.Timer.constructor | src/components/Timer.tsx:20-21 | The timer starts at the initial time with no interval running |
| CountdownTimer.Timer.Reseed | src/components/Timer.tsx:23-25 | A new initial time replaces the remaining time and leaves the interval as it was |
| CountdownTimer.Timer.RunEffect | src/components/Timer.tsx:27-47 | The effect reports time-up exactly when no time remains, and runs an interval exactly when time remains and the quiz is not paused |
| CountdownTimer.Timer.Tick | src/components/Timer.tsx:40-44 | A tick stores and reports the decremented time, floored at zero |
| CountdownTimer.Timer.Cleanup | src/components/Timer.tsx:48-52 | Cleanup stops the interval and keeps the remaining time |
| SaveSystem.AfterCreate | src/hooks/useSaveSystem.ts:74-124 | An autosave overwrites the first autosave in place, keeping its id and position, or is appended when there is none. A manual save at the cap changes nothing; otherwise it appends exactly one slot |
| SaveSystem.AfterDelete | src/hooks/useSaveSystem.ts:127-153 | Deleting the autosave empties the list. Deleting any other slot keeps exactly the slots with a different id, in their order and with their repetitions (`prev.filter`). An unknown id changes nothing |
| SaveSystem.Load | src/hooks/useSaveSystem.ts:168-174 | Nothing exactly when no slot has the id, otherwise the state of the first slot with that id |
| SaveSystem.CreateKeepsOneAutosave | src/hooks/useSaveSystem.ts:82-98 | Every create keeps the list at no more than one autosave |
| SaveSystem.DeleteKeepsOneAutosave | src/hooks/useSaveSystem.ts:127-153 | Every delete keeps the list at no more than one autosave |
| SaveSystem.CreateKeepsManualCap | src/hooks/useSaveSystem.ts:101-115 | Every create keeps the number of manual slots within the cap |
| SaveSystem.FindAutosaveIndex | src/hooks/useSaveSystem.ts:83 | The loop finds the first autosave's index, or -1 when no slot is an autosave |
| SaveSystem.CountManualSlots | src/hooks/useSaveSystem.ts:102 | The loop counts exactly the manual slots |
| SaveSystem.SaveStore.constructor | src/hooks/useSaveSystem.ts:19-24 | The store starts with no slots, for the given quiz and cap |
| SaveSystem.SaveStore.CheckForSaves | src/hooks/useSaveSystem.ts:27-54 | Reports saves exactly when storage holds a non-empty readable list, and adopts that list (otherwise an empty one) |
| SaveSystem.SaveStore.CreateSave | src/hooks/useSaveSystem.ts:74-124 | The new list is `AfterCreate` of the old one; the one-autosave invariant and the manual cap are preserved |
| SaveSystem.SaveStore.DeleteSave | src/hooks/useSaveSystem.ts:127-153 | The new list is `AfterDelete` of the old one; the one-autosave invariant is preserved |
| SaveSystem.SaveStore.ClearAllSaves | src/hooks/useSaveSystem.ts:156-165 | No slot is left |
| SaveSystem.SaveStore.LoadSave | src/hooks/useSaveSystem.ts:168-174 | Loading returns the state of the first slot with the id, or nothing |
| SaveSystem.SaveStore.SetupAutosave | src/hooks/useSaveSystem.ts:177-184 | An immediate autosave is written exactly when the state is neither paused nor complete; the invariant is preserved |
| SaveSystem.SaveStore.AutosaveTick | src/hooks/useSaveSystem.ts:187-203 | A tick writes back the stored autosave's own state, falls back to the initial state when storage is unreadable, and does nothing otherwise; the invariant is preserved |
| SaveSystem.TickNeverAdvancesAutosave | src/hooks/useSaveSystem.ts:187-203 | A tick leaves the autosave at the same position, with the same id and the same state |
| QuizResults.Classify | src/hooks/useQuizResults.ts:100-118 | A question counts as attempted exactly when its answer is non-empty and names one of its choices. An attempt is correct only when it equals the correct answer, and incorrect only when it does not |
| QuizResults.Tally | src/hooks/useQuizResults.ts:100-119 | Correct, incorrect and unattempted add up to the number of questions |
| QuizResults.TallyCountsOutcome | src/hooks/useQuizResults.ts:100-119 | Each count equals the number of questions with that outcome |
| QuizResults.CountAnswers | src/hooks/useQuizResults.ts:95-119 | The counting loop produces exactly the tally |
| QuizResults.ComputeScore | src/hooks/useQuizResults.ts:128-151 | Marks gained are the correct count and a wrong answer costs a quarter mark. The total is their difference clamped at zero and at most the correct count. The percentage is total/n·100, lies in 0..100, and is 100 exactly when every question is correct |
| QuizResults.PercentageBounds | src/hooks/useQuizResults.ts:129-130 | The percentage of a total between 0 and the correct count lies in 0..100 and is 100 exactly when the total is n |
| QuizResults.MakeResult | src/hooks/useQuizResults.ts:79-153 | Fails with the source's message exactly when the quiz has no questions, id or title. Otherwise the result carries the quiz, the state, the fresh id, the time taken (time limit minus time remaining) and the score computed from the tally of the state's answers, which is consistent and within bounds |
| QuizResults.Loaded | src/hooks/useQuizResults.ts:17-38 | Loading a stored list keeps, in order, exactly the results with a non-empty id and at least one question; it gives an empty list when storage is empty or unreadable. The answers are not checked: every modelled result has an answers map, and any map passes the source's truthiness test |
| QuizResults.LoadRoundTrip | src/hooks/useQuizResults.ts:23-31 | Loading a stored list of valid results gives back the same list |
| QuizResults.ResultStore.constructor | src/hooks/useQuizResults.ts:8 | The store starts empty |
| QuizResults.ResultStore.LoadFromStorage | src/hooks/useQuizResults.ts:12-45 | The store holds the loaded list |
| QuizResults.ResultStore.SaveResult | src/hooks/useQuizResults.ts:73-160 | A valid result is put at the head of the list; an invalid quiz leaves the list unchanged; the list stays loadable |
| QuizResults.ResultStore.GetResult | src/hooks/useQuizResults.ts:188-198 | Finds a result exactly when one with the id is stored, and then it is the first one in the list |
| QuizResults.ResultStore.GetResultsByQuiz | src/hooks/useQuizResults.ts:222-224 | Exactly the stored results of that quiz |
| QuizResults.ResultStore.GetAllResults | src/hooks/useQuizResults.ts:226-228 | Every stored result, newest first |
| QuizResults.ResultStore.DeleteResult | src/hooks/useQuizResults.ts:230-240 | Removes every result with the id and keeps the rest in order |
| QuizResults.ResultStore.ClearAllResults | src/hooks/useQuizResults.ts:242-245 | No result is left |
| QuizResults.SavedResultHeadsQuizResults | src/hooks/useQuizResults.ts:158-160 | A new result comes first among its quiz's results, ahead of the ones stored before |
| QuizResults.DeleteUndoesSave | src/hooks/useQuizResults.ts:230-240 | Deleting a freshly saved result with a new id gives back the list as it was before the save |
| QuizResults.DeleteCount | src/hooks/useQuizResults.ts:230-240 | A delete removes exactly the results with the id: kept plus removed equals the old count |
| ResultsDisplay.DisplayScore | src/components/Results.tsx:45-51 | The displayed score never exceeds the number of questions |
| ResultsDisplay.DisplayScoreCounts | src/components/Results.tsx:45-51 | The displayed score is the number of questions whose answer is non-empty and equal to the correct answer |
| ResultsDisplay.DisplayScoreAtLeastStored | src/components/Results.tsx:45-51 | The displayed score is never below the stored result's correct count |
| ResultsDisplay.DisplayPercentage | src/components/Results.tsx:54 | `Math.round(score/n*100)`: the integer nearest to 100·score/n, rounding halves up, within 0..100. Nothing (NaN) for a quiz with no questions |
| ResultsDisplay.RoundBounds | src/components/Results.tsx:54 | The rounded percentage is within half a point of 100·score/n and lies in 0..100 |
| ResultsDisplay.TimeTaken | src/components/Results.tsx:55 | Time taken plus time remaining is the time limit |
| ResultsDisplay.IsCorrectShown | src/components/Results.tsx:99 | The badge shows correct exactly when the recorded answer equals the correct answer |
| ResultsDisplay.BadgeMatchesScore | src/components/Results.tsx:99 | The badge agrees with the score on every non-empty answer. An empty answer to a question whose correct answer is empty shows correct but scores nothing |
| ResultsDisplay.DurationParts | src/components/Results.tsx:57-67 | One to three parts, hours before minutes before seconds. The values are t div 3600 hours, (t mod 3600) div 60 minutes and t mod 60 seconds; minutes and seconds are below 60; together they add up to t. Hours appear exactly from one hour on. Minutes appear exactly from one minute on. Seconds appear when non-zero or when the duration is under a minute |
| ResultsDisplay.TotalParts | src/components/Results.tsx:62-67 | The parts pushed for h hours, m minutes and s seconds add up to 3600h + 60m + s |
| ResultsDisplay.Render | src/components/Results.tsx:63-66 | A part's text ends in "s" exactly when its unit is plural |
| ResultsDisplay.RenderShape | src/components/Results.tsx:63-66 | A part's text starts with its number, a space and its unit's name, and is one character longer exactly when plural |
| ResultsDisplay.SingularIffOne | src/components/Results.tsx:63-66 | Every shown part is plural exactly when its value is not 1 |
| ResultsDisplay.JoinShape | src/components/Results.tsx:69 | A join starts with the first string (and a separator when there are more), ends with the last string, and is as long as the strings plus one separator between each two |
| ResultsDisplay.JoinAppend | src/components/Results.tsx:69 | Joining two non-empty lists one after the other is joining each and putting one separator between |
| ResultsDisplay.FormatDuration | src/components/Results.tsx:57-70 | Under a minute the text is the seconds part. Under an hour it is the minutes part, then ", " and the seconds part when they are not zero. From one hour on it is the hours part, ", ", the minutes part (even "0 minutes"), then the seconds as before |
| ResultsDisplay.FormatDurationZero | src/components/Results.tsx:57-70 | Zero seconds reads "0 seconds" |
| ResultsDisplay.FormatDurationWholeHours | src/components/Results.tsx:57-70 | A whole number h ≥ 1 of hours reads as h rendered in hours, then ", 0 minutes": zero minutes are kept after hours, and zero seconds are dropped |
| QuizSession.FreshState | src/components/Quiz.tsx:83-92 | Question 0, no review marks, one empty answer per question id, the full time limit, paused and not complete |
| QuizSession.ResetState | src/components/Quiz.tsx:407-419 | The fresh state, but with no answers at all |
| QuizSession.MergeInitial | src/components/Quiz.tsx:94-105 | Every field comes from the given state. The answers are the union of both, with the given state's answer winning on a shared id |
| QuizSession.InitialState | src/components/Quiz.tsx:77-110 | Every question has an answer entry; the state is the fresh state, merged with the given state when there is one |
| QuizSession.QuestionStatus | src/components/Quiz.tsx:208-213 | Review exactly when marked. Attempted exactly when unmarked with a non-empty answer. Unattempted otherwise |
| QuizSession.ToggleReview | src/components/Quiz.tsx:216-221 | The id is marked afterwards exactly when it was not marked before; every other id is untouched |
| QuizSession.ToggleTwice | src/components/Quiz.tsx:215-225 | Toggling twice marks the same ids as before, and gives back the same list when the id was unmarked |
| QuizSession.Finished | src/components/Quiz.tsx:381-387 | Complete, paused and no time left; answers, marks, position and times unchanged |
| QuizSession.Reverted | src/components/Quiz.tsx:398-403 | Not complete, paused and no time left; answers, marks, position, start time and paused time unchanged |
| QuizSession.FormatClock | src/components/Quiz.tsx:516-527 | Ends in the seconds part and "s". Reads "Ns" under a minute, "Mm Ss" under an hour, and "Hh Mm Ss" from one hour on, with the minutes shown even when zero |
| QuizSession.Session.constructor | src/components/Quiz.tsx:77-110 | The page starts with the initial state over the given quiz and stores |
| QuizSession.Session.Mount | src/components/Quiz.tsx:113-129 | The save list is read from storage; loading is offered exactly when saves exist and the quiz is not complete |
| QuizSession.Session.MarkForReview | src/components/Quiz.tsx:215-225 | Only the review list changes, toggled at the current question |
| QuizSession.Session.Navigate | src/components/Quiz.tsx:227-232 | Only the current question index changes |
| QuizSession.Session.Answer | src/components/Quiz.tsx:234-250 | The current question's answer is set and every other answer is untouched; a non-empty answer makes the question no longer unattempted |
| QuizSession.Session.PauseToggle | src/components/Quiz.tsx:252-286 | Resuming clears the pause flag and restarts the clock; pausing sets the flag. Answers, marks, remaining time and saves are unchanged |
| QuizSession.Session.AutosaveEffect | src/components/Quiz.tsx:179-199 | An autosave of the running state (with the full limit for a zero time) is written exactly when the quiz runs; the one-autosave invariant is preserved |
| QuizSession.Session.TimeUpdate | src/components/Quiz.tsx:288-293 | Only the remaining time changes |
| QuizSession.Session.SaveAndNavigate | src/components/Quiz.tsx:295-350 | All saves are cleared and the result is stored at the head of the results when valid |
| QuizSession.Session.TimeUp | src/components/Quiz.tsx:352-373 | The state is finished, the saves are cleared and the result of the finished state is stored when valid |
| QuizSession.Session.Complete | src/components/Quiz.tsx:375-405 | As on time-up when the result is valid; otherwise the state is reverted to paused and not complete and no result is stored |
| QuizSession.Session.Retry | src/components/Quiz.tsx:407-419 | The state is reset with no answers |
| QuizSession.Session.SaveQuiz | src/components/Quiz.tsx:741-744 | The save-slot dialog's save: a manual save of the current state is created; the manual cap is kept |
| QuizSession.Session.StartFresh | src/components/Quiz.tsx:532-546 | The state is reset with no answers |
| QuizSession.Session.LoadSave | src/components/Quiz.tsx:427-446 | The unreferenced handler: the state becomes the saved state, or the reset state when no save has the id |
| QuizSession.Session.DialogLoad | src/components/Quiz.tsx:745-751 | The wired load: the state becomes the saved state; with no save of that id it is unchanged |
| QuizSession.Session.DeleteSave | src/components/Quiz.tsx:448-494 | The unreferenced handler: the slot is deleted. The state resets to the fresh state exactly when the slot was the autosave or shares the current start time |
| QuizSession.Session.DialogDelete | src/components/Quiz.tsx:752 | The wired delete: the slot is deleted, the one-autosave invariant is kept, and the attempt's state is unchanged |
| QuizSession.Session.ClearAllSaves | src/components/Quiz.tsx:496-514 | No save is left and the state is reset with no answers |
| QuizSession.MergeKeepsEveryQuestion | src/components/Quiz.tsx:94-105 | After the merge every question still has an answer entry |
| QuizSession.FinishedResultTakesWholeLimit | src/components/Quiz.tsx:381-387 | The result stored on completion is scored on the answers held before finishing, and its time taken is always the whole time limit |
| QuizSession.ElapsedResult | src/hooks/useQuizResults.ts:92 | Corrected: the finished state scored the same way, with time taken plus the time remaining before finishing equal to the limit, so it lies within the limit and is below it whenever time remained |
| EditQuiz.EmptyQuiz | src/components/EditQuiz.tsx:51-60 | A new quiz has no questions, a 600-second limit and no shuffling |
| EditQuiz.BlankQuestion | src/components/EditQuiz.tsx:107-119 | An added question is a multiple-choice question with the fresh id, empty texts and four empty choices A-D |
| EditQuiz.BlankQuestions | src/components/EditQuiz.tsx:107-119 | One blank question per fresh id, in order |
| EditQuiz.UpdateField | src/components/EditQuiz.tsx:199-202 | Only the named field changes; id, type and choices stay |
| EditQuiz.ChangeQuestion | src/components/EditQuiz.tsx:196-205 | Every question with the id gets the new field value; every other question is unchanged |
| EditQuiz.ChangeQuestionKeepsIds | src/components/EditQuiz.tsx:196-205 | A field change keeps every question's id and position, and repeating it changes nothing more |
| EditQuiz.FirstQuestionProblem | src/components/EditQuiz.tsx:161-177 | No problem exactly when every question has text, a correct answer and (if it has choices) at least two |
| EditQuiz.FirstQuestionProblemIsFirst | src/components/EditQuiz.tsx:161-177 | The reported problem is that of a question all of whose predecessors pass |
| EditQuiz.SaveProblem | src/components/EditQuiz.tsx:150-177 | No problem exactly when the title is non-blank, there is a question and every question passes. A blank title is reported first, then a missing question |
| EditQuiz.CheckForSave | src/components/EditQuiz.tsx:150-177 | The validation loop reports exactly the save problem |
| EditQuiz.SavedQuizzes | src/components/EditQuiz.tsx:179-192 | A new quiz is appended with a fresh id; an edited one replaces every quiz with the route's id in place |
| EditQuiz.Replace | src/components/EditQuiz.tsx:190 | Same length; the quizzes with the id are replaced and the rest kept |
| EditQuiz.Save | src/components/EditQuiz.tsx:150-192 | Fails with the message of the save problem exactly when there is one, otherwise gives the saved list |
| EditQuiz.BlankQuestionsBlockSave | src/components/EditQuiz.tsx:107-119 | Raising the question count makes the quiz unsaveable until the new questions are filled in |
| EditQuiz.FieldValue | src/components/EditQuiz.tsx:307 | A typed non-negative number is taken as is; nothing or a negative number gives 0 |
| EditQuiz.SetHoursRoundTrip | src/components/EditQuiz.tsx:305-316 | Typing h hours reads back as h hours, with the minutes kept and the seconds dropped |
| EditQuiz.SetMinutesRoundTrip | src/components/EditQuiz.tsx:327-339 | Typing m minutes leaves no seconds and adds m div 60 to the hours; below 60 the hours stay and the minutes read back as m |
| EditQuiz.Editor.constructor | src/components/EditQuiz.tsx:46-67 | The editor holds the quiz being edited and its question count, or an empty quiz and count 0 |
| EditQuiz.Editor.QuestionCountChange | src/components/EditQuiz.tsx:86-126 | A confirmed lower count keeps the first questions and a cancelled one restores the count field. A higher count appends blank questions. An equal count changes nothing. A NaN count leaves the quiz as it is and the field NaN |
| EditQuiz.Editor.AddQuestion | src/components/EditQuiz.tsx:496-500 | With a number in the count field, a count one higher than the quiz's appends blank questions up to it. With NaN in the field nothing changes |
| EditQuiz.Editor.DeleteQuestion | src/components/EditQuiz.tsx:128-135 | Refused exactly when one question or none is left; otherwise the id is held for confirmation |
| EditQuiz.Editor.ConfirmDelete | src/components/EditQuiz.tsx:137-148 | With an id held, every question with that id is removed, the count drops by one (NaN stays NaN) and the held id is cleared |
| EditQuiz.Editor.QuestionChange | src/components/EditQuiz.tsx:196-205 | The questions become the field-changed list; nothing else changes |
| EditQuiz.Editor.ChangeHours | src/components/EditQuiz.tsx:305-316 | The time limit becomes the typed hours with the current minutes |
| EditQuiz.Editor.ChangeMinutes | src/components/EditQuiz.tsx:327-339 | The time limit becomes the current hours with the typed minutes |
| EditQuiz.DeleteRemovesEveryCopy | src/components/EditQuiz.tsx:141 | When every question has the deleted id, none is left |
| HomePage.DeleteQuiz | src/components/HomePage.tsx:49-56 | Refused with "Cannot delete the last quiz" exactly when at most one quiz exists; otherwise every quiz with the id is removed |
| HomePage.DeleteQuizSplits | src/components/HomePage.tsx:54 | Kept plus removed equals the old count; an unknown id removes nothing |
| HomePage.Search | src/components/HomePage.tsx:78-81 | Exactly the quizzes whose lower-cased title includes the lower-cased term |
| HomePage.EmptySearchKeepsAll | src/components/HomePage.tsx:78-81 | An empty search term shows every quiz in order |
| ResultsPage.Shown | src/pages/Results.tsx:156-173 | The rows are sorted descending by the chosen key and are a permutation of the results the filter keeps |
| ResultsPage.ShownExactly | src/pages/Results.tsx:157-161 | A result is shown exactly when it is stored and passes the filter |
| ResultsPage.AllKeepsEverything | src/pages/Results.tsx:157-158 | The "all" filter shows every result |
| ResultsPage.PassedFailedPartition | src/pages/Results.tsx:157-161 | Passed and failed split the results between them: together they are exactly the stored results |
| ResultsPage.ConfirmDelete | src/pages/Results.tsx:63-73 | With a result selected it is deleted and the selection cleared. The page goes back to the list exactly when that result is on view. Without a selection nothing changes |
| QuizJson.Prop | src/components/JsonQuizCreator.tsx:87-98 | A property is present exactly when the value is an object with that key |
| QuizJson.MessageNamesPosition | src/components/JsonQuizCreator.tsx:100-127 | A null question or choice gives the TypeError message. A question error names the question's 1-based position, and a choice error names both positions |
| QuizJson.CheckChoicesFrom | src/components/JsonQuizCreator.tsx:120-127 | No error exactly when every remaining choice is well formed. Otherwise the first ill-formed choice is reported, with the first of its checks (not null, id, text) that fails, under its question |
| QuizJson.CheckQuestion | src/components/JsonQuizCreator.tsx:100-127 | No error exactly when the question is well formed. Otherwise the error names this question and is the first failing check in the order null, id, type, text, four choices, correct answer, explanation; only when all seven pass is a choice reported, the first bad one |
| QuizJson.CheckQuestionsFrom | src/components/JsonQuizCreator.tsx:100-128 | No error exactly when every remaining question is well formed; otherwise the error is the first ill-formed question's, as that question's own check reports it |
| QuizJson.CheckSettings | src/components/JsonQuizCreator.tsx:130-138 | No error exactly when settings is an object with a positive numeric time limit and a boolean shuffle flag. Otherwise the first failing check in the order present, time limit, shuffle flag is reported |
| QuizJson.Validate | src/components/JsonQuizCreator.tsx:86-141 | No error exactly when the quiz is well formed. Quiz fields are checked first (the first failing of null, id, title, description, questions is reported), then questions in order (the first bad one is reported, with its own first failing check), then settings, reported only when every quiz field and question passed (the first failing settings check) |
| QuizJson.CheckQuizFields | src/components/JsonQuizCreator.tsx:87-98 | No error exactly when the quiz is not null and has a non-empty string id, title and description and a non-empty question array. Otherwise the first failing check in that order is reported |
| QuizJson.CreateQuiz | src/components/JsonQuizCreator.tsx:143-162 | Accepts exactly well-formed parsed JSON, unchanged. A parse error passes through; a validation failure gives the validator's message |
| QuizJson.EditorSave | src/components/JsonQuizEditor.tsx:91-105 | Accepts exactly well-formed JSON, with its id forced to the route's id when there is one; errors as for creation |
| QuizJson.SampleQuestionWellFormed | src/components/JsonQuizCreator.tsx:100-127 | A question with an id, type, text, four choices, an answer and an explanation passes |
| QuizJson.AcceptsDuplicateIdsAndDanglingAnswer | src/components/JsonQuizCreator.tsx:86-141 | The validator accepts two questions with the same id and a correct answer that names no choice |
| ImageUtils.TailAt | src/utils/imageUtils.ts:10 | A tail found at j is `](` followed by `data:image/`, lower-case letters, `;base64,`, a payload without `)`, and `)` |
| ImageUtils.TailAtComplete | src/utils/imageUtils.ts:10 | Every well-formed tail at j is the one found |
| ImageUtils.MatchAt | src/utils/imageUtils.ts:10 | A match at i is well placed and its alt text is the shortest one after which a tail follows (the lazy `.*?`) |
| ImageUtils.MatchAtComplete | src/utils/imageUtils.ts:10 | Wherever a well-placed match starts, one is found there |
| ImageUtils.NextMatch | src/utils/imageUtils.ts:17 | The next match starts at or after `lastIndex` and lies inside the text |
| ImageUtils.NextMatchLeftmost | src/utils/imageUtils.ts:17 | The match found is the leftmost: no match starts between `lastIndex` and it, and none at all when nothing is found |
| ImageUtils.AllMatches | src/utils/imageUtils.ts:17-28 | Every match of the global scan lies inside the text, after the start position |
| ImageUtils.AllMatchesOrdered | src/utils/imageUtils.ts:17-28 | Each match is the match at its start, matches do not overlap and come in order, and nothing matches before the first |
| ImageUtils.MatchShape | src/utils/imageUtils.ts:10-18 | The full match is `![` alt `](` data `)`; the data starts with `data:image/`; the alt text holds no line terminator |
| ImageUtils.IndexOf | src/utils/imageUtils.ts:25 | The first occurrence at or after the start, or none when there is none |
| ImageUtils.Expand | src/utils/imageUtils.ts:25 | A replacement string without `$` is inserted as is |
| ImageUtils.ReplaceFirst | src/utils/imageUtils.ts:25 | `replace` with a string pattern: only the first occurrence is replaced, by the `$`-expanded replacement; no occurrence leaves the text as is |
| ImageUtils.ReplaceFirstLiteral | src/utils/imageUtils.ts:25 | A `$`-free replacement replaces the first occurrence verbatim |
| ImageUtils.PlaceholderShape | src/utils/imageUtils.ts:19 | A placeholder starts with `__IMAGE_`, ends with `__` and holds no `$` |
| ImageUtils.PlaceholderInjective | src/utils/imageUtils.ts:19 | Distinct indices give distinct placeholders |
| ImageUtils.ImagesValues | src/utils/imageUtils.ts:22 | Placeholder k maps to the k-th match's data URI |
| ImageUtils.ImagesKeys | src/utils/imageUtils.ts:22 | Every key of the image map is the placeholder of some match |
| ImageUtils.ExtractStep | src/utils/imageUtils.ts:17-28 | One more match adds one first-occurrence replace to the text and one placeholder entry to the map |
| ImageUtils.ScanStep | src/utils/imageUtils.ts:17-28 | A loop iteration advances `lastIndex` strictly and keeps the loop invariant |
| ImageUtils.ScanDone | src/utils/imageUtils.ts:17-28 | When `exec` finds nothing, the text and map are those of all matches |
| ImageUtils.ExtractBase64Images | src/utils/imageUtils.ts:6-34 | The text is rewritten match by match with placeholders, and the map sends each placeholder to its data URI. Without a match (an empty text included) the text is unchanged and the map empty. When every ']' closes an alt text and no alt text holds '$', each image is replaced where it stands |
| ImageUtils.DollarAltReinsertsMatch | src/utils/imageUtils.ts:25 | The replacement for an alt text `$&` expands to the whole matched image |
| ImageUtils.DollarTextMatches | src/utils/imageUtils.ts:10 | `![$&](data:image/png;base64,AA)` holds exactly one match, the whole text |
| ImageUtils.DollarAltKeepsData | src/utils/imageUtils.ts:25 | As written, that text comes out as `![` + the whole original image + `](__IMAGE_0__)`, so the data URI stays in the text |
| ImageUtils.ReplaceFirstVerbatim | src/utils/imageUtils.ts:25 | Replacing without `$` patterns leaves a text without the pattern as it is |
| ImageUtils.VerbatimAgreesOnLiteral | src/utils/imageUtils.ts:25 | Verbatim replacement agrees with `replace` on a `$`-free replacement |
| ImageUtils.VerbatimAgreesWithoutDollar | src/utils/imageUtils.ts:17-28 | Replacing each image verbatim agrees with the rewrite as written whenever no alt text holds `$` |
| ImageUtils.Positional | src/utils/imageUtils.ts:17-28 | Corrected rewrite: each image replaced where it stands, the text between and after kept; with no image the text is unchanged |
| ImageUtils.VerbatimIsPositional | src/utils/imageUtils.ts:17-28 | When every ']' closes an alt text, the verbatim rewrite replaces each image where it stands |
| ImageUtils.AllMatchesPairwise | src/utils/imageUtils.ts:17-28 | The matches of the scan lie inside the text and each ends before every later one begins |
| ImageUtils.RewrittenIsPositional | src/utils/imageUtils.ts:17-28 | When every ']' closes an alt text and no alt text holds `$`, the rewrite as written replaces each image where it stands |
| ImageUtils.DollarTextPositional | src/utils/imageUtils.ts:25 | Corrected, the `$&` text becomes `![$&](__IMAGE_0__)`: the alt text kept and the data URI gone |
| ImageUtils.OverlapMatches | src/utils/imageUtils.ts:10-17 | The overlap text holds exactly two matches: the first image, and the second image after the text between |
| ImageUtils.OverlapKeepsSecondImage | src/utils/imageUtils.ts:17-28 | As written, the overlap text comes out as `![![](__IMAGE_0__)](__IMAGE_1__)` followed by the whole second image: its data URI stays in the text |
| ImageUtils.OverlapPositional | src/utils/imageUtils.ts:17-28 | Corrected, both data URIs of the overlap text give way to their placeholders and the text between is kept |
| ImageUtils.GetImageSrc | src/utils/imageUtils.ts:43-53 | No source gives nothing. A placeholder-shaped source gives its image (nothing when unknown). Any other source is returned as is |
| ImageUtils.PlaceholderRoundTrip | src/utils/imageUtils.ts:43-53 | Looking up the k-th placeholder in the extracted map gives back the k-th image's data URI |

## Left out

- **Persistence and I/O.** `localStorage` reads and writes and `JSON.parse`/`JSON.stringify` are not modelled. Stored contents are a parameter: an entry list, no entry, or unreadable. Writes are left out.
- **Presentation.** Toasts, dialogs, navigation, console output, clipboard copying, the dark-mode `MutationObserver` and all rendering are left out. Where a handler's outcome decides a dialog or a navigation, the method returns it as a flag.
- **Scheduling.** `setInterval` and `setTimeout` are left out. An interval tick is its own method (`AutosaveTick`, `Timer.Tick`), and a delayed call is modelled as happening at once.
- **Clocks and ids.** `Date.now()`, `crypto.randomUUID()` and `uuidv4()` are parameters.
- **Number formatting.** Floating point is modelled exactly: the score uses `real` and the rounding uses integers. `toFixed` and the formatting of non-integers are left out. A quiz with no questions gives `None` for the displayed percentage, which is NaN in JavaScript.
- **`String.prototype.toLowerCase`.** It is a function parameter of `HomePage.Search`. The quiz list's title sort (`localeCompare`) is not modelled.
- **Type confusion.** `extractBase64Images` with `undefined` or a non-string value is not modelled: the text is a string.
- **Regular-expression state.** The global regular expression's `lastIndex` is not modelled across calls (it is reset on every call). The text is a sequence of Unicode scalar values. Positions therefore differ from JavaScript's UTF-16 indices for characters outside the Basic Multilingual Plane; the output does not expose positions. A lone surrogate, which a JavaScript string can hold, cannot be represented.
- **QuizResults.ResultStore.GetResult:** the fallback that re-reads `localStorage` when the id is not in memory is not modelled, because storage reads are parameters only at load time.
- **QuizSession.Session.Navigate:** the source does no bounds check. The model requires a valid index because later handlers index the question list with it.
- **Not modelled from `Quiz.tsx`:**
  - the parent-notification effect;
  - `handleStartQuiz` and `handleCheckSaves`, which only open dialogs or re-read storage;
  - the verification that re-reads the stored result after saving (storage is not modelled).
- **CountdownTimer.Timer:** the displayed minutes and seconds are not modelled.
- **EditQuiz.UpdateField:** only the three string fields the editor's inputs change (text, correct answer, explanation) are modelled. An arbitrary field name is not.
- **ImageUtils.ExtractBase64Images:** the output is tied to the positional rewrite only for texts where every ']' closes an alt text and no alt text holds '$'. For other texts only the rewrite as written is stated; the two counterexamples under Findings show it differs there.
- **JSON editing:** the editor's "copy JSON" helpers and the sample-quiz data file are not modelled.

## Findings

| source | as written | input that shows it | evidently intended | confidence | as-written member | corrected member |
|---|---|---|---|---|---|---|
| src/utils/imageUtils.ts:25 | the placeholder link is built from the alt text and passed to `replace` as the replacement string, where `$$`, `$&`, `` $` `` and `$'` are substitution patterns (the pattern is a string, so there are no capture groups and `$1` stays literal) | `![$&](data:image/png;base64,AA)` | the alt text kept verbatim and the data URI replaced: `![$&](__IMAGE_0__)`; as written, `$&` re-inserts the whole image, so the output still carries the base64 data | not executed | ImageUtils.DollarAltKeepsData | ImageUtils.DollarTextPositional |
| src/utils/imageUtils.ts:25 | each image is replaced at the first occurrence of its text in the text rewritten so far, not where it was found | `![![](data:image/a;base64,A)](data:image/a;base64,B)![](__IMAGE_0__)](data:image/a;base64,B)`: the first image's replacement ends in `![](__IMAGE_0__)`, which with the text after it spells a copy of the second image | each image replaced where it stands: `![![](__IMAGE_0__)](data:image/a;base64,B)![](__IMAGE_0__)](__IMAGE_1__)`; as written, the copy is replaced and the real second image keeps its base64 data | not executed | ImageUtils.OverlapKeepsSecondImage | ImageUtils.OverlapPositional |
| src/components/Quiz.tsx:381-387 | both completion paths set `timeRemaining` to 0 before the result is built, and `saveResult` takes the time taken as the limit minus the time remaining (`useQuizResults.ts:92`) | a 600-second quiz completed with 100 seconds left | a time taken of 500 seconds; as written it is 600, the whole limit, for every attempt | not executed | QuizSession.FinishedResultTakesWholeLimit | QuizSession.ElapsedResult |
