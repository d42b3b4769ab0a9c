/** The quiz validator that src/components/JsonQuizCreator.tsx (lines 86-141)
    and src/components/JsonQuizEditor.tsx (lines 34-89) both define, word for
    word, and the two handlers that use it. The validator runs a fixed
    sequence of checks over the parsed JSON value and throws at the first
    failure; here it returns that failure. Parsing itself is not modelled: a
    handler receives the parsed value, or the message of the parse error. */
module QuizJson {
  import opened Base

  /** A value `JSON.parse` can produce. */
  datatype Json =
    | JNull
    | JBool(b: bool)
    | JNum(n: real)
    | JStr(s: string)
    | JArr(items: seq<Json>)
    | JObj(fields: map<string, Json>)

  /** `v.key` on a value that is not null: an object's own field, or
      undefined (None) for a missing field and for every other kind of value. */
  function Prop(v: Json, key: string): (r: Option<Json>)
    ensures r.Some? <==> v.JObj? && key in v.fields
  {
    if v.JObj? && key in v.fields then Some(v.fields[key]) else None
  }

  /** JavaScript truthiness of a field value (None is undefined). */
  predicate Truthy(v: Option<Json>)
  {
    match v
    case None => false
    case Some(JNull) => false
    case Some(JBool(b)) => b
    case Some(JNum(n)) => n != 0.0
    case Some(JStr(s)) => s != ""
    case Some(_) => true
  }

  /** `!x || typeof x !== "string"` is false: x is a non-empty string. */
  predicate IsNonEmptyString(v: Option<Json>)
  {
    Truthy(v) && v.value.JStr?
  }

  predicate IsArray(v: Option<Json>)
  {
    v.Some? && v.value.JArr?
  }

  /** What went wrong. Question and choice positions are 0-based; the
      messages show them 1-based. Reading a field of a null quiz, question or
      choice throws a TypeError instead of one of the validator's errors. */
  datatype ValidationError =
    | QuizId | QuizTitle | QuizDescription | QuizQuestions
    | QuestionId(q: nat) | QuestionType(q: nat) | QuestionText(q: nat)
    | QuestionChoices(q: nat) | QuestionAnswer(q: nat) | QuestionExplanation(q: nat)
    | ChoiceId(q: nat, c: nat) | ChoiceText(q: nat, c: nat)
    | SettingsMissing | SettingsTimeLimit | SettingsShuffle
    | NullQuiz | NullQuestion(q: nat) | NullChoice(q: nat, c: nat)

  /** A message about the question at 0-based position q. */
  function QuestionMessage(q: nat, rest: string): (m: string)
    ensures StartsWith(m, "Question " + NatToString(q + 1) + " ")
  {
    var prefix := "Question " + NatToString(q + 1) + " ";
    assert (prefix + rest)[..|prefix|] == prefix;
    prefix + rest
  }

  /** A message about choice c of question q, both 0-based. */
  function ChoiceMessage(q: nat, c: nat, rest: string): (m: string)
    ensures StartsWith(m, "Choice " + NatToString(c + 1) + " in question " + NatToString(q + 1) + " ")
  {
    var prefix := "Choice " + NatToString(c + 1) + " in question " + NatToString(q + 1) + " ";
    assert (prefix + rest)[..|prefix|] == prefix;
    prefix + rest
  }

  /** The error's message, as the handlers show it. */
  function Message(e: ValidationError): string
  {
    match e
    case QuizId => "Quiz must have a string ID"
    case QuizTitle => "Quiz must have a string title"
    case QuizDescription => "Quiz must have a string description"
    case QuizQuestions => "Quiz must have an array of questions"
    case QuestionId(q) => QuestionMessage(q, "must have a string ID")
    case QuestionType(q) => QuestionMessage(q, "must have type \"MCQ\"")
    case QuestionText(q) => QuestionMessage(q, "must have text")
    case QuestionChoices(q) => QuestionMessage(q, "must have exactly 4 choices")
    case QuestionAnswer(q) => QuestionMessage(q, "must have a correct answer")
    case QuestionExplanation(q) => QuestionMessage(q, "must have an explanation")
    case ChoiceId(q, c) => ChoiceMessage(q, c, "must have an ID")
    case ChoiceText(q, c) => ChoiceMessage(q, c, "must have text")
    case SettingsMissing => "Quiz must have settings"
    case SettingsTimeLimit => "Quiz settings must have a positive timeLimit"
    case SettingsShuffle => "Quiz settings must have a shuffleQuestions boolean"
    case NullQuiz => "Cannot read properties of null (reading 'id')"
    case NullQuestion(_) => "Cannot read properties of null (reading 'id')"
    case NullChoice(_, _) => "Cannot read properties of null (reading 'id')"
  }

  /** Every message about a question or a choice names its 1-based position;
      a null quiz, question or choice gives the TypeError text instead. */
  lemma MessageNamesPosition(e: ValidationError)
    ensures e.NullQuiz? || e.NullQuestion? || e.NullChoice? ==>
      Message(e) == "Cannot read properties of null (reading 'id')"
    ensures (e.QuestionId? || e.QuestionType? || e.QuestionText? || e.QuestionChoices?
             || e.QuestionAnswer? || e.QuestionExplanation?) ==>
      StartsWith(Message(e), "Question " + NatToString(e.q + 1) + " ")
    ensures e.ChoiceId? || e.ChoiceText? ==>
      StartsWith(Message(e), "Choice " + NatToString(e.c + 1) + " in question " + NatToString(e.q + 1) + " ")
  {
    if e.QuestionId? || e.QuestionType? || e.QuestionText? || e.QuestionChoices?
       || e.QuestionAnswer? || e.QuestionExplanation? {
      QuestionMessageOf(e);
    } else if e.ChoiceId? || e.ChoiceText? {
      ChoiceMessageOf(e);
    }
  }

  lemma QuestionMessageOf(e: ValidationError)
    requires e.QuestionId? || e.QuestionType? || e.QuestionText? || e.QuestionChoices?
             || e.QuestionAnswer? || e.QuestionExplanation?
    ensures exists rest :: Message(e) == QuestionMessage(e.q, rest)
  {
    match e
    case QuestionId(q) => assert Message(e) == QuestionMessage(q, "must have a string ID");
    case QuestionType(q) => assert Message(e) == QuestionMessage(q, "must have type \"MCQ\"");
    case QuestionText(q) => assert Message(e) == QuestionMessage(q, "must have text");
    case QuestionChoices(q) => assert Message(e) == QuestionMessage(q, "must have exactly 4 choices");
    case QuestionAnswer(q) => assert Message(e) == QuestionMessage(q, "must have a correct answer");
    case QuestionExplanation(q) => assert Message(e) == QuestionMessage(q, "must have an explanation");
  }

  lemma ChoiceMessageOf(e: ValidationError)
    requires e.ChoiceId? || e.ChoiceText?
    ensures exists rest :: Message(e) == ChoiceMessage(e.q, e.c, rest)
  {
    match e
    case ChoiceId(q, c) => assert Message(e) == ChoiceMessage(q, c, "must have an ID");
    case ChoiceText(q, c) => assert Message(e) == ChoiceMessage(q, c, "must have text");
  }

  /** The question an error is about, if any. */
  function QuestionOf(e: ValidationError): Option<nat>
  {
    match e
    case QuestionId(q) => Some(q)
    case QuestionType(q) => Some(q)
    case QuestionText(q) => Some(q)
    case QuestionChoices(q) => Some(q)
    case QuestionAnswer(q) => Some(q)
    case QuestionExplanation(q) => Some(q)
    case ChoiceId(q, _) => Some(q)
    case ChoiceText(q, _) => Some(q)
    case NullQuestion(q) => Some(q)
    case NullChoice(q, _) => Some(q)
    case _ => None
  }

  predicate IsSettingsError(e: ValidationError)
  {
    e.SettingsMissing? || e.SettingsTimeLimit? || e.SettingsShuffle?
  }

  predicate IsQuizFieldError(e: ValidationError)
  {
    e.NullQuiz? || e.QuizId? || e.QuizTitle? || e.QuizDescription? || e.QuizQuestions?
  }

  predicate IsChoiceError(e: ValidationError)
  {
    e.NullChoice? || e.ChoiceId? || e.ChoiceText?
  }

  // ---------------------------------------------------------------------------
  // The checks of each level, numbered in the order the validator makes them,
  // and the number of the check each error reports

  /** Check k on the quiz itself: not null, id, title, description, questions. */
  predicate QuizCheck(v: Json, k: nat)
  {
    if k == 0 then !v.JNull?
    else if k == 1 then IsNonEmptyString(Prop(v, "id"))
    else if k == 2 then IsNonEmptyString(Prop(v, "title"))
    else if k == 3 then IsNonEmptyString(Prop(v, "description"))
    else if k == 4 then IsArray(Prop(v, "questions")) && |Prop(v, "questions").value.items| > 0
    else true
  }

  function QuizCheckOf(e: ValidationError): nat
  {
    match e
    case NullQuiz => 0
    case QuizId => 1
    case QuizTitle => 2
    case QuizDescription => 3
    case QuizQuestions => 4
    case _ => 5
  }

  /** Check k on a question: not null, id, type, text, four choices, correct
      answer, explanation. Its choices are checked after all seven. */
  predicate QuestionCheck(v: Json, k: nat)
  {
    if k == 0 then !v.JNull?
    else if k == 1 then IsNonEmptyString(Prop(v, "id"))
    else if k == 2 then Prop(v, "type") == Some(JStr("MCQ"))
    else if k == 3 then IsNonEmptyString(Prop(v, "text"))
    else if k == 4 then IsArray(Prop(v, "choices")) && |Prop(v, "choices").value.items| == 4
    else if k == 5 then IsNonEmptyString(Prop(v, "correctAnswer"))
    else if k == 6 then IsNonEmptyString(Prop(v, "explanation"))
    else true
  }

  /** 7 for an error about one of the question's choices. */
  function QuestionCheckOf(e: ValidationError): nat
  {
    match e
    case NullQuestion(_) => 0
    case QuestionId(_) => 1
    case QuestionType(_) => 2
    case QuestionText(_) => 3
    case QuestionChoices(_) => 4
    case QuestionAnswer(_) => 5
    case QuestionExplanation(_) => 6
    case _ => 7
  }

  /** Check k on a choice: not null, id, text. */
  predicate ChoiceCheck(c: Json, k: nat)
  {
    if k == 0 then !c.JNull?
    else if k == 1 then IsNonEmptyString(Prop(c, "id"))
    else if k == 2 then IsNonEmptyString(Prop(c, "text"))
    else true
  }

  function ChoiceCheckOf(e: ValidationError): nat
  {
    match e
    case NullChoice(_, _) => 0
    case ChoiceId(_, _) => 1
    case ChoiceText(_, _) => 2
    case _ => 3
  }

  /** Check k on the settings: present as an object, a positive number
      `timeLimit`, a boolean `shuffleQuestions`. */
  predicate SettingsCheck(v: Json, k: nat)
  {
    var s := Prop(v, "settings");
    if k == 0 then Truthy(s) && (s.value.JObj? || s.value.JArr?)
    else if k == 1 then
      s.Some? && Prop(s.value, "timeLimit").Some? && Prop(s.value, "timeLimit").value.JNum?
      && Prop(s.value, "timeLimit").value.n > 0.0
    else if k == 2 then
      s.Some? && Prop(s.value, "shuffleQuestions").Some? && Prop(s.value, "shuffleQuestions").value.JBool?
    else true
  }

  function SettingsCheckOf(e: ValidationError): nat
  {
    match e
    case SettingsMissing => 0
    case SettingsTimeLimit => 1
    case SettingsShuffle => 2
    case _ => 3
  }

  /** Quiz check k fails and every earlier one passes. */
  predicate QuizFailsFirstAt(v: Json, k: nat)
  {
    !QuizCheck(v, k) && forall m: nat :: m < k ==> QuizCheck(v, m)
  }

  predicate QuestionFailsFirstAt(v: Json, k: nat)
  {
    !QuestionCheck(v, k) && forall m: nat :: m < k ==> QuestionCheck(v, m)
  }

  predicate ChoiceFailsFirstAt(c: Json, k: nat)
  {
    !ChoiceCheck(c, k) && forall m: nat :: m < k ==> ChoiceCheck(c, m)
  }

  predicate SettingsFailFirstAt(v: Json, k: nat)
  {
    !SettingsCheck(v, k) && forall m: nat :: m < k ==> SettingsCheck(v, m)
  }

  // ---------------------------------------------------------------------------
  // What an accepted quiz looks like, stated as one conjunction

  predicate WellFormedChoice(c: Json)
  {
    !c.JNull? && IsNonEmptyString(Prop(c, "id")) && IsNonEmptyString(Prop(c, "text"))
  }

  predicate WellFormedQuestion(q: Json)
  {
    && !q.JNull?
    && IsNonEmptyString(Prop(q, "id"))
    && Prop(q, "type") == Some(JStr("MCQ"))
    && IsNonEmptyString(Prop(q, "text"))
    && IsArray(Prop(q, "choices")) && |Prop(q, "choices").value.items| == 4
    && IsNonEmptyString(Prop(q, "correctAnswer"))
    && IsNonEmptyString(Prop(q, "explanation"))
    && forall j :: 0 <= j < 4 ==> WellFormedChoice(Prop(q, "choices").value.items[j])
  }

  /** The quiz-level fields checked before any question. */
  predicate QuizFieldsOk(v: Json)
  {
    && !v.JNull?
    && IsNonEmptyString(Prop(v, "id"))
    && IsNonEmptyString(Prop(v, "title"))
    && IsNonEmptyString(Prop(v, "description"))
    && IsArray(Prop(v, "questions")) && |Prop(v, "questions").value.items| > 0
  }

  function Questions(v: Json): seq<Json>
    requires QuizFieldsOk(v)
  {
    Prop(v, "questions").value.items
  }

  /** A settings object (arrays are objects too) with a positive number
      `timeLimit` and a boolean `shuffleQuestions`. */
  predicate SettingsOk(v: Json)
  {
    var s := Prop(v, "settings");
    && Truthy(s) && (s.value.JObj? || s.value.JArr?)
    && Prop(s.value, "timeLimit").Some? && Prop(s.value, "timeLimit").value.JNum?
    && Prop(s.value, "timeLimit").value.n > 0.0
    && Prop(s.value, "shuffleQuestions").Some? && Prop(s.value, "shuffleQuestions").value.JBool?
  }

  predicate WellFormedQuiz(v: Json)
  {
    && QuizFieldsOk(v)
    && (forall k :: 0 <= k < |Questions(v)| ==> WellFormedQuestion(Questions(v)[k]))
    && SettingsOk(v)
  }

  // ---------------------------------------------------------------------------
  // The validator, check by check

  /** The inner `forEach` over a question's choices, from position j on. */
  function CheckChoicesFrom(cs: seq<Json>, q: nat, j: nat): (e: Option<ValidationError>)
    requires j <= |cs|
    ensures e.None? <==> forall k :: j <= k < |cs| ==> WellFormedChoice(cs[k])
    ensures e.Some? ==> QuestionOf(e.value) == Some(q)
    // the first ill-formed choice is reported, with the first check it fails
    ensures e.Some? ==>
      && IsChoiceError(e.value) && j <= e.value.c < |cs|
      && ChoiceFailsFirstAt(cs[e.value.c], ChoiceCheckOf(e.value))
      && forall m :: j <= m < e.value.c ==> WellFormedChoice(cs[m])
    decreases |cs| - j
  {
    if j == |cs| then None
    else if cs[j].JNull? then Some(NullChoice(q, j))
    else if !IsNonEmptyString(Prop(cs[j], "id")) then Some(ChoiceId(q, j))
    else if !IsNonEmptyString(Prop(cs[j], "text")) then Some(ChoiceText(q, j))
    else CheckChoicesFrom(cs, q, j + 1)
  }

  /** The checks on the question at position i. */
  function CheckQuestion(v: Json, i: nat): (e: Option<ValidationError>)
    ensures e.None? <==> WellFormedQuestion(v)
    ensures e.Some? ==> QuestionOf(e.value) == Some(i)
    // the first failing question check is reported; the choices come last
    ensures e.Some? && QuestionCheckOf(e.value) < 7 ==> QuestionFailsFirstAt(v, QuestionCheckOf(e.value))
    ensures e.Some? && QuestionCheckOf(e.value) == 7 ==>
      && (forall m: nat :: m < 7 ==> QuestionCheck(v, m))
      && IsChoiceError(e.value) && IsArray(Prop(v, "choices"))
      && e == CheckChoicesFrom(Prop(v, "choices").value.items, i, 0)
  {
    if v.JNull? then Some(NullQuestion(i))
    else if !IsNonEmptyString(Prop(v, "id")) then Some(QuestionId(i))
    else if Prop(v, "type") != Some(JStr("MCQ")) then Some(QuestionType(i))
    else if !IsNonEmptyString(Prop(v, "text")) then Some(QuestionText(i))
    else if !IsArray(Prop(v, "choices")) || |Prop(v, "choices").value.items| != 4 then Some(QuestionChoices(i))
    else if !IsNonEmptyString(Prop(v, "correctAnswer")) then Some(QuestionAnswer(i))
    else if !IsNonEmptyString(Prop(v, "explanation")) then Some(QuestionExplanation(i))
    else CheckChoicesFrom(Prop(v, "choices").value.items, i, 0)
  }

  /** The outer `forEach`, from position i on: the first malformed question
      is the one reported. */
  function CheckQuestionsFrom(qs: seq<Json>, i: nat): (e: Option<ValidationError>)
    requires i <= |qs|
    ensures e.None? <==> forall k :: i <= k < |qs| ==> WellFormedQuestion(qs[k])
    ensures e.Some? ==>
      && QuestionOf(e.value).Some?
      && var k := QuestionOf(e.value).value;
      && i <= k < |qs| && !WellFormedQuestion(qs[k])
      && (forall m :: i <= m < k ==> WellFormedQuestion(qs[m]))
      && e == CheckQuestion(qs[k], k)
    decreases |qs| - i
  {
    if i == |qs| then None
    else
      var e := CheckQuestion(qs[i], i);
      if e.Some? then e else CheckQuestionsFrom(qs, i + 1)
  }

  function CheckSettings(v: Json): (e: Option<ValidationError>)
    ensures e.None? <==> SettingsOk(v)
    ensures e.Some? ==> IsSettingsError(e.value) && SettingsFailFirstAt(v, SettingsCheckOf(e.value))
  {
    var s := Prop(v, "settings");
    if !Truthy(s) || !(s.value.JObj? || s.value.JArr?) then Some(SettingsMissing)
    else
      var t := Prop(s.value, "timeLimit");
      if t.None? || !t.value.JNum? || t.value.n <= 0.0 then Some(SettingsTimeLimit)
      else
        var b := Prop(s.value, "shuffleQuestions");
        if b.None? || !b.value.JBool? then Some(SettingsShuffle)
        else None
  }

  /** `validateQuiz(v)`: None when it returns true, otherwise the error it
      throws first. */
  function Validate(v: Json): (e: Option<ValidationError>)
    ensures e.None? <==> WellFormedQuiz(v)
    // quiz fields first, then questions in order, then settings
    ensures !QuizFieldsOk(v) ==> e.Some? && QuestionOf(e.value).None? && !IsSettingsError(e.value)
    ensures QuizFieldsOk(v) && e.Some? && !IsSettingsError(e.value) ==>
      && QuestionOf(e.value).Some?
      && var k := QuestionOf(e.value).value;
      && k < |Questions(v)| && !WellFormedQuestion(Questions(v)[k])
      && (forall m :: 0 <= m < k ==> WellFormedQuestion(Questions(v)[m]))
      && e == CheckQuestion(Questions(v)[k], k)
    // a quiz-field error is the first failing quiz check
    ensures e.Some? && IsQuizFieldError(e.value) ==> QuizFailsFirstAt(v, QuizCheckOf(e.value))
    // a settings error comes only after every quiz field and question passed
    ensures e.Some? && IsSettingsError(e.value) ==>
      && QuizFieldsOk(v)
      && (forall k :: 0 <= k < |Questions(v)| ==> WellFormedQuestion(Questions(v)[k]))
      && SettingsFailFirstAt(v, SettingsCheckOf(e.value))
    ensures QuizFieldsOk(v) && (exists k :: 0 <= k < |Questions(v)| && !WellFormedQuestion(Questions(v)[k])) ==>
      e.Some? && !IsSettingsError(e.value)
  {
    var f := CheckQuizFields(v);
    if f.Some? then f
    else
      var e := CheckQuestionsFrom(Questions(v), 0);
      if e.Some? then e else CheckSettings(v)
  }

  /** The checks on the quiz's own fields, in the order they are made. */
  function CheckQuizFields(v: Json): (e: Option<ValidationError>)
    ensures e.None? <==> QuizFieldsOk(v)
    ensures e.Some? ==> QuestionOf(e.value).None? && !IsSettingsError(e.value)
    ensures e.Some? ==> IsQuizFieldError(e.value) && QuizFailsFirstAt(v, QuizCheckOf(e.value))
  {
    if v.JNull? then Some(NullQuiz)
    else if !IsNonEmptyString(Prop(v, "id")) then Some(QuizId)
    else if !IsNonEmptyString(Prop(v, "title")) then Some(QuizTitle)
    else if !IsNonEmptyString(Prop(v, "description")) then Some(QuizDescription)
    else if !IsArray(Prop(v, "questions")) || |Prop(v, "questions").value.items| == 0 then Some(QuizQuestions)
    else None
  }

  // ---------------------------------------------------------------------------
  // The two handlers

  /** `handleCreateQuiz`: the parsed value is handed on unchanged when it
      validates; otherwise the message of the parse error or of the first
      failed check is reported and nothing is created. */
  function CreateQuiz(parsed: Result<Json, string>): (r: Result<Json, string>)
    ensures r.Ok? <==> parsed.Ok? && WellFormedQuiz(parsed.value)
    ensures r.Ok? ==> r.value == parsed.value
    ensures parsed.Err? ==> r == parsed
    ensures parsed.Ok? && r.Err? ==> r.error == Message(Validate(parsed.value).value)
  {
    match parsed
    case Err(msg) => Err(msg)
    case Ok(v) =>
      var e := Validate(v);
      if e.Some? then Err(Message(e.value)) else Ok(v)
  }

  /** `handleSave` of the JSON editor: as creation, except that an accepted
      quiz takes the route's id when there is one (a non-empty route id). */
  function EditorSave(parsed: Result<Json, string>, routeId: Option<string>): (r: Result<Json, string>)
    ensures r.Ok? <==> parsed.Ok? && WellFormedQuiz(parsed.value)
    ensures parsed.Err? ==> r == parsed
    ensures parsed.Ok? && r.Err? ==> r.error == Message(Validate(parsed.value).value)
    ensures r.Ok? && routeId.Some? && routeId.value != "" ==>
      r.value == JObj(parsed.value.fields["id" := JStr(routeId.value)])
    ensures r.Ok? && (routeId.None? || routeId.value == "") ==> r.value == parsed.value
    ensures r.Ok? ==> WellFormedQuiz(r.value)
  {
    match parsed
    case Err(msg) => Err(msg)
    case Ok(v) =>
      var e := Validate(v);
      if e.Some? then Err(Message(e.value))
      else if routeId.Some? && routeId.value != "" then
        var updated := JObj(v.fields["id" := JStr(routeId.value)]);
        assert Questions(updated) == Questions(v);
        Ok(updated)
      else Ok(v)
  }

  // ---------------------------------------------------------------------------
  // What acceptance does not promise

  function Choice(id: string): Json
  {
    JObj(map["id" := JStr(id), "text" := JStr("option " + id)])
  }

  function SampleQuestion(id: string, correctAnswer: string): Json
  {
    JObj(map["id" := JStr(id), "type" := JStr("MCQ"), "text" := JStr("Pick one"),
             "choices" := JArr([Choice("a"), Choice("b"), Choice("c"), Choice("d")]),
             "correctAnswer" := JStr(correctAnswer), "explanation" := JStr("Because")])
  }

  lemma SampleQuestionWellFormed(id: string, correctAnswer: string)
    requires id != "" && correctAnswer != ""
    ensures WellFormedQuestion(SampleQuestion(id, correctAnswer))
  {
    var q := SampleQuestion(id, correctAnswer);
    var cs := [Choice("a"), Choice("b"), Choice("c"), Choice("d")];
    assert Prop(q, "choices") == Some(JArr(cs));
    assert Prop(q, "type") == Some(JStr("MCQ"));
    ChoiceWellFormed("a");
    ChoiceWellFormed("b");
    ChoiceWellFormed("c");
    ChoiceWellFormed("d");
  }

  lemma ChoiceWellFormed(id: string)
    requires id != ""
    ensures WellFormedChoice(Choice(id))
  {
  }

  /** A quiz with the given questions and valid fields and settings. */
  function SampleQuiz(qs: seq<Json>): Json
  {
    JObj(map["id" := JStr("quiz"), "title" := JStr("T"), "description" := JStr("D"),
             "questions" := JArr(qs),
             "settings" := JObj(map["timeLimit" := JNum(600.0), "shuffleQuestions" := JBool(false)])])
  }

  lemma SampleQuizFields(qs: seq<Json>)
    requires qs != []
    ensures QuizFieldsOk(SampleQuiz(qs)) && Questions(SampleQuiz(qs)) == qs && SettingsOk(SampleQuiz(qs))
  {
    assert Prop(SampleQuiz(qs), "questions") == Some(JArr(qs));
  }

  /** A quiz whose two questions share one id and whose correct answer names
      no choice is still accepted. */
  lemma AcceptsDuplicateIdsAndDanglingAnswer()
    ensures Validate(SampleQuiz([SampleQuestion("q5", "z"), SampleQuestion("q5", "a")])).None?
  {
    var qs := [SampleQuestion("q5", "z"), SampleQuestion("q5", "a")];
    SampleQuestionWellFormed("q5", "z");
    SampleQuestionWellFormed("q5", "a");
    SampleQuizFields(qs);
    assert WellFormedQuiz(SampleQuiz(qs));
  }
}
