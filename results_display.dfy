/** The scoring shown by src/components/Results.tsx right after an attempt. It
    is a rule of its own, separate from the result store's: a plain count of
    answers equal to the correct answer, with no deduction and no check that
    the answer is one of the choices; a percentage rounded to a whole number;
    and a spelled-out duration ("1 hour, 2 minutes, 3 seconds"). */
module ResultsDisplay {
  import opened Base
  import opened QuizTypes
  import QuizResults

  /** A question counts when its answer is non-empty and equals the correct
      answer. */
  predicate Scores(answers: map<string, string>, q: Question)
  {
    AnswerOf(answers, q.id) != "" && AnswerOf(answers, q.id) == q.correctAnswer
  }

  /** `calculateScore()`: the `reduce` over the questions, in order. */
  function DisplayScore(questions: seq<Question>, answers: map<string, string>): (score: nat)
    ensures score <= |questions|
    decreases |questions|
  {
    if questions == [] then 0
    else
      var n := |questions| - 1;
      var userAnswer := AnswerOf(answers, questions[n].id);
      var prev := DisplayScore(questions[..n], answers);
      if userAnswer == "" then prev
      else if userAnswer == questions[n].correctAnswer then prev + 1
      else prev
  }

  /** The shown score is the number of questions whose non-empty answer is the
      correct answer; nothing is deducted for a wrong one. */
  lemma {:induction false} DisplayScoreCounts(questions: seq<Question>, answers: map<string, string>)
    ensures DisplayScore(questions, answers) == |Filter(questions, q => Scores(answers, q))|
    decreases |questions|
  {
    if questions != [] {
      var n := |questions| - 1;
      DisplayScoreCounts(questions[..n], answers);
      assert questions == questions[..n] + [questions[n]];
      FilterAppend(questions[..n], [questions[n]], q => Scores(answers, q));
    }
  }

  /** Every question the result store counts as correct is counted here too;
      the shown score can only be higher, since it does not ask whether the
      answer is one of the choices. */
  lemma {:induction false} DisplayScoreAtLeastStored(questions: seq<Question>, answers: map<string, string>)
    ensures QuizResults.Tally(questions, answers).correct <= DisplayScore(questions, answers)
    decreases |questions|
  {
    if questions != [] {
      var n := |questions| - 1;
      DisplayScoreAtLeastStored(questions[..n], answers);
    }
  }

  /** `Math.round((score / n) * 100)`. With no questions JavaScript computes
      NaN, shown here as None. */
  function DisplayPercentage(score: nat, n: nat): (p: Option<int>)
    ensures n == 0 <==> p.None?
    // the nearest whole number to 100 * score / n, halves rounded up
    ensures p.Some? ==> 2 * n * p.value <= 200 * score + n < 2 * n * (p.value + 1)
    ensures p.Some? && score <= n ==> 0 <= p.value <= 100
  {
    if n == 0 then None
    else
      var q := (200 * score + n) / (2 * n);
      RoundBounds(score, n, q);
      Some(q)
  }

  lemma RoundBounds(score: nat, n: nat, q: int)
    requires n > 0 && q == (200 * score + n) / (2 * n)
    ensures 2 * n * q <= 200 * score + n < 2 * n * (q + 1)
    ensures score <= n ==> 0 <= q <= 100
  {
    var a, d := 200 * score + n, 2 * n;
    DivBounds(a, d);
    assert 2 * n * q == d * q && 2 * n * (q + 1) == d * q + d;
    if score <= n && q > 100 {
      MulMono(d, 101, q);
    }
  }

  lemma DivBounds(a: nat, d: nat)
    requires d > 0
    ensures 0 <= a / d && d * (a / d) <= a < d * (a / d) + d
  {
  }

  lemma MulMono(d: nat, x: int, y: int)
    requires x <= y
    ensures d * x <= d * y
  {
  }

  /** `timeTaken`: the part of the time limit that was used. */
  function TimeTaken(quiz: Quiz, state: QuizState): (t: int)
    ensures t + state.timeRemaining == quiz.settings.timeLimit
  {
    quiz.settings.timeLimit - state.timeRemaining
  }

  /** `isCorrect` for one question's badge: the stored answer equals the
      correct answer (a missing answer never does). */
  function IsCorrectShown(q: Question, answers: map<string, string>): (b: bool)
    ensures b <==> q.id in answers && answers[q.id] == q.correctAnswer
  {
    q.id in answers && answers[q.id] == q.correctAnswer
  }

  /** The badge and the score agree on every question with a non-empty answer;
      a question whose correct answer is empty shows as correct for an empty
      answer without adding to the score. */
  lemma BadgeMatchesScore(q: Question, answers: map<string, string>)
    ensures AnswerOf(answers, q.id) != "" ==> (IsCorrectShown(q, answers) <==> Scores(answers, q))
    ensures q.correctAnswer == "" && q.id in answers && answers[q.id] == "" ==>
      IsCorrectShown(q, answers) && !Scores(answers, q)
  {
  }

  // ---------------------------------------------------------------------------
  // formatTime

  datatype Unit = Hour | Minute | Second

  datatype Part = Part(value: int, unit: Unit)

  function UnitSeconds(u: Unit): nat
  {
    match u
    case Hour => 3600
    case Minute => 60
    case Second => 1
  }

  /** The value of unit u among the parts h, m and s. */
  function Share(u: Unit, h: int, m: int, s: int): int
  {
    match u
    case Hour => h
    case Minute => m
    case Second => s
  }

  /** The value a unit is shown with for a non-negative count of seconds:
      whole hours, then minutes and seconds below 60. */
  function ValueOf(seconds: int, u: Unit): int
  {
    Share(u, seconds / 3600, seconds % 3600 / 60, seconds % 60)
  }

  /** Some part of r is in unit u. */
  predicate HasUnit(r: seq<Part>, u: Unit)
  {
    r != [] && (r[0].unit == u || HasUnit(r[1..], u))
  }

  /** The list formatTime builds from hours h, minutes m and seconds s. */
  function PartList(h: int, m: int, s: int): seq<Part>
  {
    (if h > 0 then [Part(h, Hour)] else [])
    + (if m > 0 || h > 0 then [Part(m, Minute)] else [])
    + (if s > 0 || (h == 0 && m == 0) then [Part(s, Second)] else [])
  }

  /** The parts `formatTime(seconds)` pushes, in order. */
  function DurationParts(seconds: int): (r: seq<Part>)
    ensures seconds >= 0 ==> 1 <= |r| <= 3
    // each part carries its unit's share of the seconds
    ensures seconds >= 0 ==> forall i :: 0 <= i < |r| ==> r[i].value == ValueOf(seconds, r[i].unit)
    ensures seconds >= 0 ==> forall i :: 0 <= i < |r| && r[i].unit != Hour ==> 0 <= r[i].value < 60
    // larger units come first, and no unit twice
    ensures seconds >= 0 ==> forall i, j :: 0 <= i < j < |r| ==> UnitSeconds(r[i].unit) > UnitSeconds(r[j].unit)
    // hours from one hour on, minutes from one minute on, seconds unless a
    // larger unit is shown and they are zero
    ensures seconds >= 0 ==> (HasUnit(r, Hour) <==> seconds >= 3600)
    ensures seconds >= 0 ==> (HasUnit(r, Minute) <==> seconds >= 60)
    ensures seconds >= 0 ==> (HasUnit(r, Second) <==> seconds % 60 != 0 || seconds < 60)
    ensures seconds >= 0 ==> Total(r) == seconds
  {
    var hours, minutes, secs := HoursPart(seconds), MinutesPart(seconds), SecondsPart(seconds);
    var r := PartList(hours, minutes, secs);
    if seconds >= 0 then
      TimePartsRecompose(seconds);
      TotalParts(hours, minutes, secs, r);
      assert hours == seconds / 3600 && minutes == seconds % 3600 / 60 && secs == seconds % 60;
      PartListShape(hours, minutes, secs);
      assert hours == 0 && minutes == 0 <==> seconds < 60;
      r
    else r
  }

  /** The shape of the list: values, order and which units appear. */
  lemma PartListShape(h: int, m: int, s: int)
    requires h >= 0 && 0 <= m < 60 && 0 <= s < 60
    ensures var r := PartList(h, m, s);
      && 1 <= |r| <= 3
      && (forall i :: 0 <= i < |r| ==> r[i].value == Share(r[i].unit, h, m, s))
      && (forall i :: 0 <= i < |r| && r[i].unit != Hour ==> 0 <= r[i].value < 60)
      && (forall i, j :: 0 <= i < j < |r| ==> UnitSeconds(r[i].unit) > UnitSeconds(r[j].unit))
      && (HasUnit(r, Hour) <==> h > 0)
      && (HasUnit(r, Minute) <==> m > 0 || h > 0)
      && (HasUnit(r, Second) <==> s > 0 || (h == 0 && m == 0))
  {
    var r := PartList(h, m, s);
    var hp, mp, sp := Part(h, Hour), Part(m, Minute), Part(s, Second);
    if h > 0 {
      if s > 0 {
        assert r == [hp, mp, sp];
        UnitsOfThree(hp, mp, sp);
      } else {
        assert r == [hp, mp];
        UnitsOfTwo(hp, mp);
      }
    } else if m > 0 {
      if s > 0 {
        assert r == [mp, sp];
        UnitsOfTwo(mp, sp);
      } else {
        assert r == [mp];
        UnitsOfTwo(mp, mp);
      }
    } else {
      assert r == [sp];
      UnitsOfTwo(sp, sp);
    }
  }

  lemma UnitsOfOne(a: Part)
    ensures forall u :: HasUnit([a], u) <==> a.unit == u
  {
    assert [a][1..] == [];
  }

  lemma UnitsOfTwo(a: Part, b: Part)
    ensures forall u :: HasUnit([a, b], u) <==> a.unit == u || b.unit == u
    ensures forall u :: HasUnit([a], u) <==> a.unit == u
  {
    assert [a, b][1..] == [b];
    UnitsOfOne(a);
    UnitsOfOne(b);
  }

  lemma UnitsOfThree(a: Part, b: Part, c: Part)
    ensures forall u :: HasUnit([a, b, c], u) <==> a.unit == u || b.unit == u || c.unit == u
  {
    assert [a, b, c][1..] == [b, c];
    UnitsOfTwo(b, c);
  }

  /** The seconds a list of parts adds up to. */
  function Total(parts: seq<Part>): int
  {
    if parts == [] then 0 else parts[0].value * UnitSeconds(parts[0].unit) + Total(parts[1..])
  }

  lemma TotalParts(hours: int, minutes: int, secs: int, r: seq<Part>)
    requires hours >= 0 && minutes >= 0 && secs >= 0
    requires r == PartList(hours, minutes, secs)
    ensures Total(r) == 3600 * hours + 60 * minutes + secs
  {
    var a := if hours > 0 then [Part(hours, Hour)] else [];
    var b := if minutes > 0 || hours > 0 then [Part(minutes, Minute)] else [];
    var c := if secs > 0 || (hours == 0 && minutes == 0) then [Part(secs, Second)] else [];
    TotalAppend(a, b + c);
    TotalAppend(b, c);
    assert r == a + (b + c);
  }

  lemma {:induction false} TotalAppend(a: seq<Part>, b: seq<Part>)
    ensures Total(a + b) == Total(a) + Total(b)
    decreases |a|
  {
    if a == [] {
      assert a + b == b;
    } else {
      assert (a + b)[0] == a[0];
      assert (a + b)[1..] == a[1..] + b;
      TotalAppend(a[1..], b);
    }
  }

  function UnitName(u: Unit): string
  {
    match u
    case Hour => "hour"
    case Minute => "minute"
    case Second => "second"
  }

  /** Whether the unit gets an "s": `hours > 1` for hours, `!== 1` for minutes
      and seconds. */
  predicate Plural(p: Part)
  {
    if p.unit == Hour then p.value > 1 else p.value != 1
  }

  /** One part as text, e.g. "1 hour" or "0 minutes": the number, a space,
      the unit's name, and an "s" when plural. */
  function Render(p: Part): (s: string)
    ensures |s| > 0 && (s[|s| - 1] == 's' <==> Plural(p))
  {
    IntToString(p.value) + " " + UnitName(p.unit) + (if Plural(p) then "s" else "")
  }

  /** A rendered part starts with its number, a space and its unit's name,
      and has one more character exactly when it is plural. */
  lemma RenderShape(p: Part)
    ensures StartsWith(Render(p), IntToString(p.value) + " " + UnitName(p.unit))
    ensures |Render(p)| == |IntToString(p.value) + " " + UnitName(p.unit)| + (if Plural(p) then 1 else 0)
  {
    var head := IntToString(p.value) + " " + UnitName(p.unit);
    assert Render(p)[..|head|] == head;
  }

  /** Each shown unit is singular exactly when its value is 1. */
  lemma SingularIffOne(seconds: int, i: int)
    requires seconds >= 0 && 0 <= i < |DurationParts(seconds)|
    ensures var p := DurationParts(seconds)[i];
            var s := Render(p);
            s[|s| - 1] == 's' <==> p.value != 1
  {
    var r := DurationParts(seconds);
    if r[i].unit == Hour {
      assert HoursPart(seconds) > 0;
    }
  }

  function RenderAll(parts: seq<Part>): (r: seq<string>)
    ensures |r| == |parts|
    ensures forall i :: 0 <= i < |r| ==> r[i] == Render(parts[i])
  {
    if parts == [] then [] else [Render(parts[0])] + RenderAll(parts[1..])
  }

  /** The combined length of some strings. */
  function Lengths(strs: seq<string>): nat
  {
    if strs == [] then 0 else |strs[0]| + Lengths(strs[1..])
  }

  /** `parts.join(sep)`. */
  function Join(strs: seq<string>, sep: string): string
    decreases |strs|
  {
    if strs == [] then ""
    else if |strs| == 1 then strs[0]
    else strs[0] + sep + Join(strs[1..], sep)
  }

  /** A join holds the strings in order with one separator between each two
      neighbours and none before the first or after the last: it starts with
      the first string and a separator, ends with the last string, and is as
      long as the strings plus the separators. */
  lemma {:induction false} JoinShape(strs: seq<string>, sep: string)
    requires |strs| >= 1
    ensures StartsWith(Join(strs, sep), strs[0]) && EndsWith(Join(strs, sep), strs[|strs| - 1])
    ensures |strs| >= 2 ==> StartsWith(Join(strs, sep), strs[0] + sep)
    ensures |Join(strs, sep)| == Lengths(strs) + (|strs| - 1) * |sep|
    decreases |strs|
  {
    if |strs| >= 2 {
      var rest := Join(strs[1..], sep);
      JoinShape(strs[1..], sep);
      assert strs[1..][|strs[1..]| - 1] == strs[|strs| - 1];
      var r := strs[0] + sep + rest;
      assert r[..|strs[0] + sep|] == strs[0] + sep;
      assert r[..|strs[0]|] == strs[0];
      assert r[|r| - |strs[|strs| - 1]|..] == rest[|rest| - |strs[|strs| - 1]|..];
    }
  }

  /** Joining two non-empty lists puts one separator between their joins. */
  lemma {:induction false} JoinAppend(a: seq<string>, b: seq<string>, sep: string)
    requires |a| >= 1 && |b| >= 1
    ensures Join(a + b, sep) == Join(a, sep) + sep + Join(b, sep)
    decreases |a|
  {
    if |a| == 1 {
      assert (a + b)[1..] == b;
      assert (a + b)[0] == a[0];
    } else {
      assert (a + b)[1..] == a[1..] + b;
      assert (a + b)[0] == a[0];
      JoinAppend(a[1..], b, sep);
    }
  }

  /** The seconds part s of a summary that shows a larger unit: present
      only when it is not zero. */
  function SecondsSuffix(s: int): string
  {
    if s > 0 then ", " + Render(Part(s, Second)) else ""
  }

  /** `formatTime(seconds)` of the results summary: "s seconds" below a
      minute; "m minutes", then the seconds if any, below an hour; "h hours,
      m minutes", then the seconds if any, from one hour on. */
  function FormatDuration(seconds: int): (r: string)
    ensures 0 <= seconds < 60 ==> r == Render(Part(seconds, Second))
    ensures 60 <= seconds < 3600 ==> r == Render(Part(seconds / 60, Minute)) + SecondsSuffix(seconds % 60)
    ensures seconds >= 3600 ==>
      r == Render(Part(seconds / 3600, Hour)) + ", " + Render(Part(seconds % 3600 / 60, Minute))
           + SecondsSuffix(seconds % 60)
  {
    var parts := DurationParts(seconds);
    var r := Join(RenderAll(parts), ", ");
    if seconds >= 0 then
      PartsOf(seconds);
      var h, m, sec := seconds / 3600, seconds % 3600 / 60, seconds % 60;
      if seconds < 60 then
        assert h == 0 && m == 0 && sec == seconds;
        RenderedSecondsOnly(sec);
        r
      else if seconds < 3600 then
        assert h == 0 && m == seconds / 60 && m > 0;
        RenderedMinutes(m, sec);
        r
      else
        assert h > 0;
        RenderedHours(h, m, sec);
        r
    else r
  }

  /** The parts of a non-negative count of seconds, from its three shares. */
  lemma PartsOf(seconds: int)
    requires seconds >= 0
    ensures DurationParts(seconds) == PartList(seconds / 3600, seconds % 3600 / 60, seconds % 60)
  {
    TimePartsRecompose(seconds);
    assert HoursPart(seconds) == seconds / 3600;
    assert MinutesPart(seconds) == seconds % 3600 / 60;
    assert SecondsPart(seconds) == seconds % 60;
  }

  lemma RenderedSecondsOnly(s: int)
    ensures Join(RenderAll(PartList(0, 0, s)), ", ") == Render(Part(s, Second))
  {
    assert PartList(0, 0, s) == [Part(s, Second)];
    assert RenderAll([Part(s, Second)]) == [Render(Part(s, Second))];
  }

  lemma RenderedMinutes(m: int, s: int)
    requires m > 0
    ensures Join(RenderAll(PartList(0, m, s)), ", ") == Render(Part(m, Minute)) + SecondsSuffix(s)
  {
    var ms, ss := Render(Part(m, Minute)), Render(Part(s, Second));
    if s > 0 {
      assert PartList(0, m, s) == [Part(m, Minute), Part(s, Second)];
      RenderTwo(Part(m, Minute), Part(s, Second));
      JoinPair(ms, ss, ", ");
    } else {
      assert PartList(0, m, s) == [Part(m, Minute)];
      assert RenderAll([Part(m, Minute)]) == [ms];
    }
  }

  lemma RenderedHours(h: int, m: int, s: int)
    requires h > 0
    ensures Join(RenderAll(PartList(h, m, s)), ", ")
         == Render(Part(h, Hour)) + ", " + Render(Part(m, Minute)) + SecondsSuffix(s)
  {
    var hs, ms, ss := Render(Part(h, Hour)), Render(Part(m, Minute)), Render(Part(s, Second));
    if s > 0 {
      assert PartList(h, m, s) == [Part(h, Hour), Part(m, Minute), Part(s, Second)];
      RenderThree(Part(h, Hour), Part(m, Minute), Part(s, Second));
      JoinTriple(hs, ms, ss, ", ");
    } else {
      assert PartList(h, m, s) == [Part(h, Hour), Part(m, Minute)];
      RenderTwo(Part(h, Hour), Part(m, Minute));
      JoinPair(hs, ms, ", ");
    }
  }

  lemma RenderTwo(a: Part, b: Part)
    ensures RenderAll([a, b]) == [Render(a), Render(b)]
  {
    assert [a, b][1..] == [b];
  }

  lemma RenderThree(a: Part, b: Part, c: Part)
    ensures RenderAll([a, b, c]) == [Render(a), Render(b), Render(c)]
  {
    assert [a, b, c][1..] == [b, c];
    RenderTwo(b, c);
  }

  lemma JoinPair(a: string, b: string, sep: string)
    ensures Join([a, b], sep) == a + sep + b
  {
    assert [a, b][1..] == [b];
  }

  lemma JoinTriple(a: string, b: string, c: string, sep: string)
    ensures Join([a, b, c], sep) == a + sep + b + (sep + c)
  {
    assert [a, b, c][1..] == [b, c];
    JoinPair(b, c, sep);
  }

  /** No time at all reads "0 seconds". */
  lemma FormatDurationZero()
    ensures FormatDuration(0) == "0 seconds"
  {
    assert FormatDuration(0) == Render(Part(0, Second));
    ZeroSecondsRender();
  }

  lemma ZeroSecondsRender()
    ensures Render(Part(0, Second)) == "0 seconds"
  {
    assert NatToString(0) == "0";
  }

  /** A whole number of hours keeps its zero minutes but drops its zero
      seconds. */
  lemma FormatDurationWholeHours(h: int)
    requires h >= 1
    ensures FormatDuration(3600 * h) == Render(Part(h, Hour)) + ", " + "0 minutes"
  {
    var t := 3600 * h;
    assert t / 3600 == h && t % 3600 / 60 == 0 && t % 60 == 0;
    WholeMinutesFromHour(t);
    RenderZeroMinutes();
  }

  /** From an hour on, a count of whole minutes shows no seconds. */
  lemma WholeMinutesFromHour(t: int)
    requires t >= 3600 && t % 60 == 0
    ensures FormatDuration(t) == Render(Part(t / 3600, Hour)) + ", " + Render(Part(t % 3600 / 60, Minute))
  {
    assert SecondsSuffix(t % 60) == "";
  }

  lemma RenderZeroMinutes()
    ensures Render(Part(0, Minute)) == "0 minutes"
  {
    assert NatToString(0) == "0";
  }
}
