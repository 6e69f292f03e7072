/**
 * Answer checking and scoring of practice tests, and reading the AI's essay
 * grade (`QuestionGrader`, `take_practice_test` and
 * `EssayGrader._parse_grading_response` in myapp/views.py).
 */
module Grading {
  import opened Wrappers
  import opened Text
  import opened Scoring
  import opened JsonValues
  import Arith

  datatype AnswerOption = AnswerOption(id: nat, isCorrect: bool)

  /** A stored question; `options` are listed in primary-key order. */
  datatype Question = Question(text: string, questionType: Option<string>,
                               answer: Option<string>, options: seq<AnswerOption>)

  datatype TypoWarning = TypoWarning(question: string, userAnswer: string,
                                     correctAnswer: string, similarity: Percent)

  /** `(is_correct, typo_warning)` */
  datatype Grade = Grade(correct: bool, typo: Option<TypoWarning>)

  /** Unpacking the bare `False` of `is_similar_answer` raises a TypeError. */
  datatype GradeError = UnpackBareFalse

  /** `x or ""` for a nullable text column. */
  function OrEmpty(s: Option<string>): string {
    if s.Some? then s.value else ""
  }

  /** `(question.question_type or "").lower()` */
  function NormalizedType(q: Question): string {
    Lower(OrEmpty(q.questionType))
  }

  predicate IsChoiceType(t: string) {
    t == "mcq" || t == "multiple choice"
  }

  predicate IsTrueFalseType(t: string) {
    t == "tf" || t == "true/false"
  }

  /** `question.options.filter(is_correct=True).first()` */
  function FirstCorrectOption(options: seq<AnswerOption>): (r: Option<AnswerOption>)
    ensures r.None? <==> forall i :: 0 <= i < |options| ==> !options[i].isCorrect
    ensures r.Some? ==> exists i :: 0 <= i < |options| && options[i] == r.value && r.value.isCorrect
                                  && forall j :: 0 <= j < i ==> !options[j].isCorrect
  {
    if |options| == 0 then None
    else if options[0].isCorrect then
      assert options[0] == options[0];
      Some(options[0])
    else
      var r := FirstCorrectOption(options[1..]);
      if r.Some? then
        var i :| 0 <= i < |options[1..]| && options[1..][i] == r.value && r.value.isCorrect
                 && forall j :: 0 <= j < i ==> !options[1..][j].isCorrect;
        assert options[i + 1] == r.value;
        assert forall j :: 0 <= j < i + 1 ==> !options[j].isCorrect by {
          forall j | 0 <= j < i + 1 ensures !options[j].isCorrect {
            if j > 0 { assert options[j] == options[1..][j - 1]; }
          }
        }
        r
      else r
  }

  /** `_grade_mcq`: the answer must be the id of the first correct option. */
  function GradeChoice(q: Question, given: string): (r: Grade)
    ensures r.typo.None?
    ensures r.correct ==> exists i :: 0 <= i < |q.options| && q.options[i].isCorrect
                                     && given == IntToString(q.options[i].id)
  {
    var correctOption := FirstCorrectOption(q.options);
    Grade(correctOption.Some? && given == IntToString(correctOption.value.id), None)
  }

  lemma GradeChoiceMeaning(q: Question, given: string)
    ensures GradeChoice(q, given).correct
        <==> exists i :: 0 <= i < |q.options| && q.options[i].isCorrect
                         && (forall j :: 0 <= j < i ==> !q.options[j].isCorrect)
                         && given == IntToString(q.options[i].id)
  {
    var c := FirstCorrectOption(q.options);
    if c.Some? {
      var i :| 0 <= i < |q.options| && q.options[i] == c.value && c.value.isCorrect
               && forall j :: 0 <= j < i ==> !q.options[j].isCorrect;
      forall k | 0 <= k < |q.options| && q.options[k].isCorrect
                 && (forall j :: 0 <= j < k ==> !q.options[j].isCorrect)
        ensures k == i
      {
      }
    }
  }

  /** `_grade_tf`: case-insensitive comparison with the stored answer. */
  function GradeTrueFalse(q: Question, given: string): (r: Grade)
    ensures r.typo.None?
    ensures given == OrEmpty(q.answer) ==> r.correct
  {
    Grade(Lower(given) == Lower(OrEmpty(q.answer)), None)
  }

  /** True/false answers are graded the same in any letter case. */
  lemma GradeTrueFalseIgnoresCase(q: Question, given: string)
    ensures GradeTrueFalse(q, Lower(given)) == GradeTrueFalse(q, given)
    ensures GradeTrueFalse(q.(answer := Some(Lower(OrEmpty(q.answer)))), given) == GradeTrueFalse(q, given)
  {
    LowerIdempotent(given);
    LowerIdempotent(OrEmpty(q.answer));
  }

  /** `_grade_text` as written: the bare `False` for an empty answer cannot be unpacked. */
  function GradeTextAsWritten(q: Question, given: string, ratio: (string, string) -> Percent)
    : (r: Result<Grade, GradeError>)
    ensures r.Err? <==> Truthy(OrEmpty(q.answer)) && given == []
    ensures r.Err? ==> r.error == UnpackBareFalse
    ensures r.Ok? ==> r.value == GradeText(q, given, ratio)
  {
    if !Truthy(OrEmpty(q.answer)) then Ok(Grade(false, None))
    else
      match IsSimilarAnswer(q.answer.value, given, DefaultThreshold, ratio)
      case NotCompared => Err(UnpackBareFalse)
      case Compared(matched, similarity) =>
        Ok(Grade(matched, if matched && similarity < 100
                          then Some(TypoWarning(q.text, given, q.answer.value, similarity))
                          else None))
  }

  /** `_grade_text` with an empty answer graded as wrong instead of raising. */
  function GradeText(q: Question, given: string, ratio: (string, string) -> Percent): (r: Grade)
    ensures !Truthy(OrEmpty(q.answer)) || given == [] ==> r == Grade(false, None)
    ensures r.typo.Some? ==> r.correct && r.typo.value.similarity < 100
                             && r.typo.value.userAnswer == given && r.typo.value.question == q.text
  {
    if !Truthy(OrEmpty(q.answer)) then Grade(false, None)
    else
      match IsSimilarAnswer(q.answer.value, given, DefaultThreshold, ratio)
      case NotCompared => Grade(false, None)
      case Compared(matched, similarity) =>
        Grade(matched, if matched && similarity < 100
                       then Some(TypoWarning(q.text, given, q.answer.value, similarity))
                       else None)
  }

  /** `QuestionGrader.grade_question` as written. */
  function GradeQuestionAsWritten(q: Question, answer: string, ratio: (string, string) -> Percent)
    : (r: Result<Grade, GradeError>)
    ensures r.Err? ==> NormalizedType(q) == "text" && Truthy(OrEmpty(q.answer)) && r.error == UnpackBareFalse
    ensures r.Ok? ==> (r.value.typo.Some? ==> r.value.correct)
  {
    var t := NormalizedType(q);
    var given := Strip(answer);
    if IsChoiceType(t) then Ok(GradeChoice(q, given))
    else if IsTrueFalseType(t) then Ok(GradeTrueFalse(q, given))
    else if t == "text" then GradeTextAsWritten(q, given, ratio)
    else Ok(Grade(false, None))
  }

  /** `QuestionGrader.grade_question`, with a blank text answer graded as wrong. */
  function GradeQuestion(q: Question, answer: string, ratio: (string, string) -> Percent): (r: Grade)
    ensures r.typo.Some? ==> r.correct
  {
    var t := NormalizedType(q);
    var given := Strip(answer);
    if IsChoiceType(t) then GradeChoice(q, given)
    else if IsTrueFalseType(t) then GradeTrueFalse(q, given)
    else if t == "text" then GradeText(q, given, ratio)
    else Grade(false, None)
  }

  /** What each question type accepts as a correct answer, and when a typo warning is given. */
  lemma GradeQuestionMeaning(q: Question, answer: string, ratio: (string, string) -> Percent)
    ensures var t := NormalizedType(q);
            !IsChoiceType(t) && !IsTrueFalseType(t) && t != "text" ==> GradeQuestion(q, answer, ratio) == Grade(false, None)
    ensures IsChoiceType(NormalizedType(q)) ==>
              var r := GradeQuestion(q, answer, ratio);
              r.typo.None?
              && (r.correct <==> exists i :: 0 <= i < |q.options| && q.options[i].isCorrect
                                  && (forall j :: 0 <= j < i ==> !q.options[j].isCorrect)
                                  && Strip(answer) == IntToString(q.options[i].id))
    ensures IsTrueFalseType(NormalizedType(q)) ==>
              var r := GradeQuestion(q, answer, ratio);
              r.typo.None? && (r.correct <==> Lower(Strip(answer)) == Lower(OrEmpty(q.answer)))
    ensures NormalizedType(q) == "text" && !Truthy(OrEmpty(q.answer)) ==>
              GradeQuestion(q, answer, ratio) == Grade(false, None)
    ensures NormalizedType(q) == "text" && Strip(answer) == [] ==>
              GradeQuestion(q, answer, ratio) == Grade(false, None)
    ensures NormalizedType(q) == "text" && Truthy(OrEmpty(q.answer)) && Strip(answer) != [] ==>
              var r := GradeQuestion(q, answer, ratio);
              var s := IsSimilarAnswer(q.answer.value, Strip(answer), DefaultThreshold, ratio);
              r.correct == s.matched
              && (r.typo.Some? <==> s.matched && s.similarity < 100)
              && (r.typo.Some? ==> r.typo.value.similarity == s.similarity)
  {
    GradeChoiceMeaning(q, Strip(answer));
  }

  /** The code as written and the corrected grading differ exactly on a blank answer to a text question that has a stored answer. */
  lemma GradeAsWrittenFailsOnlyOnBlankText(q: Question, answer: string, ratio: (string, string) -> Percent)
    ensures GradeQuestionAsWritten(q, answer, ratio)
         == if NormalizedType(q) == "text" && Truthy(OrEmpty(q.answer)) && Strip(answer) == []
            then Err(UnpackBareFalse)
            else Ok(GradeQuestion(q, answer, ratio))
  {
  }

  /** A whitespace-only answer passes the view's emptiness test and then makes `grade_question` raise. */
  lemma BlankTextAnswerRaises(ratio: (string, string) -> Percent)
    ensures var q := Question("Capital of France?", Some("text"), Some("Paris"), []);
            Truthy(" ")
            && GradeQuestionAsWritten(q, " ", ratio) == Err(UnpackBareFalse)
            && GradeQuestion(q, " ", ratio) == Grade(false, None)
  {
    var q := Question("Capital of France?", Some("text"), Some("Paris"), []);
    LowerOfLowercase("text");
    assert NormalizedType(q) == "text";
    assert Strip(" ") == [];
  }

  /** `request.POST.get(...)` is falsy when the field is missing or empty. */
  predicate Answered(answers: map<nat, string>, i: nat) {
    i in answers && Truthy(answers[i])
  }

  /** How question `i` of a submission is graded: an unanswered question is wrong. */
  function GradeAt(questions: seq<Question>, answers: map<nat, string>,
                   ratio: (string, string) -> Percent, i: nat): (g: Grade)
    requires i < |questions|
    ensures g.typo.Some? ==> g.correct
    ensures !Answered(answers, i) ==> g == Grade(false, None)
  {
    if Answered(answers, i) then GradeQuestion(questions[i], answers[i], ratio) else Grade(false, None)
  }

  /** Reference count of the questions answered correctly among the first `n`. */
  function CorrectCount(questions: seq<Question>, answers: map<nat, string>,
                        ratio: (string, string) -> Percent, n: nat): (c: nat)
    requires n <= |questions|
    ensures c <= n
  {
    if n == 0 then 0
    else CorrectCount(questions, answers, ratio, n - 1)
         + (if GradeAt(questions, answers, ratio, n - 1).correct then 1 else 0)
  }

  /** `round(n / d)` with Python's ties-to-even rule, for exact rationals. */
  function RoundHalfEven(n: nat, d: nat): (r: nat)
    requires d > 0
    ensures 2 * (r * d - n) <= d && 2 * (n - r * d) <= d
    ensures 2 * (r * d - n) == d || 2 * (n - r * d) == d ==> r % 2 == 0
  {
    var q := n / d;
    var rem := n % d;
    Arith.DivideAndStep(n, d);
    if 2 * rem < d then q
    else if 2 * rem > d then q + 1
    else if q % 2 == 0 then q
    else q + 1
  }

  /** The percentage score `round(correct / total * 100)`, 0 for an empty test. */
  function PracticeScore(correct: nat, total: nat): (r: int)
    requires correct <= total
    ensures 0 <= r <= 100
    ensures total == 0 ==> r == 0
    ensures total > 0 ==> 2 * (r * total - 100 * correct) <= total
                          && 2 * (100 * correct - r * total) <= total
    ensures total > 0 && (2 * (r * total - 100 * correct) == total || 2 * (100 * correct - r * total) == total)
            ==> r % 2 == 0
  {
    if total == 0 then 0
    else
      var r := RoundHalfEven(100 * correct, total);
      assert r <= 100 by {
        if r > 100 {
          Arith.MulMonotone(101, r, total);
        }
      }
      r
  }

  /** For tests of fewer than 200 questions, full marks means every answer was right. */
  lemma FullMarksExactly(correct: nat, total: nat)
    requires correct <= total && 0 < total < 200
    ensures PracticeScore(correct, total) == 100 <==> correct == total
  {
    var r := PracticeScore(correct, total);
    if correct == total {
      if r < 100 {
        Arith.MulMonotone(r, 99, total);
        assert false;
      }
    } else {
      assert 200 * (total - correct) >= 200;
    }
  }

  /** At 200 questions the bounds above are tight: 199 and 1 correct are exact ties that round to even. */
  lemma TiesAtTwoHundred()
    ensures PracticeScore(199, 200) == 100
    ensures PracticeScore(1, 200) == 0
  {
  }

  /** For tests of fewer than 200 questions, a zero score means no answer was right. */
  lemma ZeroScoreExactly(correct: nat, total: nat)
    requires correct <= total && 0 < total < 200
    ensures PracticeScore(correct, total) == 0 <==> correct == 0
  {
    var r := PracticeScore(correct, total);
    if correct == 0 {
      if r > 0 {
        Arith.MulMonotone(1, r, total);
        assert false;
      }
    }
  }

  datatype TestOutcome = TestOutcome(score: int, correct: nat, total: nat, typos: seq<TypoWarning>)

  /**
   * The POST branch of `take_practice_test`, with a blank text answer graded
   * as wrong: grade every question, compute the score and award points to the
   * user (`answers[i]` is the field posted for question `i`).
   */
  method TakePracticeTest(test: Task, questions: seq<Question>, answers: map<nat, string>,
                          ratio: (string, string) -> Percent, userPoints: int)
    returns (outcome: TestOutcome, award: Result<(int, int), PointsError>)
    ensures outcome.total == |questions|
    ensures outcome.correct == CorrectCount(questions, answers, ratio, |questions|)
    ensures outcome.score == PracticeScore(outcome.correct, outcome.total)
    ensures 0 <= outcome.score <= 100
    ensures |outcome.typos| <= outcome.correct
    ensures award == AwardPoints(userPoints, test.(questionCount := Some(|questions|)), outcome.score)
  {
    var correct: nat := 0;
    var typos: seq<TypoWarning> := [];
    var i := 0;
    while i < |questions|
      invariant 0 <= i <= |questions|
      invariant correct == CorrectCount(questions, answers, ratio, i)
      invariant |typos| <= correct
    {
      var grade := GradeAt(questions, answers, ratio, i);
      if grade.correct {
        correct := correct + 1;
      }
      if grade.typo.Some? {
        typos := typos + [grade.typo.value];
      }
      i := i + 1;
    }
    var score := PracticeScore(correct, |questions|);
    outcome := TestOutcome(score, correct, |questions|, typos);
    award := AwardPoints(userPoints, test.(questionCount := Some(|questions|)), score);
  }

  /** Question `i` of a submission is a blank answer that makes `grade_question` as written raise. */
  predicate BlankTextAt(questions: seq<Question>, answers: map<nat, string>, i: nat)
    requires i < |questions|
  {
    Answered(answers, i) && NormalizedType(questions[i]) == "text"
    && Truthy(OrEmpty(questions[i].answer)) && Strip(answers[i]) == []
  }

  /** How question `i` of a submission is graded by the code as written. */
  function GradeAtAsWritten(questions: seq<Question>, answers: map<nat, string>,
                            ratio: (string, string) -> Percent, i: nat): (r: Result<Grade, GradeError>)
    requires i < |questions|
    ensures r.Err? <==> BlankTextAt(questions, answers, i)
    ensures r.Ok? ==> r.value == GradeAt(questions, answers, ratio, i)
  {
    if Answered(answers, i) then GradeQuestionAsWritten(questions[i], answers[i], ratio)
    else Ok(Grade(false, None))
  }

  /**
   * The POST branch of `take_practice_test` as written: the first blank
   * answer to a text question raises out of the view, and nothing is awarded.
   * Otherwise it agrees with `TakePracticeTest`.
   */
  method TakePracticeTestAsWritten(test: Task, questions: seq<Question>, answers: map<nat, string>,
                                   ratio: (string, string) -> Percent, userPoints: int)
    returns (r: Result<(TestOutcome, Result<(int, int), PointsError>), GradeError>)
    ensures r.Err? <==> exists i :: 0 <= i < |questions| && BlankTextAt(questions, answers, i)
    ensures r.Err? ==> r.error == UnpackBareFalse
    ensures r.Ok? ==> r.value.0.total == |questions|
                      && r.value.0.correct == CorrectCount(questions, answers, ratio, |questions|)
                      && r.value.0.score == PracticeScore(r.value.0.correct, r.value.0.total)
                      && |r.value.0.typos| <= r.value.0.correct
    ensures r.Ok? ==> r.value.1 == AwardPoints(userPoints, test.(questionCount := Some(|questions|)), r.value.0.score)
  {
    var correct: nat := 0;
    var typos: seq<TypoWarning> := [];
    var i := 0;
    while i < |questions|
      invariant 0 <= i <= |questions|
      invariant correct == CorrectCount(questions, answers, ratio, i)
      invariant |typos| <= correct
      invariant forall j :: 0 <= j < i ==> !BlankTextAt(questions, answers, j)
    {
      var graded := GradeAtAsWritten(questions, answers, ratio, i);
      if graded.Err? {
        return Err(graded.error);
      }
      var grade := graded.value;
      assert grade == GradeAt(questions, answers, ratio, i) && !BlankTextAt(questions, answers, i);
      if grade.correct {
        correct := correct + 1;
      }
      if grade.typo.Some? {
        typos := typos + [grade.typo.value];
      }
      i := i + 1;
    }
    var score := PracticeScore(correct, |questions|);
    var award := AwardPoints(userPoints, test.(questionCount := Some(|questions|)), score);
    r := Ok((TestOutcome(score, correct, |questions|, typos), award));
  }

  /** A test submitted with no answers scores 0. */
  lemma {:induction false} UnansweredCountsAsWrong(questions: seq<Question>, ratio: (string, string) -> Percent, n: nat)
    requires n <= |questions|
    ensures CorrectCount(questions, map[], ratio, n) == 0
  {
    if n > 0 {
      UnansweredCountsAsWrong(questions, ratio, n - 1);
    }
  }

  /** The text of the essay grade's feedback: `str(value)`, rendered here for strings, integers, booleans and null. */
  datatype Feedback = Text(s: string) | Rendering(value: Json)

  const FallbackFeedback: string := "AI failed to provide feedback."

  /** `str(v)` */
  function StrOf(v: Json): (r: Feedback)
    ensures v.JString? ==> r == Text(v.s)
    ensures r.Rendering? ==> r.value == v
  {
    match v
    case JString(s) => Text(s)
    case JInt(i) => Text(IntToString(i))
    case JBool(b) => Text(if b then "True" else "False")
    case JNull => Text("None")
    case _ => Rendering(v)
  }

  /**
   * What `ai_chat_response` hands `EssayGrader`: the reply text, with the
   * value `json.loads` decodes from it (None when it raises), or the error
   * tuple the helper returns when the API call fails.
   */
  datatype AiReply = Reply(decoded: Option<Json>) | FailedCall

  /** `EssayGrader._parse_grading_response` */
  function ParseGradingResponse(reply: AiReply): (r: (int, Feedback))
    ensures !(reply.Reply? && reply.decoded.Some? && reply.decoded.value.JObject?) ==> r == (0, Text(FallbackFeedback))
    ensures reply.Reply? && reply.decoded.Some? && reply.decoded.value.JObject? ==>
              var fields := reply.decoded.value.fields;
              match IntOf(Get(fields, "score", JInt(0)))
              case Err(_) => r == (0, Text(FallbackFeedback))
              case Ok(n) => r == (n, StrOf(Get(fields, "feedback", JString(""))))
  {
    if reply.FailedCall? || reply.decoded.None? then (0, Text(FallbackFeedback))
    else match reply.decoded.value
      case JObject(fields) =>
        (match IntOf(Get(fields, "score", JInt(0)))
         case Err(_) => (0, Text(FallbackFeedback))
         case Ok(n) => (n, StrOf(Get(fields, "feedback", JString("")))))
      case _ => (0, Text(FallbackFeedback))
  }

  /** A well-formed grade object is read back exactly; the score is not clamped to 0..100. */
  lemma GradeObjectRoundTrip(score: int, feedback: string)
    ensures ParseGradingResponse(Reply(Some(JObject([("score", JInt(score)), ("feedback", JString(feedback))]))))
         == (score, Text(feedback))
  {
    var fields := [("score", JInt(score)), ("feedback", JString(feedback))];
    assert "feedback" != "score" by { assert "feedback"[0] != "score"[0]; }
    assert fields[..|fields| - 1] == [("score", JInt(score))];
    assert Lookup(fields, "score") == Lookup([("score", JInt(score))], "score");
    assert Get(fields, "score", JInt(0)) == JInt(score);
    assert Get(fields, "feedback", JString("")) == JString(feedback);
  }

  /** A score sent as a numeric string is converted with `int()`. */
  lemma GradeObjectNumericString(score: int)
    ensures ParseGradingResponse(Reply(Some(JObject([("score", JString(IntToString(score)))]))))
         == (score, Text(""))
  {
    var fields := [("score", JString(IntToString(score)))];
    assert Get(fields, "score", JInt(0)) == JString(IntToString(score));
    IntOfRendering(score);
  }

  /** Without a "score" member the score is 0 but the feedback is still read. */
  lemma MissingScoreIsZero(feedback: string)
    ensures ParseGradingResponse(Reply(Some(JObject([("feedback", JString(feedback))])))) == (0, Text(feedback))
  {
  }
}
