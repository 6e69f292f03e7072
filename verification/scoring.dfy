/**
 * Points, answer similarity and credit metering (the helpers of myapp/utils.py
 * and `award_points` in myapp/views.py).
 */
module Scoring {
  import opened Wrappers
  import opened Text

  /**
   * What `calculate_points` reads from an activity: its difficulty label, its
   * duration in minutes (a nullable column), and the number of questions when
   * the activity has a `questions` relation (practice tests only).
   */
  datatype Task = Task(difficulty: Option<string>, duration: Option<int>, questionCount: Option<nat>)

  /** `None * 1` raises a TypeError when a task has no duration. */
  datatype PointsError = MissingDuration

  const DifficultyTable: map<string, int> :=
    map["easy" := 10, "medium" := 20, "hard" := 30, "ultra-hard" := 50]

  /** `(task.difficulty or 'easy').lower()` */
  function DifficultyKey(difficulty: Option<string>): string {
    Lower(if difficulty.Some? && Truthy(difficulty.value) then difficulty.value else "easy")
  }

  function DifficultyPoints(difficulty: Option<string>): (r: int)
    ensures r == 10 || r == 20 || r == 30 || r == 50
    ensures DifficultyKey(difficulty) !in DifficultyTable ==> r == 10
    ensures DifficultyKey(difficulty) in DifficultyTable ==> r == DifficultyTable[DifficultyKey(difficulty)]
  {
    var key := DifficultyKey(difficulty);
    if key in DifficultyTable then DifficultyTable[key] else 10
  }

  /** The difficulty label is read case-insensitively. */
  lemma DifficultyIgnoresCase(difficulty: string)
    ensures DifficultyPoints(Some(difficulty)) == DifficultyPoints(Some(Lower(difficulty)))
  {
    LowerIdempotent(difficulty);
  }

  /** A non-empty label is worth what its lower-cased form is worth in the table, or 10. */
  lemma LabelPoints(name: string, key: string)
    requires name != [] && Lower(name) == key
    ensures DifficultyPoints(Some(name)) == if key in DifficultyTable then DifficultyTable[key] else 10
  {
  }

  /** The three labels above the default, in any case. */
  lemma KnownDifficulties()
    ensures DifficultyPoints(Some("Medium")) == 20
    ensures DifficultyPoints(Some("HARD")) == 30
    ensures DifficultyPoints(Some("Ultra-Hard")) == 50
  {
    LabelPoints("Medium", "medium");
    LabelPoints("HARD", "hard");
    LabelPoints("Ultra-Hard", "ultra-hard");
  }

  /** A missing or empty label counts as "easy", and a label outside the table is worth the same 10. */
  lemma DefaultDifficulty()
    ensures DifficultyPoints(None) == 10 && DifficultyPoints(Some("")) == 10
    ensures DifficultyPoints(Some("expert")) == 10
  {
    LowerOfLowercase("easy");
    LowerOfLowercase("expert");
    LabelPoints("expert", "expert");
  }

  /** One point per minute, clamped to [5, 100]. */
  function TimePoints(duration: int): (r: int)
    ensures 5 <= r <= 100
    ensures 5 <= duration <= 100 ==> r == duration
    ensures duration < 5 ==> r == 5
    ensures duration > 100 ==> r == 100
  {
    var t := if duration * 1 > 5 then duration * 1 else 5;
    if t < 100 then t else 100
  }

  /** Two points per question, at most 100; nothing without a `questions` relation. */
  function QuestionPoints(questionCount: Option<nat>): (r: int)
    ensures 0 <= r <= 100
    ensures questionCount.None? ==> r == 0
    ensures questionCount.Some? && questionCount.value <= 50 ==> r == 2 * questionCount.value
    ensures questionCount.Some? && questionCount.value >= 50 ==> r == 100
  {
    match questionCount
    case None => 0
    case Some(n) => if n * 2 < 100 then n * 2 else 100
  }

  /** `calculate_points(task, score)` */
  function CalculatePoints(task: Task, score: int): (r: Result<int, PointsError>)
    ensures score == 0 ==> r == Ok(0)
    ensures score != 0 ==> (r.Err? <==> task.duration.None?)
    ensures r.Ok? && score != 0 ==> score + 15 <= r.value <= score + 250
  {
    if score == 0 then Ok(0)
    else if task.duration.None? then Err(MissingDuration)
    else
      var total := DifficultyPoints(task.difficulty) + TimePoints(task.duration.value)
                   + score + QuestionPoints(task.questionCount);
      Ok(total)
  }

  /** The award is the sum of its four parts, and so rises point for point with the score. */
  lemma PointsDecompose(task: Task, score: int)
    requires score != 0 && task.duration.Some?
    ensures CalculatePoints(task, score)
         == Ok(DifficultyPoints(task.difficulty) + TimePoints(task.duration.value)
               + score + QuestionPoints(task.questionCount))
  {
  }

  lemma PointsTrackScore(task: Task, s1: int, s2: int)
    requires s1 != 0 && s2 != 0 && task.duration.Some?
    ensures CalculatePoints(task, s2).value - CalculatePoints(task, s1).value == s2 - s1
  {
  }

  /** `award_points`: the user's total grows by exactly the points returned. */
  function AwardPoints(userPoints: int, task: Task, score: int): (r: Result<(int, int), PointsError>)
    ensures r.Err? <==> CalculatePoints(task, score).Err?
    ensures r.Ok? ==> CalculatePoints(task, score) == Ok(r.value.1)
    ensures r.Ok? ==> r.value.0 == userPoints + r.value.1
  {
    match CalculatePoints(task, score)
    case Err(e) => Err(e)
    case Ok(points) => Ok((userPoints + points, points))
  }

  /** The range of `fuzz.ratio`, which the model takes as a parameter. */
  type Percent = x: int | 0 <= x <= 100

  /**
   * `is_similar_answer` returns a bare `False` when either answer is empty
   * (`NotCompared`), and a pair `(matched, similarity)` otherwise.
   */
  datatype Similarity = NotCompared | Compared(matched: bool, similarity: Percent)

  const DefaultThreshold: int := 80

  function IsSimilarAnswer(correct: string, given: string, threshold: int,
                           ratio: (string, string) -> Percent): (r: Similarity)
    ensures r.NotCompared? <==> (correct == [] || given == [])
    ensures r.Compared? ==> r.similarity == ratio(Strip(Lower(correct)), Strip(Lower(given)))
    ensures r.Compared? ==> (r.matched <==> r.similarity >= threshold)
  {
    if !Truthy(correct) || !Truthy(given) then NotCompared
    else
      var similarity := ratio(Strip(Lower(correct)), Strip(Lower(given)));
      Compared(similarity >= threshold, similarity)
  }

  /** Upper and lower case are interchangeable in both answers. */
  lemma SimilarityIgnoresCase(correct: string, given: string, threshold: int,
                              ratio: (string, string) -> Percent)
    ensures IsSimilarAnswer(Lower(correct), Lower(given), threshold, ratio)
         == IsSimilarAnswer(correct, given, threshold, ratio)
  {
    LowerIdempotent(correct);
    LowerIdempotent(given);
  }

  /** An answer that only whitespace separates from the expected one always matches when the ratio of equal strings is 100. */
  lemma PaddedAnswerMatches(correct: string, pad: string, threshold: int,
                            ratio: (string, string) -> Percent)
    requires correct != []
    requires forall i :: 0 <= i < |pad| ==> IsSpace(pad[i])
    requires ratio(Strip(Lower(correct)), Strip(Lower(correct))) == 100
    requires threshold <= 100
    ensures IsSimilarAnswer(correct, pad + correct, threshold, ratio) == Compared(true, 100)
  {
    var lc := Lower(correct);
    var lp := Lower(pad + correct);
    assert lp == pad + lc by {
      assert forall i :: 0 <= i < |pad| ==> LowerChar(pad[i]) == pad[i];
    }
    StripDropsLeadingWhitespace(pad, lc);
  }

  /** What `deduct_credits` reads from a usage report: `total_tokens`, when present. */
  datatype Usage = Usage(totalTokens: Option<int>)

  function TokensCharged(usage: Option<Usage>): int {
    match usage
    case None => 0
    case Some(u) => u.totalTokens.GetOr(0)
  }

  /** `deduct_credits`: the new balance; no usage leaves it as it was, and nothing stops it going negative. */
  function DeductCredits(balance: int, usage: Option<Usage>): (r: int)
    ensures usage.None? ==> r == balance
    ensures usage.Some? && usage.value.totalTokens.None? ==> r == balance
    ensures usage.Some? && usage.value.totalTokens.Some? ==> balance - r == usage.value.totalTokens.value
  {
    if usage.None? then balance else balance - usage.value.totalTokens.GetOr(0)
  }

  /** Successive deductions add up, with no floor at zero. */
  lemma DeductionsAccumulate(balance: int, u1: Option<Usage>, u2: Option<Usage>)
    ensures DeductCredits(DeductCredits(balance, u1), u2) == balance - TokensCharged(u1) - TokensCharged(u2)
    ensures TokensCharged(u1) > balance ==> DeductCredits(balance, u1) < 0
  {
  }
}
