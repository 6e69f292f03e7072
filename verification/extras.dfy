/**
 * The achievements page (level, unlock predicate, progress toward the next
 * level) and the chatbot's credit gate.
 */
module Extras {
  import Text
  import Arith

  const PointsPerLevel: nat := 1000

  /** `math.floor(points / 1000)`. */
  function Level(points: int): (level: int)
    ensures level * PointsPerLevel <= points < (level + 1) * PointsPerLevel
    ensures points >= 0 ==> level >= 0
  {
    points / PointsPerLevel
  }

  /** An achievement is unlocked by reaching its level or by having earned it before. */
  predicate Unlocked(points: int, requiredLevel: int, earned: bool) {
    Level(points) >= requiredLevel || earned
  }

  /** More points never mean a lower level. */
  lemma LevelMonotone(p: int, q: int)
    requires p <= q
    ensures Level(p) <= Level(q)
  {
    Arith.FactorBelow(Level(p), Level(q) + 1, PointsPerLevel);
  }

  /** Once unlocked, an achievement stays unlocked as points grow. */
  lemma UnlockedStaysUnlocked(p: int, q: int, requiredLevel: int, earned: bool)
    requires p <= q && Unlocked(p, requiredLevel, earned)
    ensures Unlocked(q, requiredLevel, earned)
  {
    LevelMonotone(p, q);
  }

  /** An achievement is `(id, required level)`; the result says, in order, which are unlocked. */
  function AnnotateAchievements(achievements: seq<(nat, int)>, earnedIds: set<nat>, points: int): (r: seq<bool>)
    ensures |r| == |achievements|
    ensures forall i :: 0 <= i < |r| ==>
              (r[i] <==> Level(points) >= achievements[i].1 || achievements[i].0 in earnedIds)
  {
    seq(|achievements|, i requires 0 <= i < |achievements| =>
      Unlocked(points, achievements[i].1, achievements[i].0 in earnedIds))
  }

  /** `(points % 1000) / 1000 * 100`: how far into the current level, as a percentage. */
  function LevelProgress(points: int): (p: real)
    ensures 0.0 <= p < 100.0
    ensures p == (points - Level(points) * PointsPerLevel) as real / 10.0
  {
    (points % PointsPerLevel) as real / PointsPerLevel as real * 100.0
  }

  /** Progress restarts at each level boundary: the points of a whole level add nothing to it. */
  lemma LevelProgressPeriodic(points: int)
    ensures LevelProgress(points + PointsPerLevel) == LevelProgress(points)
    ensures Level(points + PointsPerLevel) == Level(points) + 1
  {
    var l := Level(points);
    assert points + PointsPerLevel == (l + 1) * PointsPerLevel + (points - l * PointsPerLevel);
  }

  // ---------------------------------------------------------------------
  // Chatbot gate

  const ChatbotMinimumCredits: int := 1000

  datatype ChatOutcome =
    | NotEnoughCredits
    | AskAssistant(prompt: string)
    | ShowPage

  /**
   * `chatbot`: fewer than 1000 credits is an error and nothing else happens;
   * otherwise a POST with a non-blank prompt (absent counts as "") is sent,
   * stripped, to the assistant.
   */
  function Chatbot(credits: int, isPost: bool, prompt: string): (r: ChatOutcome)
    ensures credits < ChatbotMinimumCredits <==> r == NotEnoughCredits
    ensures r.AskAssistant? <==> credits >= ChatbotMinimumCredits && isPost && Text.Strip(prompt) != []
    ensures r.AskAssistant? ==> r.prompt == Text.Strip(prompt)
    ensures r.AskAssistant? ==> !Text.IsSpace(r.prompt[0]) && !Text.IsSpace(r.prompt[|r.prompt| - 1])
  {
    if credits < ChatbotMinimumCredits then NotEnoughCredits
    else if isPost && Text.Truthy(Text.Strip(prompt)) then AskAssistant(Text.Strip(prompt))
    else ShowPage
  }

  /** A whitespace-only prompt never reaches the assistant. */
  lemma BlankPromptNotSent(credits: int, prompt: string)
    requires forall i :: 0 <= i < |prompt| ==> Text.IsSpace(prompt[i])
    ensures !Chatbot(credits, true, prompt).AskAssistant?
  {
  }
}
