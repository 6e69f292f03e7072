/**
 * The progress page's summaries: the practice-score histogram and its
 * aggregates, the writing-length aggregates, the flashcard counters and the
 * date of the most recent activity.
 *
 * Practice scores are whole numbers (the only writer stores the rounded
 * percentage), so they are modelled as integers; timestamps are integers too.
 */
module Progress {
  import opened Wrappers
  import Arith

  // ---------------------------------------------------------------------
  // Aggregates

  /** `Max(...)` over a non-empty column. */
  function MaxOf(xs: seq<int>): (m: int)
    requires |xs| > 0
    ensures m in xs
    ensures forall i :: 0 <= i < |xs| ==> xs[i] <= m
  {
    if |xs| == 1 then xs[0]
    else
      var rest := MaxOf(xs[1..]);
      assert forall i :: 1 <= i < |xs| ==> xs[i] == xs[1..][i - 1];
      if xs[0] >= rest then xs[0] else rest
  }

  /** `Min(...)` over a non-empty column. */
  function MinOf(xs: seq<int>): (m: int)
    requires |xs| > 0
    ensures m in xs
    ensures forall i :: 0 <= i < |xs| ==> m <= xs[i]
  {
    if |xs| == 1 then xs[0]
    else
      var rest := MinOf(xs[1..]);
      assert forall i :: 1 <= i < |xs| ==> xs[i] == xs[1..][i - 1];
      if xs[0] <= rest then xs[0] else rest
  }

  function Sum(xs: seq<int>): int {
    if |xs| == 0 then 0 else Sum(xs[..|xs| - 1]) + xs[|xs| - 1]
  }

  /** `agg['highest'] or 0`: the aggregate is None over no rows. */
  function Highest(xs: seq<int>): (r: int)
    ensures xs == [] ==> r == 0
    ensures xs != [] ==> r in xs && forall i :: 0 <= i < |xs| ==> xs[i] <= r
  {
    if xs == [] then 0 else MaxOf(xs)
  }

  function Lowest(xs: seq<int>): (r: int)
    ensures xs == [] ==> r == 0
    ensures xs != [] ==> r in xs && forall i :: 0 <= i < |xs| ==> r <= xs[i]
  {
    if xs == [] then 0 else MinOf(xs)
  }

  // ---------------------------------------------------------------------
  // Score distribution

  const BinCount: nat := 10

  /**
   * The list position `bins[min(score // 10, 9)]` refers to: Python's floor
   * division, then negative positions counted from the end; None where the
   * index is out of range and the loop raises `IndexError`.
   */
  function BinOf(score: int): (b: Option<nat>)
    ensures b.Some? ==> b.value < BinCount
    ensures score >= 0 ==> b == Some(if score / 10 < 9 then score / 10 else 9)
    ensures b.None? <==> score < -100
  {
    var index := if score / 10 < 9 then score / 10 else 9;
    if index >= 0 then Some(index)
    else if index >= -(BinCount as int) then Some(BinCount as int + index)
    else None
  }

  /** How many of `scores` fall into bin `b`: the reference the histogram is checked against. */
  function CountIn(scores: seq<int>, b: nat): (n: nat)
    ensures n <= |scores|
  {
    if |scores| == 0 then 0
    else CountIn(scores[..|scores| - 1], b) + (if BinOf(scores[|scores| - 1]) == Some(b) then 1 else 0)
  }

  /** Every score lands in some bin. */
  predicate AllBinned(scores: seq<int>) {
    forall i :: 0 <= i < |scores| ==> BinOf(scores[i]).Some?
  }

  /** The histogram of `practice_summary`: ten counters, one increment per result. */
  method Distribution(scores: seq<int>) returns (r: Result<seq<nat>, nat>)
    ensures r.Ok? <==> AllBinned(scores)
    ensures r.Ok? ==> |r.value| == BinCount && forall b :: 0 <= b < BinCount ==> r.value[b] == CountIn(scores, b)
    ensures r.Err? ==> r.error < |scores| && BinOf(scores[r.error]).None?
  {
    var bins: seq<nat> := seq(BinCount, _ => 0);
    var i := 0;
    while i < |scores|
      invariant 0 <= i <= |scores|
      invariant |bins| == BinCount
      invariant AllBinned(scores[..i])
      invariant forall b :: 0 <= b < BinCount ==> bins[b] == CountIn(scores[..i], b)
    {
      var slot := BinOf(scores[i]);
      if slot.None? {
        assert !AllBinned(scores);
        return Err(i);
      }
      assert scores[..i + 1][..i] == scores[..i];
      bins := bins[slot.value := bins[slot.value] + 1];
      i := i + 1;
    }
    assert scores[..i] == scores;
    return Ok(bins);
  }

  /** The total of a histogram's counters. */
  function SumBins(bins: seq<nat>, upTo: nat): nat
    requires upTo <= |bins|
  {
    if upTo == 0 then 0 else SumBins(bins, upTo - 1) + bins[upTo - 1]
  }

  function TotalOver(scores: seq<int>, upTo: nat): nat {
    if upTo == 0 then 0 else TotalOver(scores, upTo - 1) + CountIn(scores, upTo - 1)
  }

  /** Adding one score adds one to the total over all bins, exactly when it has a bin. */
  lemma {:induction false} TotalOverStep(scores: seq<int>, s: int, upTo: nat)
    requires upTo <= BinCount
    ensures TotalOver(scores + [s], upTo)
            == TotalOver(scores, upTo) + (if BinOf(s).Some? && BinOf(s).value < upTo then 1 else 0)
  {
    var t := scores + [s];
    assert t[..|t| - 1] == scores;
    if upTo > 0 {
      TotalOverStep(scores, s, upTo - 1);
    }
  }

  /** The bins add up to the number of practice results. */
  lemma {:induction false} BinsSumToCount(scores: seq<int>)
    requires AllBinned(scores)
    ensures TotalOver(scores, BinCount) == |scores|
  {
    if |scores| > 0 {
      var init := scores[..|scores| - 1];
      assert scores == init + [scores[|scores| - 1]];
      assert AllBinned(init) by {
        forall i | 0 <= i < |init| ensures BinOf(init[i]).Some? {
          assert init[i] == scores[i];
        }
      }
      BinsSumToCount(init);
      TotalOverStep(init, scores[|scores| - 1], BinCount);
    } else {
      TotalOverEmpty(BinCount);
    }
  }

  lemma {:induction false} TotalOverEmpty(upTo: nat)
    ensures TotalOver([], upTo) == 0
  {
    if upTo > 0 {
      TotalOverEmpty(upTo - 1);
    }
  }

  /** The histogram the method returns adds up to the number of results. */
  lemma HistogramTotal(scores: seq<int>, bins: seq<nat>)
    requires AllBinned(scores)
    requires |bins| == BinCount && forall b :: 0 <= b < BinCount ==> bins[b] == CountIn(scores, b)
    ensures SumBins(bins, BinCount) == |scores|
  {
    BinsSumToCount(scores);
    SumBinsMatches(scores, bins, BinCount);
  }

  lemma {:induction false} SumBinsMatches(scores: seq<int>, bins: seq<nat>, upTo: nat)
    requires upTo <= |bins| == BinCount
    requires forall b :: 0 <= b < BinCount ==> bins[b] == CountIn(scores, b)
    ensures SumBins(bins, upTo) == TotalOver(scores, upTo)
  {
    if upTo > 0 {
      SumBinsMatches(scores, bins, upTo - 1);
    }
  }

  /** A perfect score shares the top bin with the nineties. */
  lemma PerfectScoreInTopBin()
    ensures BinOf(100) == Some(9) && BinOf(95) == Some(9) && BinOf(89) == Some(8) && BinOf(0) == Some(0)
  {
  }

  /** `practice_summary` without the average: count, highest and lowest with their zero defaults. */
  datatype PracticeSummary = PracticeSummary(total: nat, highest: int, lowest: int)

  function SummarizePractice(scores: seq<int>): (r: PracticeSummary)
    ensures r.total == |scores|
    ensures scores == [] ==> r == PracticeSummary(0, 0, 0)
    ensures scores != [] ==> r.highest in scores && r.lowest in scores
    ensures forall i :: 0 <= i < |scores| ==> r.lowest <= scores[i] <= r.highest
  {
    PracticeSummary(|scores|, Highest(scores), Lowest(scores))
  }

  /** `writing_summary`: content lengths' count, truncated average, maximum and minimum, all 0 without rows. */
  datatype WritingSummary = WritingSummary(total: nat, averageLength: nat, maxLength: nat, minLength: nat)

  function SummarizeWriting(lengths: seq<nat>): (r: WritingSummary)
    ensures r.total == |lengths|
    ensures lengths == [] ==> r == WritingSummary(0, 0, 0, 0)
    ensures lengths != [] ==> r.minLength <= r.averageLength <= r.maxLength
    ensures lengths != [] ==> r.maxLength in lengths && r.minLength in lengths
    ensures forall i :: 0 <= i < |lengths| ==> r.minLength <= lengths[i] <= r.maxLength
    ensures lengths != [] ==> r.averageLength * |lengths| <= Sum(Ints(lengths)) < (r.averageLength + 1) * |lengths|
  {
    if lengths == [] then WritingSummary(0, 0, 0, 0)
    else
      var xs := Ints(lengths);
      var hi := MaxOf(xs);
      var lo := MinOf(xs);
      ExtremesPresent(lengths, hi, lo);
      SumBounds(xs, lo, hi);
      var avg := Arith.TruncatedMean(Sum(xs), |xs|, lo, hi);
      WritingSummary(|lengths|, avg, hi, lo)
  }

  /** The extremes of the integer copy are lengths themselves. */
  lemma ExtremesPresent(lengths: seq<nat>, hi: int, lo: int)
    requires hi in Ints(lengths) && lo in Ints(lengths)
    ensures hi in lengths && lo in lengths
  {
    var xs := Ints(lengths);
    var k :| 0 <= k < |xs| && xs[k] == hi;
    var l :| 0 <= l < |xs| && xs[l] == lo;
    assert lengths[k] == hi && lengths[l] == lo;
  }

  /** The lengths as integers, for the aggregates. */
  function Ints(lengths: seq<nat>): (xs: seq<int>)
    ensures |xs| == |lengths|
    ensures forall i :: 0 <= i < |lengths| ==> xs[i] == lengths[i]
  {
    seq(|lengths|, i requires 0 <= i < |lengths| => lengths[i] as int)
  }

  lemma {:induction false} SumBounds(xs: seq<int>, lo: int, hi: int)
    requires forall i :: 0 <= i < |xs| ==> lo <= xs[i] <= hi
    ensures |xs| * lo <= Sum(xs) <= |xs| * hi
  {
    if |xs| > 0 {
      var init := xs[..|xs| - 1];
      assert forall i :: 0 <= i < |init| ==> init[i] == xs[i];
      SumBounds(init, lo, hi);
    }
  }

  // ---------------------------------------------------------------------
  // Flashcard summary

  /** One `FlashcardSetProgress` row with the size of its set. */
  datatype SetProgress = SetProgress(known: int, completed: bool, totalCards: nat)

  function CountCompleted(rows: seq<SetProgress>): (n: nat)
    ensures n <= |rows|
  {
    if |rows| == 0 then 0
    else CountCompleted(rows[..|rows| - 1]) + (if rows[|rows| - 1].completed then 1 else 0)
  }

  /** The share of known cards, before rounding; 0 for a set with no cards. */
  function KnownPercent(row: SetProgress): (p: real)
    ensures row.totalCards == 0 ==> p == 0.0
    ensures row.totalCards > 0 && 0 <= row.known <= row.totalCards ==> 0.0 <= p <= 100.0
  {
    if row.totalCards == 0 then 0.0
    else row.known as real / row.totalCards as real * 100.0
  }

  /** A set whose every card is known shows 100%, and one with none known shows 0%. */
  lemma KnownPercentExtremes(row: SetProgress)
    requires row.totalCards > 0
    ensures row.known == row.totalCards ==> KnownPercent(row) == 100.0
    ensures row.known == 0 ==> KnownPercent(row) == 0.0
  {
  }

  /** For a fixed number of cards, knowing more cards never shows a lower percentage. */
  lemma KnownPercentMonotone(row: SetProgress, known: int)
    requires row.known <= known
    ensures KnownPercent(row) <= KnownPercent(row.(known := known))
  {
    if row.totalCards > 0 {
      var t := row.totalCards as real;
      assert row.known as real / t <= known as real / t;
    }
  }

  datatype FlashcardSummary = FlashcardSummary(totalSets: nat, completed: nat, inProgress: int, knownPercents: seq<real>)

  function SummarizeFlashcards(rows: seq<SetProgress>): (r: FlashcardSummary)
    ensures r.totalSets == |rows|
    ensures r.completed + r.inProgress == r.totalSets
    ensures 0 <= r.inProgress <= r.totalSets
    ensures |r.knownPercents| == |rows|
    ensures forall i :: 0 <= i < |rows| ==> r.knownPercents[i] == KnownPercent(rows[i])
  {
    var completed := CountCompleted(rows);
    FlashcardSummary(|rows|, completed, |rows| - completed,
                     seq(|rows|, i requires 0 <= i < |rows| => KnownPercent(rows[i])))
  }

  /** With no set completed everything is in progress; with all completed nothing is. */
  lemma {:induction false} InProgressExtremes(rows: seq<SetProgress>)
    ensures (forall i :: 0 <= i < |rows| ==> !rows[i].completed) ==> SummarizeFlashcards(rows).inProgress == |rows|
    ensures (forall i :: 0 <= i < |rows| ==> rows[i].completed) ==> SummarizeFlashcards(rows).inProgress == 0
  {
    if |rows| > 0 {
      var init := rows[..|rows| - 1];
      assert forall i :: 0 <= i < |init| ==> init[i] == rows[i];
      InProgressExtremes(init);
    }
  }

  // ---------------------------------------------------------------------
  // Most recent activity

  /**
   * The later of the newest practice and newest writing timestamps, whichever
   * exist; None when there is no result of either kind.
   */
  function RecentActivity(practiceTimes: seq<int>, writingTimes: seq<int>): (r: Option<int>)
    ensures r.None? <==> practiceTimes == [] && writingTimes == []
    ensures r.Some? ==> r.value in practiceTimes || r.value in writingTimes
    ensures r.Some? ==> (forall i :: 0 <= i < |practiceTimes| ==> practiceTimes[i] <= r.value)
                        && (forall i :: 0 <= i < |writingTimes| ==> writingTimes[i] <= r.value)
  {
    if practiceTimes != [] && writingTimes != [] then
      var p := MaxOf(practiceTimes);
      var w := MaxOf(writingTimes);
      Some(if p >= w then p else w)
    else if practiceTimes != [] then Some(MaxOf(practiceTimes))
    else if writingTimes != [] then Some(MaxOf(writingTimes))
    else None
  }

  /** The order in which the two kinds of result are consulted does not matter. */
  lemma RecentActivitySymmetric(practiceTimes: seq<int>, writingTimes: seq<int>)
    ensures RecentActivity(practiceTimes, writingTimes) == RecentActivity(writingTimes, practiceTimes)
  {
  }
}
