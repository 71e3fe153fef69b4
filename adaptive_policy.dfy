/**
 * The next-question policy of App.tsx (`determineNextAction`): the
 * difficulty follows the two streak counters, the topic is the first one
 * never attempted or else the one with the lowest share of correct answers,
 * and an exploration draw may replace the topic by any topic at all.
 *
 * The two uses of `Math.random` become parameters: `explore` stands for
 * `Math.random() > 0.7` and `randomIndex` for
 * `Math.floor(Math.random() * TOPICS.length)`.
 */
module AdaptivePolicy {
  import opened Types

  datatype Action = Action(topic: Topic, difficulty: Difficulty)

  /**
   * `a.correct / a.total < b.correct / b.total`, compared without division;
   * it means exactly that when both totals are positive.
   */
  predicate RatioLess(a: Stat, b: Stat) {
    a.correct * b.total < b.correct * a.total
  }

  /** The starting value `minPerformance = 1.1`, as the fraction 11/10. */
  const Sentinel: Stat := Stat(11, 10)

  lemma MulStrict(x: int, y: int, z: int)
    requires x < y && z > 0
    ensures x * z < y * z
  {
  }

  lemma MulWeak(x: int, y: int, z: int)
    requires x <= y && z > 0
    ensures x * z <= y * z
  {
  }

  /** a < b and b <= c give a < c. */
  lemma RatioLessTrans(a: Stat, b: Stat, c: Stat)
    requires a.total > 0 && b.total > 0 && c.total > 0
    requires RatioLess(a, b) && !RatioLess(c, b)
    ensures RatioLess(a, c)
  {
    MulStrict(a.correct * b.total, b.correct * a.total, c.total);
    MulWeak(b.correct * c.total, c.correct * b.total, a.total);
    assert (a.correct * c.total) * b.total < (c.correct * a.total) * b.total;
    if c.correct * a.total <= a.correct * c.total {
      MulWeak(c.correct * a.total, a.correct * c.total, b.total);
    }
  }

  /** The difficulty rule: two wrong answers in a row win over two right ones. */
  ghost predicate FollowsStreaks(s: RLState, d: Difficulty) {
    && (s.incorrectStreak >= 2 ==> d == Easy)
    && (s.incorrectStreak < 2 && s.correctStreak >= 2 ==> d == Hard)
    && (s.incorrectStreak < 2 && s.correctStreak < 2 ==> d == Medium)
  }

  /**
   * The topic the scan settles on. If some topic is unattempted, the first
   * one. Otherwise the earliest topic of minimal ratio among those below the
   * sentinel, and the first topic when no ratio is below it (which needs a
   * topic with more correct answers than answers).
   */
  ghost predicate IsWorstTopic(perf: Performance, t: Topic) {
    var k := TopicIndex(t);
    if exists j :: 0 <= j < |Topics| && perf.Get(Topics[j]).total == 0 then
      perf.Get(t).total == 0 && forall j :: 0 <= j < k ==> perf.Get(Topics[j]).total > 0
    else if forall j :: 0 <= j < |Topics| ==> !RatioLess(perf.Get(Topics[j]), Sentinel) then
      t == Topics[0]
    else
      && RatioLess(perf.Get(t), Sentinel)
      && (forall j :: 0 <= j < |Topics| ==> !RatioLess(perf.Get(Topics[j]), perf.Get(t)))
      && (forall j :: 0 <= j < k ==> RatioLess(perf.Get(t), perf.Get(Topics[j])))
  }

  /** `determineNextAction` (App.tsx:37-67). */
  method DetermineNextAction(s: RLState, explore: bool, randomIndex: nat) returns (a: Action)
    requires randomIndex < |Topics|
    ensures FollowsStreaks(s, a.difficulty)
    ensures explore ==> a.topic == Topics[randomIndex]
    ensures !explore ==> IsWorstTopic(s.topicPerformance, a.topic)
  {
    var nextDifficulty := Medium;
    if s.correctStreak >= 2 { nextDifficulty := Hard; }
    if s.incorrectStreak >= 2 { nextDifficulty := Easy; }

    var perf := s.topicPerformance;
    var worstTopic := Topics[0];
    var minPerformance := Sentinel;
    ghost var updated := false;
    ghost var k := 0;

    var i := 0;
    while i < |Topics|
      invariant 0 <= i <= |Topics|
      invariant forall j :: 0 <= j < i ==> perf.Get(Topics[j]).total > 0
      invariant minPerformance.total > 0
      invariant !updated ==> worstTopic == Topics[0] && minPerformance == Sentinel
      invariant updated ==> k < i && worstTopic == Topics[k] && minPerformance == perf.Get(Topics[k])
      invariant updated ==> RatioLess(minPerformance, Sentinel)
      invariant forall j :: 0 <= j < i ==> !RatioLess(perf.Get(Topics[j]), minPerformance)
      invariant updated ==> forall j :: 0 <= j < k ==> RatioLess(minPerformance, perf.Get(Topics[j]))
    {
      var stat := perf.Get(Topics[i]);
      if stat.total == 0 {
        // a topic never attempted wins at once
        worstTopic := Topics[i];
        break;
      }
      if RatioLess(stat, minPerformance) {
        forall j | 0 <= j < i
          ensures RatioLess(stat, perf.Get(Topics[j]))
          ensures !RatioLess(perf.Get(Topics[j]), stat)
        {
          RatioLessTrans(stat, minPerformance, perf.Get(Topics[j]));
        }
        if updated {
          RatioLessTrans(stat, minPerformance, Sentinel);
        }
        minPerformance := stat;
        worstTopic := Topics[i];
        updated, k := true, i;
      }
      i := i + 1;
    }
    if explore {
      worstTopic := Topics[randomIndex];
    }
    a := Action(worstTopic, nextDifficulty);
  }

  /** Under the session invariant every attempted topic is below the sentinel. */
  lemma WellFormedBelowSentinel(perf: Performance, t: Topic)
    requires WellFormed(perf) && perf.Get(t).total > 0
    ensures RatioLess(perf.Get(t), Sentinel)
  {
  }

  /**
   * With every topic attempted and no count out of range, the chosen topic
   * has the lowest ratio, and every earlier topic has a strictly higher one.
   */
  lemma WorstTopicIsMinimal(perf: Performance, t: Topic)
    requires WellFormed(perf)
    requires forall u :: perf.Get(u).total > 0
    requires IsWorstTopic(perf, t)
    ensures forall u :: !RatioLess(perf.Get(u), perf.Get(t))
    ensures forall u :: TopicIndex(u) < TopicIndex(t) ==> RatioLess(perf.Get(t), perf.Get(u))
  {
    assert !(exists j :: 0 <= j < |Topics| && perf.Get(Topics[j]).total == 0);
    WellFormedBelowSentinel(perf, Topics[0]);
    forall u ensures !RatioLess(perf.Get(u), perf.Get(t)) {
      assert Topics[TopicIndex(u)] == u;
    }
    forall u | TopicIndex(u) < TopicIndex(t)
      ensures RatioLess(perf.Get(t), perf.Get(u))
    {
      assert Topics[TopicIndex(u)] == u;
    }
  }

  /** The description pins the topic down: at most one topic fits it. */
  lemma WorstTopicUnique(perf: Performance, t1: Topic, t2: Topic)
    requires IsWorstTopic(perf, t1) && IsWorstTopic(perf, t2)
    ensures t1 == t2
  {
  }

  /**
   * When at most one streak is non-zero, as it is in every session, checking
   * the right-answer streak first would choose the same difficulty.
   */
  lemma StreakOrderIrrelevant(s: RLState, d: Difficulty)
    requires s.correctStreak == 0 || s.incorrectStreak == 0
    ensures FollowsStreaks(s, d) <==>
      d == (if s.correctStreak >= 2 then Hard else if s.incorrectStreak >= 2 then Easy else Medium)
  {
  }
}
