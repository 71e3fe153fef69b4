/**
 * The enums, record shapes and constants shared by every part of the quiz
 * (types.ts and constants.ts).
 */
module Types {

  /** A value that may be absent: `null`, a missing field, a failed call. */
  datatype Option<+T> = None | Some(value: T)

  datatype Topic = Recycling | RenewableEnergy | ClimateChange | Conservation

  datatype Difficulty = Easy | Medium | Hard

  /** A multiple-choice question as the rest of the app consumes it. */
  datatype Question = Question(
    questionText: string,
    options: seq<string>,
    correctAnswer: string,
    explanation: string)

  /** Answers given on one topic: how many were correct, how many in all. */
  datatype Stat = Stat(correct: nat, total: nat)

  /**
   * A `Record<Topic, V>`: one entry for every topic, read with `Get` and
   * replaced one topic at a time with `Set`, as `{ ...record, [t]: v }` does.
   */
  datatype ByTopic<V> = ByTopic(recycling: V, renewableEnergy: V, climateChange: V, conservation: V)
  {
    function Get(t: Topic): (v: V) {
      match t
      case Recycling => recycling
      case RenewableEnergy => renewableEnergy
      case ClimateChange => climateChange
      case Conservation => conservation
    }

    function Set(t: Topic, v: V): (r: ByTopic<V>)
      ensures r.Get(t) == v
      ensures forall u :: u != t ==> r.Get(u) == Get(u)
    {
      match t
      case Recycling => this.(recycling := v)
      case RenewableEnergy => this.(renewableEnergy := v)
      case ClimateChange => this.(climateChange := v)
      case Conservation => this.(conservation := v)
    }
  }

  /** The record whose every entry is `v` (`TOPICS.reduce` in `initialRLState`). */
  function AllTopics<V>(v: V): (r: ByTopic<V>)
    ensures forall t :: r.Get(t) == v
  {
    ByTopic(v, v, v, v)
  }

  type Performance = ByTopic<Stat>
  type Confidence = ByTopic<int>

  /** The learner model the policy reads and the submit handler updates. */
  datatype RLState = RLState(
    score: int,
    correctStreak: nat,
    incorrectStreak: nat,
    topicPerformance: Performance,
    topicConfidence: Confidence)

  datatype GamePhase = Start | Playing | Answered | Loading | Finished | Review

  /** One answered question, as kept in the session history. */
  datatype HistoryEntry = HistoryEntry(question: Question, userAnswer: string)

  /**
   * Whether a history entry was answered right: an exact match with the
   * correct answer (App.tsx:121, components/QuestionReviewCard.tsx:12).
   */
  predicate IsCorrect(entry: HistoryEntry) {
    entry.userAnswer == entry.question.correctAnswer
  }

  /** The fixed scan order of the topics. */
  const Topics: seq<Topic> := [Recycling, RenewableEnergy, ClimateChange, Conservation]

  const RewardCorrectFirstTry: int := 10
  const RewardIncorrect: int := -5
  const TotalQuestions: nat := 10

  /** The position of a topic in `Topics`. */
  function TopicIndex(t: Topic): (i: nat)
    ensures i < |Topics| && Topics[i] == t
    ensures forall j :: 0 <= j < |Topics| && Topics[j] == t ==> j == i
  {
    match t
    case Recycling => 0
    case RenewableEnergy => 1
    case ClimateChange => 2
    case Conservation => 3
  }

  /** No topic is listed twice, so the scan visits each topic exactly once. */
  ghost predicate Distinct(ts: seq<Topic>) {
    forall i, j :: 0 <= i < j < |ts| ==> ts[i] != ts[j]
  }

  /** Every topic has no more correct answers than answers. */
  ghost predicate WellFormed(perf: Performance) {
    forall t :: perf.Get(t).correct <= perf.Get(t).total
  }

  /** The record every game starts from (App.tsx, `initialRLState`). */
  function InitialRLState(): (s: RLState)
    ensures s.score == 0 && s.correctStreak == 0 && s.incorrectStreak == 0
    ensures forall t :: s.topicPerformance.Get(t) == Stat(0, 0) && s.topicConfidence.Get(t) == 0
  {
    RLState(0, 0, 0, AllTopics(Stat(0, 0)), AllTopics(0))
  }
}
