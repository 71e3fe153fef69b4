/**
 * The session controller of App.tsx: the learner record, the current
 * question and the phase of the game, changed by the UI's event handlers.
 *
 * React keeps this state in `useState` cells; here it is the fields of one
 * `Session` object, and each handler is a method that updates them in
 * order. The question provider is the function value `provider`; what it
 * returns is the decoded reply that `generateQuestion` validates.
 */
module App {
  import opened Types
  import opened AdaptivePolicy
  import opened GeminiService
  import opened AnalyticsDashboard

  /** The thumbs-up or thumbs-down given to an explanation. */
  datatype ExplanationFeedback = Good | Bad

  /**
   * The learner record after one answer on `topic` (the update that
   * `handleSubmit` passes to `setRlState`, lines 123-137).
   */
  function ApplyAnswer(s: RLState, topic: Topic, isCorrect: bool): (r: RLState)
    ensures r.score == s.score + (if isCorrect then RewardCorrectFirstTry else RewardIncorrect)
    ensures isCorrect ==> r.correctStreak == s.correctStreak + 1 && r.incorrectStreak == 0
    ensures !isCorrect ==> r.incorrectStreak == s.incorrectStreak + 1 && r.correctStreak == 0
    ensures r.topicPerformance.Get(topic).total == s.topicPerformance.Get(topic).total + 1
    ensures r.topicPerformance.Get(topic).correct
      == s.topicPerformance.Get(topic).correct + (if isCorrect then 1 else 0)
    ensures forall u :: u != topic ==> r.topicPerformance.Get(u) == s.topicPerformance.Get(u)
    ensures r.topicConfidence == s.topicConfidence
    ensures WellFormed(s.topicPerformance) ==> WellFormed(r.topicPerformance)
    ensures TotalAnswered(r.topicPerformance) == TotalAnswered(s.topicPerformance) + 1
    ensures TotalCorrect(r.topicPerformance)
      == TotalCorrect(s.topicPerformance) + (if isCorrect then 1 else 0)
  {
    var before := s.topicPerformance.Get(topic);
    var updated := Stat(before.correct + (if isCorrect then 1 else 0), before.total + 1);
    TotalsAfterSet(s.topicPerformance, topic, updated);
    s.(score := s.score + (if isCorrect then RewardCorrectFirstTry else RewardIncorrect),
       correctStreak := if isCorrect then s.correctStreak + 1 else 0,
       incorrectStreak := if isCorrect then 0 else s.incorrectStreak + 1,
       topicPerformance := s.topicPerformance.Set(topic, updated))
  }

  /** The learner record after explanation feedback on `topic` (lines 142-148). */
  function ApplyFeedback(s: RLState, topic: Topic, feedback: ExplanationFeedback): (r: RLState)
    ensures r.topicConfidence.Get(topic)
      == s.topicConfidence.Get(topic) + (if feedback == Good then 1 else -1)
    ensures forall u :: u != topic ==> r.topicConfidence.Get(u) == s.topicConfidence.Get(u)
    ensures r.score == s.score && r.correctStreak == s.correctStreak
    ensures r.incorrectStreak == s.incorrectStreak && r.topicPerformance == s.topicPerformance
  {
    var delta := if feedback == Good then 1 else -1;
    s.(topicConfidence := s.topicConfidence.Set(topic, s.topicConfidence.Get(topic) + delta))
  }

  const MessageNoWorries: string := "No worries, every expert was once a beginner! Let's check out why."
  const MessageEcoHero: string := "Wow! You're a true Eco-Hero! Keep up the amazing work!"
  const MessageGotIt: string := "You got it! You're helping the planet grow stronger!"
  const MessageFirstStep: string := "That's a great first step on our learning adventure!"

  /** `getFeedbackMessage` (lines 150-155): the first rule that applies wins. */
  function FeedbackMessage(s: RLState): (m: string)
    ensures s.incorrectStreak > 1 ==> m == MessageNoWorries
    ensures s.incorrectStreak <= 1 && s.correctStreak > 2 ==> m == MessageEcoHero
    ensures s.incorrectStreak <= 1 && 0 < s.correctStreak <= 2 ==> m == MessageGotIt
    ensures s.incorrectStreak <= 1 && s.correctStreak == 0 ==> m == MessageFirstStep
  {
    if s.incorrectStreak > 1 then MessageNoWorries
    else if s.correctStreak > 2 then MessageEcoHero
    else if s.correctStreak > 0 then MessageGotIt
    else MessageFirstStep
  }

  /**
   * The message the feedback panel shows right after an answer: praise after
   * a right one (the Eco-Hero line from the third in a row), and after a
   * wrong one the "first step" line, or "no worries" from the second in a row.
   */
  lemma FeedbackAfterAnswer(s: RLState, topic: Topic, isCorrect: bool)
    ensures var m := FeedbackMessage(ApplyAnswer(s, topic, isCorrect));
      && (isCorrect ==> m == (if s.correctStreak >= 2 then MessageEcoHero else MessageGotIt))
      && (!isCorrect ==> m == (if s.incorrectStreak >= 1 then MessageNoWorries else MessageFirstStep))
  {
  }

  /** Three right answers on one topic from a fresh start. */
  lemma ThreeRightAnswers(t: Topic)
    ensures var s := ApplyAnswer(ApplyAnswer(ApplyAnswer(InitialRLState(), t, true), t, true), t, true);
      && s.topicPerformance.Get(t) == Stat(3, 3) && s.score == 30 && s.correctStreak == 3
      && FollowsStreaks(s, Hard)
  {
  }

  /** Two wrong answers from a fresh start. */
  lemma TwoWrongAnswers(t: Topic, u: Topic)
    ensures var s := ApplyAnswer(ApplyAnswer(InitialRLState(), t, false), u, false);
      && s.score == -10 && s.incorrectStreak == 2 && FollowsStreaks(s, Easy)
  {
  }

  /** How many entries of a history were answered correctly. */
  function CorrectCount(history: seq<HistoryEntry>): (n: nat)
    ensures n <= |history|
  {
    if history == [] then 0
    else CorrectCount(history[..|history| - 1]) + (if IsCorrect(history[|history| - 1]) then 1 else 0)
  }

  lemma CorrectCountAppend(history: seq<HistoryEntry>, e: HistoryEntry)
    ensures CorrectCount(history + [e]) == CorrectCount(history) + (if IsCorrect(e) then 1 else 0)
  {
    assert (history + [e])[..|history|] == history;
  }

  class Session {
    var rlState: RLState
    var currentQuestion: Option<Question>
    var currentTopic: Topic
    var gamePhase: GamePhase
    var selectedAnswer: Option<string>
    var questionNumber: nat
    var sessionHistory: seq<HistoryEntry>

    // The answers, right answers and score already counted when the current
    // round began; the invariant ties what was added since to the history.
    ghost var answeredBefore: nat
    ghost var correctBefore: nat
    ghost var scoreBefore: int

    ghost predicate Valid()
      reads this
    {
      && WellFormed(rlState.topicPerformance)
      && (rlState.correctStreak == 0 || rlState.incorrectStreak == 0)
      && (currentQuestion.Some? ==> Playable(currentQuestion.value))
      && (forall i :: 0 <= i < |sessionHistory| ==> Playable(sessionHistory[i].question))
      && TotalAnswered(rlState.topicPerformance) == answeredBefore + |sessionHistory|
      && TotalCorrect(rlState.topicPerformance) == correctBefore + CorrectCount(sessionHistory)
      && rlState.score == scoreBefore
           + RewardCorrectFirstTry * CorrectCount(sessionHistory)
           + RewardIncorrect * (|sessionHistory| - CorrectCount(sessionHistory))
    }

    /** The question on screen came from the policy's choice and the provider. */
    ghost predicate Fetched(provider: (Topic, Difficulty) -> Option<RawQuestion>, explore: bool,
                            randomIndex: nat)
      reads this
      requires randomIndex < |Topics|
    {
      && gamePhase == Playing
      && selectedAnswer == None
      && (explore ==> currentTopic == Topics[randomIndex])
      && (!explore ==> IsWorstTopic(rlState.topicPerformance, currentTopic))
      && exists d :: FollowsStreaks(rlState, d)
           && currentQuestion == Some(ValidatedQuestion(provider(currentTopic, d)))
    }

    /** The state before the first render (lines 29-35). */
    constructor ()
      ensures Valid()
      ensures rlState == InitialRLState() && currentQuestion == None
      ensures currentTopic == Topics[0] && gamePhase == Start && selectedAnswer == None
      ensures questionNumber == 0 && sessionHistory == []
    {
      rlState := InitialRLState();
      currentQuestion := None;
      currentTopic := Topics[0];
      gamePhase := Start;
      selectedAnswer := None;
      questionNumber := 0;
      sessionHistory := [];
      answeredBefore, correctBefore, scoreBefore := 0, 0, 0;
    }

    /** `fetchQuestion` (lines 69-81), once the provider has answered. */
    method FetchQuestion(provider: (Topic, Difficulty) -> Option<RawQuestion>, explore: bool,
                         randomIndex: nat)
      requires Valid() && randomIndex < |Topics|
      modifies this
      ensures Valid() && Fetched(provider, explore, randomIndex)
      ensures questionNumber == old(questionNumber) + 1
      ensures rlState == old(rlState) && sessionHistory == old(sessionHistory)
      ensures answeredBefore == old(answeredBefore) && correctBefore == old(correctBefore)
      ensures scoreBefore == old(scoreBefore)
    {
      gamePhase := Loading;
      var action := DetermineNextAction(rlState, explore, randomIndex);
      currentTopic := action.topic;
      var question := GenerateQuestion(provider(action.topic, action.difficulty));
      questionNumber := questionNumber + 1;
      currentQuestion := Some(question);
      selectedAnswer := None;
      gamePhase := Playing;
      assert FollowsStreaks(rlState, action.difficulty)
        && currentQuestion == Some(ValidatedQuestion(provider(currentTopic, action.difficulty)));
    }

    /**
     * `startInitialGame` (lines 83-88): a fresh learner record, an empty
     * history, and the first question of the round. The updates happen in
     * order, so the policy sees the fresh record.
     */
    method StartInitialGame(provider: (Topic, Difficulty) -> Option<RawQuestion>, explore: bool,
                            randomIndex: nat)
      requires Valid() && randomIndex < |Topics|
      modifies this
      ensures Valid() && Fetched(provider, explore, randomIndex)
      ensures rlState == InitialRLState() && sessionHistory == [] && questionNumber == 1
      ensures !explore ==> currentTopic == Topics[0]
      ensures answeredBefore == 0 && correctBefore == 0 && scoreBefore == 0
    {
      questionNumber := 0;
      rlState := InitialRLState();
      sessionHistory := [];
      answeredBefore, correctBefore, scoreBefore := 0, 0, 0;
      FetchQuestion(provider, explore, randomIndex);
    }

    /** `handleNextQuestion` (lines 90-96): the round ends after the tenth question. */
    method HandleNextQuestion(provider: (Topic, Difficulty) -> Option<RawQuestion>, explore: bool,
                              randomIndex: nat)
      requires Valid() && randomIndex < |Topics|
      modifies this
      ensures Valid()
      ensures rlState == old(rlState) && sessionHistory == old(sessionHistory)
      ensures answeredBefore == old(answeredBefore) && correctBefore == old(correctBefore)
      ensures scoreBefore == old(scoreBefore)
      ensures old(questionNumber) >= TotalQuestions ==>
        && gamePhase == Finished
        && questionNumber == old(questionNumber) && currentQuestion == old(currentQuestion)
        && currentTopic == old(currentTopic) && selectedAnswer == old(selectedAnswer)
      ensures old(questionNumber) < TotalQuestions ==>
        Fetched(provider, explore, randomIndex) && questionNumber == old(questionNumber) + 1
    {
      if questionNumber >= TotalQuestions {
        gamePhase := Finished;
      } else {
        FetchQuestion(provider, explore, randomIndex);
      }
    }

    /**
     * `handleNextRound` (lines 98-102): a new round with an empty history;
     * the learner record carries over.
     */
    method HandleNextRound(provider: (Topic, Difficulty) -> Option<RawQuestion>, explore: bool,
                           randomIndex: nat)
      requires Valid() && randomIndex < |Topics|
      modifies this
      ensures Valid() && Fetched(provider, explore, randomIndex)
      ensures rlState == old(rlState) && sessionHistory == [] && questionNumber == 1
    {
      questionNumber := 0;
      sessionHistory := [];
      answeredBefore := TotalAnswered(rlState.topicPerformance);
      correctBefore := TotalCorrect(rlState.topicPerformance);
      scoreBefore := rlState.score;
      FetchQuestion(provider, explore, randomIndex);
    }

    /** `handleGoToMenu` (lines 104-106). */
    method HandleGoToMenu()
      requires Valid()
      modifies this
      ensures Valid() && gamePhase == Start
      ensures rlState == old(rlState) && sessionHistory == old(sessionHistory)
      ensures questionNumber == old(questionNumber) && currentQuestion == old(currentQuestion)
      ensures currentTopic == old(currentTopic) && selectedAnswer == old(selectedAnswer)
      ensures answeredBefore == old(answeredBefore) && correctBefore == old(correctBefore)
      ensures scoreBefore == old(scoreBefore)
    {
      gamePhase := Start;
    }

    /** `handleReview` (lines 108-110). */
    method HandleReview()
      requires Valid()
      modifies this
      ensures Valid() && gamePhase == Review
      ensures rlState == old(rlState) && sessionHistory == old(sessionHistory)
      ensures questionNumber == old(questionNumber) && currentQuestion == old(currentQuestion)
      ensures currentTopic == old(currentTopic) && selectedAnswer == old(selectedAnswer)
      ensures answeredBefore == old(answeredBefore) && correctBefore == old(correctBefore)
      ensures scoreBefore == old(scoreBefore)
    {
      gamePhase := Review;
    }

    /** `handleAnswerSelect` (lines 112-114): a tentative choice, replacing any earlier one. */
    method HandleAnswerSelect(answer: string)
      requires Valid()
      modifies this
      ensures Valid() && selectedAnswer == Some(answer)
      ensures rlState == old(rlState) && sessionHistory == old(sessionHistory)
      ensures questionNumber == old(questionNumber) && currentQuestion == old(currentQuestion)
      ensures currentTopic == old(currentTopic) && gamePhase == old(gamePhase)
      ensures answeredBefore == old(answeredBefore) && correctBefore == old(correctBefore)
      ensures scoreBefore == old(scoreBefore)
    {
      selectedAnswer := Some(answer);
    }

    /** The guard of `handleSubmit`: a non-empty choice and a question on screen. */
    predicate CanSubmit()
      reads this
    {
      selectedAnswer.Some? && selectedAnswer.value != "" && currentQuestion.Some?
    }

    /**
     * `handleSubmit` (lines 116-140): record the answer in the history, score
     * it, and show the outcome. The phase is not checked.
     */
    method HandleSubmit()
      requires Valid()
      modifies this
      ensures Valid()
      ensures !old(CanSubmit()) ==> unchanged(this)
      ensures old(CanSubmit()) ==>
        var question, answer := old(currentQuestion).value, old(selectedAnswer).value;
        && sessionHistory == old(sessionHistory) + [HistoryEntry(question, answer)]
        && rlState == ApplyAnswer(old(rlState), old(currentTopic), answer == question.correctAnswer)
        && gamePhase == Answered
        && questionNumber == old(questionNumber) && currentQuestion == old(currentQuestion)
        && currentTopic == old(currentTopic) && selectedAnswer == old(selectedAnswer)
        && answeredBefore == old(answeredBefore) && correctBefore == old(correctBefore)
        && scoreBefore == old(scoreBefore)
    {
      if !CanSubmit() {
        return;
      }
      var question, answer := currentQuestion.value, selectedAnswer.value;
      var entry := HistoryEntry(question, answer);
      CorrectCountAppend(sessionHistory, entry);
      sessionHistory := sessionHistory + [entry];
      var isCorrect := answer == question.correctAnswer;
      rlState := ApplyAnswer(rlState, currentTopic, isCorrect);
      gamePhase := Answered;
    }

    /**
     * `handleExplanationFeedback` (lines 142-148): only the current topic's
     * confidence moves. Nothing here stops a second call for the same question.
     */
    method HandleExplanationFeedback(feedback: ExplanationFeedback)
      requires Valid()
      modifies this
      ensures Valid()
      ensures rlState == ApplyFeedback(old(rlState), old(currentTopic), feedback)
      ensures sessionHistory == old(sessionHistory) && gamePhase == old(gamePhase)
      ensures questionNumber == old(questionNumber) && currentQuestion == old(currentQuestion)
      ensures currentTopic == old(currentTopic) && selectedAnswer == old(selectedAnswer)
      ensures answeredBefore == old(answeredBefore) && correctBefore == old(correctBefore)
      ensures scoreBefore == old(scoreBefore)
    {
      rlState := ApplyFeedback(rlState, currentTopic, feedback);
    }
  }
}
