/**
 * What components/QuestionReviewCard.tsx shows for one answered question of
 * the round, and how components/ReviewScreen.tsx numbers the cards.
 */
module QuestionReviewCard {
  import opened Types
  import GeminiService
  import QuestionCard

  datatype ReviewMark =
    | MarkedCorrect  // green
    | MarkedWrong    // red
    | Unmarked       // grey

  /** `getOptionClass` (lines 14-25). */
  function GetOptionClass(question: Question, userAnswer: string, option: string): (m: ReviewMark)
    ensures m == MarkedCorrect <==> option == question.correctAnswer
    ensures m == MarkedWrong <==> option == userAnswer && option != question.correctAnswer
    ensures m == Unmarked <==> option != question.correctAnswer && option != userAnswer
  {
    if option == question.correctAnswer then MarkedCorrect
    else if option == userAnswer then MarkedWrong
    else Unmarked
  }

  /** What one review card displays. */
  datatype ReviewCardView = ReviewCardView(
    number: nat,
    questionText: string,
    options: seq<string>,
    marks: seq<ReviewMark>,
    answeredCorrectly: bool,
    correction: Option<string>,   // "The correct answer was:" and the answer
    explanation: string)

  /** The card for the history entry at position `questionIndex`. */
  function RenderReviewCard(entry: HistoryEntry, questionIndex: nat): (v: ReviewCardView)
    ensures v.number == questionIndex + 1
    ensures v.options == entry.question.options && |v.marks| == |v.options|
    ensures forall i :: 0 <= i < |v.marks| ==>
      v.marks[i] == GetOptionClass(entry.question, entry.userAnswer, v.options[i])
    ensures v.answeredCorrectly <==> IsCorrect(entry)
    ensures v.correction.Some? <==> !IsCorrect(entry)
    ensures v.correction.Some? ==> v.correction.value == entry.question.correctAnswer
  {
    var q := entry.question;
    ReviewCardView(
      questionIndex + 1,
      q.questionText,
      q.options,
      seq(|q.options|, i requires 0 <= i < |q.options| => GetOptionClass(q, entry.userAnswer, q.options[i])),
      IsCorrect(entry),
      if IsCorrect(entry) then None else Some(q.correctAnswer),
      q.explanation)
  }

  /** `history.map(...)` of components/ReviewScreen.tsx: the cards, numbered from 1. */
  function RenderReview(history: seq<HistoryEntry>): (cards: seq<ReviewCardView>)
    ensures |cards| == |history|
    ensures forall i :: 0 <= i < |cards| ==> cards[i] == RenderReviewCard(history[i], i)
    ensures forall i :: 0 <= i < |cards| ==> cards[i].number == i + 1
  {
    seq(|history|, i requires 0 <= i < |history| => RenderReviewCard(history[i], i))
  }

  /** The review marks an option exactly as the answered question card did. */
  lemma ReviewMatchesAnsweredCard(question: Question, userAnswer: string, option: string)
    ensures var c := QuestionCard.GetButtonClass(question, Some(userAnswer), true, option);
      && (GetOptionClass(question, userAnswer, option) == MarkedCorrect <==> c == QuestionCard.CorrectOption)
      && (GetOptionClass(question, userAnswer, option) == MarkedWrong <==> c == QuestionCard.WrongPick)
      && (GetOptionClass(question, userAnswer, option) == Unmarked <==> c == QuestionCard.DimmedOption)
  {
  }

  /**
   * On a playable question the card always marks the correct answer, and it
   * marks some option wrong exactly when the answer given was a wrong option.
   */
  lemma ReviewShowsOutcome(entry: HistoryEntry, questionIndex: nat)
    requires GeminiService.Playable(entry.question)
    ensures var v := RenderReviewCard(entry, questionIndex);
      && (exists i :: 0 <= i < |v.marks| && v.marks[i] == MarkedCorrect)
      && ((exists i :: 0 <= i < |v.marks| && v.marks[i] == MarkedWrong)
          <==> !IsCorrect(entry) && entry.userAnswer in entry.question.options)
  {
    var v := RenderReviewCard(entry, questionIndex);
    var q := entry.question;
    var k :| 0 <= k < |q.options| && q.options[k] == q.correctAnswer;
    assert v.marks[k] == MarkedCorrect;
    if !IsCorrect(entry) && entry.userAnswer in q.options {
      var m :| 0 <= m < |q.options| && q.options[m] == entry.userAnswer;
      assert v.marks[m] == MarkedWrong;
    }
  }
}
