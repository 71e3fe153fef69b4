/**
 * How components/QuestionCard.tsx marks and labels the options of the
 * current question. Each CSS class string becomes one tag of `ButtonClass`.
 */
module QuestionCard {
  import opened Types
  import GeminiService

  datatype ButtonClass =
    | SelectedOption    // yellow: the tentative choice, before submitting
    | UnselectedOption  // white: every other option, before submitting
    | CorrectOption     // green: the correct answer, after submitting
    | WrongPick         // red: the player's choice when it was wrong
    | DimmedOption      // grey: every other option, after submitting

  /** `getButtonClass` (lines 12-32). */
  function GetButtonClass(question: Question, selectedAnswer: Option<string>, isAnswered: bool,
                          option: string): (c: ButtonClass)
    ensures !isAnswered ==> (c == SelectedOption <==> selectedAnswer == Some(option))
    ensures !isAnswered ==> c == SelectedOption || c == UnselectedOption
    ensures isAnswered ==> (c == CorrectOption <==> option == question.correctAnswer)
    ensures isAnswered ==>
      (c == WrongPick <==> selectedAnswer == Some(option) && option != question.correctAnswer)
    ensures isAnswered ==>
      (c == DimmedOption <==> option != question.correctAnswer && selectedAnswer != Some(option))
  {
    if !isAnswered then
      if selectedAnswer == Some(option) then SelectedOption else UnselectedOption
    else if option == question.correctAnswer then CorrectOption
    else if selectedAnswer == Some(option) then WrongPick
    else DimmedOption
  }

  /** The largest option count whose labels `String.fromCharCode(65 + i)` are all characters. */
  const MaxLabelledOptions: nat := 0xD800 - 65

  /** One rendered option button. */
  datatype OptionButton = OptionButton(letter: char, text: string, style: ButtonClass, enabled: bool)

  /** The `question.options.map(...)` of lines 38-47. */
  function RenderOptions(question: Question, selectedAnswer: Option<string>, isAnswered: bool)
    : (buttons: seq<OptionButton>)
    requires |question.options| <= MaxLabelledOptions
    ensures |buttons| == |question.options|
    ensures forall i :: 0 <= i < |buttons| ==>
      && buttons[i].letter as int == 'A' as int + i
      && buttons[i].text == question.options[i]
      && buttons[i].style == GetButtonClass(question, selectedAnswer, isAnswered, question.options[i])
      && buttons[i].enabled == !isAnswered
  {
    seq(|question.options|, i requires 0 <= i < |question.options| =>
      OptionButton((65 + i) as char, question.options[i],
                   GetButtonClass(question, selectedAnswer, isAnswered, question.options[i]),
                   !isAnswered))
  }

  /** Clicking a button: `onSelectAnswer(option)`, unless the button is disabled. */
  function Click(button: OptionButton): (chosen: Option<string>)
    ensures chosen.Some? <==> button.enabled
    ensures chosen.Some? ==> chosen.value == button.text
  {
    if button.enabled then Some(button.text) else None
  }

  /** A question of four options is labelled A to D. */
  lemma FourOptionsLabelledAToD(question: Question, selectedAnswer: Option<string>, isAnswered: bool)
    requires |question.options| == 4
    ensures var b := RenderOptions(question, selectedAnswer, isAnswered);
      [b[0].letter, b[1].letter, b[2].letter, b[3].letter] == ['A', 'B', 'C', 'D']
  {
  }

  /** Clicking the i-th button reports the i-th option, and nothing once answered. */
  lemma ClickReportsOption(question: Question, selectedAnswer: Option<string>, isAnswered: bool, i: nat)
    requires |question.options| <= MaxLabelledOptions && i < |question.options|
    ensures Click(RenderOptions(question, selectedAnswer, isAnswered)[i])
      == if isAnswered then None else Some(question.options[i])
  {
  }

  /**
   * After submitting a playable question, some button shows the correct
   * answer, and a wrong choice that is one of the options is shown as such.
   */
  lemma AnsweredCardShowsOutcome(question: Question, selectedAnswer: Option<string>)
    requires GeminiService.Playable(question)
    ensures var b := RenderOptions(question, selectedAnswer, true);
      && (exists i :: 0 <= i < |b| && b[i].style == CorrectOption)
      && (selectedAnswer.Some? && selectedAnswer.value != question.correctAnswer
          && selectedAnswer.value in question.options
          ==> exists i :: 0 <= i < |b| && b[i].style == WrongPick)
      && (selectedAnswer == Some(question.correctAnswer) || selectedAnswer.None?
          ==> forall i :: 0 <= i < |b| ==> b[i].style != WrongPick)
  {
    var b := RenderOptions(question, selectedAnswer, true);
    var k :| 0 <= k < |question.options| && question.options[k] == question.correctAnswer;
    assert b[k].style == CorrectOption;
    if selectedAnswer.Some? && selectedAnswer.value != question.correctAnswer
       && selectedAnswer.value in question.options {
      var m :| 0 <= m < |question.options| && question.options[m] == selectedAnswer.value;
      assert b[m].style == WrongPick;
    }
  }
}
