/**
 * What `generateQuestion` (services/geminiService.ts) does with the model's
 * reply once it has been decoded: a structural check, a repair of the
 * options, and a fixed fallback question on any failure. The request itself
 * and the JSON decoding are the provider's business: the reply reaches this
 * module as `None` (the call or the decoding failed) or as a record whose
 * every field may be missing.
 */
module GeminiService {
  import opened Types

  /** The decoded reply; a field is `None` when it is missing or null. */
  datatype RawQuestion = RawQuestion(
    questionText: Option<string>,
    options: Option<seq<string>>,
    correctAnswer: Option<string>,
    explanation: Option<string>)

  /** A string field that JavaScript treats as truthy: present and not empty. */
  predicate Present(field: Option<string>) {
    field.Some? && field.value != ""
  }

  /** The check at services/geminiService.ts:38-44. */
  predicate PassesValidation(raw: RawQuestion) {
    && Present(raw.questionText)
    && raw.options.Some?
    && |raw.options.value| == 4
    && Present(raw.correctAnswer)
    && Present(raw.explanation)
  }

  /** A question the player can answer: four options, one of them correct. */
  predicate Playable(q: Question) {
    |q.options| == 4 && q.correctAnswer in q.options
  }

  /** The question substituted whenever the reply is unusable. */
  const Fallback: Question := Question(
    "Which of these is a renewable energy source?",
    ["Coal", "Natural Gas", "Solar", "Oil"],
    "Solar",
    "Solar power is a renewable energy source because it comes from the sun, which is a naturally replenishing resource.")

  lemma FallbackIsPlayable()
    ensures Playable(Fallback)
    ensures Fallback.options[2] == Fallback.correctAnswer
  {
  }

  /**
   * The options after the repair: unchanged when the correct answer is among
   * them, otherwise the last slot holds the correct answer instead.
   */
  function RepairedOptions(options: seq<string>, correctAnswer: string): (r: seq<string>)
    requires |options| > 0
    ensures |r| == |options|
    ensures correctAnswer in r
    ensures r[..|r| - 1] == options[..|options| - 1]
    ensures correctAnswer in options ==> r == options
    ensures correctAnswer !in options ==> r[|r| - 1] == correctAnswer
  {
    if correctAnswer in options then options
    else
      var r := options[|options| - 1 := correctAnswer];
      assert r[|r| - 1] == correctAnswer;
      r
  }

  /** The question `generateQuestion` resolves to for a given reply. */
  function ValidatedQuestion(reply: Option<RawQuestion>): (q: Question)
    ensures Playable(q)
    ensures reply.None? || !PassesValidation(reply.value) ==> q == Fallback
    ensures reply.Some? && PassesValidation(reply.value) ==>
      && q.questionText == reply.value.questionText.value
      && q.correctAnswer == reply.value.correctAnswer.value
      && q.explanation == reply.value.explanation.value
      && q.options == RepairedOptions(reply.value.options.value, q.correctAnswer)
  {
    FallbackIsPlayable();
    match reply
    case None => Fallback
    case Some(raw) =>
      if PassesValidation(raw) then
        Question(raw.questionText.value,
                 RepairedOptions(raw.options.value, raw.correctAnswer.value),
                 raw.correctAnswer.value,
                 raw.explanation.value)
      else
        Fallback
  }

  /** The in-place repair at services/geminiService.ts:49-52. */
  method RepairInPlace(options: array<string>, correctAnswer: string)
    requires options.Length > 0
    modifies options
    ensures options[..] == RepairedOptions(old(options[..]), correctAnswer)
  {
    if correctAnswer !in options[..] {
      options[options.Length - 1] := correctAnswer;
    }
  }

  /**
   * `generateQuestion` after the reply has arrived: validate, repair the
   * options array in place, or fall back.
   */
  method GenerateQuestion(reply: Option<RawQuestion>) returns (q: Question)
    ensures q == ValidatedQuestion(reply)
    ensures Playable(q)
  {
    if reply.None? || !PassesValidation(reply.value) {
      // the `throw` of the failed check, caught by the handler that falls back
      return Fallback;
    }
    var raw := reply.value;
    var options := new string[4](i requires 0 <= i < 4 => raw.options.value[i]);
    assert options[..] == raw.options.value;
    RepairInPlace(options, raw.correctAnswer.value);
    q := Question(raw.questionText.value, options[..], raw.correctAnswer.value, raw.explanation.value);
  }
}
