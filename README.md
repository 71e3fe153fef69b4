# Sprout: an adaptive eco-quiz, modelled in Dafny

Sprout is a single-page quiz about the environment. A round has ten
multiple-choice questions, each picked by a small adaptive policy:

- two wrong answers in a row bring an easy question;
- otherwise two right answers in a row bring a hard one, and anything else a
  medium one;
- the topic is the first one never attempted, or else the one with the
  lowest share of correct answers;
- now and then a random draw replaces that topic with any topic.

A language model writes each question. Its reply is checked for shape. If the
correct answer is not among the options, the last option is overwritten with
it. A reply that fails the check, or a call that fails, is replaced by a
fixed question about solar power. Submitting an answer scores it (+10 right,
-5 wrong), moves the two streaks and counts it for its topic. Thumbs up or
down on the explanation moves a per-topic confidence counter. At the end of
the round a dashboard shows the totals and a pie chart of the answers per
topic, and a review screen lists every question with the options marked.

The project has seven modules:

- `Types` (types.ts and constants.ts): the enums, the learner record
  `RLState`, the constants, and `IsCorrect`, the right-answer test shared by
  the submit handler and the review card. A `Record<Topic, V>` becomes
  `ByTopic<V>`: one field per topic, read with `Get` and replaced one topic
  at a time with `Set`.
- `GeminiService` (services/geminiService.ts): validation, repair and
  fallback of the model's reply. `ValidatedQuestion` is the function of the
  reply. `GenerateQuestion` is the imperative version, which repairs an
  `array` in place.
- `AdaptivePolicy` (`determineNextAction` in App.tsx): the scanning loop,
  proved against the declarative description `IsWorstTopic` and the
  difficulty rule `FollowsStreaks`.
- `App` (the state and the other handlers of App.tsx):
  - a `Session` class whose fields are the seven `useState` cells;
  - one method per handler;
  - the invariant `Valid()`, which every handler keeps. It says the counts
    stay in range and every question on screen or in the history is
    playable. It also says the dashboard totals and the score count exactly
    the answers in the history since the round began.
- `QuestionCard` (components/QuestionCard.tsx): the option styles and the
  A–D labels of the question card.
- `QuestionReviewCard` (components/QuestionReviewCard.tsx and
  components/ReviewScreen.tsx): the marks of one review card, and the
  numbering of the review list.
- `AnalyticsDashboard` (components/AnalyticsDashboard.tsx): the totals, the
  accuracy as an exact fraction, and the pie-chart data.

Two things the source leaves to the environment become parameters:

- Randomness: `explore` stands for `Math.random() > 0.7` and `randomIndex`
  for the random topic index.
- The language model: a function `provider` from topic and difficulty to the
  decoded reply (`None` when the call or decoding fails).

The handlers run as plain sequential updates of the session's fields, each
one to completion, so React's batching of state updates is not modelled.

## Model

| member | source | states |
|---|---|---|
| `Types.InitialRLState` | App.tsx:15-27 | the starting record has score 0, no streaks, and 0/0 answers and confidence 0 for every topic |
| `Types.TopicIndex` | constants.ts:3-8 | every topic sits at exactly one position of the scan order `Topics` |
| `Types.ByTopic.Set` | App.tsx:124-128 | replacing one topic's entry sets it and leaves every other topic's entry as it was (also the confidence update at App.tsx:144-145) |
| `Types.AllTopics` | App.tsx:19-26 | the record built by `TOPICS.reduce` holds the same value for every topic |
| `GeminiService.FallbackIsPlayable` | services/geminiService.ts:59-64 | the fallback has four options, and its correct answer "Solar" is one of them (the third) |
| `GeminiService.RepairedOptions` | services/geminiService.ts:49-52 | the repair keeps the length and always leaves the correct answer among the options. It leaves the options untouched when the answer was there. Otherwise it changes only the last slot, to the correct answer. |
| `GeminiService.RepairInPlace` | services/geminiService.ts:49-52 | the in-place write on the options array leaves exactly the repaired sequence |
| `GeminiService.ValidatedQuestion` | services/geminiService.ts:38-64 | every outcome is playable (four options, the correct answer among them). A failed call or a failed check gives the fallback. A valid reply keeps its text, correct answer and explanation, with only its options repaired. |
| `GeminiService.GenerateQuestion` | services/geminiService.ts:37-65 | the validate–repair–return-or-fall-back sequence yields `ValidatedQuestion` of the reply, a playable question |
| `AdaptivePolicy.RatioLessTrans` | App.tsx:53-57 | comparing ratios by cross-multiplication is transitive, so the running minimum is below every topic scanned so far |
| `AdaptivePolicy.DetermineNextAction` | App.tsx:37-67 | the difficulty is Easy after two wrong answers, else Hard after two right ones, else Medium. With no exploration draw the topic is the first unattempted one, or the earliest one of minimal ratio below the 1.1 start value. An exploration draw gives `Topics[randomIndex]` and leaves the difficulty as it was. |
| `AdaptivePolicy.WellFormedBelowSentinel` | App.tsx:45 | an attempted topic's ratio is always below the start value 1.1 |
| `AdaptivePolicy.WorstTopicIsMinimal` | App.tsx:44-58 | once every topic has been attempted, the chosen topic has the lowest ratio of all, and every earlier topic a strictly higher one |
| `AdaptivePolicy.WorstTopicUnique` | App.tsx:44-58 | the description of the chosen topic fits at most one topic |
| `AdaptivePolicy.StreakOrderIrrelevant` | App.tsx:39-41 | when at most one streak is non-zero, checking the right-answer streak first would pick the same difficulty |
| `App.ApplyAnswer` | App.tsx:121-137 | one answer adds the reward to the score, extends one streak and zeroes the other, and adds one answer (and one right answer when right) to the current topic only. Confidence is unchanged. `correct <= total` is preserved, and the dashboard totals grow by one answer and one right answer when right. |
| `App.ApplyFeedback` | App.tsx:142-148 | feedback moves the current topic's confidence by +1 or -1 and changes nothing else |
| `App.FeedbackMessage` | App.tsx:150-155 | the message follows the priority: "no worries" after more than one wrong, then "Eco-Hero" after more than two right, then "got it" after any right, else "first step" |
| `App.FeedbackAfterAnswer` | App.tsx:121-155 | right after an answer, a right one shows "got it", or "Eco-Hero" from the third in a row. A wrong one shows "first step", or "no worries" from the second in a row. |
| `App.ThreeRightAnswers` | App.tsx:121-137 | three right answers from the start give 3/3, score 30, and a hard next question |
| `App.TwoWrongAnswers` | App.tsx:121-137 | two wrong answers from the start give score -10 and an easy next question |
| `App.CorrectCount` | App.tsx:119-121 | the right answers in a history never outnumber its entries |
| `App.CorrectCountAppend` | App.tsx:119-121 | appending one entry raises the count of right answers by one exactly when that entry is right |
| `App.Session.constructor` | App.tsx:29-35 | the initial state of the seven state cells, which satisfies the session invariant |
| `App.Session.FetchQuestion` | App.tsx:69-81 | the phase is Playing, the selection is cleared and the question number goes up by one. The topic is the policy's choice, and the question is the validated reply of the provider for that topic and a difficulty following the streaks. The learner record and the history are unchanged. |
| `App.Session.StartInitialGame` | App.tsx:83-88 | the record is fresh, the history empty and the question number 1. Without an exploration draw the first topic is Recycling. |
| `App.Session.HandleNextQuestion` | App.tsx:90-96 | after ten questions the phase becomes Finished and nothing else changes; before that, the next question is fetched |
| `App.Session.HandleNextRound` | App.tsx:98-102 | the history is emptied and the question number restarts at 1. The learner record carries over and a new question is fetched. |
| `App.Session.HandleGoToMenu` | App.tsx:104-106 | only the phase changes, to Start |
| `App.Session.HandleReview` | App.tsx:108-110 | only the phase changes, to Review |
| `App.Session.HandleAnswerSelect` | App.tsx:112-114 | only the selection changes, to the given answer |
| `App.Session.HandleSubmit` | App.tsx:116-140 | without a non-empty selection and a question nothing changes. Otherwise the pair (question, answer) is appended to the history, the record becomes `ApplyAnswer` for the current topic, and the phase becomes Answered. |
| `App.Session.HandleExplanationFeedback` | App.tsx:142-148 | the record becomes `ApplyFeedback` for the current topic, and nothing else changes |
| `QuestionCard.GetButtonClass` | components/QuestionCard.tsx:12-32 | before submitting, an option is highlighted exactly when it is the selection. After submitting it is green exactly when correct, red exactly when the wrong selection, and grey otherwise. |
| `QuestionCard.RenderOptions` | components/QuestionCard.tsx:38-47 | one button per option, in order, labelled `'A' + index`, styled by `GetButtonClass`, and enabled exactly when not yet answered |
| `QuestionCard.Click` | components/QuestionCard.tsx:41-42 | clicking reports the button's option exactly when the button is enabled |
| `QuestionCard.FourOptionsLabelledAToD` | components/QuestionCard.tsx:45 | four options are labelled A, B, C, D |
| `QuestionCard.ClickReportsOption` | components/QuestionCard.tsx:38-47 | clicking the i-th button selects the i-th option before submitting, and nothing after |
| `QuestionCard.AnsweredCardShowsOutcome` | components/QuestionCard.tsx:20-31 | after submitting a playable question some button is green. A wrong selection among the options is red. Nothing is red when the selection was right or absent. |
| `QuestionReviewCard.GetOptionClass` | components/QuestionReviewCard.tsx:14-25 | an option is green exactly when it is the correct answer, red exactly when it is the user's wrong answer, and grey otherwise |
| `QuestionReviewCard.RenderReviewCard` | components/QuestionReviewCard.tsx:12-55 | the card is numbered index+1 and marks every option by `GetOptionClass`. It shows "right" exactly when the answer was correct, and the correct answer exactly when it was not. |
| `QuestionReviewCard.RenderReview` | components/ReviewScreen.tsx:25-32 | one card per history entry, in order, numbered from 1 |
| `QuestionReviewCard.ReviewMatchesAnsweredCard` | components/QuestionReviewCard.tsx:14-25 | the review marks each option exactly as the answered question card styled it |
| `QuestionReviewCard.ReviewShowsOutcome` | components/QuestionReviewCard.tsx:12-25 | on a playable question the correct answer is always marked, and some option is marked wrong exactly when the answer given was a wrong option |
| `AnalyticsDashboard.SumCorrectAtMostSumTotal` | components/AnalyticsDashboard.tsx:16-17 | with no topic over-counted, the right answers over any topics never exceed the answers |
| `AnalyticsDashboard.TotalCorrect` | components/AnalyticsDashboard.tsx:16 | the total of right answers never exceeds the total of answers |
| `AnalyticsDashboard.SumsAfterSet` | components/AnalyticsDashboard.tsx:16-17 | replacing one topic's record moves both sums by exactly the difference |
| `AnalyticsDashboard.TotalsAfterSet` | components/AnalyticsDashboard.tsx:16-17 | the same for the two dashboard totals over all topics |
| `AnalyticsDashboard.OverallAccuracy` | components/AnalyticsDashboard.tsx:18 | the accuracy is 0 when nothing was answered, else 100·correct/answered, and never above 100 |
| `AnalyticsDashboard.KeepAnsweredMembers` | components/AnalyticsDashboard.tsx:24 | the filter keeps exactly the slices with a positive value |
| `AnalyticsDashboard.KeepAnsweredSum` | components/AnalyticsDashboard.tsx:24 | dropping zero-valued slices keeps the sum of values |
| `AnalyticsDashboard.KeepAnsweredInOrder` | components/AnalyticsDashboard.tsx:24 | the filter keeps the topic order |
| `AnalyticsDashboard.TopicSlicesSum` | components/AnalyticsDashboard.tsx:20-23 | the unfiltered slices add up to the answers over the same topics |
| `AnalyticsDashboard.PieChartData` | components/AnalyticsDashboard.tsx:20-24 | there is one slice for each attempted topic and none for the others, in topic order. Each slice is valued at that topic's answer count, so the slices add up to `totalAnswered`. |

## Left out

- The request to the language model: the prompt, the response schema, the network call and `JSON.parse` (services/geminiService.ts:1-35). They are the `provider` parameter. A thrown error, from the API or from decoding, is a `None` reply.
- Non-string JSON values: a field of the decoded reply is a string or absent. Truthy numbers or objects in `questionText`, `correctAnswer` or `explanation`, and non-string options, are not modelled.
- `console.error` on the fallback path (I/O).
- `Math.random` is a parameter. The 30% exploration probability is not modelled.
- React state batching and closures. In the source, `startInitialGame` calls `fetchQuestion` in the same render as `setRlState(initialRLState)`. So the policy of the first question reads the learner record as it was before the reset (the last game's streaks and ratios). The model applies updates in order, so the policy reads the fresh record, as the handler's own order suggests.
- The in-flight request: a second click while a question loads is not modelled. `FetchQuestion` runs to completion, so the Loading phase is only transient.
- Floating point: ratios are compared exactly by cross-multiplication, and 1.1 is the fraction 11/10. With `correct <= total` this matches the source's double comparison.
- `AnalyticsDashboard.OverallAccuracy`: the rounding of `toFixed(0)` is not modelled. The result is the exact fraction.
- Integer width: score and counts are unbounded. JavaScript numbers are exact only up to 2^53, far beyond any game.
- `QuestionCard.RenderOptions`: labels are modelled for at most `MaxLabelledOptions` options. Past that, `String.fromCharCode` would produce surrogate code units, which are not Dafny characters. Every playable question has four options.
- Presentation: JSX layout, colours (`TOPIC_COLORS`), CSS strings (modelled as tags), the header, the progress bar, `PieChart` geometry, `Confetti`, `LoadingSpinner`, and the buttons of the review and dashboard screens.
- The once-only feedback guard of components/FeedbackModal.tsx:14-19 belongs to the modal, not to the core. `App.Session.HandleExplanationFeedback` has no such guard, as in App.tsx.
- The unused `DIFFICULTIES` constant and `FeedbackType` type.

Behaviour of the code worth noting, which the model keeps:

- Difficulty: the Easy test comes second and overrides Hard. This can only matter if both streaks are at least 2, which `Valid()` rules out (`AdaptivePolicy.StreakOrderIrrelevant`).
- `handleSubmit` does not check the phase. It needs only a non-empty selection and a question on screen.
- Nothing in App.tsx limits explanation feedback to one per question.
- Neither the check nor the repair of the reply looks for duplicate options.
