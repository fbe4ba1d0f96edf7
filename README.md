# Phishing-detection simulator: session model

This project models the quiz session of the SafeBytes phishing-detection
simulator page (`frontend/src/pages/Simulator.tsx`). The page shows a fixed deck
of eight sample emails one at a time. The learner judges each one "safe" or
"phishing". The page keeps score and streak, and it shows progress, accuracy and
a completion panel.

- `deck.dfy` (module `Deck`): the `Email` record, its difficulty, and the deck
  `PhishingEmails` with its ids, labels, difficulties and red flags.
- `session.dfy` (module `Session`): the page's eight state hooks as one
  `SessionState` value. `Judge`, `Advance` and `Reset` are what `handleChoice`,
  `nextEmail` and `resetSimulation` do to it. It also defines the derived
  figures: progress, live accuracy, the shown verdict, the completion test and
  the completion panel. `Math.round` is exact integer rounding (`RoundHalfUp`).
- `invariant.dfy` (module `Invariant`): the counting invariant. A state is
  `Consistent` with the history of choices made since the last reset:
  - choice k judged email k;
  - the answered list is the prefix of the deck's ids;
  - its length is the index, plus one while a result is shown;
  - the score is what the correct judgments earned;
  - the streak is the run of correct judgments at the end.
  Each handler keeps this invariant.
- `page.dfy` (module `Page`): the page as a class `Simulator`. The hooks are
  fields, and the three handlers are methods that update them in place. Each
  method is proved to yield the state given by `Judge`, `Advance` or `Reset`,
  and to keep `Valid()`, which is the counting invariant.
- `trace.dfy` (module `Trace`): a session as a sequence of button clicks. A
  click on a button that is not rendered changes nothing. Every reachable state
  satisfies the invariant. One answer per email, in order, completes the
  session.
- `findings.dfy` (module `Findings`): three figures that do not mean what
  their labels say (see Findings).

The session logic takes the deck as a parameter. The page's object holds it as
`const deck`, which its constructor sets to `PhishingEmails`. Facts about the
eight concrete emails are proved about `PhishingEmails` itself.

Behaviour of the code that the model keeps as written:
- The deck is a constant. There is no loading or validation.
- The handlers return no errors. Answering twice and advancing before
  answering are prevented only because those buttons are not rendered. The
  handlers therefore carry preconditions (`!showResult` for `HandleChoice`,
  `showResult` for `NextEmail`), and the click model ignores clicks on hidden
  buttons.
- `answeredEmails` is appended to without deduplication. No id repeats only
  because each email is answered once (`Trace.RunBounds`).
- At the last email, `nextEmail` changes nothing. The session is complete
  once the last result is on screen.

## Model

| member | source | states |
|---|---|---|
| Deck.DeckFacts | frontend/src/pages/Simulator.tsx:20-257 | the deck has eight emails with distinct ids; every safe email has no red flags, so the red-flag list is shown exactly for phishing emails |
| Deck.DeckIdsAreOneToEight | frontend/src/pages/Simulator.tsx:20-257 | the deck's ids are 1 to 8 in deck order |
| Deck.DeckRedFlags | frontend/src/pages/Simulator.tsx:20-257 | each email of the deck has red flags exactly when it is a phishing email |
| Deck.ShowsRedFlags | frontend/src/pages/Simulator.tsx:535 | the red-flag list is shown only for a phishing email, and never when it has no flags |
| Session.IsCorrect | frontend/src/pages/Simulator.tsx:275 | a judgment is correct exactly when it is the email's one right answer: "phishing" for a phishing email, "safe" otherwise |
| Session.XpGain | frontend/src/pages/Simulator.tsx:278 | the reward is 30 exactly for hard, 10 exactly for easy (20 for medium); always a multiple of ten between 10 and 30 |
| Session.Judge | frontend/src/pages/Simulator.tsx:273-289 | a correct choice adds the difficulty's reward to the score, sets xpEarned to it and extends the streak by one; a wrong one leaves the score, zeroes xpEarned and the streak; either way the index is unchanged, the result is shown, the choice recorded, exactly the current email's id appended, and the shown verdict is the choice's correctness |
| Session.Advance | frontend/src/pages/Simulator.tsx:291-298 | below the last index: index plus one and result, choice and feedback cleared, nothing else changed; at the last index: no change; the index stays inside the deck |
| Session.Reset | frontend/src/pages/Simulator.tsx:300-309 | every field returns to the initial value of the hooks |
| Session.IsCorrectShown | frontend/src/pages/Simulator.tsx:311 | the verdict is false while no choice is recorded; once one is, it is true exactly when the choice is the current email's right answer |
| Session.ProgressPercent | frontend/src/pages/Simulator.tsx:271-409 | the "N% Complete" figure is the answered share of the deck in percent rounded to the nearest integer (ties up); at most 100 while the answered list fits the deck, and 100 once every email is answered |
| Session.LiveAccuracy | frontend/src/pages/Simulator.tsx:400 | the stats-bar accuracy is 0 before any answer, otherwise the score over twenty points per answered email in percent, rounded to the nearest integer (ties up); at most 150 while the score is at most thirty per answered email |
| Session.IsComplete | frontend/src/pages/Simulator.tsx:585 | the completion panel is shown only while a result is on screen, and progress then reads 100 |
| Session.RoundHalfUp | frontend/src/pages/Simulator.tsx:400 | the result is the integer nearest to num/den, ties rounded up, as `Math.round` does for a non-negative quotient |
| Session.Completion | frontend/src/pages/Simulator.tsx:585-611 | the panel exists exactly when every email is answered and a result is shown; it shows the score, the current streak as "Best Streak", the answered count, and the score rounded over twenty points per deck email |
| Invariant.InitialConsistent | frontend/src/pages/Simulator.tsx:260-267 | the initial hooks satisfy the counting invariant with an empty history |
| Invariant.AppendChoice | frontend/src/pages/Simulator.tsx:277-285 | one more judgment adds exactly its reward to the total earned and extends or breaks the streak |
| Invariant.JudgePreserves | frontend/src/pages/Simulator.tsx:273-289 | a choice made while no result is shown keeps the counting invariant, with the choice appended to the history |
| Invariant.AdvancePreserves | frontend/src/pages/Simulator.tsx:291-298 | moving on while a result is shown keeps the counting invariant with the same history |
| Invariant.ResetConsistent | frontend/src/pages/Simulator.tsx:300-309 | a reset satisfies the counting invariant with an empty history |
| Invariant.MaxEarnedBounds | frontend/src/pages/Simulator.tsx:278 | the most n emails can earn lies between 10n and 30n |
| Invariant.EarnedMultipleOfTen | frontend/src/pages/Simulator.tsx:277-285 | the score earned by any history is a multiple of ten |
| Invariant.EarnedAtMostMax | frontend/src/pages/Simulator.tsx:277-285 | a history earns at most the maximum for its emails, exactly the maximum if and only if every judgment was correct, and at least ten less otherwise |
| Invariant.EarnedBounds | frontend/src/pages/Simulator.tsx:277-285 | the earned score is a multiple of ten and at most thirty per judged email |
| Invariant.TrailingCorrectBound | frontend/src/pages/Simulator.tsx:281-283 | the streak never exceeds the number of judgments and equals it when all were correct |
| Invariant.ConsistentBounds | frontend/src/pages/Simulator.tsx:271-400 | in a consistent state the answered count equals the history length and is at most the deck size, the answered ids are distinct, the score is at most thirty per answered email, the streak at most the answered count, progress at most 100 and live accuracy at most 150 |
| Invariant.CompleteIff | frontend/src/pages/Simulator.tsx:585 | the completion panel shows exactly when the last email's result is on screen, and exactly when the progress figure reads 100; after a run without a mistake its streak equals the deck size |
| Invariant.IsCorrectShownIff | frontend/src/pages/Simulator.tsx:311 | the shown verdict is true exactly while a result is shown and the last choice was right for the current email |
| Page.Simulator.constructor | frontend/src/pages/Simulator.tsx:260-267 | the page starts on the deck with every hook at its initial value and an empty history |
| Page.Simulator.HandleChoice | frontend/src/pages/Simulator.tsx:273-289 | the fields become `Judge` of the old fields, the invariant holds with the choice appended, the id is appended, the score does not decrease and the index is unchanged |
| Page.Simulator.NextEmail | frontend/src/pages/Simulator.tsx:291-298 | the fields become `Advance` of the old fields: index plus one with result, choice and feedback cleared below the last index, nothing changed at it; the invariant holds |
| Page.Simulator.ResetSimulation | frontend/src/pages/Simulator.tsx:300-309 | the fields return to the initial state and the history empties |
| Page.ResetIsIdempotent | frontend/src/pages/Simulator.tsx:300-309 | resetting twice gives the state one reset gives, which is the state of a freshly constructed page |
| Trace.Rendered | frontend/src/pages/Simulator.tsx:469-618 | the answer buttons are on screen exactly while no result is shown (and the index is inside the deck), "Next Email" exactly while a result is shown and another email follows, and the reset buttons ("Complete! View Results", "Start Over", "Try Again") exactly while a result is shown |
| Trace.RunSnoc | frontend/src/pages/Simulator.tsx:469-578 | one more click applies one more step to the state reached so far |
| Trace.RunConsistent | frontend/src/pages/Simulator.tsx:260-309 | every state reachable by clicking rendered buttons satisfies the counting invariant with the choices made since the last reset |
| Trace.RunBounds | frontend/src/pages/Simulator.tsx:260-298 | in every reachable state the index stays inside the deck, the answered count is the index plus one while a result is shown, the answered list is the deck's ids in order and holds no id twice, and the score is at most thirty per answered email |
| Trace.StepMonotone | frontend/src/pages/Simulator.tsx:279-288 | no click other than a reset lowers the score or removes an answered id |
| Trace.SecondChoiceIgnored | frontend/src/pages/Simulator.tsx:469 | a second answer click on the same email changes nothing, because the answer buttons are hidden while a result is shown |
| Trace.PlayRun | frontend/src/pages/Simulator.tsx:469-561 | answering n emails with "Next Email" between them leaves the n-th result on screen with exactly those choices in effect |
| Trace.PlayCompletes | frontend/src/pages/Simulator.tsx:554-611 | one answer per email completes the session: the completion panel shows, the score is what the choices earned, "Next Email" is not rendered, and further answer clicks change nothing |
| Findings.DeckMaximum | frontend/src/pages/Simulator.tsx:20-257 | a perfect run of the deck earns 150 points |
| Findings.PerfectRunAccuracyAsWritten | frontend/src/pages/Simulator.tsx:600 | a run with every email judged correctly completes with an accuracy figure of 94 |
| Findings.FirstAnswerAccuracyAsWritten | frontend/src/pages/Simulator.tsx:400 | after the first email, an easy one, is judged correctly the accuracy figure reads 50 |
| Findings.WeightedAccuracy | frontend/src/pages/Simulator.tsx:600 | the corrected accuracy (score over the answered emails' maximum) never exceeds 100, is 100 for a history without a mistake, and for up to 66 answers only then |
| Findings.WeightedAccuracyOnDeck | frontend/src/pages/Simulator.tsx:600 | on the page's deck the corrected accuracy of a full run is 100 if and only if no judgment was wrong |
| Findings.BestStreak | frontend/src/pages/Simulator.tsx:605 | the corrected "Best Streak" is at least the current streak and at most the number of judgments |
| Findings.BestStreakIsUpperBound | frontend/src/pages/Simulator.tsx:605 | no moment of the history had a longer streak than the corrected best streak |
| Findings.BestStreakIsReached | frontend/src/pages/Simulator.tsx:605 | some moment of the history had exactly the corrected best streak |
| Findings.BestStreakAsWritten | frontend/src/pages/Simulator.tsx:605 | seven correct judgments and then a wrong one on the last email complete with "Best Streak" 0, while the longest run was 7 |

## Left out

- The 300 ms timer that sets `showFeedback` (Simulator.tsx:313-317) is left out because it is wall-clock cosmetics. The model never sets `showFeedback`; only `nextEmail` and `resetSimulation` clear it. The result panel is treated as visible whenever `showResult` holds.
- React batching and closures are not modelled. Each handler is one atomic sequential update of the state, reading the values the render saw.
- Floating point is not modelled. `Math.round(x)` for x ≥ 0 is exact rational rounding, ties up. The progress bar's unrounded width (Simulator.tsx:271, 414) is not modelled; only the rounded "N% Complete" figure (Simulator.tsx:409) is.
- The email body and explanation texts are not reproduced (they are empty strings in `PhishingEmails`), because no logic reads them. Senders, subjects and red flags are kept.
- JSX markup, Tailwind classes, animations, the difficulty badge (Simulator.tsx:438-444), the "Email N of 8" label and the `Link` navigation are presentation only.
- Home.tsx (bot-message rotation on a timer), Dashboard.tsx (static cards), BotCharacter.tsx (one toggle), App.tsx and Layout.tsx (routing and layout), and backend/src/server.ts (Express wiring and health endpoints with a timestamp) hold no session logic and are not part of this model.
- Invariant.CompleteIff: the link between completion and a progress figure of 100 is proved for decks of fewer than 200 emails, because with more, 100·(n−1)/n rounds to 100. The page's deck has eight.
- Findings.WeightedAccuracy: "100 only without a mistake" is proved for up to 66 answers, because beyond that one mistake can be rounded away. The page's deck has eight (Findings.WeightedAccuracyOnDeck).

## Findings

| source | as written | input that shows it | evidently intended | confidence | as-written member | corrected member |
|---|---|---|---|---|---|---|
| frontend/src/pages/Simulator.tsx:600 | completion accuracy is score / (8 × 20) × 100, i.e. twenty points per email whatever its difficulty | every email judged correctly: score 150, accuracy shown 94% | score as a share of the most the emails could earn, 100% for a perfect run | medium, not executed | Findings.PerfectRunAccuracyAsWritten | Findings.WeightedAccuracy |
| frontend/src/pages/Simulator.tsx:400 | live accuracy is score / (answered × 20) × 100 | first email (easy) judged correctly: accuracy shown 50% | score over the answered emails' maximum reward, 100% here | medium, not executed | Findings.FirstAnswerAccuracyAsWritten | Findings.WeightedAccuracy |
| frontend/src/pages/Simulator.tsx:605 | "Best Streak" shows the current streak | first seven emails right, last one wrong: shows 0 | the longest run of correct judgments, 7 here | medium, not executed | Findings.BestStreakAsWritten | Findings.BestStreak |

The page model (`Session.LiveAccuracy`, `Session.Completion`) keeps the figures
the page actually shows. The corrected figures are defined over the same choice
histories, beside them.
