# Quiz state machine, verified in Dafny

This project models the core of a small React quiz application. The application has five
hardcoded multiple-choice questions, a countdown clock, a score and a high score. All
progress goes through one `reducer`, which takes a state and an action and returns a new
state. The actions are `start`, `newAnswer`, `nextQuestion`, `finish`, `restart` and `tick`.
Any other action type throws.

- `app.dfy`, module `App`: the state record, the actions, the reducer as the total function
  `Step(s, a)`, `initialState`, `SECS_PER_QUESTION`, JavaScript's `indexOf`, and the
  `maxPossiblePoints` fold. Each reducer case has a lemma saying what it changes and that
  nothing else changes. The reducer's throws are a `Result` error:
  - `UnknownActionType` for the `default` branch;
  - `MissingQuestion` when `newAnswer` reads `questions[index]` beyond the list. In the
    source this is a `TypeError`.
- `app_runs.dfy`, module `AppRuns`: runs of several dispatches. It proves that:
  - the questions never change;
  - the high score never drops;
  - `k` ticks from `k` seconds leave the quiz active at 0, and one more tick ends it at -1;
  - the score never exceeds `maxPossiblePoints`, provided `newAnswer` is sent only while
    no answer is recorded;
  - an active quiz reached from the initial state never has a negative clock.
- `options.dfy`, module `Options`: the answer buttons. It covers which button is marked
  "correct" or "wrong", when the buttons are disabled, and which action a click
  dispatches. A lemma ties the "correct" mark to the reducer's scoring rule.
- `timer.dfy`, module `Timer`: the minutes/seconds split, the zero-padded `MM:SS` text
  (with a parser that reads it back), and the guard of the component's own tick interval.

The model follows the code as written, including these behaviours:
- `tick` compares the value before the decrement with 0, so the clock ends at -1.
- `tick` never updates the high score, even when it ends the quiz. `finish` does.
- `newAnswer` does not check that no answer was recorded yet, so a repeated answer scores again.
- `restart` takes its clock from the hardcoded list (25 seconds), not from the current questions.
- `indexOf` returns -1 when the correct option is absent, so a payload of -1 would then score.
  Clicks only ever send 0 or more.

## Model

| member | source | states |
|---|---|---|
| App.IndexOf | src/components/App.jsx:79 | `indexOf` returns -1 exactly when the value is absent; otherwise it returns a position holding the value with no earlier occurrence |
| App.CorrectIndex | src/components/App.jsx:79 | the answer key is -1 exactly when the correct option is not among the options; otherwise it is a position holding the correct option |
| App.IndexOfIsFirst | src/components/App.jsx:79 | a non-negative position is the result of `indexOf` exactly when the value first occurs there |
| App.Step | src/components/App.jsx:63-117 | the reducer throws exactly for an unknown action type, or for `newAnswer` with no question at `index`; a successful step never changes the questions, never lowers the high score, only `restart` moves the index back, and with positive question points only `restart` lowers the score |
| App.StartSpec | src/components/App.jsx:65-70 | `start` sets status active and the clock to 5 × number of questions; every other field is unchanged |
| App.StartHardcoded | src/components/App.jsx:65-70 | with the five hardcoded questions, `start` sets the clock to 25 |
| App.NewAnswerSpec | src/components/App.jsx:72-82 | `newAnswer(p)` records `p`; it adds the question's points exactly when `p` is the first position of the correct option (or `p` is -1 and the option is absent); other fields are unchanged |
| App.NewAnswerIgnoresPreviousAnswer | src/components/App.jsx:72-82 | with an answer already recorded, answering correctly again still adds points |
| App.NewAnswerMonotone | src/components/App.jsx:78-81 | with positive question points, `newAnswer` never lowers the score |
| App.NewAnswerWithoutQuestion | src/components/App.jsx:73 | `newAnswer` with no question at `index` throws |
| App.NewAnswerFirstQuestion | src/components/App.jsx:19-82 | on the first hardcoded question, payload 2 ("Paris") adds 1 point and payload 0 adds none |
| App.NextQuestionSpec | src/components/App.jsx:85-90 | `nextQuestion` increments the index and clears the answer; nothing else changes |
| App.FinishSpec | src/components/App.jsx:92-97 | `finish` sets status finished and the high score to the larger of the points and the old high score; nothing else changes |
| App.FinishIdempotent | src/components/App.jsx:92-97 | finishing twice gives the same state as finishing once |
| App.FinishScenario | src/components/App.jsx:92-97 | points 3 over high score 2 records 3; a later finish with 1 point keeps 3 |
| App.RestartSpec | src/components/App.jsx:99-105 | `restart` gives status ready, index 0, no answer, 0 points and a clock of 25; questions and high score carry over |
| App.RestartClockIgnoresQuestions | src/components/App.jsx:99-105 | with three questions, `restart` still sets 25 seconds while `start` then sets 15 |
| App.TickSpec | src/components/App.jsx:107-112 | `tick` always subtracts 1; it sets status finished only when the clock read 0 (leaving -1), otherwise keeps the status; the high score and all other fields are unchanged |
| App.TickFinishSkipsHighscore | src/components/App.jsx:92-112 | a quiz ended by `tick` can keep a high score below its points, where `finish` would record the points |
| App.UnknownActionThrows | src/components/App.jsx:114-115 | the reducer throws "Unknown action type" exactly for action types outside the six cases |
| App.InitialStateSpec | src/components/App.jsx:53-61 | the constant `App.InitialState`: the initial state is ready, index 0, no answer, 0 points, high score 0 and 25 seconds; its questions are worth 5 points in all, each one positive |
| App.MaxPossiblePoints | src/components/App.jsx:126-129 | the sum of all question points; with positive points it is at least the number of questions |
| App.MaxPossiblePointsAppend | src/components/App.jsx:126-129 | the points fold over a concatenation is the sum of the folds |
| App.MaxPossiblePointsPrefix | src/components/App.jsx:126-129 | with positive points, the fold over a shorter prefix is no larger |
| App.MaxPossiblePointsBounds | src/components/App.jsx:126-129 | with positive points, the fold is at least every single question's points |
| AppRuns.Run | src/components/App.jsx:63-117 | dispatching a sequence of actions in order never changes the question list and never lowers the high score |
| AppRuns.StepKeepsScoreBounded | src/components/App.jsx:63-117 | a dispatch that does not answer twice keeps the score within the points of the questions reached so far |
| AppRuns.RunKeepsScoreBounded | src/components/App.jsx:63-117 | the same holds for every run that answers each question at most once |
| AppRuns.PointsWithinMaximum | src/components/App.jsx:63-129 | from the initial state, if `newAnswer` is sent only while no answer is recorded, points never exceed `maxPossiblePoints` |
| AppRuns.RepeatedAnswersScore | src/components/App.jsx:72-82 | on the first hardcoded question, each repeated answer "Paris" adds one more point |
| AppRuns.RepeatedAnswerExceedsMaximum | src/components/App.jsx:72-82 | without the answer-once rule, `start` then six correct answers to the first question score 6, above the 5 of `maxPossiblePoints` |
| AppRuns.StepKeepsClockValid | src/components/App.jsx:63-117 | every dispatch keeps "active implies a non-negative clock": a tick at 0 also ends the quiz |
| AppRuns.RunKeepsClockValid | src/components/App.jsx:63-117 | every run keeps "active implies a non-negative clock" |
| AppRuns.ActiveClockNonNegative | src/components/App.jsx:53-117 | every active state reached from the initial state has a non-negative clock |
| AppRuns.Countdown | src/components/App.jsx:107-112 | from an active quiz with `k` seconds, `k` ticks leave it active at 0; one more ends it at -1 with nothing else changed |
| Options.HasAnswered | src/components/Options.jsx:2 | an answer counts as given exactly when it is not null |
| Options.Button | src/components/Options.jsx:8-14 | one button: never marked both ways, marked only once disabled, disabled exactly when answered, marked "correct" only on the correct option (or at -1 when it is absent), and its click dispatches `newAnswer` with its own position |
| Options.Buttons | src/components/Options.jsx:6-14 | one button per option, in order; the click on button `i` dispatches `newAnswer` with payload `i` |
| Options.CorrectMark | src/components/Options.jsx:9 | option `i` is marked "correct" exactly when an answer is recorded and `i` is the first position holding the correct option |
| Options.WrongMark | src/components/Options.jsx:10 | option `i` is marked "wrong" exactly when the recorded answer is `i` and `i` is not the correct position |
| Options.MarksAreExclusive | src/components/Options.jsx:9-10 | no option is marked both ways; at most one option carries each mark |
| Options.DisabledOnceAnswered | src/components/Options.jsx:2-13 | before an answer no option is marked or disabled; after it every option is disabled |
| Options.CorrectShownIffPresent | src/components/Options.jsx:9 | once answered, some option is marked "correct" exactly when the correct option is in the list |
| Options.ChosenIsMarked | src/components/Options.jsx:9-10 | the chosen option carries exactly one of the two marks |
| Options.ClickAgreesWithReducer | src/components/Options.jsx:14 | clicking option `i` records answer `i`, and the reducer adds the question's points exactly when option `i` is then marked "correct" |
| Timer.Mins | src/components/Timer.jsx:4 | for a non-negative clock, the minutes are the whole minutes it contains |
| Timer.Seconds | src/components/Timer.jsx:5 | for a non-negative clock, the seconds are below 60 and minutes × 60 + seconds is the clock |
| Timer.UnderAMinute | src/components/Timer.jsx:4-5 | under 60 seconds the minutes are 0 and the seconds are the clock |
| Timer.Decimal | src/components/Timer.jsx:23-24 | a number renders as digits with no leading zero except for 0 itself; one digit exactly below 10 |
| Timer.DecimalRoundTrip | src/components/Timer.jsx:23-24 | reading the rendered digits gives back the number |
| Timer.LeadingZero | src/components/Timer.jsx:22-23 | a leading "0" does not change the number read |
| Timer.Padded | src/components/Timer.jsx:22-24 | the padded text starts with "0" exactly when the number is below 10, and is two characters exactly when the number is below 100 |
| Timer.PaddedRoundTrip | src/components/Timer.jsx:22-24 | reading the padded text gives back the number |
| Timer.PaddedTwoDigits | src/components/Timer.jsx:22-24 | below 100 the padded text is the tens digit then the units digit |
| Timer.Display | src/components/Timer.jsx:22-24 | the clock text has at least five characters with the colon third from the end, and exactly five below 6000 seconds |
| Timer.DisplayRoundTrip | src/components/Timer.jsx:22-24 | for 0 ≤ clock < 6000 the display is five characters `MM:SS` and reads back as the clock |
| Timer.DisplayInjective | src/components/Timer.jsx:22-24 | different clocks below 6000 seconds display differently |
| Timer.StartClockText | src/components/Timer.jsx:22-24 | 25 seconds display as "00:25" |
| Timer.DisplayZeroIff | src/components/Timer.jsx:22-24 | a non-negative clock shows "00:00" exactly when it is 0 |
| Timer.MayTick | src/components/Timer.jsx:11 | the component's guard lets a tick through exactly when the clock is non-negative and does not show "00:00" |
| Timer.ReachedClockRenders | src/components/Timer.jsx:4-5 | in every active state reached from the initial state, the clock meets the display's non-negative precondition and renders |
| Timer.GuardedTickKeepsStatus | src/components/Timer.jsx:11 | a tick the component's `secondsRemaining > 0` guard lets through never ends the quiz and leaves the clock non-negative |

## Left out

- Rendering, CSS class strings and the component tree are not modelled. Only the booleans behind the "correct"/"wrong" classes, `disabled` and the click action are.
- `useReducer`, `useEffect` and the two `setInterval`/`clearInterval` tick drivers are not modelled. They are time-driven effects. The model is the state after each dispatch, and `Timer.MayTick` is the guard of the component's interval.
- The "loading" and "error" statuses are left out. They are rendered, but no reducer case produces them.
- Header, Main, Loader, Error, StartScreen, Question, NextButton, Progress, FinishScreen and Footer are not part of this model. Their source is not available.
- Timer.Mins, Timer.Seconds, Timer.Display: defined only for a non-negative clock. JavaScript's `Math.floor` and `%` differ from Dafny's `/` and `%` on negative numbers. The timer is shown only while the quiz is active, and `AppRuns.ActiveClockNonNegative` proves the clock is then non-negative.
- The prompt text of each question is not modelled. No rule reads it.
- Action payloads are integers. A missing payload (`undefined`) on `newAnswer` is not modelled, because clicks always send a position.
- Numbers are unbounded integers. JavaScript's floating-point numbers are exact over the small values involved.
