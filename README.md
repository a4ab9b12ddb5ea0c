# Christmas greetings page — a Dafny model

This project models the logic of a single-page Christmas greeting built with React. The page has five parts:

- **Countdown.** It counts down to a configured instant and shows days, hours, minutes and seconds, each padded to two digits. When the target is reached it shows a "Start the Celebration" heading instead.
- **Celebration sequence.** The "Start the Celebration" heading starts the sequence. It shows an overlay, registers six confetti cues at 100, 500, 1000, 2000, 3000 and 4000 ms, and registers a transition at 8000 ms. The transition replaces the overlay with the Christmas content.
- **Test mode.** The page also has a test mode that can be entered (`testCelebration`), skipped through and exited. In this build nothing reaches it: the button that calls `testCelebration` is commented out (`src/App.jsx:408-421`), and the `onCountdownEnd` prop that `App` passes it to is never read by the countdown. The test-mode handlers are modelled as written, so everything said about them applies once that button is restored.
- **Christmas-day screen.** It offers a menu of games. Clicking a game's button toggles it as the active game. The set of opened gifts belongs to this screen, so it survives switching between games.
- **Games.**
  - *Gift hunt:* a modal counts down from 3 once a second, then offers a "Reveal" button that marks the gift as opened.
  - *Snow-click game:* a 30-second round in which a flake is appended every 800 ms and every click scores 10 points.
  - *Quiz:* five questions; the score becomes a percentage and one of four verdicts. The quiz is modelled, but its entry in the menu is commented out (`src/components/ChristmasDay.jsx:18`), so this build never renders it.
- **Timers.** Browser timers become explicit steps. Each interval callback is a method (`Countdown.Countdown.Tick`, `GiftHunt.GiftHunt.TimerTick`, `SnowClick.SnowClick.Spawn`). App's own one-shot timeouts form a queue, ordered by due time, inside `App.App`. The quiz's 1200 ms celebration timeout and the snow game's 30 s game timeout are one-shot too; each is a separate step (`ChristmasQuiz.Quiz.CelebrationTimeout`, `SnowClick.SnowClick.GameTimeout`). `App.App.FireNext` is the event loop running the earliest of them, and `App.App.RunPending` runs them all.

Each component becomes a class whose fields are the component's state variables. Its methods are the event handlers, each proved against what the handler does to that state. The pure parts are functions, with lemmas proving what the page relies on:

- the time decomposition and its inverse;
- the padded number reads back as the number;
- the scores and the verdicts;
- the snowflake filter;
- the game table;
- the merge of timer queues;
- the run of the whole sequence.

The "is it Christmas Day" test in `src/App.jsx` compares the current month with the configured *year*. It is modelled as written (`App.ChristmasDayCheck`), and `App.ChristmasDayCheckNeverHolds` shows that it never holds for any real year. Its only effect is on `isChristmasDay`, because the call that would start the celebration from it is commented out in the source.

## Model

| member | source | states |
|---|---|---|
| App.CueScheduleWellTimed | src/App.jsx:139-257 | The six cue offsets strictly increase, and each cue, including the 3000 ms burst loop and the 5000 ms snowfall, ends by the 8000 ms transition. |
| App.SequenceTimers | src/App.jsx:95-108 | One start registers seven timeouts in due order, all after the start. The 8000 ms transition comes last. |
| App.SequenceTimersAt | src/App.jsx:139-257 | Timeout `i` of a start is cue `i` of the schedule, due strictly between the start and the transition. |
| App.MergeHead | src/App.jsx:95-108 | The first timeout of a merged queue is the earlier of the two heads; on a tie, the one registered first. |
| App.MergePermutes | src/App.jsx:95-108 | Registering more timeouts keeps every earlier one: the merged queue is a permutation of both queues together. |
| App.MergeSorted | src/App.jsx:95-108 | Merging two queues ordered by due time gives a queue ordered by due time. |
| App.MergeQueues | src/App.jsx:95-108 | A queue none of whose timeouts is due before the clock stays so after new registrations. |
| App.CuesInAppend | src/App.jsx:139-257 | Running two queues in turn fires the cues of both, in order, and reaches the transition iff one of them holds it. |
| App.CueTimersRun | src/App.jsx:139-257 | The cue timeouts fire the schedule's cues in schedule order and never the transition. |
| App.SequenceTimersRun | src/App.jsx:95-108 | One registration of the sequence, run out, fires all six cues in order and reaches the transition. |
| App.ChristmasDayCheckNeverHolds | src/App.jsx:59 | Comparing the month (0..11) with a configured year of 12 or more is false for every date. |
| App.App.constructor | src/App.jsx:22-27 | On mount every flag is false, no timeout is pending and the periodic check is installed. |
| App.App.CheckChristmasDay | src/App.jsx:42-82 | While the periodic check is installed, a run sets `isChristmasDay` to the month-versus-year test and changes nothing else. |
| App.App.StartChristmasSequence | src/App.jsx:95-108 | Shows the overlay, stops the periodic check and merges the seven timeouts into the queue. Decorations are hidden afterwards. |
| App.App.Advance | src/App.jsx:95-108 | Time passes up to, but not past, the earliest pending timeout, and nothing fires. With `FireNext` this lets the clock reach any moment, so a later start of the sequence can overlap an earlier run. |
| App.App.FireNext | src/App.jsx:103-107 | Runs the earliest timeout at its due time. A cue is recorded as fired. The transition hides the overlay and shows the content, so the countdown is gone. |
| App.App.RunPending | src/App.jsx:103-107 | Running every pending timeout fires exactly the queue's cues, in order. The content shows iff it did or a transition was pending, and the clock ends at the last due time. |
| App.App.TestCelebration | src/App.jsx:263-276 | Enters test mode, sets the day and triggered flags and starts the sequence, so the overlay's skip and exit buttons show. The content flag, the reached flag and the clock are unchanged. |
| App.App.ExitTestMode | src/App.jsx:279-286 | Clears the five flags and reinstalls the periodic check if test mode was on. The countdown and decorations show again and no test button does; the reached flag and the pending timeouts are unchanged. |
| App.App.ExitTestModeCancelling | src/App.jsx:279-286 | As `ExitTestMode`, and every pending timeout is cancelled. |
| App.App.SkipToChristmasContent | src/App.jsx:289-292 | Hides the overlay and shows the content, so the countdown is gone. The "Back to Countdown" button shows iff test mode is on. |
| App.ExitDuringOverlayShowsContentLater | src/App.jsx:279-286 | Exiting test mode during the overlay, as written: once the timeouts run out, the content is shown, the countdown is not, and no "Back to Countdown" button is offered. |
| App.ExitDuringOverlayCancelledStaysOnCountdown | src/App.jsx:279-286 | With cancelling exit, the countdown is still shown after every timeout has run. |
| App.Cues | src/App.jsx:139-257 | The cues of a schedule, one per entry, in entry order. |
| App.RunSequence | src/App.jsx:95-108 | From a fresh page, the sequence fires the six cues in schedule order. The content replaces the overlay exactly 8000 ms after the start. |
| Countdown.Decompose | src/components/Countdown.jsx:39-54 | The parts are well formed: hours below 24, minutes and seconds below 60. A difference that is not positive gives all zeros, and so does one below a second. |
| Countdown.DivModUnique | src/components/Countdown.jsx:49-54 | Quotient and remainder by a positive divisor are the unique pair that rebuilds the dividend. |
| Countdown.DecomposeInSeconds | src/components/Countdown.jsx:49-54 | The millisecond formulas equal splitting the whole seconds left into days, hours, minutes and seconds. |
| Countdown.DecomposeReconstructs | src/components/Countdown.jsx:49-54 | The four parts add back up to the whole seconds left. |
| Countdown.UnitsOfTotalSeconds | src/components/Countdown.jsx:49-54 | The parts of a well-formed time left are the quotients and remainders of its total seconds. |
| Countdown.DecomposeInverts | src/components/Countdown.jsx:49-54 | Decomposing the milliseconds of a well-formed time left, plus under a second, gives it back. |
| Countdown.DecimalString | src/components/Countdown.jsx:81 | `String(value)` is a non-empty run of decimal digits with no leading zero, one digit exactly below 10 and at most two below 100. |
| Countdown.DigitChar | src/components/Countdown.jsx:81 | The digit character of a digit has that value. |
| Countdown.ParseDecimalString | src/components/Countdown.jsx:81 | Reading the decimal string of a number back gives the number. |
| Countdown.NumberDisplay | src/components/Countdown.jsx:81 | Padding to two characters with '0' puts a zero before a single digit and leaves longer numbers unchanged, so 10 to 99 show as exactly two digits. |
| Countdown.NumberDisplayReadsBack | src/components/Countdown.jsx:81 | The padded display reads back as the number shown. |
| Countdown.Countdown.constructor | src/components/Countdown.jsx:24-69 | Mounting computes the time left once. It raises the reached flag if the target has passed and installs the interval otherwise. |
| Countdown.Countdown.Tick | src/components/Countdown.jsx:24-69 | While the target is unreached, a tick recomputes the time left and raises the flag when the difference is not positive. Once reached, nothing changes. |
| Countdown.Countdown.StartCelebrationClicked | src/components/Countdown.jsx:114 | Clicking the heading shown at the target starts the host's sequence at the current time: the overlay shows, the periodic check stops, the seven timeouts join the queue, and nothing else on the page changes. |
| ChristmasQuiz.QuestionsWellFormed | src/components/games/ChristmasQuiz.jsx:45-96 | Five questions of four options each, whose correct index is one of the options. |
| ChristmasQuiz.CountCorrect | src/components/games/ChristmasQuiz.jsx:98-102 | The number of correct answers is at most the number of answers, and equals it iff every answer is correct. |
| ChristmasQuiz.PercentageOfFive | src/components/games/ChristmasQuiz.jsx:126 | With five questions, the rounded percentage of a score is twenty times the score. |
| ChristmasQuiz.ResultForScore | src/components/games/ChristmasQuiz.jsx:145-151 | Five correct is "Perfect", four "Great job", three "Good effort", and two or fewer "Nice try". |
| ChristmasQuiz.PerfectIffAllCorrect | src/components/games/ChristmasQuiz.jsx:126-151 | A complete round gets "Perfect" iff every answer is correct. |
| ChristmasQuiz.Quiz.constructor | src/components/games/ChristmasQuiz.jsx:10-14 | The quiz starts at question 0 with score 0, no result and no celebration. |
| ChristmasQuiz.Quiz.ScoreWithinProgress | src/components/games/ChristmasQuiz.jsx:98-117 | The current question is always a valid index, and the score never exceeds the questions answered. |
| ChristmasQuiz.Quiz.HandleAnswer | src/components/games/ChristmasQuiz.jsx:98-117 | A correct answer adds one to the score and to the celebration key and shows the celebration. The quiz then moves on, or shows the result after the last question. |
| ChristmasQuiz.Quiz.CelebrationTimeout | src/components/games/ChristmasQuiz.jsx:107-109 | The 1200 ms timeout hides the celebration. |
| ChristmasQuiz.Quiz.ResetQuiz | src/components/games/ChristmasQuiz.jsx:119-123 | Back to question 0 with score 0 and no result. |
| ChristmasQuiz.Quiz.Result | src/components/games/ChristmasQuiz.jsx:125-151 | The verdict on the result screen is "Perfect" iff every answer given was correct. |
| GiftHunt.GiftNamesUnique | src/components/games/GiftHunt.jsx:42-63 | The twenty gift names are pairwise distinct, so marking one as opened marks exactly one gift. |
| GiftHunt.TimerStep | src/components/games/GiftHunt.jsx:123-134 | The timer updater never goes below zero and strictly decreases while positive; the 3-2-1 run itself is `GiftHunt.TimerCountsDown`. |
| GiftHunt.TimerCountsDown | src/components/games/GiftHunt.jsx:122-135 | After `k` ticks from `n`, the timer shows `n - k`, or 0 from the `n`-th tick on. |
| GiftHunt.GiftStore.constructor | src/components/ChristmasDay.jsx:15 | The opened-gift set starts empty. |
| GiftHunt.GiftHunt.constructor | src/components/games/GiftHunt.jsx:34-37 | Mounting: modal closed, nothing selected, timer 5, not revealed. |
| GiftHunt.GiftHunt.HandleGiftClick | src/components/games/GiftHunt.jsx:104-139 | While the modal is open a click does nothing. Otherwise the gift is selected and the modal opens. An opened gift shows the disabled button labelled with its name; any other shows the count from 3 with the interval running. |
| GiftHunt.GiftHunt.TimerTick | src/components/games/GiftHunt.jsx:122-135 | A tick applies the updater, and the interval stops once the timer reaches 0. The modal then shows the count one lower, or the selected gift's reveal view after the last tick. |
| GiftHunt.GiftHunt.HandleReveal | src/components/games/GiftHunt.jsx:141-145 | Callable only in the reveal view (timer at zero) while the button is enabled. The gift shows as revealed, and its name is added to the shared opened set. |
| GiftHunt.GiftHunt.HandleCloseModal | src/components/games/GiftHunt.jsx:147-156 | Callable only in the reveal view (timer at zero). Closes the modal, clears the selection, marks the gift opened, resets the timer to 3 and stops the interval. |
| GiftHunt.GiftHunt.Modal | src/components/games/GiftHunt.jsx:297-343 | The modal is closed without a selection. While the timer is positive it shows the timer's value, and then the gift with a "Reveal" button that is disabled and labelled with the name once revealed. |
| GiftHunt.CountdownThenReveal | src/components/games/GiftHunt.jsx:104-139 | A click on an unopened gift shows 1 after two ticks and the enabled "Reveal" button after three. |
| SnowClick.WithoutId | src/components/games/SnowClick.jsx:30 | Filtering by id never lengthens the list and leaves no flake with that id. |
| SnowClick.WithoutIdMembers | src/components/games/SnowClick.jsx:30 | A flake remains iff it was there and its id differs from the clicked one. |
| SnowClick.WithoutIdCons | src/components/games/SnowClick.jsx:30 | The filter keeps a leading flake iff its id differs. |
| SnowClick.WithoutIdAppend | src/components/games/SnowClick.jsx:30 | The filter distributes over concatenation, so the remaining flakes keep their order. |
| SnowClick.WithoutIdCounts | src/components/games/SnowClick.jsx:30 | A flake with the clicked id disappears entirely, and every other flake keeps its multiplicity. |
| SnowClick.WithoutIdIdempotent | src/components/games/SnowClick.jsx:30 | Removing an id twice is removing it once, and removing an absent id changes nothing. |
| SnowClick.SnowClick.constructor | src/components/games/SnowClick.jsx:9-11 | The game starts with score 0, no flakes and no active round. |
| SnowClick.SnowClick.HandleSnowflakeClick | src/components/games/SnowClick.jsx:28-31 | A click adds 10 points and removes the flakes with that id, keeping the rest in order, active round or not. |
| SnowClick.SnowClick.StartGame | src/components/games/SnowClick.jsx:33-36 | A fresh active round with score 0 and no flakes, and no final score shown. |
| SnowClick.SnowClick.GameTimeout | src/components/games/SnowClick.jsx:37-39 | After 30 s the round ends, and the final score shows iff something was scored. |
| SnowClick.SnowClick.Spawn | src/components/games/SnowClick.jsx:13-26 | During a round the 800 ms interval appends the new flake; otherwise no interval runs. |
| ChristmasDay.Find | src/components/ChristmasDay.jsx:25 | `find` gives nothing iff no game has the id. Otherwise it gives a game with that id, and a match at the front wins. |
| ChristmasDay.FindFirst | src/components/ChristmasDay.jsx:25 | `find` returns the first entry with the id, whatever entries with the same id follow it. |
| ChristmasDay.ComponentFor | src/components/ChristmasDay.jsx:24-26 | No active game gives no component. An active id gives a component iff some game has that id, and then it is that game's component. |
| ChristmasDay.GameTable | src/components/ChristmasDay.jsx:17-22 | The three ids are distinct and map to gift hunt, spin wheel and snow click. The commented-out quiz gives nothing. |
| ChristmasDay.MenuClick | src/components/ChristmasDay.jsx:95-97 | For every state of the menu, clicking a game's button renders nothing if that game was shown, and that game's component otherwise. |
| ChristmasDay.ToggleTwice | src/components/ChristmasDay.jsx:95-97 | Clicking the same button twice from no active game ends with no active game. |
| ChristmasDay.ChristmasDay.constructor | src/components/ChristmasDay.jsx:14-15 | No active game, and a new empty opened-gift set. |
| ChristmasDay.ChristmasDay.SelectGame | src/components/ChristmasDay.jsx:95-97 | The active game is toggled, and the opened gifts are untouched. |
| ChristmasDay.ChristmasDay.MountGiftHunt | src/components/ChristmasDay.jsx:113-116 | A freshly mounted gift hunt shares this screen's opened-gift set, which mounting does not change. |
| ChristmasDay.OpenedGiftsSurviveSwitching | src/components/ChristmasDay.jsx:14-15 | A gift opened in one gift hunt is still opened after switching to another game and back to a new gift hunt. |
| ChristmasDay.OpenGift | src/components/games/GiftHunt.jsx:104-156 | Clicking a gift, letting the three ticks run the countdown to zero and pressing Close adds exactly that gift to the opened set, whether or not it was opened before. |

## Left out

- Clocks and dates: `new Date(...)`, the configured constants and time zones are not modelled. The countdown receives the target and the current time as millisecond integers. `checkChristmasDay` receives the current month and day of the month. `src/constants.js` is not part of this model.
- App.App.CheckChristmasDay: the `isSpecificDateTime` comparison is left out, because its only use is the commented-out call that would start the celebration.
- App.App.CheckChristmasDay: the immediate call when the effect is installed again is not a separate step. It is one more call of this method.
- Audio is left out, because it has no effect on the page's state: the firework and clock sounds, `startCelebrationAudio`, `pauseCelebrationAudio` and `fadeOutAudio` with its volume steps.
- Confetti is left out for the same reason: the particle options, `confetti.reset()`, the animation-frame loop of the bursts and the 250 ms snowfall interval. Each cue is recorded as fired at its offset, and the lengths of its repeating loops are stated by `App.CueScheduleWellTimed`.
- Animation, styling and icons: framer-motion props, CSS classes such as the "opened" and "blurred" gift boxes, and the gift icons.
- Other components: `SpinWheel`, `Snowfall`, `Stars`, `Comet`, `Santa`, `ChristmasTree` and `popupModal` are not part of this model, beyond the spin wheel's entry in the game table.
- Countdown: the `onCountdownEnd` prop that `App` passes is never read by the countdown, so it is left out.
- React batching and effect ordering: each handler is one atomic step, and a state update applies at once. Where the source relies on the old value inside the same handler, the model uses it. An example is `handleCloseModal` marking the still-selected gift as opened.
- App.App.FireNext: requires a non-empty queue, because the event loop only runs a timeout that exists. Intervals are separate methods, not entries in the queue.
- Countdown.Countdown.Tick: the interval is re-installed when the effect runs again, and that is not a separate step. A tick is also a no-op once the target is reached, because the effect removes the interval then.
- The dependency between the countdown and the page is reversed. `Countdown` imports `App` and writes the page's `hasReachedTarget` through its `host`, which stands for the `setHasReachedTarget` prop.
- App.App.ExitTestMode: the code leaves `hasReachedTarget` as it is, so after an exit the countdown shows the "Start the Celebration" heading again if the target had been reached. The model follows the code.
- SnowClick: flake ids are `Date.now() + Math.random()` and positions `Math.random() * 100`. Both are parameters of `Spawn`, and the delay field is left out.
- ChristmasQuiz.Percentage: `Math.round` of a floating-point quotient is modelled as exact rounding half up on integers, which agrees on every score of a five-question quiz.
- ChristmasQuiz.Quiz.HandleAnswer: requires that the result is not shown, because the answer buttons are not rendered on the result screen.
- GiftHunt.GiftHunt.HandleGiftClick: requires one of the twenty listed gifts, the only ones the grid renders.
- GiftHunt.GiftHunt.HandleReveal: requires a selected gift, a zero timer and no earlier reveal, because the button is drawn only in the reveal view (src/components/games/GiftHunt.jsx:298, 327-333) and is disabled once revealed. GiftHunt.GiftHunt.HandleCloseModal likewise requires the reveal view, where its button is drawn (src/components/games/GiftHunt.jsx:335-340).
- App.App.clock: only the page's own timeouts read the simulated clock. The countdown's `Tick` receives its current time, and `CheckChristmasDay` its month and day, as parameters that are not tied to `clock`.
- The unmount clean-ups of intervals and audio are left out; a new mount is a new object.

## Findings

| source | as written | input that shows it | evidently intended | confidence | as-written member | corrected member |
|---|---|---|---|---|---|---|
| src/App.jsx:279-286 | `exitTestMode` clears the view flags but does not cancel the 8000 ms timeout registered at src/App.jsx:103-107. Latent in this build, because nothing calls `testCelebration` while its button is commented out. | With the test button restored, start the test celebration, exit test mode while the overlay shows, then let the timeouts run: at 8000 ms the Christmas content replaces the countdown although test mode is off, and no button leads back. | Exiting test mode cancels the pending sequence, so the countdown stays on screen (proved in `App.ExitDuringOverlayCancelledStaysOnCountdown`). | not executed | App.ExitDuringOverlayShowsContentLater | App.App.ExitTestModeCancelling |
