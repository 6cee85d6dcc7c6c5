# Flip-clock timer: timekeeping and flip-digit model

This project models in Dafny the core of a full-screen flip-clock timer. The core has three parts:

- **The App's timekeeping state** (`timekeeping.dfy`, module `Timekeeping`). This covers the mode (clock or countdown), the countdown configuration `countdownTime`, the remaining `countdown`, `isCountdownRunning`, `pendingTime`, `effectiveTime` and the displayed `time`. Each handler and interval callback is a pure transition on a `State` value:
  - setting one configuration unit
  - start
  - the one-second countdown tick
  - the clock tick, which takes the host clock as a parameter
  - the display-derivation effect
  - add and clear of the pending time
  - mode change

  The class `Timekeeping.App` holds the same fields and performs the same transitions imperatively. Each of its methods ensures `View() == Transition(old(View()))`. The properties are lemmas about the transitions:
  - running for exactly `T` ticks after a start of `T` seconds
  - the pending time is assigned once
  - the invariant `isCountdownRunning <==> countdown > 0`
  - the derivation of the display
  - mode independence
  - the Add/Clear accounting
- **The flip-digit engine** (`flip_clock.dfy`, module `FlipClock`). The time is padded into a six-character snapshot `HHMMSS`. A slot gets a flip when its previous value is defined and differs from the new digit. The snapshot kept afterwards is `timeStr.split('')`. The class `FlipClock.FlipClock` holds the six-entry `prevDigits` array, which starts as all `null`. Its `OnTick` returns two things: the rendered children (digits, with colons after slots 1 and 3) and the flip instructions `{slot, from, to}`. The lifecycle of a flip overlay is modelled as events:
  - `animationend`
  - the 600 ms timeout, which is guarded by `parentNode`
- **The duration formatter** (`effective_time.dfy`, module `EffectiveTime`). `formatTime` turns seconds into `H:M:S`, with each field padded to two digits. Its partner is a reader, `ParseTime`, which splits on `':'` and parses the fields. The project proves that reading back a formatted value returns the original number of seconds. The module also holds the enabled condition of the Add and Clear buttons.

Shared pieces:
- `decimal.dfy` (module `Decimal`) holds `toString()` and `padStart(2, '0')` on non-negative integers, with a decimal reader.
- `duration.dfy` (module `Duration`) holds the `{hours, minutes, seconds}` triple and its split from seconds (`floor` division and `%`). The App's display and `formatTime` both use this split.

JavaScript numbers are modelled as unbounded non-negative integers. All values are non-negative: the configuration is clamped at zero, and the countdown and the times derive from it. So `Math.floor` of a quotient and `%` agree with Dafny's `/` and `%`. The model matches JavaScript only while values stay below 2^53 (see "## Left out").

Behaviour of the code that a reader might not expect:
- A mode change only sets `mode`. It does not stop or reset a running countdown. The countdown interval keeps ticking in clock mode (`TickIgnoresMode`).
- On completion, `pendingTime` is the total of the configuration read at completion time, not the total that was started. Editing the configuration during a run changes what is credited (`CreditUsesConfigAtCompletion`, `EditDuringRunCreditsNothing`).
- The first render does not paint statically. `prevDigits` starts as six `null`s and `null !== undefined`, so all six slots flip from the placeholder (`FirstRenderFlipsAll`).
- After the clock is switched to clock mode, the display keeps its last value until the clock interval first fires. `ClockTick` is the only writer of `time` in clock mode.

## Model

| member | source | states |
|---|---|---|
| `Decimal.ToString` | src/components/FlipClock/FlipClock.js:10 | `toString()` is a non-empty digit string with no leading zero (unless it is `"0"`); it is one digit exactly below 10 and at most two digits exactly below 100 |
| `Decimal.Pad2` | src/components/FlipClock/FlipClock.js:10 | `pad(n)` has at least two characters, and exactly two iff `n < 100`; it starts with `'0'` iff `n < 10`, so with `Pad2Reads` it is `toString()` with one zero prepended below 10 and `toString()` itself otherwise |
| `Decimal.ParseToString` | src/components/FlipClock/FlipClock.js:10 | reading the decimal text of `n` gives `n` back |
| `Decimal.Pad2Reads` | src/components/FlipClock/FlipClock.js:10 | `pad(n)` is all digits, reads as the decimal value `n`, is at least two wide, and is exactly two wide iff `n < 100` |
| `Decimal.Pad2OfZero` | src/components/EffectiveTime/EffectiveTime.js:17 | padding 0 gives `"00"` |
| `Duration.TotalSeconds` | src/App.js:126-127 | `hours*3600+minutes*60+seconds` is 0 exactly for the all-zero configuration, the one `start` ignores |
| `Duration.FromSeconds` | src/App.js:67-69 | the split `(c/3600, (c%3600)/60, c%60)` recombines to `c`, with minutes and seconds in 0..59 |
| `Duration.FromSecondsUnique` | src/components/EffectiveTime/EffectiveTime.js:14-16 | a triple with minutes and seconds below 60 is the split of its own total, so the split is the only such decomposition |
| `Duration.FromSecondsHoursBelow100` | src/App.js:67 | the hours field is below 100 exactly when fewer than 360000 seconds remain |
| `EffectiveTime.FormatTime` | src/components/EffectiveTime/EffectiveTime.js:13-18 | the text is at least 8 characters, and exactly 8 iff `seconds < 360000` (hours are not capped at two digits) |
| `EffectiveTime.FormatTimeFields` | src/components/EffectiveTime/EffectiveTime.js:13-17 | the output is three `':'`-separated fields; each field is all digits, at least two wide, and reads as hours, minutes (<60) and seconds (<60) of the input |
| `EffectiveTime.FormatTimeRoundTrip` | src/components/EffectiveTime/EffectiveTime.js:13-18 | parsing the three fields back gives `h*3600+m*60+s`, which is the original seconds |
| `EffectiveTime.FormatTimeInjective` | src/components/EffectiveTime/EffectiveTime.js:13-18 | distinct inputs give distinct outputs |
| `EffectiveTime.FormatTimeWidth` | src/components/EffectiveTime/EffectiveTime.js:17 | below 360000 seconds the output has exactly 8 characters, `':'` at indices 2 and 5, and digits elsewhere |
| `EffectiveTime.FormatTimeOfZero` | src/components/EffectiveTime/EffectiveTime.js:17 | `formatTime(0)` is `"00:00:00"` |
| `EffectiveTime.ButtonsEnabled` | src/components/EffectiveTime/EffectiveTime.js:48-61 | Add and Clear are enabled exactly when `pendingTime > 0` (`disabled={pendingTime === 0}` on a non-negative value) |
| `FlipClock.TimeString` | src/components/FlipClock/FlipClock.js:81-82 | the snapshot has exactly six characters iff every field is below 100 |
| `FlipClock.TimeStringSlots` | src/components/FlipClock/FlipClock.js:81-82 | with two-digit fields the snapshot is six digits: hours in slots 0-1, minutes in 2-3, seconds in 4-5 |
| `FlipClock.TimeStringInjective` | src/components/FlipClock/FlipClock.js:82 | distinct displayable times give distinct snapshots |
| `FlipClock.FlipsFrom` | src/components/FlipClock/FlipClock.js:32 | the `null` placeholder always flips, `undefined` never does, and a digit flips iff it differs from the new digit |
| `FlipClock.RenderDigit` | src/components/FlipClock/FlipClock.js:12-50 | the top and bottom halves show the new digit; an overlay is added iff the previous value is not undefined and differs from the digit; the overlay shows the previous value |
| `FlipClock.Retained` | src/components/FlipClock/FlipClock.js:101 | the kept snapshot has one entry per character, and entry `i` is character `i` |
| `FlipClock.DiffSlotsExact` | src/components/FlipClock/FlipClock.js:87-90 | the set of slots given a flip is exactly the set of slots whose previous value is defined and differs from the new digit |
| `FlipClock.DiffCarriesDigits` | src/components/FlipClock/FlipClock.js:32-38 | every instruction has `from = prevDigits[slot]` and `to = timeStr[slot]`; instructions come in increasing slot order |
| `FlipClock.NoFlipsWhereUnchanged` | src/components/FlipClock/FlipClock.js:32 | slots whose retained digit equals the new digit never flip |
| `FlipClock.RerenderNoFlips` | src/components/FlipClock/FlipClock.js:101 | rendering the same time again after the snapshot is kept emits no flips |
| `FlipClock.FirstRenderFlipsAll` | src/components/FlipClock/FlipClock.js:6 | from the all-`null` initial state every slot `k` flips, with instruction `{k, null, timeStr[k]}` |
| `FlipClock.LastDigitFlip` | src/components/FlipClock/FlipClock.js:87-90 | going from `123456` to `123457` emits only `{5, '6', '7'}` |
| `FlipClock.MinuteRolloverFlips` | src/components/FlipClock/FlipClock.js:87-90 | going from `005959` to `010000` flips slots 1 to 5 but not slot 0 |
| `FlipClock.RenderLayout` | src/components/FlipClock/FlipClock.js:87-99 | the container gets 8 children in the order d d : d d : d d, and digit element `k` is rendered from slot `k` |
| `FlipClock.OnOverlayEvent` | src/components/FlipClock/FlipClock.js:40-48 | either event leaves the overlay removed: `animationend` removes it, and the timeout removes it when attached and does nothing once `parentNode` is gone |
| `FlipClock.DetachedStays` | src/components/FlipClock/FlipClock.js:44-48 | once removed, an overlay stays removed whatever fires next; the second removal is a no-op |
| `FlipClock.OverlayRemovedIffAnyEvent` | src/components/FlipClock/FlipClock.js:40-48 | the overlay is removed iff at least one of animation end and timeout has fired; it is removed by whichever comes first |
| `FlipClock.OverlayGoneBeforeNextTick` | src/components/FlipClock/FlipClock.js:44-48 | on any timeline of overlay events where the removal timeout (set for 600 ms, which may fire late) fires within 1000 ms of the render, whatever else fires and in whatever order, the overlay is removed by 1000 ms after its render, the period of both intervals |
| `FlipClock.FlipClock.constructor` | src/components/FlipClock/FlipClock.js:6 | `prevDigits` starts as six `null`s |
| `FlipClock.FlipClock.OnTick` | src/components/FlipClock/FlipClock.js:78-107 | returns the children and flips of the diff between the old `prevDigits` and the new snapshot, and replaces `prevDigits` with a fresh array holding the new snapshot |
| `FlipClock.FlipClock.RenderSlots` | src/components/FlipClock/FlipClock.js:87-99 | the slot loop builds exactly the children and flips that the diff's specification gives, reading the current `prevDigits` |
| `Timekeeping.ClampNonNegative` | src/App.js:121 | `Math.max(0, value)`: 0 for a negative value, the value otherwise |
| `Timekeeping.SetCountdownUnit` | src/App.js:118-123 | stores `max(0, value)` in the edited unit; the other two units and every other field are unchanged |
| `Timekeeping.StartCountdown` | src/App.js:125-132 | with total > 0: `countdown` becomes the total and running becomes true, nothing else changes; with total 0: the state is unchanged |
| `Timekeeping.ArmedIffRunning` | src/App.js:45 | under the invariant, the countdown interval is armed exactly while `isCountdownRunning` holds; the `countdown > 0` conjunct adds nothing |
| `Timekeeping.CountdownTick` | src/App.js:44-61 | not armed: no change. `prev > 1`: `countdown` drops by one and the countdown stays running. `prev <= 1`: `countdown` becomes 0, running becomes false, `pendingTime` becomes the current configuration's total. Nothing else changes, and `mode` is never read |
| `Timekeeping.CountdownDisplay` | src/App.js:66-73 | while running or with time left, the display recombines to `countdown` with minutes and seconds below 60; otherwise it is the configuration |
| `Timekeeping.UpdateDisplay` | src/App.js:64-75 | in countdown mode only `time` changes, to the derived display; in clock mode nothing changes |
| `Timekeeping.ClockTick` | src/App.js:28-41 | in clock mode only `time` changes, to the host clock reading; in countdown mode nothing changes |
| `Timekeeping.AddEffectiveTime` | src/App.js:141-146 | `pendingTime` becomes 0, `effectiveTime + pendingTime` is conserved, and nothing else changes; with nothing pending it is a no-op |
| `Timekeeping.ClearPendingTime` | src/App.js:148-150 | `pendingTime` becomes 0; `effectiveTime` and all else are unchanged |
| `Timekeeping.ChangeMode` | src/App.js:113-116 | only `mode` changes; countdown, running flag and configuration are untouched |
| `Timekeeping.InitialInv` | src/App.js:12-18 | the initial state satisfies the invariant and displays its configuration |
| `Timekeeping.CommitKeepsInv` | src/App.js:44-75 | every handler or interval firing, followed by the display effect, keeps `isCountdownRunning <==> countdown > 0`, and keeps the countdown-mode display in step with the countdown state |
| `Timekeeping.RunKeepsInv` | src/App.js:44-75 | the invariant holds after any sequence of events |
| `Timekeeping.SyncedDisplayIsFixpoint` | src/App.js:64-75 | when the invariant holds, the display effect changes nothing |
| `Timekeeping.TicksCountDown` | src/App.js:44-61 | from an armed countdown of `c`, `k <= c` ticks leave `c - k`; it is running iff `k < c`; `pendingTime` changes only at `k = c`, to the configured total; nothing else changes |
| `Timekeeping.CompletesOnlyOnLastTick` | src/App.js:47-53 | of the first `c` ticks only the `c`-th takes the completion branch, so `pendingTime` is assigned exactly once |
| `Timekeeping.DisarmedTicksAreInert` | src/App.js:45 | once the countdown is stopped, further ticks change nothing |
| `Timekeeping.StartThenRunToEnd` | src/App.js:125-131 | start with total `T > 0` followed by `T` ticks ends with `countdown == 0`, not running and `pendingTime == T`; mode, configuration and effective time are unchanged |
| `Timekeeping.CreditUsesConfigAtCompletion` | src/App.js:44-61 | a configuration edit during a run does not change when the run ends, but the credited total is the edited configuration's |
| `Timekeeping.EditDuringRunCreditsNothing` | src/App.js:50 | start the initial 30 minutes, then set the minutes to 0: after 1800 ticks nothing is pending |
| `Timekeeping.TickIgnoresMode` | src/App.js:113-116 | a countdown tick commutes with a mode change, and a mode change keeps the countdown and its running flag |
| `Timekeeping.CountdownModeDisplay` | src/App.js:64-75 | in countdown mode with time left or running, the display is `(c/3600, (c%3600)/60, c%60)` with `h*3600+m*60+s == c` and minutes and seconds in 0..59; otherwise it is `countdownTime` |
| `Timekeeping.StartShowsConfiguration` | src/App.js:66-69 | starting a configuration whose minutes and seconds are below 60 displays that configuration unchanged |
| `Timekeeping.CompletionShowsConfiguration` | src/App.js:71-73 | when the countdown completes, the display returns to the configuration |
| `Timekeeping.CountdownDisplayFits` | src/App.js:67-69 | below 360000 seconds, and with a configuration of two-digit fields, the display fits the six flip-clock slots |
| `Timekeeping.ButtonsEnabledExactlyWhenEffective` | src/App.js:141-150 | Add changes the state iff its button is enabled, and so does Clear |
| `Timekeeping.AddOnce` | src/App.js:141-146 | Add credits `pendingTime` to `effectiveTime`; a second Add and a following Clear change nothing |
| `Timekeeping.App.constructor` | src/App.js:12-18 | the fields start at the initial state |
| `Timekeeping.App.HandleModeChange` | src/App.js:113-116 | the new state is `ChangeMode` of the old |
| `Timekeeping.App.HandleCountdownTimeChange` | src/App.js:118-123 | the new state is `SetCountdownUnit` of the old |
| `Timekeeping.App.HandleStartCountdown` | src/App.js:125-132 | the new state is `StartCountdown` of the old |
| `Timekeeping.App.OnCountdownInterval` | src/App.js:44-61 | the new state is `CountdownTick` of the old |
| `Timekeeping.App.OnClockInterval` | src/App.js:28-41 | the new state is `ClockTick` of the old, given the host clock reading |
| `Timekeeping.App.UpdateDisplayEffect` | src/App.js:64-75 | the new state is `UpdateDisplay` of the old |
| `Timekeeping.App.HandleAddEffectiveTime` | src/App.js:141-146 | the new state is `AddEffectiveTime` of the old |
| `Timekeeping.App.HandleClearPendingTime` | src/App.js:148-150 | the new state is `ClearPendingTime` of the old |

## Left out

- FlipClock.FlipClock.OnTick: requires every field of `time` to be below 100. The source accepts larger fields, which give a longer `timeStr`, of which only the first six characters are rendered. An idle countdown shows `countdownTime` as it is (App.js:72), so 150 typed minutes give `timeStr` `"0015000"` and the six slots show 00:15:00. The countdown inputs suggest limits of 99 hours and 59 minutes and seconds, but only through HTML `max` attributes that `handleCountdownTimeChange` does not enforce. `CountdownDisplayFits` gives the condition under which the precondition holds.
- Scheduling: `setInterval`/`clearInterval` and the React effect scheduling are not modelled. Each interval firing is one call: `CountdownTick` or `OnCountdownInterval`, and `ClockTick` or `OnClockInterval`. Each is a no-op when its interval would not be armed. The display effect is an explicit step after each commit.
- The render effect's dependency on `prevDigits`: `setPrevDigits` always receives a new array (FlipClock.js:101), so the effect re-runs without end. Each re-run clears the container (FlipClock.js:85) and renders again with `prevDigits` equal to `timeStr`, so it emits no flips (`RerenderNoFlips`). It also takes the previous render's digit elements, overlays included, off the page long before 600 ms. The model runs one `OnTick` per new time. The overlay lemmas describe only each overlay's attachment to its own digit element, which by then may itself be detached.
- Overlay lifetime against the next render: `OverlayGoneBeforeNextTick` only proves removal by 1000 ms after the render. A render caused by a handler can be followed by the next render sooner: the display effect at App.js:64-75 also runs on `mode` and `countdownTime` changes, and the countdown interval keeps its own phase across mode switches, so switching back to countdown mode can be followed by a countdown tick within 600 ms. Configuration edits render at typing speed. The model does not promise that an overlay is gone before such a render.
- DOM node construction is not modelled. The two overlay removals are a two-state value driven by a timeline of events, each stamped with its milliseconds since the render; no real timer or event loop is modelled.
- `ensureMobileFit` is floating-point scaling, so it is not modelled.
- `playNotificationSound` is Web Audio with floating-point ramps, so it is not modelled.
- `showControlsTemporarily`, its hide timeout and the user-activity listeners are presentation only, so they are not modelled.
- `handleTagChange` is a `prompt` dialog, and the tag is never read by the timer logic.
- React strict-mode double invocation of state updaters is not modelled. In the source, the completion updater's side effects (`setIsCountdownRunning`, `setPendingTime`, the sound) sit inside the updater.
- The other source files are not part of this model (the full-screen and mobile-detection hooks, the background animation, the glitch effect and the Controls markup). The Controls inputs' `parseInt(...) || 0` appears only as the integer argument of `SetCountdownUnit`.
- Mode values other than `'clock'` and `'countdown'` are not modelled: the Controls buttons pass only those two strings.
- Number range: `ToString`, `Pad2` and `TotalSeconds` match JavaScript only below 2^53. `handleCountdownTimeChange` stores any `Math.max(0, value)`, so a large typed hours value makes the total at App.js:126 inexact. From 10^21 on, `toString` switches to exponent form (`"1e+21"`), which is not modelled.
