# Roxy engine input and timing core, in Dafny

This project models three small, sequential pieces of the native layer of the
Roxy game engine for the Playdate handheld, and proves properties about them.

- **The hold-state machine of the input manager** (`RoxyInput`,
  `roxy_input.dfy`). Once per frame, Lua asks each of the six buttons (A, B, up,
  down, left, right) what happened to it. The answer is one event name
  (`"<name>ButtonPressed"`, `"…Released"`, `"…CustomHeld"`,
  `"…PressedContinuously"`) or the empty string. The manager keeps one hold
  counter per button and two global thresholds. The continuous-hold buffer
  defaults to 3 and the custom-hold threshold to 20. `InputManager` is a class
  with the counter table as an `array<int>` and the thresholds as fields.
  Its `ProcessButtonEvent` method is proved against the pure function
  `Classify`. The trace lemmas about `Classify` cover a press, a hold and a
  release.
- **The sequence time mapper** (`RoxySequence`, `roxy_sequence.dfy`). A
  sequence's elapsed time, its duration and a loop type (absent or unknown,
  `"loop"`, `"ping-pong"`) map to the time at which to sample the sequence and
  whether it plays forward. This is the function `GetClampedTime`. Lemmas cover
  its range, its periodicity, the ping-pong mirror and the turning points. The
  ping-pong mirror flips direction only for 0 < x < duration (`PingPongSymmetric`).
  At x = 0 and x = duration both sides play forward, because the test at
  core/sequences/roxy_sequence.c:40 is a strict `>` (`PingPongTurningPoints`).
- **The scalar helpers** (`RoxyMath`, `roxy_math.dfy`): clamp with swapped
  bounds, truncation, rounding, floor, ceiling, linear interpolation and range
  mapping. It also has C's `fmodf`, which the truncation and the time mapper use.

The optional value that the input manager and the time mapper share is the
`Option` datatype of module `Wrappers` (`wrappers.dfy`).

Numbers are `real`. C's `floorf`, `ceilf`, `fmodf` and the comparisons in clamp
are exact in IEEE arithmetic, so the real model agrees with them. The rounding
of `+`, `-`, `*` and `/` is not modelled.

## Model

| member | source | states |
|---|---|---|
| `RoxyMath.Trunc` | utilities/roxy_math.c:12 | the truncated quotient is an integer no larger in magnitude than the quotient, less than one below it in magnitude, and of the same sign |
| `RoxyMath.Fmod` | utilities/roxy_math.c:12 | the remainder has the dividend's sign, is smaller than the divisor in magnitude, and differs from the dividend by a whole number of divisors |
| `RoxyMath.FmodUnique` | utilities/roxy_math.c:12 | any split of a non-negative dividend into whole divisors plus a rest in [0, y) has that rest as its remainder |
| `RoxyMath.FmodSmall` | core/sequences/roxy_sequence.c:34 | a dividend in [0, y) is its own remainder |
| `RoxyMath.FmodShift` | core/sequences/roxy_sequence.c:34 | adding one divisor to a non-negative dividend leaves the remainder unchanged |
| `RoxyMath.TruncateDecimal` | utilities/roxy_math.c:11-13 | the result is an integer with the sign of n (or zero), at most n in magnitude and less than one below it in magnitude |
| `RoxyMath.TruncateDecimalDirection` | utilities/roxy_math.c:11-13 | truncation is the floor for n ≥ 0 and the ceiling for n ≤ 0 |
| `RoxyMath.RoundDown` | utilities/roxy_math.c:43-45 | the result is an integer with roundDown(n) ≤ n < roundDown(n) + 1 |
| `RoxyMath.RoundUp` | utilities/roxy_math.c:59-61 | the result is an integer with roundUp(n) − 1 < n ≤ roundUp(n) |
| `RoxyMath.RoundDownUpExtremal` | utilities/roxy_math.c:43-61 | roundDown is the greatest integer not above n and roundUp the least integer not below n |
| `RoxyMath.Round` | utilities/roxy_math.c:27-29 | the result is an integer within a half of n, with n in [r − ½, r + ½) |
| `RoxyMath.RoundIsNearest` | utilities/roxy_math.c:27-29 | no integer is nearer to n than round(n), and on a tie round picks the larger one |
| `RoxyMath.RoundHalves` | utilities/roxy_math.c:27-29 | halves round toward +∞: −2.5 gives −2 and 2.5 gives 3 |
| `RoxyMath.Clamp` | utilities/roxy_math.c:92-99 | the result lies between min(l, u) and max(l, u); it is v when v lies there, and otherwise the nearer bound |
| `RoxyMath.ClampSymmetric` | utilities/roxy_math.c:93-97 | swapping the bounds does not change the result |
| `RoxyMath.ClampIdempotent` | utilities/roxy_math.c:98 | clamping twice with the same bounds is clamping once |
| `RoxyMath.ClampMonotone` | utilities/roxy_math.c:98 | clamp preserves the order of the values it clamps |
| `RoxyMath.Lerp` | utilities/roxy_math.c:115-117 | lerp(a, b, 0) = a and lerp(a, b, 1) = b |
| `RoxyMath.LerpBetween` | utilities/roxy_math.c:115-117 | for t in [0, 1] the result lies between a and b |
| `RoxyMath.Map` | utilities/roxy_math.c:133-135 | fromLow maps to toLow and fromHigh to toHigh; map is lerp over the target range at the value's relative position in the source range |
| `RoxyMath.MapRoundTrip` | utilities/roxy_math.c:133-135 | mapping to the target range and back returns the value, when neither range is empty |
| `RoxySequence.GetClampedTime` | core/sequences/roxy_sequence.c:20-55 | only ping-pong can play backward; for time ≥ 0 and a positive duration the result is in [0, duration], and in [0, duration) for "loop"; the clamping mode never leaves the span between 0 and the duration |
| `RoxySequence.DefaultModeClamps` | core/sequences/roxy_sequence.c:28-49 | no loop type or an unknown one gives clamp(time, 0, duration), playing forward, and leaves a time inside the sequence alone |
| `RoxySequence.LoopModeWraps` | core/sequences/roxy_sequence.c:33-34 | "loop" always plays forward, and its time differs from the raw time by a whole number of durations |
| `RoxySequence.LoopModePeriodic` | core/sequences/roxy_sequence.c:33-34 | for time ≥ 0, "loop" gives the same result at time + duration as at time |
| `RoxySequence.PingPongPeriodic` | core/sequences/roxy_sequence.c:37-44 | for time ≥ 0, "ping-pong" gives the same result at time + 2·duration as at time |
| `RoxySequence.PingPongSymmetric` | core/sequences/roxy_sequence.c:37-44 | for 0 < x < duration, duration + x and duration − x give the same time in opposite directions |
| `RoxySequence.PingPongTurningPoints` | core/sequences/roxy_sequence.c:40-43 | at time = duration the result is (duration, forward) and at 2·duration it is (0, forward), because the test is a strict `>` |
| `RoxySequence.BackwardExactlyOnReturnLeg` | core/sequences/roxy_sequence.c:26-44 | the direction is backward if and only if the loop type is "ping-pong" and fmod(time, 2·duration) > duration |
| `RoxySequence.NegativeTimeWrapsBelowZero` | core/sequences/roxy_sequence.c:33-44 | a negative time is not clamped by "loop" or "ping-pong": the result stays at or below zero, playing forward |
| `RoxySequence.PingPongExample` | core/sequences/roxy_sequence.c:37-44 | 7.5 into a ping-pong of duration 5 gives 2.5, playing backward |
| `RoxyInput.Name` | core/managers/roxy_input.c:17-24 | every button name is one to five characters long |
| `RoxyInput.ButtonsTableIsComplete` | core/managers/roxy_input.c:17-26 | the table has six entries and each button sits at exactly one index |
| `RoxyInput.EventName` | core/managers/roxy_input.c:92-106 | an event name starts with the button's name and is at most 30 characters long |
| `RoxyInput.Snprintf` | core/managers/roxy_input.c:87-106 | writing into the 32-byte buffer keeps a prefix of at most 31 characters, and text that fits is kept whole |
| `RoxyInput.EventNameFitsBuffer` | core/managers/roxy_input.c:87-106 | no event name is truncated by the 32-byte buffer |
| `RoxyInput.EventNameInjective` | core/managers/roxy_input.c:92-106 | event names are never empty, and different (button, event) pairs give different names |
| `RoxyInput.HeldEvent` | core/managers/roxy_input.c:101-107 | on a held frame, CustomHeld fires exactly when the new count equals the custom threshold; otherwise PressedContinuously fires exactly when the count is at least the buffer; otherwise nothing fires |
| `RoxyInput.Classify` | core/managers/roxy_input.c:91-108 | from a count ≥ 0 the new count is ≥ 0, and it is 0 exactly after a release without a push, or on an idle frame at count 0; any count other than old or old + 1 is a press or a release with an event |
| `RoxyInput.Callback` | core/managers/roxy_input.c:87-110 | the string pushed to Lua is empty exactly when there is no event |
| `RoxyInput.PushTakesPriority` | core/managers/roxy_input.c:91-93 | a pushed edge gives Pressed with count 1, whatever the other bits and the old count |
| `RoxyInput.ReleaseResets` | core/managers/roxy_input.c:94-96 | a released edge without a push gives Released and count 0, from any count |
| `RoxyInput.HoldAdvances` | core/managers/roxy_input.c:97-107 | a sustained hold stores old count + 1 and reports that count's threshold event |
| `RoxyInput.IdleKeepsCount` | core/managers/roxy_input.c:88-108 | a button in none of the three sets gives no event and keeps its count |
| `RoxyInput.HoldTrace` | core/managers/roxy_input.c:97-107 | k held frames from count c give counts c+1, …, c+k with each count's threshold event |
| `RoxyInput.PressThenHold` | core/managers/roxy_input.c:91-107 | a press then k held frames give Pressed, then the counts 2 … k+1 with their events, from any previous count; CustomHeld fires at most once |
| `RoxyInput.RunAppend` | core/managers/roxy_input.c:85-99 | classifying two batches of frames is classifying the first and then the second from the count the first left |
| `RoxyInput.ReleaseAfterHold` | core/managers/roxy_input.c:91-99 | a press, k held frames and a release end in Released with the count back at 0 |
| `RoxyInput.HoldExample` | core/managers/roxy_input.c:91-107 | with buffer 3 and custom threshold 5: Pressed, nothing, PressedContinuously ×2, CustomHeld, PressedContinuously ×2, Released, with counts 1 to 7, then 0 |
| `RoxyInput.InputManager.constructor` | core/managers/roxy_input.c:28-30 | all six counters start at 0, the buffer at 3 and the custom threshold at 20 |
| `RoxyInput.InputManager.SetCustomHoldThreshold` | core/managers/roxy_input.c:35-38 | stores the argument unvalidated as the custom threshold and changes nothing else |
| `RoxyInput.InputManager.SetButtonHoldBufferAmount` | core/managers/roxy_input.c:40-43 | stores the argument unvalidated as the buffer and changes nothing else |
| `RoxyInput.InputManager.ProcessButtonEvent` | core/managers/roxy_input.c:77-112 | only the counter of the given button changes, to the count `Classify` decides; the returned string is that step's event name, or "" when there is no event; counters stay non-negative |

## Left out

- The Lua bindings are not modelled. This covers every `*_l` function (argument fetching, result pushing), the `*_setPlaydateAPI` setters and the registration in `roxy.c`. The per-button entry points `roxy_input_processButtonA_l` … `roxy_input_processButtonRight_l` only pass the indices 0 … 5. Here the caller passes the index.
- `pd->system->getButtonState` is not modelled. The frame's three snapshots are parameters of `ProcessButtonEvent`, given as sets of buttons. "Bit set in the mask" is membership. The bit values of `PDButtons` come from the SDK header `pd_api.h`, which is not part of this model.
- The static `callback` buffer is not a field. Each call clears it first and Lua gets a copy, so the model returns the string instead.
- `roxy.c` is not modelled: logging, the stopwatch that reads the system clock, and function registration.
- `utilities/roxy_ease.c` is not modelled. Its easing curves are `float` formulas over `sinf`, `cosf`, `powf`, `sqrtf` and `asinf`, and some carry correction constants, so even their end-point laws are not exact.
- `roxy_math_hypot` is not modelled because it needs `sqrtf`.
- Floating-point rounding in `lerp`, `map`, `round`'s `+ 0.5f` and ping-pong's `2·d − t` is not modelled; neither are NaN and infinities.
- `Fmod`: stated only for a positive divisor. The callers divide by 1, or by a duration that Lua supplies unchecked, or by twice that duration. C's `fmodf` also accepts a negative divisor, where it gives `fmodf(x, |y|)`, and gives NaN for a zero one.
- `GetClampedTime`: the "loop" and "ping-pong" branches require a positive duration, but the C code checks none. A zero duration gives NaN there (`fmodf(t, 0)`), which has no real counterpart. A negative duration d gives defined results that this model does not cover. "loop" then gives `fmodf(t, |d|)`. For t ≥ 0, "ping-pong" then always plays backward, with time 2·d − `fmodf(t, 2·|d|)`, which is below zero. The clamping branch accepts any duration.
- `Map`: requires `fromHigh ≠ fromLow`. C would divide by zero there and return an infinity or NaN.
- `InputManager.ProcessButtonEvent`: the hold counter is an unbounded integer. The C `int` would overflow after about 2^31 held frames.
