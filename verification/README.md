# Countdown ticker, modelled in Dafny

A model of the logic inside a one-screen Android countdown timer. The user taps **+1H**, **+1M**
or **+10S** to push a target time later, or **STOP** to clear it. The clock polls the current
time and shows `READY`, `TIME UP` or the remaining time as `HH:MM:SS` with leading zero
fields dropped. Each character of that text is drawn as a slot-machine column of glyphs that
scrolls to the selected glyph.

Times are integer epoch milliseconds and the current time is always a parameter.
`Calendar.add(Calendar.SECOND, n)` is modelled as adding `n * 1000` ms.

Modules, one per concern:

- `Wrappers`: `Option` for Kotlin's nullable values.
- `Decimal`: ASCII `%d` / `%02d` formatting of non-negative numbers and the parser that reads it back.
- `Strings`: joining fields with ':' and splitting them apart again.
- `Countdown` (TickingClock.kt): the remaining-time text, the whole-second `reachedTarget` test, and the choice of the displayed frame.
- `Ticker` (Ticker.kt): glyph columns, the selected row, scroll targets and the row layout.
- `Timer` (MainActivity.kt): the target state, `addTime`, `stopClock` and the buttons.
- `App`: `MyApp` wiring the target into the clock and the clock's frame into the ticker.

## Model

| member | source | states |
|---|---|---|
| Decimal.Digits | app/src/main/java/com/example/androiddevchallenge/TickingClock.kt:101-103 | the `%d` digits of a number: no leading zero except for 0, one digit iff under 10, at most two iff under 100, and they parse back to the number |
| Decimal.Pad2 | app/src/main/java/com/example/androiddevchallenge/TickingClock.kt:101-103 | `%02d`: all digits, at least two of them, exactly two iff the value is under 100, a leading '0' iff the value is under 10, never a ':', and parses back to the value |
| Decimal.Pad2Unique | app/src/main/java/com/example/androiddevchallenge/TickingClock.kt:101-103 | those properties pin the text down: any digit string with them is the `%02d` text of its value |
| Decimal.PaddedField | app/src/main/java/com/example/androiddevchallenge/TickingClock.kt:101-103 | a digit field of two or more digits, starting with '0' only when it has exactly two, is the `%02d` text of its value |
| Countdown.SecondOf | app/src/main/java/com/example/androiddevchallenge/TickingClock.kt:50 | Kotlin's `/ 1000` rounds toward zero: the quotient's milliseconds lie between 0 and the input, within one second of it |
| Countdown.WholeSeconds | app/src/main/java/com/example/androiddevchallenge/TickingClock.kt:92-93 | the clamped difference in whole seconds: positive iff the target is at least 1000 ms away, and for a target not yet passed the largest whole second count whose milliseconds do not exceed the time left |
| Countdown.Decompose | app/src/main/java/com/example/androiddevchallenge/TickingClock.kt:96-98 | the hours/minutes/seconds split is exact (`h*3600 + m*60 + s == d`) with minutes and seconds under 60 |
| Countdown.DecomposeUnique | app/src/main/java/com/example/androiddevchallenge/TickingClock.kt:96-98 | that split is the only one with minutes and seconds under 60 |
| Countdown.CountingText | app/src/main/java/com/example/androiddevchallenge/TickingClock.kt:89-105 | the text is `TIME UP` exactly when there is no target or under one whole second is left (past targets included, by the clamp), and is never `READY` |
| Countdown.Render | app/src/main/java/com/example/androiddevchallenge/TickingClock.kt:100-104 | the builder emits nothing exactly when hours, minutes and seconds are all zero |
| Countdown.RenderIsJoin | app/src/main/java/com/example/androiddevchallenge/TickingClock.kt:100-104 | with some field non-zero, the built text is the `%02d` fields present, most significant first, joined by ':'; the seconds field is always among them |
| Countdown.CountingTextFields | app/src/main/java/com/example/androiddevchallenge/TickingClock.kt:100-104 | splitting the text on ':' gives one to three fields; the hours field is present iff hours > 0, the minutes field iff hours > 0 or minutes > 0; every field has at least two digits, minutes and seconds exactly two, and only a two-digit field starts with '0'; the last field is the seconds; read as numbers, the fields are exactly the hours, minutes and seconds shown |
| Countdown.ShowsFieldsUnique | app/src/main/java/com/example/androiddevchallenge/TickingClock.kt:100-104 | those field properties admit only one list of fields: each field is the `%02d` text of the hours, minutes or seconds shown |
| Countdown.CountingTextEndsInDigit | app/src/main/java/com/example/androiddevchallenge/TickingClock.kt:103 | with a whole second left the seconds field is always emitted, so the text ends in a digit, not ':' |
| Countdown.CountingTextRoundTrip | app/src/main/java/com/example/androiddevchallenge/TickingClock.kt:92-104 | reading the fields back from the right as seconds, minutes, hours gives the whole seconds left; `TIME UP` reads as nothing |
| Countdown.ReachedTarget | app/src/main/java/com/example/androiddevchallenge/TickingClock.kt:50 | with truncating division: a missing target (second 0) is reached iff now > -1000 ms; a target that now has passed is always reached; a reached target is never more than 2000 ms ahead |
| Countdown.ReachedTargetIff | app/src/main/java/com/example/androiddevchallenge/TickingClock.kt:50 | for non-negative times, the target is reached iff now has entered the target's whole second |
| Countdown.ReachedWithoutTarget | app/src/main/java/com/example/androiddevchallenge/TickingClock.kt:50 | a missing target counts as second 0, so any non-negative time has reached it |
| Countdown.ReachedLeavesNoWholeSecond | app/src/main/java/com/example/androiddevchallenge/TickingClock.kt:50 | a reached target leaves under one whole second, so its counting text would also be `TIME UP` |
| Countdown.SelectFrame | app/src/main/java/com/example/androiddevchallenge/TickingClock.kt:74-79 | no target shows `READY`; reached shows `TIME UP`; otherwise the counting text; animation is off exactly for `READY` and `TIME UP` |
| Countdown.SelectFrameAnimates | app/src/main/java/com/example/androiddevchallenge/TickingClock.kt:74-79 | animation runs iff a target is set, not reached, and at least one whole second is left |
| Countdown.Tick | app/src/main/java/com/example/androiddevchallenge/TickingClock.kt:50-79 | one poll: no target shows `READY` still; animation runs iff the target is set, not reached and a whole second is left; a set target that does not animate shows `TIME UP`; an animating poll shows the counting text |
| Countdown.TickAnimatesIff | app/src/main/java/com/example/androiddevchallenge/TickingClock.kt:50-79 | for non-negative times one poll animates iff the target is at least 1000 ms away, and otherwise shows `TIME UP` |
| Ticker.TextList | app/src/main/java/com/example/androiddevchallenge/Ticker.kt:83-86 | a digit gets the 11-glyph column `9876543210 ` (row i holds digit 9 - i), any other character exactly the column of itself over a blank; the character always occurs in its column, which ends in a blank |
| Ticker.IndexOf | app/src/main/java/com/example/androiddevchallenge/Ticker.kt:88 | Kotlin `indexOf`: the first occurrence, or -1 iff the character is absent |
| Ticker.SelectedCharIndexValue | app/src/main/java/com/example/androiddevchallenge/Ticker.kt:83-88 | the selected index is digit value + 1 for a digit, 0 for a blank, 1 for anything else, and always a valid row |
| Ticker.SelectedCharIndex | app/src/main/java/com/example/androiddevchallenge/Ticker.kt:88 | `reversed().indexOf`: a valid row of the column; the glyph that many rows up from the bottom is the selected character, and no row below it shows it |
| Ticker.ColumnHeight | app/src/main/java/com/example/androiddevchallenge/Ticker.kt:95 | the column is 11 rows high for a digit and 2 rows for any other character |
| Ticker.TargetPosition | app/src/main/java/com/example/androiddevchallenge/Ticker.kt:95-100 | the scroll target is a whole number of rows, between 0 and the column height minus one row, and the row at that offset holds the selected character |
| Ticker.PlanScroll | app/src/main/java/com/example/androiddevchallenge/Ticker.kt:94-111 | a prior offset at or past the column height restarts from 0, otherwise it is kept; the start then lies inside the column; the destination is the target position |
| Ticker.Settle | app/src/main/java/com/example/androiddevchallenge/Ticker.kt:103-110 | animated or not, the column comes to rest at the selected index times the row height, a whole number of rows inside the column |
| Ticker.SettleIgnoresPrior | app/src/main/java/com/example/androiddevchallenge/Ticker.kt:98-110 | the resting offset depends neither on the prior offset nor on whether the scroll was animated |
| Ticker.LayoutRow | app/src/main/java/com/example/androiddevchallenge/Ticker.kt:68-78 | the row is the optional prefix, then one column per character of the text in order, then the optional suffix |
| Timer.ToInt | app/src/main/java/com/example/androiddevchallenge/MainActivity.kt:72 | `Long.toInt()` yields an Int congruent to the input modulo 2^32, and the input itself when it fits |
| Timer.ToSeconds | app/src/main/java/com/example/androiddevchallenge/MainActivity.kt:72 | the unit conversion is value * 3600, * 60 or * 1 whenever that fits in an Int, and always an Int |
| Timer.ToSecondsExact | app/src/main/java/com/example/androiddevchallenge/MainActivity.kt:72 | up to 596523 of any unit convert without wrapping |
| Timer.ToSecondsWraps | app/src/main/java/com/example/androiddevchallenge/MainActivity.kt:72 | 596524 hours wraps to a negative number of seconds |
| Timer.AddSeconds | app/src/main/java/com/example/androiddevchallenge/MainActivity.kt:74-77 | adding always leaves a target: `now + s*1000` from a stopped clock, the old target moved by exactly `s*1000` otherwise |
| Timer.StopClock | app/src/main/java/com/example/androiddevchallenge/MainActivity.kt:80-82 | stopping clears the target whatever the prior state |
| Timer.AddTime | app/src/main/java/com/example/androiddevchallenge/MainActivity.kt:71-78 | adding always leaves a target; for up to 596523 of any unit it is the old target, or now, moved by exactly value x unit seconds in milliseconds |
| Timer.AddTimeIgnoresNow | app/src/main/java/com/example/androiddevchallenge/MainActivity.kt:74-77 | with a target set, the result does not depend on the current time |
| Timer.AddSecondsAccumulate | app/src/main/java/com/example/androiddevchallenge/MainActivity.kt:74-77 | two additions equal one addition of the sum, based on the first call's time |
| Timer.CaptionMatchesRequest | app/src/main/java/com/example/androiddevchallenge/MainActivity.kt:119-124 | each adding button sends the value and unit its caption spells (`+1H` is (1, HOURS), `+1M` is (1, MINUTES), `+10S` is (10, SECONDS)); STOP sends none |
| Timer.Request | app/src/main/java/com/example/androiddevchallenge/MainActivity.kt:119-124 | exactly the adding buttons send a request; each sends a positive value small enough not to wrap, worth 3600, 60 or 10 seconds |
| Timer.Press | app/src/main/java/com/example/androiddevchallenge/MainActivity.kt:119-124 | a tap leaves no target iff it is STOP; an adding button moves the target (or now) by 3600, 60 or 10 seconds |
| Timer.RunAccumulates | app/src/main/java/com/example/androiddevchallenge/MainActivity.kt:71-78 | a run of adding taps ends at the first base plus the sum of the buttons' seconds; only the first tap's time matters |
| Timer.RunAfterStop | app/src/main/java/com/example/androiddevchallenge/MainActivity.kt:80-82 | after STOP the earlier taps have no effect on the state |
| App.FrameIsAscii | app/src/main/java/com/example/androiddevchallenge/TickingClock.kt:74-78 | every text the clock can show is ASCII, so every character gets a column |
| App.Screen | app/src/main/java/com/example/androiddevchallenge/MainActivity.kt:91-92 | the screen shows `READY` iff there is no target, and lays out one column per character of the frame, animated as the frame says |
| App.OneHourFromIdle | app/src/main/java/com/example/androiddevchallenge/MainActivity.kt:119 | from a stopped clock, +1H shows `01:00:00`, animated, at the moment of the tap |
| App.StopShowsReady | app/src/main/java/com/example/androiddevchallenge/MainActivity.kt:124 | after STOP the clock shows `READY`, not animated |

## Left out

- The 250 ms polling coroutine, its recursion and cancellation, and `DisposableEffect` (TickingClock.kt lines 47-72): timing and concurrency. A single poll is `Countdown.Tick(target, now)`.
- `reachedTarget` is remembered state that lags a target change until the next poll; `Countdown.SelectFrame` therefore takes `reached` as a parameter. `currentDateTime` (TickingClock.kt lines 44 and 59) is remembered the same way, so the `now` a frame is built from may be the time of the previous poll or target change; after +1H the first poll comes strictly after the tap and usually shows `59:59`, and `App.OneHourFromIdle` covers only a poll in the tap's own millisecond.
- Compose layout, theming, `@Preview` functions, `Log` calls and `rememberSaveable` state restoration: no semantics to verify.
- Animation specs and the intermediate values of `animateScrollTo`: float and time based. The model records only the start, destination and whether the scroll is animated.
- The item height `fontSize * 1.5` and its rounding to pixels: the item height is a given non-negative integer.
- The scroll container's own clamping of offsets to its content height.
- Calendar and time-zone behaviour: times are epoch milliseconds.
- `addTime` copying the Calendar so the old target is not aliased: in this value model no state is ever shared, so there is nothing to state.
- Countdown.Remaining: unbounded subtraction; the Long difference in TickingClock.kt line 92 would overflow only for times more than 2^63 ms apart.
- Timer.AddSeconds: unbounded addition; the Calendar's own millisecond range is not modelled.
- Ticker.TextList: requires an ASCII character. Kotlin's `isDigit` also accepts other Unicode decimal digits, for which the column is the digit column and `indexOf` returns -1; the model classifies digits as '0'..'9' only.
- Decimal.Pad2: formats in ASCII digits; `String.format` is locale dependent.
- Countdown.ReachedTargetIff, Countdown.ReachedLeavesNoWholeSecond and Countdown.TickAnimatesIff: stated for non-negative epoch times only. Before 1970 the truncating division makes the reached test coarser than the remaining-time test.
