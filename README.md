# Static music player screen: playback state and time labels

The application shows one screen, `MusicUI`, for a single hard-coded track
433 seconds long. Almost all of it is layout. Its behaviour comes down to two
remembered state cells, `sliderPosition` (seconds elapsed) and `playing`, and
four things that change them:

- a ticker, a `LaunchedEffect` keyed on `playing` that advances the position
  by one second per second up to 433;
- the slider's callback;
- the play/pause button;
- the previous/next buttons, whose handlers are empty.

A pure helper, `floatToTime`, prints a position as "minutes:seconds".

This project models both parts in Dafny and proves what they promise.

- `time_format.dfy`, module `TimeFormat`, is `floatToTime`. It writes out the
  library calls the function relies on:
  - `Float.toInt()`: truncation toward zero, saturating at the 32-bit `Int`
    bounds;
  - Kotlin's truncating `Int` `/` and `%`;
  - the `%d` and `%02d` conversions of `String.format`. With the `0` flag,
    Java puts the zeros after the minus sign.

  `ParseTime` is an independent reader of the `M:SS` form. It is not in the
  application. It is the partner against which both round trips are proved.
- `playback.dfy`, module `Playback`, is the state machine. A `View` value
  holds the two cells and `tickerPending`: whether the ticker coroutine is
  suspended in its one-second `delay` and so will increment when the delay
  ends. The pure transition functions `AfterTick`, `AfterSeek`,
  `AfterSetPlaying` and `AfterToggle` specify the class `MusicUI`. Its fields
  are the state cells, and its methods are the ticker step and the handlers.
  Each method is proved to move the object's state exactly as its function
  says. The lemmas about runs of steps (`Ticks`, `Run` over a sequence of
  `Event`s) are stated on the functions.

Decisions the source leaves implicit:

- A `Tick` is the moment a `delay(1000)` completes. The loop body increments
  without checking the position again. The loop condition is checked after
  the increment. A seek to 433 during the delay therefore still lets the
  pending increment run, which caps it at 433 again. So a waiting ticker
  implies `playing` but not `position < 433`.
- Writing `playing` relaunches the effect only when the value changes,
  because Compose state uses structural equality. The relaunched loop checks
  its condition afresh. Cancelling the old coroutine discards its pending
  increment.
- At the end of the track the code leaves `playing` true and stops the
  ticker. A later seek backwards does not restart the ticker, because the
  effect is keyed on `playing` alone. Pausing and playing again does restart
  it (`SeekBackAfterEnd`).
- For a negative truncated position (never produced, since the slider range
  is 0..433), the model prints what the code prints, e.g. "0:-5" or "-1:-15"
  (`LabelOfNegativeSeconds`, `LabelOfNegativeMinute`). A position in (-1, 0)
  truncates to 0 and prints "0:00".

## Model

| member | source | states |
|---|---|---|
| TimeFormat.ToInt | app/src/main/java/com/example/staticmusicui/MainActivity.kt:170 | `position.toInt()`. The result is the integer part rounded toward zero: r ≤ x < r+1 for x ≥ 0, r−1 < x ≤ r for x < 0. Outside the range it is the nearest 32-bit bound. |
| TimeFormat.Quot | app/src/main/java/com/example/staticmusicui/MainActivity.kt:171 | `totalSeconds / 60` on `Int`. The remainder a − d·q lies in [0, d) for a ≥ 0 and in (−d, 0] for a < 0, i.e. truncation toward zero. |
| TimeFormat.Rem | app/src/main/java/com/example/staticmusicui/MainActivity.kt:172 | `totalSeconds % 60` on `Int`: q·d + r = a, and r takes the sign of a with \|r\| < d. |
| TimeFormat.QuotRemOfNatural | app/src/main/java/com/example/staticmusicui/MainActivity.kt:171-172 | For non-negative totals, Kotlin's quotient and remainder coincide with Euclidean `/` and `%`. |
| TimeFormat.Decimal | app/src/main/java/com/example/staticmusicui/MainActivity.kt:173 | The digits `%d` prints for a non-negative number. The result is non-empty, all digits and without a leading zero. It starts with '0' iff the number is 0, and has one digit iff the number is below 10. |
| TimeFormat.ValueOfDecimal | app/src/main/java/com/example/staticmusicui/MainActivity.kt:173 | Reading back the printed digits gives the number again. |
| TimeFormat.DecimalOfValue | app/src/main/java/com/example/staticmusicui/MainActivity.kt:173 | Every numeral without a leading zero is what `%d` prints for its value, so `%d` is a bijection onto those numerals. |
| TimeFormat.FormatZeroPadded | app/src/main/java/com/example/staticmusicui/MainActivity.kt:173 | `%0<width>d`: the length is `width` or, if longer, that of `%d`'s output. For n ≥ 0 the result is all digits with value n. For n < 0 it is '-' followed by digits with value −n. |
| TimeFormat.SecondsField | app/src/main/java/com/example/staticmusicui/MainActivity.kt:172-173 | For 0 ≤ s < 60, `%02d` prints exactly two digits that read back as s. |
| TimeFormat.SecondsFieldOfValue | app/src/main/java/com/example/staticmusicui/MainActivity.kt:172-173 | Any two digits reading below 60 are exactly `%02d` of their value. |
| TimeFormat.ParseTime | app/src/main/java/com/example/staticmusicui/MainActivity.kt:169-174 | The reader of the `M:SS` label used as the partner of `floatToTime`. What it accepts is a total from 0 to `Int.MAX_VALUE`. |
| TimeFormat.FloatToTime | app/src/main/java/com/example/staticmusicui/MainActivity.kt:169-174 | The label holds a minus sign exactly when the truncated position is negative. Beyond that, the function has no contract of its own: `FloatToTimeLayout`, `ParseFloatToTime`, `FloatToTimeOfParse` and `NegativeLabel` state its properties. |
| TimeFormat.FormatD | app/src/main/java/com/example/staticmusicui/MainActivity.kt:173 | `%d`: for n ≥ 0, the digits of n with no leading zeros. For n < 0, a minus sign, then `Decimal` of the magnitude, so the digits read back as −n. |
| TimeFormat.FloatToTimeLayout | app/src/main/java/com/example/staticmusicui/MainActivity.kt:169-173 | For a position whose truncation is not negative (every position above −1) the label is M ":" SS. M has no leading zeros. SS is exactly two digits with value below 60. M·60 + SS equals the truncated position. |
| TimeFormat.ParseFloatToTime | app/src/main/java/com/example/staticmusicui/MainActivity.kt:169-174 | Round trip: reading the label of any position whose truncation is not negative gives back its truncated seconds. |
| TimeFormat.FloatToTimeOfParse | app/src/main/java/com/example/staticmusicui/MainActivity.kt:169-174 | Reverse round trip: every label the reader accepts is exactly the label `floatToTime` prints for the number read. |
| TimeFormat.FloatToTimeDistinguishes | app/src/main/java/com/example/staticmusicui/MainActivity.kt:169-174 | Positions with different non-negative whole seconds get different labels. |
| TimeFormat.NegativeLabel | app/src/main/java/com/example/staticmusicui/MainActivity.kt:170-173 | A negative truncated position gives a label that contains a minus sign and is not of the M:SS form. With `FloatToTimeLayout`, every input is covered. |
| TimeFormat.LabelOfNegativeSeconds | app/src/main/java/com/example/staticmusicui/MainActivity.kt:169-173 | `floatToTime(-5.5f)` is "0:-5": a negative remainder printed by `%02d`. |
| TimeFormat.LabelOfNegativeMinute | app/src/main/java/com/example/staticmusicui/MainActivity.kt:169-173 | `floatToTime(-75f)` is "-1:-15". |
| TimeFormat.TrackLengthLabel | app/src/main/java/com/example/staticmusicui/MainActivity.kt:159-173 | The fixed right-hand label `floatToTime(433f)` is "7:13". |
| TimeFormat.LabelAtStart | app/src/main/java/com/example/staticmusicui/MainActivity.kt:169-173 | `floatToTime(0f)` is "0:00". |
| TimeFormat.LabelJustBeforeOneMinute | app/src/main/java/com/example/staticmusicui/MainActivity.kt:169-173 | `floatToTime(59f)` is "0:59". |
| TimeFormat.LabelAtOneMinute | app/src/main/java/com/example/staticmusicui/MainActivity.kt:169-173 | `floatToTime(60f)` is "1:00". |
| TimeFormat.LabelWithFraction | app/src/main/java/com/example/staticmusicui/MainActivity.kt:169-173 | `floatToTime(75.5f)` is "1:15": the fraction is truncated. |
| Playback.CoerceAtMost | app/src/main/java/com/example/staticmusicui/MainActivity.kt:71 | `coerceAtMost(433f)`: the result is at most both arguments and equal to one of them. |
| Playback.Initial | app/src/main/java/com/example/staticmusicui/MainActivity.kt:64-68 | At start the position is 0 and `playing` is false. The invariant holds, and no ticker is waiting, because the loop condition is false. |
| Playback.Ticks | app/src/main/java/com/example/staticmusicui/MainActivity.kt:69-71 | n completed one-second delays with no input. `playing` is unchanged and the invariant is kept. |
| Playback.AfterTick | app/src/main/java/com/example/staticmusicui/MainActivity.kt:69-71 | One completed delay. `playing` never changes. Without a waiting ticker nothing changes. Otherwise the position rises by exactly 1 when that stays ≤ 433, else becomes 433 and the ticker stops. The ticker keeps waiting iff the loop condition holds again. 0 ≤ position ≤ 433 is preserved. |
| Playback.AfterSeek | app/src/main/java/com/example/staticmusicui/MainActivity.kt:85 | The slider callback. The position becomes the reported value, which lies in 0..433. `playing` and the ticker are untouched. The invariant is preserved. |
| Playback.AfterSetPlaying | app/src/main/java/com/example/staticmusicui/MainActivity.kt:86 | `playing = b`. The position is unchanged. Writing the current value changes nothing. A new value relaunches the keyed effect, whose ticker waits iff its loop condition holds. The invariant is preserved. |
| Playback.AfterToggle | app/src/main/java/com/example/staticmusicui/MainActivity.kt:185 | The play/pause button flips `playing` and leaves the position unchanged. The fresh ticker waits iff playing and below 433. |
| Playback.TicksAdvance | app/src/main/java/com/example/staticmusicui/MainActivity.kt:69-71 | With a waiting ticker, n ≥ 1 seconds give position min(p + n, 433) and leave `playing` unchanged. The ticker is still waiting iff p + n < 433. |
| Playback.IdleTicks | app/src/main/java/com/example/staticmusicui/MainActivity.kt:69-71 | Without a waiting ticker, any number of seconds changes nothing. |
| Playback.TickerStopsAtEnd | app/src/main/java/com/example/staticmusicui/MainActivity.kt:69-71 | From 432 while playing, one tick reaches 433 and no later tick changes anything. |
| Playback.SeekThenTick | app/src/main/java/com/example/staticmusicui/MainActivity.kt:85 | After a seek to x during playback, the next tick moves the position to x + 1, not to the pre-seek value + 1. |
| Playback.PauseThenResume | app/src/main/java/com/example/staticmusicui/MainActivity.kt:68-71 | After a pause, time does not move the position. Playing again, the next tick counts on from where it stood. |
| Playback.ToggleTwice | app/src/main/java/com/example/staticmusicui/MainActivity.kt:185 | Two presses restore `playing` and the position, and leave a ticker waiting iff the loop condition holds. |
| Playback.SeekBackAfterEnd | app/src/main/java/com/example/staticmusicui/MainActivity.kt:68-71 | After the ticker stopped at the end while playing, a seek back is not followed by any increment. Pausing and playing again restarts counting from the seeked value. |
| Playback.RunKeepsInv | app/src/main/java/com/example/staticmusicui/MainActivity.kt:64-86 | Every sequence of inputs keeps the invariant: the position stays in 0..433, and no ticker waits while paused. |
| Playback.Reachable | app/src/main/java/com/example/staticmusicui/MainActivity.kt:64-65 | From the initial state (0, paused), every reachable state satisfies the invariant. The left-hand label it shows (line 155) reads back as its whole seconds, which lie in 0..433. |
| Playback.NoSeekNoRewind | app/src/main/java/com/example/staticmusicui/MainActivity.kt:69-71 | Without slider input the position never decreases. |
| Playback.BackAndNextChangeNothing | app/src/main/java/com/example/staticmusicui/MainActivity.kt:184-186 | Any sequence of previous/next presses leaves the state exactly as it was. |
| Playback.MusicUI.constructor | app/src/main/java/com/example/staticmusicui/MainActivity.kt:64-68 | The cells start at position 0, paused, with no ticker waiting. |
| Playback.MusicUI.Tick | app/src/main/java/com/example/staticmusicui/MainActivity.kt:69-71 | The in-place ticker step moves the object's state exactly as `AfterTick` does and keeps the invariant. |
| Playback.MusicUI.RunTicker | app/src/main/java/com/example/staticmusicui/MainActivity.kt:68-72 | The loop left to itself ends with the state `Ticks(old, ticks)` and no ticker waiting. Every tick taken found a waiting ticker. A ticker that was waiting ends at exactly 433; otherwise no tick is taken. |
| Playback.MusicUI.OnPositionChange | app/src/main/java/com/example/staticmusicui/MainActivity.kt:85 | The slider callback updates the object as `AfterSeek` does. |
| Playback.MusicUI.OnPlayingChange | app/src/main/java/com/example/staticmusicui/MainActivity.kt:86 | The `playing` callback updates the object as `AfterSetPlaying` does. |
| Playback.MusicUI.OnPlayPausePressed | app/src/main/java/com/example/staticmusicui/MainActivity.kt:185 | The play/pause button updates the object as `AfterToggle` does. |
| Playback.MusicUI.OnBackPressed | app/src/main/java/com/example/staticmusicui/MainActivity.kt:184 | The previous button changes nothing. |
| Playback.MusicUI.OnNextPressed | app/src/main/java/com/example/staticmusicui/MainActivity.kt:186 | The next button changes nothing. |

## Left out

- All Compose layout and rendering (`Surface`, `Column`, `Row`, `Box`, `Image`, `Icon`, `Text`, modifiers, `AlbumCover`, `SongArtistInformation`, `CustomButton`, the play/pause icon choice): view plumbing with no state.
- `animateFloatAsState` and its `tween` (lines 132-136): a presentation-only interpolation that is never written back to the state.
- Coroutine timing, suspension and cancellation of `LaunchedEffect` and `delay(1000)`: each completed delay is one atomic `Tick`, and relaunching the effect is atomic with the write to `playing`. Interleavings inside a recomposition are not modelled.
- `MainActivity.onCreate`, `enableEdgeToEdge`, `setContent`, `MusicUIPreview` and `ui/theme/Theme.kt`: Android lifecycle, tooling and colour constants.
- The track title and artist strings: constants with no behaviour.
- IEEE `Float` rounding: positions are exact reals. The arithmetic (+1, a cap at 433, truncation) is exact for whole-second positions, which is all the ticker produces from 0. After the slider reports a fractional `Float` (any value in 0f..433f), the `Float` sum `+ 1` can round up by one unit in the last place. For example, 255.99998474f + 1 is 257.0f, where the exact sum is 256.99998. The label after that tick then reads "4:17", but the model gives "4:16". This rounding is not captured. `NaN` (which `toInt()` maps to 0) has no real counterpart.
- Locale-dependent digits of `String.format`: the model prints ASCII digits.
