# nightfall: time-of-day colour interpolation

nightfall sets a USB RGB light to a colour that depends on the time of day. A table of
checkpoints gives a colour for each of several evening times. For a query time the
program finds the two checkpoints around it and fades each channel linearly between
their colours.

This project models that engine in Dafny. It has three modules.

- `Interpolate` (`interpolate.dfy`) holds the channel interpolator `StepColor`. It
  computes `from + ((to - from) / duration) * progress`. It has no zero-duration guard,
  so it requires a non-zero duration. The lemmas prove the endpoints, the bounds and the
  monotonicity.
- `Schedule` (`schedule.dfy`) holds times of day as seconds since midnight, colours,
  checkpoints, and the evening table `Colors`. The resolver loop is the method
  `ResolveScan`. It is proved equal to the pure specification `Resolve`. In
  `Resolve`, "to" is the first checkpoint strictly later than the query. "from" is the
  checkpoint just before it, or black at 00:00:00 when "to" is the first checkpoint. When
  no checkpoint is later than the query, the source never binds "to" and fails when it
  computes the duration. The model returns `None` in that case.
- `Nightfall` (`nightfall.dfy`) holds the transition arithmetic `Transit` (duration
  and progress in seconds), the per-channel application `Blend`, and the colour shown,
  `Shade`. The lemmas relate these to the table.

A successful resolution always has `from.time <= query < to.time`. This holds for any
table, ordered or not, because "from" is either midnight or a checkpoint the scan
accepted as not later than the query. So the duration is positive and the division is
safe. Ordering (`StrictlyIncreasing`) is needed only for the lemmas that single out
"the last checkpoint not later than the query" or fix the failure point at the last
checkpoint.

Three behaviours of the code are worth noting, and the model keeps each:
- the interpolator has no zero-duration guard (nightfall.py:24);
- before the first checkpoint, the fade starts from black at 00:00:00 (nightfall.py:81-82);
- at or after the last checkpoint no checkpoint is later, "to" is never bound, and the
  program fails (nightfall.py:86-97).

## Model

| member | source | states |
|---|---|---|
| `Interpolate.StepColor` | nightfall.py:21-29 | a non-zero duration is required (the division is unguarded); zero progress gives the "from" value; full progress gives the "to" value; equal endpoints give that value |
| `Interpolate.StepColorBetween` | nightfall.py:21-29 | for a positive duration and 0 <= progress <= duration, the result lies between min(from, to) and max(from, to) |
| `Interpolate.StepColorMonotone` | nightfall.py:21-29 | for a positive duration, the result is non-decreasing in progress when from <= to and non-increasing when to <= from |
| `Interpolate.StepColorInRange` | nightfall.py:21-29 | endpoints inside an interval such as 0..255 keep every value of the fade inside it |
| `Schedule.Clock` | nightfall.py:87 | the seconds-of-day of h:m:s decompose back into h, m and s |
| `Schedule.ClockOrder` | nightfall.py:88 | comparing times of day (hour, then minute, then second) is comparing their seconds since midnight |
| `Schedule.ColorsWellFormed` | nightfall.py:50-79 | the table has 7 checkpoints with strictly increasing times from 20:00:00 to 23:59:59, and every channel is in 0..255 |
| `Schedule.Midnight` | nightfall.py:81-82 | the resolver's initial "from": black (0, 0, 0) at 00:00:00 |
| `Schedule.Colors` | nightfall.py:50-79 | the seven (time, colour) checkpoints: 20:00:00 off, 20:30:00 (102, 255, 255), 21:00:00 (250, 200, 0), 22:00:00 (255, 30, 0), 22:30:00 (255, 0, 0), 23:30:00 (135, 0, 0), 23:59:59 off |
| `Schedule.Before` | nightfall.py:93-95 | a plain definition: checkpoint k-1, or black at midnight when k = 0; `ResolveScan`'s loop invariant `from == Before(table, i)` proves it is the "from" the scan holds on reaching index i |
| `Schedule.FirstLater` | nightfall.py:86-92 | the index found is the first checkpoint strictly later than the query; None means no checkpoint is later |
| `Schedule.Resolve` | nightfall.py:81-95 | a bracket satisfies from.time <= query < to.time on any table; there is no bracket exactly when every checkpoint time is <= the query |
| `Schedule.ResolveFirstLater` | nightfall.py:86-95 | on any table, if checkpoint k is later than the query and all before it are not, then "to" is checkpoint k and "from" is checkpoint k-1, or black at midnight when k = 0 |
| `Schedule.ResolveBrackets` | nightfall.py:81-95 | on an ordered table, a query between neighbours k-1 and k (or between midnight and checkpoint 0) resolves to exactly that pair |
| `Schedule.ResolveFromIsLastNotLater` | nightfall.py:81-95 | on an ordered table, "from" is the last checkpoint not later than the query, or black at midnight when every checkpoint is later |
| `Schedule.ResolveAtCheckpoint` | nightfall.py:88-95 | on an ordered table, a query equal to checkpoint i's time gives from = checkpoint i and to = checkpoint i+1, because the comparison is strict; at the last checkpoint resolution fails |
| `Schedule.ResolveFailsIff` | nightfall.py:86-97 | on an ordered non-empty table, resolution fails exactly when the query is at or after the last checkpoint's time |
| `Schedule.ResolveScan` | nightfall.py:81-95 | the in-order scan loop returns exactly the bracket `Resolve` specifies, or None when it runs off the end without a later checkpoint |
| `Nightfall.Transit` | nightfall.py:97-100 | a transition exists exactly when resolution succeeds; then 0 <= progress < duration, so the duration is positive, and its endpoints are the bracket's colours |
| `Nightfall.Blend` | nightfall.py:103-105 | zero progress gives the "from" colour and full progress the "to" colour, on all three channels; equal endpoints give that colour |
| `Nightfall.Shade` | nightfall.py:97-105 | no colour is produced exactly when no checkpoint is later than the query |
| `Nightfall.ShadeBetween` | nightfall.py:103-105 | on any table, each channel of the colour shown lies between the same channel of the two bracketing colours |
| `Nightfall.ShadeInByteRange` | nightfall.py:50-79 | when every checkpoint channel is in 0..255, every channel of the colour shown is in 0..255 |
| `Nightfall.ShadeMonotone` | nightfall.py:99-105 | two queries in the same bracket: each channel of the later query's colour is further from "from" toward "to" |
| `Nightfall.ShadeAtCheckpoint` | nightfall.py:88-105 | on an ordered table, the colour at a checkpoint's own time is exactly that checkpoint's colour, except at the last checkpoint, where there is none |
| `Nightfall.ShadeFailsIff` | nightfall.py:86-97 | on an ordered non-empty table, there is no colour exactly when the query is at or after the last checkpoint |
| `Nightfall.ColorsQuarterPastEight` | nightfall.py:50-58 | at 20:15:00 the evening table gives (51, 127.5, 127.5), halfway from off to sky blue |
| `Nightfall.ColorsOffBeforeEight` | nightfall.py:81-82 | before 20:00:00 the evening table fades from black at midnight to black, so the light is off |
| `Nightfall.ColorsNoneFromLastSecond` | nightfall.py:75-97 | from 23:59:59 on the evening table has no later checkpoint and gives no colour |
| `Nightfall.ColorsInByteRange` | nightfall.py:50-105 | before 23:59:59 the evening table always gives a colour, and every channel is in 0..255 |

## Left out

- Argument parsing and console output (nightfall.py:31-48, 108-109, 112-113): command-line plumbing and printing.
- Reading the wall clock (nightfall.py:45): the query time is a parameter instead.
- Parsing `HH:MM:SS` strings (nightfall.py:43, 82, 87, 90, 95): times are already parsed seconds since midnight; `Clock` stands for the parse of the table's times.
- Combining times with today's date (nightfall.py:97-99): the difference of two times on the same day is the difference of their seconds since midnight.
- Device discovery and setting the colour (nightfall.py:107-110): USB I/O through a foreign library; the model ends at the computed triple.
- Floating-point rounding of `total_seconds()` and of the division: the model uses exact real arithmetic.
- Sub-second query times: the wall clock carries microseconds, and the model's times are whole seconds.
- The initial values `transition_duration = 30` and `transition_progress = 5` (nightfall.py:83-84): every successful path overwrites them.
- The exception raised when "to" is unbound at nightfall.py:97: the model returns `None` and does not model the message.
