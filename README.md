# Timer/Counter1 input capture, modelled in Dafny

This project models the ATmega328P Timer/Counter1 input-capture library.
The counter runs in fast 10-bit PWM mode, so it wraps every 1024 ticks.
The overflow interrupt adds 1024 to a 64-bit accumulator `overflows`.
The input-capture interrupt combines the accumulator with the latched counter
value ICR1 into a 64-bit timestamp. When an overflow is still pending and ICR1
is in the lower half of the period, it adds one more wrap. It then files the
timestamp as a rising edge (shifting the old rising edge into the previous slot)
or as a falling edge, and flips the edge-select bit ICES1.
`get_duty_and_period` snapshots the fields and the live counter TCNT1. It
reports zero ticks when the latest rising edge is older than the capture window.
Otherwise it reports the high time and the period in ticks and in seconds.

Files and modules:

- `uint64.dfy`, module `Uint64`: `uint64_t` addition and subtraction modulo 2^64,
  and the `uint16_t` register type.
- `timer1_config.dfy`, module `Timer1Config` (from `timer1.h`): the overflow
  constants, the `prescaler_codes` enumeration with the `prescaler_values` and
  `prescaler_bits` tables, the tick time and window ticks that `start` computes,
  and what the callback setters store (`Install`, `InstallAll`).
- `timer1.dfy`, module `Timer1` (from `timer1.cpp` and the state of the class in
  `timer1.h`). It holds the handlers as state transitions on `TimerState`
  (`ExtendedTicks`, `OverflowStep`, `CaptureStep`, `Replay` over a sequence of
  interrupts) and the calculation `Measure` with its two front ends
  (`QueryAsWritten`, `Query`; see Findings). It also holds the class
  `InputCapture`, whose fields are the library's static fields, its stored
  configuration and the ICES1 bit. Its methods `OnOverflow`, `OnCapture` and
  `GetDutyAndPeriod` are the two interrupt handlers and the query, and each is
  specified by the matching function. A timed trace (`TimedEvent`, `Observed`,
  `WellTimed`) ties each capture to the true edge time and the overflows
  serviced before it.

Hardware is modelled as inputs. `OnCapture` takes the ICR1 value and the TOV1
overflow flag. `GetDutyAndPeriod` takes the TCNT1 value and the TOV1 flag. The
ICES1 bit is a field. The model has a single `input_capture` object with static
storage duration, like a sketch's global. Its constructor therefore stands for
program start: zeroed static storage (including the object's own `tick_time__`),
TCCR1B = 0 (so a falling edge is selected) and no callbacks. `start` selects a
rising edge. A callback is an opaque non-null handle (`Callback`), and `None`
stands for `nullptr`.

The race rule is proved correct under stated timing assumptions
(`InterruptTiming`). The capture interrupt outranks the overflow interrupt. The
single TOV1 flag holds at most one pending wrap. The handler reads ICR1 less than
half a period after the edge, and less than half a period after any pending
wrap. Under these assumptions the 64-bit timestamp equals the edge's true tick
count modulo 2^64.

## Model

| member | source | states |
|---|---|---|
| `Uint64.Add` | timer1.cpp:80 | `uint64_t` addition: exact below 2^64, otherwise wraps once |
| `Uint64.Sub` | timer1.cpp:125-133 | `uint64_t` subtraction: exact when the subtrahend is not larger, otherwise wraps to `a - b + 2^64` |
| `Uint64.SubAddRoundTrip` | timer1.cpp:125 | subtracting what was added gives back the original value, even across a wrap |
| `Uint64.AddSubRoundTrip` | timer1.cpp:125 | adding back what was subtracted gives back the original value, even across a wrap |
| `Timer1Config.OverflowConstants` | timer1.h:87-91 | `overflow_value` is 1024, `overflow_half_value` is 512, its half, and 2^64 is a multiple of 1024 |
| `Timer1Config.Ordinal` | timer1.h:49-58 | the enumerator values are below `prescalers` (6), and only `no_clock` is 0 |
| `Timer1Config.CodeAt` | timer1.h:49-58 | every value below 6 is the value of exactly the enumerator returned |
| `Timer1Config.OrdinalRoundTrip` | timer1.h:49-58 | `CodeAt` inverts `Ordinal`, so the enumerators are the six values in declaration order |
| `Timer1Config.PrescalerValue` | timer1.h:70-78 | the division factor is 0 exactly for `no_clock`, and otherwise a divisor of 1024 between 1 and 1024 |
| `Timer1Config.PrescalerValuesIncrease` | timer1.h:70-78 | the table has `prescalers` entries and grows strictly in enum order: 0, 1, 8, 64, 256, 1024 |
| `Timer1Config.PrescalerBitsAreCodeValues` | timer1.h:60-68 | the CS12..CS10 field stored for each code equals the code's value and never touches bits above bit 2 |
| `Timer1Config.TickTime` | timer1.h:111-113 | the tick time is positive and at most 1024 / 16 MHz seconds |
| `Timer1Config.WindowTicks` | timer1.h:115-116 | `capture_window_ticks` is the window in ticks truncated toward zero: for a window that is not negative, `n` ticks fit and `n + 1` do not; a window less than one tick below zero gives 0 |
| `Timer1Config.DefaultCaptureWindowTicks` | timer1.h:103-107 | the default window of 0.1 s is accepted for every prescaler and is 25000 ticks at prescaler 64, 1600000 at 1 and 1562 at 1024 |
| `Timer1Config.Install` | timer1.h:153-156 | a non-null argument becomes the stored callback; a null one leaves the stored callback as it was |
| `Timer1Config.InstalledCallbackPersists` | timer1.h:149-169 | once a callback is installed, no sequence of setter calls makes it null again |
| `Timer1Config.InstallAllNone` | timer1.h:149-169 | after any sequence of setter calls the callback is null exactly when it started null and every call passed null |
| `Timer1Config.InstallAllKeepsLast` | timer1.h:149-169 | after a sequence of setter calls the stored callback is the argument of the last non-null call |
| `Timer1Config.NullCallsKeep` | timer1.h:153 | setter calls that all pass null leave the stored callback unchanged |
| `Timer1.ExtendedTicks` | timer1.cpp:80-91 | with an aligned accumulator and a counter below 1024, the ten low bits of the timestamp are the counter value, with or without the race correction |
| `Timer1.ExtendedTicksRaceRule` | timer1.cpp:80-91 | the timestamp is `overflows + icr1 + 1024` (mod 2^64) when TOV1 is set and `icr1 < 512`, and `overflows + icr1` otherwise |
| `Timer1.ExtendedTicksRecoversEventTime` | timer1.cpp:82-91 | under the interrupt-priority and latency assumptions, the corrected timestamp is the edge's true tick count modulo 2^64 |
| `Timer1.ExtendedTicksMonotone` | timer1.cpp:80-91 | edges captured in time order get non-decreasing timestamps (below 2^64 ticks) |
| `Timer1.OverflowStep` | timer1.cpp:60 | the overflow handler adds 1024 to `overflows` (mod 2^64), keeps it aligned, and changes no other field |
| `Timer1.CaptureStep` | timer1.cpp:75-99 | the edge-select bit is complemented and `overflows` kept; on a rising edge previous := rising, rising := timestamp, falling kept; on a falling edge only falling := timestamp |
| `Timer1.ReplayCountsOverflows` | timer1.cpp:60 | over any sequence of interrupts, `overflows` grows by 1024 per overflow (mod 2^64), and captures add nothing |
| `Timer1.ReplayFromResetCountsOverflows` | timer1.cpp:40-60 | from the zeroed state, after k overflow interrupts `overflows == k * 1024` (mod 2^64, exact below 2^64), whatever captures ran in between |
| `Timer1.OverflowsAligned` | timer1.cpp:57-60 | the accumulator keeps its ten low bits clear even after a 64-bit wrap |
| `Timer1.ReplayAlternatesEdges` | timer1.cpp:75-77 | each capture flips the edge-select bit, so after n captures it is flipped exactly when n is odd |
| `Timer1.CapturePreservesEdgeOrder` | timer1.cpp:93-99 | with timestamps in time order, the handler keeps previous rising ≤ rising and the falling edge in its place relative to them |
| `Timer1.ReplayKeepsEdgeOrder` | timer1.cpp:80-99 | along a well-timed trace (edges in time order, each capture under the interrupt-timing assumptions with the overflows serviced so far) every reached state keeps the edge order and previous rising ≤ rising |
| `Timer1.ReplayFromStartKeepsEdgeOrder` | timer1.cpp:93-99 | from the state after `start`, every state a well-timed trace reaches has current rising ≥ previous rising and the falling edge between them or after them |
| `Timer1.ExampleTrace` | timer1.cpp:69-104 | edges at 1000 (rising), 1300 (falling, after a wrap) and 2000 (rising) leave previous 1000, rising 2000, falling 1300, overflows 1024; queried at TCNT1 1000 with window 25000 this measures duty 300 and period 1000 ticks |
| `Timer1.Measure` | timer1.cpp:123-133 | both tick counts are zero when the age exceeds the window; otherwise period = rising − previous, and duty = falling − rising when the falling edge is the later one, else falling − previous, all without wrap when the edges are ordered |
| `Timer1.OrderedMeasureIsExact` | timer1.cpp:131-133 | with ordered edges and a fresh signal neither subtraction wraps, and a duty taken from the previous cycle is shorter than its period |
| `Timer1.ReachableMeasureIsExact` | timer1.cpp:131-133 | in every state reachable by a well-timed trace, a fresh measurement has no 64-bit wrap and a previous-cycle duty is shorter than its period |
| `Timer1.MeasureNormalCycle` | timer1.cpp:131-133 | rising 1000, falling 1300, next rising 2000 (previous 1000, rising 2000, falling 1300) gives duty 300 and period 1000 ticks |
| `Timer1.MeasureFallingBeforeRising` | timer1.cpp:131-133 | previous 500, rising 2000, falling 1800 gives duty 1300 and period 1500 ticks |
| `Timer1.QueryAsWritten` | timer1.cpp:116-133 | the source's query: zero when `overs + tcnt1 - rising` (mod 2^64) exceeds the window, otherwise the edges' own measurement, whatever the counter; equal to `Query` with TOV1 clear |
| `Timer1.Query` | timer1.cpp:116-133 | the corrected query: zero when the age from the corrected tick count exceeds the window, otherwise the edges' own measurement, whatever the counter |
| `Timer1.MeasureLaterNow` | timer1.cpp:123-133 | a later current tick count keeps a stale result stale, and gives either the same measurement or zero |
| `Timer1.LaterQueryKeepsOrClears` | timer1.cpp:111-133 | a second query with a later TCNT1 read and no wrap pending reports the first's tick counts or zero, and never turns a stale answer fresh |
| `Timer1.QueryAgreesWithoutPendingOverflow` | timer1.cpp:111-126 | the corrected query equals the source's whenever no wrap is pending with TCNT1 in its lower half |
| `Timer1.QueryAsWrittenMissesPendingOverflow` | timer1.cpp:116-128 | a wrap inside the snapshot makes the source report no signal for an edge 50 ticks old, where the corrected query reports duty 300, period 1000 |
| `Timer1.QueryUsesTrueTime` | timer1.cpp:111-128 | with the correction, the query is `Measure` at the true tick count, so a truly stale edge reports zero |
| `Timer1.InputCapture.constructor` | timer1.cpp:40-51 | at program start, for the one object with static storage duration, all static fields and the tick time are zero and no callback is set |
| `Timer1.InputCapture.OnOverflow` | timer1.cpp:55-65 | `overflows` grows by exactly 1024 (mod 2^64), stays aligned and equals 1024 times the number of overflows so far; nothing else changes |
| `Timer1.InputCapture.OnCapture` | timer1.cpp:69-104 | the bit read before the flip decides the edge; rising: previous := rising, rising := timestamp; falling: only falling := timestamp; the bit is complemented; overflows is unchanged |
| `Timer1.InputCapture.GetDutyAndPeriod` | timer1.cpp:106-140 | the tick counts are `Query` of the snapshot, nothing is modified, and times are ticks × tick time, exactly 0 for zero ticks |
| `Timer1.InputCapture.GetTickTime` | timer1.h:139 | for the object with static storage duration, the tick time is 0 before `start` and otherwise the tick time of one of the five clocked prescalers, at most 1024 / 16 MHz |
| `Timer1.InputCapture.GetCaptureWindow` | timer1.h:141-142 | the window in seconds converts back to exactly `capture_window_ticks` ticks |
| `Timer1.InputCapture.SetOverflowCallback` | timer1.h:149-158 | a non-null callback replaces the overflow callback, a null one changes nothing, and no other field changes |
| `Timer1.InputCapture.SetInputCaptureCallback` | timer1.h:160-169 | a non-null callback replaces the input-capture callback, a null one changes nothing, and the overflow callback is untouched |
| `Timer1.InputCapture.Start` | timer1.h:103-137 | `no_clock` returns with nothing changed; otherwise the tick time is prescaler / 16 MHz, the window is truncated to whole ticks (within one tick of a request that is not negative), a rising edge is selected; the window defaults to 0.1 s |
| `Timer1.SuccessiveQueries` | timer1.cpp:111-133 | of two queries with no interrupt in between, the second reading TCNT1 no earlier and no wrap pending, the second reports the first's tick counts or no signal |

## Left out

- Register programming: the writes to TCCR1A, TCCR1B (other than the ICES1 bit), TIMSK1 in `start`, the whole of `stop`, and the clearing of ICF1 in the capture handler. They are hardware I/O with no effect on the modelled fields.
- Callback invocation from the two handlers: callbacks are foreign function pointers; only which one is stored is modelled.
- The `interrupt_lock__` critical sections and interrupt preemption: the snapshot and the setters are modelled as atomic. Interrupt priority appears only as the `InterruptTiming` assumptions of the timeline lemmas.
- Floating point: `tick_time__`, the window conversion, `get_capture_window` and the reported times use exact `real` arithmetic. IEEE rounding of the `double` division and multiplication is not modelled.
- `prescaler__`: the class declares it, but no code reads or writes it, so the model has no such field.
- More than one `input_capture` object, or one without static storage duration: the model has exactly one, created at program start. The C++ constructor (timer1.h:93) sets nothing, so an object created later shares the statics' earlier history, and a local or heap object's `tick_time__` is indeterminate until `start`. The constructor's zero state and `GetTickTime`'s bound before `start` hold only for the static object.
- `volatile`, the AVR/Arduino headers and installing the interrupt vectors.
- Timer1.InputCapture.Start: requires that the window divided by the tick time lies strictly between -1 and 2^64, because converting a `double` to `uint64_t` is undefined unless its value truncated toward zero is representable.
- Timer1.InputCapture.GetDutyAndPeriod: takes TOV1 as an extra input and applies the wrap correction described under Findings. Without a pending wrap in the lower half of the period it equals the source (`QueryAgreesWithoutPendingOverflow`).

## Findings

| source | as written | input that shows it | evidently intended | confidence | as-written member | corrected member |
|---|---|---|---|---|---|---|
| timer1.cpp:116-126 | the age `overs + tcnt1 - rising` uses `overflows` and TCNT1 without looking at TOV1, so a wrap inside the critical section leaves `overs` one period short | `overflows` 1024, rising 2000, previous 1000, falling 1300, the counter wraps at 2048 and TCNT1 reads 2 inside the critical section, window 25000: the age wraps to 2^64 − 974 and the result is (0, 0), although the edge is 50 ticks old | count the pending wrap as the capture handler does (lines 87-91), so the age is the true time since the rising edge and the result is (300, 1000) | medium; not executed | `Timer1.QueryAsWritten`, `Timer1.QueryAsWrittenMissesPendingOverflow` | `Timer1.Query`, `Timer1.QueryUsesTrueTime` |
