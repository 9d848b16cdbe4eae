/** The interrupt-driven core of the Timer/Counter1 input-capture library:
    the overflow handler that extends the 10-bit counter to a 64-bit timestamp,
    the capture handler that files edge timestamps by direction, and the
    duty/period calculator that reads them back. */
module Timer1 {
  import opened Uint64
  import opened Timer1Config

  /** The shared fields both interrupt handlers update, and the ICES1 bit of
      TCCR1B (true: the next capture is a rising edge). */
  datatype TimerState = TimerState(
    overflows: u64,
    risingTicks: u64,
    previousRisingTicks: u64,
    fallingTicks: u64,
    risingEdgeSelect: bool)

  /** Static storage is zeroed and TCCR1B resets to 0, so ICES1 selects a falling edge. */
  const Reset: TimerState := TimerState(0, 0, 0, 0, false)

  // ---------------------------------------------------------------------------
  // Timestamp extension

  /** The extended tick count for a counter value read while `overflows` wraps
      have been accounted for: `overflows + counter`, plus one more wrap when an
      overflow is pending and the counter is in its lower half. */
  function ExtendedTicks(overflows: u64, counter: u16, overflowPending: bool): (r: u64)
    ensures overflows % OverflowValue == 0 && counter < OverflowValue ==> r % OverflowValue == counter
  {
    var t := Add(overflows, counter);
    var r := if overflowPending && counter < OverflowHalfValue then Add(t, OverflowValue) else t;
    AddAdd(overflows, counter, OverflowValue);
    LowBitsKept(overflows + counter + (if overflowPending && counter < OverflowHalfValue then OverflowValue else 0), counter);
    r
  }

  /** Reducing modulo 2^64 keeps the ten low bits, since 2^64 is a multiple of 1024. */
  lemma LowBitsKept(x: int, counter: int)
    ensures 0 <= counter < OverflowValue && x % OverflowValue == counter ==>
            (x % Modulus) % OverflowValue == counter
  {
    var q := x / Modulus;
    assert x % Modulus == x - q * Modulus;
    assert x - q * Modulus == x - 1024 * (q * 0x40_0000_0000_0000);
  }

  /** The race rule, stated on 64-bit values. */
  lemma ExtendedTicksRaceRule(overflows: u64, counter: u16, overflowPending: bool)
    ensures overflowPending && counter < 512 ==>
      ExtendedTicks(overflows, counter, overflowPending) == (overflows + counter + 1024) % Modulus
    ensures !(overflowPending && counter < 512) ==>
      ExtendedTicks(overflows, counter, overflowPending) == (overflows + counter) % Modulus
  {
    AddAdd(overflows, counter, OverflowValue);
  }

  /** The hardware timing under which the race rule is meant to be right. An
      event at tick `eventTime` latches `eventTime % 1024`; the handler reads it at
      tick `readTime`, when `serviced` overflow handlers have run. The capture
      interrupt outranks the overflow interrupt, so no overflow handler runs for a
      wrap after the event; the single TOV1 flag holds at most one pending wrap;
      the read follows the event, and a pending wrap, by less than half a period. */
  predicate InterruptTiming(eventTime: nat, readTime: nat, serviced: nat)
  {
    && eventTime <= readTime
    && readTime - eventTime < OverflowHalfValue
    && serviced <= eventTime / OverflowValue
    && readTime / OverflowValue <= serviced + 1
    && (serviced < readTime / OverflowValue ==> readTime % OverflowValue < OverflowHalfValue)
  }

  /** Under that timing the extended tick count is the event's true tick count
      (modulo 2^64): the race correction adds a wrap exactly when one is missing. */
  lemma ExtendedTicksRecoversEventTime(eventTime: nat, readTime: nat, serviced: nat)
    requires InterruptTiming(eventTime, readTime, serviced)
    ensures ExtendedTicks((serviced * OverflowValue) % Modulus, eventTime % OverflowValue,
                          serviced < readTime / OverflowValue)
            == eventTime % Modulus
  {
    var c := eventTime / 1024;
    var w := readTime / 1024;
    var counter := eventTime % 1024;
    var pending := serviced < w;
    var correction := if pending && counter < 512 then 1024 else 0;
    assert eventTime == c * 1024 + counter;
    assert readTime == w * 1024 + readTime % 1024;
    assert c <= w;
    if !pending {
      assert serviced == c;
    } else if c < w {
      assert serviced == c && w == c + 1;
      assert counter >= 512;
    } else {
      assert serviced + 1 == c;
      assert counter <= readTime % 1024;
    }
    assert serviced * 1024 + correction == c * 1024;
    var overflows := (serviced * 1024) % Modulus;
    ExtendedTicksRaceRule(overflows, counter, pending);
    ModAddLeft(serviced * 1024, counter + correction);
  }

  /** Timestamps of events taken in time order keep that order (below 2^64 ticks). */
  lemma ExtendedTicksMonotone(t1: nat, r1: nat, k1: nat, t2: nat, r2: nat, k2: nat)
    requires InterruptTiming(t1, r1, k1) && InterruptTiming(t2, r2, k2)
    requires t1 <= t2 < Modulus
    ensures ExtendedTicks((k1 * OverflowValue) % Modulus, t1 % OverflowValue, k1 < r1 / OverflowValue)
         <= ExtendedTicks((k2 * OverflowValue) % Modulus, t2 % OverflowValue, k2 < r2 / OverflowValue)
  {
    ExtendedTicksRecoversEventTime(t1, r1, k1);
    ExtendedTicksRecoversEventTime(t2, r2, k2);
  }

  // ---------------------------------------------------------------------------
  // The two interrupt handlers, as state transitions

  /** `ISR(TIMER1_OVF_vect)`: one wrap accounted for. */
  function OverflowStep(s: TimerState): (r: TimerState)
    ensures r.overflows == (s.overflows + OverflowValue) % Modulus
    ensures s.overflows % OverflowValue == 0 ==> r.overflows % OverflowValue == 0
    ensures r.(overflows := s.overflows) == s
  {
    s.(overflows := Add(s.overflows, OverflowValue))
  }

  /** `ISR(TIMER1_CAPT_vect)`: the edge-select bit read before it is flipped
      decides where the extended timestamp is filed. */
  function CaptureStep(s: TimerState, icr1: u16, overflowPending: bool): (r: TimerState)
    ensures r.overflows == s.overflows && r.risingEdgeSelect == !s.risingEdgeSelect
    ensures s.risingEdgeSelect ==>
      && r.previousRisingTicks == s.risingTicks
      && r.risingTicks == ExtendedTicks(s.overflows, icr1, overflowPending)
      && r.fallingTicks == s.fallingTicks
    ensures !s.risingEdgeSelect ==>
      && r.fallingTicks == ExtendedTicks(s.overflows, icr1, overflowPending)
      && r.risingTicks == s.risingTicks && r.previousRisingTicks == s.previousRisingTicks
  {
    var timestamp := ExtendedTicks(s.overflows, icr1, overflowPending);
    if s.risingEdgeSelect then
      s.(previousRisingTicks := s.risingTicks, risingTicks := timestamp, risingEdgeSelect := false)
    else
      s.(fallingTicks := timestamp, risingEdgeSelect := true)
  }

  datatype Interrupt = Overflow | Capture(icr1: u16, overflowPending: bool)

  function Step(s: TimerState, e: Interrupt): TimerState
  {
    match e
    case Overflow => OverflowStep(s)
    case Capture(icr1, pending) => CaptureStep(s, icr1, pending)
  }

  /** The state after the handlers ran for `events`, first event first. */
  function Replay(s: TimerState, events: seq<Interrupt>): TimerState
    decreases |events|
  {
    if events == [] then s else Replay(Step(s, events[0]), events[1..])
  }

  function OverflowCount(events: seq<Interrupt>): nat
    decreases |events|
  {
    if events == [] then 0 else (if events[0].Overflow? then 1 else 0) + OverflowCount(events[1..])
  }

  function CaptureCount(events: seq<Interrupt>): nat
    decreases |events|
  {
    if events == [] then 0 else (if events[0].Capture? then 1 else 0) + CaptureCount(events[1..])
  }

  /** Each overflow adds exactly 1024 to the accumulator and captures add nothing. */
  lemma {:induction false} ReplayCountsOverflows(s: TimerState, events: seq<Interrupt>)
    ensures Replay(s, events).overflows == (s.overflows + OverflowCount(events) * OverflowValue) % Modulus
    decreases |events|
  {
    if events != [] {
      var s' := Step(s, events[0]);
      ReplayCountsOverflows(s', events[1..]);
      var n := OverflowCount(events[1..]);
      if events[0].Overflow? {
        ModAddLeft(s.overflows + OverflowValue, n * OverflowValue);
      }
    }
  }

  /** From the reset state, k overflows leave `overflows == k * 1024` (exactly, while
      that is below 2^64), whatever captures came in between. */
  lemma ReplayFromResetCountsOverflows(events: seq<Interrupt>, select: bool)
    ensures Replay(Reset.(risingEdgeSelect := select), events).overflows
            == (OverflowCount(events) * OverflowValue) % Modulus
    ensures OverflowCount(events) * OverflowValue < Modulus ==>
            Replay(Reset.(risingEdgeSelect := select), events).overflows == OverflowCount(events) * OverflowValue
  {
    ReplayCountsOverflows(Reset.(risingEdgeSelect := select), events);
  }

  /** The accumulator keeps its ten low bits clear: a multiple of 1024 stays one
      after wrapping, since 2^64 is a multiple of 1024. */
  lemma OverflowsAligned(k: nat)
    ensures ((k * OverflowValue) % Modulus) % OverflowValue == 0
  {
    var q := (k * 1024) / Modulus;
    assert (k * 1024) % Modulus == k * 1024 - q * Modulus;
    assert k * 1024 - q * Modulus == 1024 * (k - q * 0x40_0000_0000_0000);
  }

  /** Every capture flips the edge-select bit, so rising and falling alternate. */
  lemma {:induction false} ReplayAlternatesEdges(s: TimerState, events: seq<Interrupt>)
    ensures Replay(s, events).risingEdgeSelect == (s.risingEdgeSelect != (CaptureCount(events) % 2 == 1))
    decreases |events|
  {
    if events != [] {
      ReplayAlternatesEdges(Step(s, events[0]), events[1..]);
    }
  }

  /** Edge order as the handlers keep it when timestamps arrive in time order:
      waiting for a rising edge, the falling edge is the latest; waiting for a
      falling edge, the rising edge is. */
  predicate EdgesOrdered(s: TimerState)
  {
    if s.risingEdgeSelect then
      s.previousRisingTicks <= s.risingTicks <= s.fallingTicks
    else
      s.previousRisingTicks <= s.fallingTicks <= s.risingTicks
  }

  /** A capture whose timestamp is not earlier than the stored ones keeps the order,
      and in particular keeps the current rising edge at or after the previous one. */
  lemma CapturePreservesEdgeOrder(s: TimerState, icr1: u16, overflowPending: bool)
    requires EdgesOrdered(s)
    requires s.risingTicks <= ExtendedTicks(s.overflows, icr1, overflowPending)
    requires s.fallingTicks <= ExtendedTicks(s.overflows, icr1, overflowPending)
    ensures EdgesOrdered(CaptureStep(s, icr1, overflowPending))
    ensures CaptureStep(s, icr1, overflowPending).previousRisingTicks
            <= CaptureStep(s, icr1, overflowPending).risingTicks
  {
  }

  /** A trace of hardware events in the order their handlers ran: a wrap whose
      overflow handler ran, or an edge at tick `eventTime` whose capture handler
      read ICR1 and TOV1 at tick `readTime`. */
  datatype TimedEvent = Wrap | Edge(eventTime: nat, readTime: nat)

  /** The interrupts the handlers see for a timed trace, `serviced` overflows into it. */
  function Observed(timed: seq<TimedEvent>, serviced: nat): seq<Interrupt>
    decreases |timed|
  {
    if timed == [] then []
    else match timed[0]
      case Wrap => [Overflow] + Observed(timed[1..], serviced + 1)
      case Edge(t, r) => [Capture(t % OverflowValue, serviced < r / OverflowValue)] + Observed(timed[1..], serviced)
  }

  /** Edges come in time order, no earlier than `last`, below 2^64 ticks, and each
      capture handler runs under `InterruptTiming` with the overflows serviced so far. */
  predicate WellTimed(timed: seq<TimedEvent>, serviced: nat, last: nat)
    decreases |timed|
  {
    timed == [] ||
    match timed[0]
      case Wrap => WellTimed(timed[1..], serviced + 1, last)
      case Edge(t, r) =>
        last <= t < Modulus && InterruptTiming(t, r, serviced) && WellTimed(timed[1..], serviced, t)
  }

  /** Along a well-timed trace every stored timestamp is a true edge time, so the
      edge order holds in every state the handlers reach. */
  lemma {:induction false} ReplayKeepsEdgeOrder(s: TimerState, timed: seq<TimedEvent>, serviced: nat, last: nat)
    requires EdgesOrdered(s)
    requires s.overflows == (serviced * OverflowValue) % Modulus
    requires s.risingTicks <= last && s.fallingTicks <= last
    requires WellTimed(timed, serviced, last)
    ensures EdgesOrdered(Replay(s, Observed(timed, serviced)))
    ensures Replay(s, Observed(timed, serviced)).previousRisingTicks
            <= Replay(s, Observed(timed, serviced)).risingTicks
    decreases |timed|
  {
    if timed != [] {
      var events := Observed(timed, serviced);
      match timed[0]
      case Wrap =>
        var s' := OverflowStep(s);
        ModAddLeft(serviced * OverflowValue, OverflowValue);
        assert s'.overflows == ((serviced + 1) * OverflowValue) % Modulus;
        ReplayKeepsEdgeOrder(s', timed[1..], serviced + 1, last);
        assert events[1..] == Observed(timed[1..], serviced + 1);
      case Edge(t, r) =>
        var pending := serviced < r / OverflowValue;
        ExtendedTicksRecoversEventTime(t, r, serviced);
        assert ExtendedTicks(s.overflows, t % OverflowValue, pending) == t;
        var s' := CaptureStep(s, t % OverflowValue, pending);
        CapturePreservesEdgeOrder(s, t % OverflowValue, pending);
        ReplayKeepsEdgeOrder(s', timed[1..], serviced, t);
        assert events[1..] == Observed(timed[1..], serviced);
    }
  }

  /** From the state `start` leaves (zeroed fields, rising edge selected), any
      well-timed trace reaches only ordered states: current rising ≥ previous rising. */
  lemma ReplayFromStartKeepsEdgeOrder(timed: seq<TimedEvent>)
    requires WellTimed(timed, 0, 0)
    ensures EdgesOrdered(Replay(Reset.(risingEdgeSelect := true), Observed(timed, 0)))
    ensures Replay(Reset.(risingEdgeSelect := true), Observed(timed, 0)).previousRisingTicks
            <= Replay(Reset.(risingEdgeSelect := true), Observed(timed, 0)).risingTicks
  {
    ReplayKeepsEdgeOrder(Reset.(risingEdgeSelect := true), timed, 0, 0);
  }

  // ---------------------------------------------------------------------------
  // Duty and period

  datatype Ticks = Ticks(duty: u64, period: u64)

  /** The tick counts `get_duty_and_period` derives from a current tick count
      `now` and the stored edges: zero when the last rising edge is older than the
      window; otherwise the high time (from the latest rising edge if the falling
      edge follows it, else from the previous one) and the last full period. */
  function Measure(now: u64, rising: u64, previous: u64, falling: u64, window: u64): (r: Ticks)
    ensures Sub(now, rising) > window ==> r == Ticks(0, 0)
    ensures Sub(now, rising) <= window && previous <= rising ==> r.period == rising - previous
    ensures Sub(now, rising) <= window && rising <= falling ==> r.duty == falling - rising
    ensures Sub(now, rising) <= window && previous <= falling < rising ==> r.duty == falling - previous
  {
    if Sub(now, rising) > window then Ticks(0, 0)
    else Ticks(if falling >= rising then Sub(falling, rising) else Sub(falling, previous),
               Sub(rising, previous))
  }

  /** With edges in order and a fresh signal, neither 64-bit subtraction wraps;
      between a rising and the next falling edge the duty reported belongs to the
      previous cycle and cannot exceed its period. */
  lemma OrderedMeasureIsExact(s: TimerState, now: u64, window: u64)
    requires EdgesOrdered(s)
    requires Sub(now, s.risingTicks) <= window
    ensures var r := Measure(now, s.risingTicks, s.previousRisingTicks, s.fallingTicks, window);
      && r.period == s.risingTicks - s.previousRisingTicks
      && (s.risingEdgeSelect ==> r.duty == s.fallingTicks - s.risingTicks)
      && (!s.risingEdgeSelect && s.fallingTicks < s.risingTicks ==>
            r.duty == s.fallingTicks - s.previousRisingTicks && r.duty < r.period)
  {
  }

  /** For every state a well-timed trace reaches from `start`, a fresh measurement
      is exact: no 64-bit subtraction wraps, and a previous-cycle duty is shorter
      than its period. */
  lemma ReachableMeasureIsExact(timed: seq<TimedEvent>, now: u64, window: u64)
    requires WellTimed(timed, 0, 0)
    requires Sub(now, Replay(Reset.(risingEdgeSelect := true), Observed(timed, 0)).risingTicks) <= window
    ensures var s := Replay(Reset.(risingEdgeSelect := true), Observed(timed, 0));
      var r := Measure(now, s.risingTicks, s.previousRisingTicks, s.fallingTicks, window);
      && r.period == s.risingTicks - s.previousRisingTicks
      && (s.risingEdgeSelect ==> r.duty == s.fallingTicks - s.risingTicks)
      && (!s.risingEdgeSelect && s.fallingTicks < s.risingTicks ==>
            r.duty == s.fallingTicks - s.previousRisingTicks && r.duty < r.period)
  {
    ReplayFromStartKeepsEdgeOrder(timed);
    OrderedMeasureIsExact(Replay(Reset.(risingEdgeSelect := true), Observed(timed, 0)), now, window);
  }

  /** Rising at 1000, falling at 1300, rising again at 2000: the falling edge predates
      the latest rising edge, so the duty is 1300 - 1000 = 300 and the period 1000. */
  lemma MeasureNormalCycle(now: u64, window: u64)
    requires Sub(now, 2000) <= window
    ensures Measure(now, 2000, 1000, 1300, window) == Ticks(300, 1000)
  {
  }

  /** Falling edge before the latest rising edge: previous 500, rising 2000 and
      falling 1800 give a duty of 1300 ticks and a period of 1500 ticks. */
  lemma MeasureFallingBeforeRising(now: u64, window: u64)
    requires Sub(now, 2000) <= window
    ensures Measure(now, 2000, 500, 1800, window) == Ticks(1300, 1500)
  {
  }

  /** The calculation as the source writes it: the current tick count is
      `overs + tcnt1`, with no regard to a pending overflow. */
  function QueryAsWritten(s: TimerState, window: u64, tcnt1: u16): (r: Ticks)
    ensures Sub(Add(s.overflows, tcnt1), s.risingTicks) > window ==> r == Ticks(0, 0)
    ensures Sub(Add(s.overflows, tcnt1), s.risingTicks) <= window ==>
            r == Measure(s.risingTicks, s.risingTicks, s.previousRisingTicks, s.fallingTicks, window)
    ensures r == Query(s, window, tcnt1, false)
  {
    Measure(Add(s.overflows, tcnt1), s.risingTicks, s.previousRisingTicks, s.fallingTicks, window)
  }

  /** The calculation with the pending overflow taken into account, as the capture
      handler already does for ICR1. */
  function Query(s: TimerState, window: u64, tcnt1: u16, overflowPending: bool): (r: Ticks)
    ensures Sub(ExtendedTicks(s.overflows, tcnt1, overflowPending), s.risingTicks) > window ==> r == Ticks(0, 0)
    ensures Sub(ExtendedTicks(s.overflows, tcnt1, overflowPending), s.risingTicks) <= window ==>
            r == Measure(s.risingTicks, s.risingTicks, s.previousRisingTicks, s.fallingTicks, window)
  {
    Measure(ExtendedTicks(s.overflows, tcnt1, overflowPending),
            s.risingTicks, s.previousRisingTicks, s.fallingTicks, window)
  }

  /** The two agree except when the counter wrapped inside the snapshot. */
  lemma QueryAgreesWithoutPendingOverflow(s: TimerState, window: u64, tcnt1: u16, overflowPending: bool)
    ensures !(overflowPending && tcnt1 < OverflowHalfValue) ==>
            Query(s, window, tcnt1, overflowPending) == QueryAsWritten(s, window, tcnt1)
  {
  }

  /** The handlers, started on a rising edge, see the signal rise at tick 1000, fall at
      1300 (after the wrap at 1024) and rise again at 2000. */
  lemma ExampleTrace()
    ensures Replay(Reset.(risingEdgeSelect := true),
                   [Capture(1000, false), Overflow, Capture(276, false), Capture(976, false)])
            == TimerState(1024, 2000, 1000, 1300, false)
    ensures QueryAsWritten(TimerState(1024, 2000, 1000, 1300, false), 25000, 1000) == Ticks(300, 1000)
  {
  }

  /** The signal rose at 1000, fell at 1300 and rose at 2000; the counter then wrapped
      at tick 2048 and is read at 2050, before the overflow handler has run. The
      rising edge is 50 ticks old, yet the source sees `1024 + 2 - 2000`, which wraps
      to nearly 2^64, and reports no signal. */
  lemma QueryAsWrittenMissesPendingOverflow()
    ensures var s := TimerState(1024, 2000, 1000, 1300, false);
      && ExtendedTicks(1024, 2, true) == 2050
      && QueryAsWritten(s, 25000, 2) == Ticks(0, 0)
      && Query(s, 25000, 2, true) == Ticks(300, 1000)
  {
    ExtendedTicksRecoversEventTime(2050, 2050, 1);
  }

  /** With the correction, the age tested against the window is the true time since
      the latest rising edge, so the result is `Measure` at the true tick count. */
  lemma QueryUsesTrueTime(s: TimerState, window: u64, now: nat, serviced: nat)
    requires InterruptTiming(now, now, serviced)
    requires s.overflows == (serviced * OverflowValue) % Modulus
    requires now < Modulus
    ensures Query(s, window, now % OverflowValue, serviced < now / OverflowValue)
            == Measure(now, s.risingTicks, s.previousRisingTicks, s.fallingTicks, window)
    ensures s.risingTicks <= now && now - s.risingTicks > window ==>
            Query(s, window, now % OverflowValue, serviced < now / OverflowValue) == Ticks(0, 0)
  {
    ExtendedTicksRecoversEventTime(now, now, serviced);
  }

  /** Asked again later, with no interrupt in between, a measurement either stays
      the same or turns to "no signal" once the edge ages past the window; a stale
      answer never turns fresh. */
  lemma MeasureLaterNow(now: u64, later: u64, rising: u64, previous: u64, falling: u64, window: u64)
    requires rising <= now <= later
    ensures Sub(now, rising) > window ==> Sub(later, rising) > window
    ensures var r := Measure(later, rising, previous, falling, window);
      r == Measure(now, rising, previous, falling, window) || r == Ticks(0, 0)
  {
  }

  /** The same for two queries whose TCNT1 reads grow with no wrap pending. */
  lemma LaterQueryKeepsOrClears(s: TimerState, window: u64, tcnt1: u16, tcnt1': u16)
    requires s.risingTicks <= s.overflows + tcnt1
    requires tcnt1 <= tcnt1' && s.overflows + tcnt1' < Modulus
    ensures Sub(Add(s.overflows, tcnt1), s.risingTicks) > window ==>
            Sub(Add(s.overflows, tcnt1'), s.risingTicks) > window
    ensures Query(s, window, tcnt1', false) == Query(s, window, tcnt1, false)
         || Query(s, window, tcnt1', false) == Ticks(0, 0)
  {
    MeasureLaterNow(Add(s.overflows, tcnt1), Add(s.overflows, tcnt1'),
                    s.risingTicks, s.previousRisingTicks, s.fallingTicks, window);
  }

  // ---------------------------------------------------------------------------
  // The object

  /** The one `input_capture` resource: its static fields, the configuration it
      stores, and the ICES1 edge-select bit its capture handler toggles. */
  class InputCapture {
    var overflows: u64
    var risingTicks: u64
    var previousRisingTicks: u64
    var fallingTicks: u64
    var captureWindowTicks: u64
    var risingEdgeSelect: bool
    var tickTime: real
    var overflowCallback: Option<Callback>
    var inputCaptureCallback: Option<Callback>

    /** How many times the overflow handler has run. */
    ghost var overflowCount: nat

    ghost predicate Valid()
      reads this
    {
      && overflows == (overflowCount * OverflowValue) % Modulus
      && ConfiguredTickTime(tickTime)
    }

    function State(): TimerState
      reads this
    {
      TimerState(overflows, risingTicks, previousRisingTicks, fallingTicks, risingEdgeSelect)
    }

    /** Program start for the single `input_capture` object with static storage
        duration: zeroed statics and tick time, no callbacks, the reset register. */
    constructor ()
      ensures Valid() && overflowCount == 0
      ensures State() == Reset
      ensures captureWindowTicks == 0 && tickTime == 0.0
      ensures overflowCallback == None && inputCaptureCallback == None
    {
      overflows, risingTicks, previousRisingTicks, fallingTicks := 0, 0, 0, 0;
      captureWindowTicks, risingEdgeSelect, tickTime := 0, false, 0.0;
      overflowCallback, inputCaptureCallback := None, None;
      overflowCount := 0;
    }

    /** `ISR(TIMER1_OVF_vect)`. */
    method OnOverflow()
      requires Valid()
      modifies this`overflows, this`overflowCount
      ensures Valid() && overflowCount == old(overflowCount) + 1
      ensures overflows == (old(overflows) + OverflowValue) % Modulus
      ensures overflows % OverflowValue == 0
      ensures State() == OverflowStep(old(State()))
    {
      overflows := Add(overflows, OverflowValue);
      overflowCount := overflowCount + 1;
      ModAddLeft(old(overflowCount) * OverflowValue, OverflowValue);
      OverflowsAligned(overflowCount);
    }

    /** `ISR(TIMER1_CAPT_vect)`, given the ICR1 value and the TOV1 flag it reads. */
    method OnCapture(icr1: u16, overflowPending: bool)
      requires Valid()
      modifies this`risingTicks, this`previousRisingTicks, this`fallingTicks, this`risingEdgeSelect
      ensures Valid()
      ensures risingEdgeSelect == !old(risingEdgeSelect)
      ensures old(risingEdgeSelect) ==>
        && previousRisingTicks == old(risingTicks)
        && risingTicks == ExtendedTicks(overflows, icr1, overflowPending)
        && fallingTicks == old(fallingTicks)
      ensures !old(risingEdgeSelect) ==>
        && fallingTicks == ExtendedTicks(overflows, icr1, overflowPending)
        && risingTicks == old(risingTicks) && previousRisingTicks == old(previousRisingTicks)
      ensures State() == CaptureStep(old(State()), icr1, overflowPending)
    {
      var risingEdge := risingEdgeSelect;
      risingEdgeSelect := !risingEdgeSelect;
      var timestamp := Add(overflows, icr1);
      if overflowPending && icr1 < OverflowHalfValue {
        timestamp := Add(timestamp, OverflowValue);
      }
      if risingEdge {
        previousRisingTicks := risingTicks;
        risingTicks := timestamp;
      } else {
        fallingTicks := timestamp;
      }
    }

    /** `get_duty_and_period`, given the TCNT1 value and the TOV1 flag read in the
        snapshot; it changes nothing. */
    method GetDutyAndPeriod(tcnt1: u16, overflowPending: bool)
      returns (duty: real, dutyTicks: u64, period: real, periodTicks: u64)
      ensures Ticks(dutyTicks, periodTicks) == Query(State(), captureWindowTicks, tcnt1, overflowPending)
      ensures duty == dutyTicks as real * tickTime && period == periodTicks as real * tickTime
      ensures dutyTicks == 0 ==> duty == 0.0
      ensures periodTicks == 0 ==> period == 0.0
    {
      var overs, rising, previous, falling := overflows, risingTicks, previousRisingTicks, fallingTicks;
      var now := Add(overs, tcnt1);
      if overflowPending && tcnt1 < OverflowHalfValue {
        now := Add(now, OverflowValue);
      }
      if Sub(now, rising) > captureWindowTicks {
        dutyTicks, periodTicks := 0, 0;
      } else {
        dutyTicks := if falling >= rising then Sub(falling, rising) else Sub(falling, previous);
        periodTicks := Sub(rising, previous);
      }
      duty := if dutyTicks != 0 then dutyTicks as real * tickTime else 0.0;
      period := if periodTicks != 0 then periodTicks as real * tickTime else 0.0;
    }

    /** `get_tick_time`: 0 before `start` (static object), else the tick time of the chosen prescaler. */
    function GetTickTime(): (t: real)
      reads this
      requires Valid()
      ensures 0.0 <= t <= 1024.0 / ClockHz as real
      ensures t != 0.0 ==> exists c :: c != NoClock && t == TickTime(c)
    {
      tickTime
    }

    /** `get_capture_window`: the window back in seconds, whole ticks only. */
    function GetCaptureWindow(): (w: real)
      reads this
      ensures tickTime > 0.0 ==> w / tickTime == captureWindowTicks as real
    {
      captureWindowTicks as real * tickTime
    }

    /** `set_overflow_callback`: a null argument is ignored. */
    method SetOverflowCallback(callback: Option<Callback>)
      modifies this`overflowCallback
      ensures overflowCallback == Install(old(overflowCallback), callback)
      ensures callback.None? ==> overflowCallback == old(overflowCallback)
    {
      if callback.Some? {
        overflowCallback := callback;
      }
    }

    /** `set_input_capture_callback`: a null argument is ignored. */
    method SetInputCaptureCallback(callback: Option<Callback>)
      modifies this`inputCaptureCallback
      ensures inputCaptureCallback == Install(old(inputCaptureCallback), callback)
      ensures callback.None? ==> inputCaptureCallback == old(inputCaptureCallback)
      ensures overflowCallback == old(overflowCallback)
    {
      if callback.Some? {
        inputCaptureCallback := callback;
      }
    }

    /** `start`: "no clock" returns at once; otherwise it derives the tick time and
        the window in ticks, and selects a rising edge for the first capture. */
    method Start(prescaler: PrescalerCode, captureWindow: real := DefaultCaptureWindow)
      requires Valid() && ValidCaptureWindow(prescaler, captureWindow)
      modifies this`tickTime, this`captureWindowTicks, this`risingEdgeSelect
      ensures Valid()
      ensures prescaler == NoClock ==> unchanged(this)
      ensures prescaler != NoClock ==>
        && tickTime == TickTime(prescaler)
        && captureWindowTicks == WindowTicks(prescaler, captureWindow)
        && risingEdgeSelect
      ensures prescaler != NoClock && 0.0 <= captureWindow ==>
        GetCaptureWindow() <= captureWindow < GetCaptureWindow() + tickTime
    {
      if prescaler == NoClock {
        return;
      }
      tickTime := PrescalerValue(prescaler) as real / ClockHz as real;
      captureWindowTicks := WindowTicks(prescaler, captureWindow);
      risingEdgeSelect := true;
    }
  }

  /** Two queries with no interrupt in between, the second reading TCNT1 no earlier
      than the first and no wrap pending: the second reports the first's tick counts,
      or no signal once the edge has aged past the window. */
  method SuccessiveQueries(timer: InputCapture, tcnt1: u16, tcnt1': u16)
    returns (first: Ticks, second: Ticks)
    requires timer.risingTicks <= timer.overflows + tcnt1
    requires tcnt1 <= tcnt1' && timer.overflows + tcnt1' < Modulus
    ensures second == first || second == Ticks(0, 0)
  {
    var d1, dt1, p1, pt1 := timer.GetDutyAndPeriod(tcnt1, false);
    var d2, dt2, p2, pt2 := timer.GetDutyAndPeriod(tcnt1', false);
    first, second := Ticks(dt1, pt1), Ticks(dt2, pt2);
    LaterQueryKeepsOrClears(timer.State(), timer.captureWindowTicks, tcnt1, tcnt1');
  }
}
