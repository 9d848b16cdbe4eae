/** The configuration part of the Timer/Counter1 input-capture library: the
    counter constants, the prescaler tables, the tick time and capture window
    that `start` derives from them, and the semantics of the callback setters. */
module Timer1Config {
  import opened Uint64

  datatype Option<T> = None | Some(value: T)

  /** CPU clock of the board, in hertz. */
  const ClockHz: int := 16000000

  /** In fast 10-bit PWM mode the counter wraps after `1 << 10` ticks. */
  const OverflowValueBits: bv16 := 1 << 10
  const OverflowValue: int := OverflowValueBits as int
  const OverflowHalfValue: int := (OverflowValueBits >> 1) as int

  lemma OverflowConstants()
    ensures OverflowValue == 1024 && OverflowHalfValue == 512
    ensures OverflowHalfValue * 2 == OverflowValue
    ensures Modulus % OverflowValue == 0
  {
  }

  /** `prescaler_codes`, in declaration order; `prescalers` is their number. */
  datatype PrescalerCode = NoClock | Prescaler1 | Prescaler8 | Prescaler64 | Prescaler256 | Prescaler1024

  const Prescalers: nat := 6

  /** The value of the enumerator `c`, which indexes both tables. */
  function Ordinal(c: PrescalerCode): (i: nat)
    ensures i < Prescalers
    ensures i == 0 <==> c == NoClock
  {
    match c
    case NoClock => 0
    case Prescaler1 => 1
    case Prescaler8 => 2
    case Prescaler64 => 3
    case Prescaler256 => 4
    case Prescaler1024 => 5
  }

  /** The enumerator whose value is `i`. */
  function CodeAt(i: nat): (c: PrescalerCode)
    requires i < Prescalers
    ensures Ordinal(c) == i
  {
    if i == 0 then NoClock
    else if i == 1 then Prescaler1
    else if i == 2 then Prescaler8
    else if i == 3 then Prescaler64
    else if i == 4 then Prescaler256
    else Prescaler1024
  }

  /** Enumerator values are distinct: `CodeAt` inverts `Ordinal`. */
  lemma OrdinalRoundTrip(c: PrescalerCode)
    ensures CodeAt(Ordinal(c)) == c
  {
  }

  /** `prescaler_values`: the clock division factor selected by each code. */
  const PrescalerValues: seq<int> := [0, 1, 8, 64, 256, 1024]

  function PrescalerValue(c: PrescalerCode): (v: int)
    ensures v == 0 <==> c == NoClock
    ensures c != NoClock ==> 1 <= v <= 1024 && 1024 % v == 0
  {
    PrescalerValues[Ordinal(c)]
  }

  /** The table has one entry per code and grows strictly in enum order. */
  lemma PrescalerValuesIncrease()
    ensures |PrescalerValues| == Prescalers
    ensures forall i, j :: 0 <= i < j < Prescalers ==> PrescalerValues[i] < PrescalerValues[j]
  {
  }

  /** Positions of the clock-select bits CS10, CS11, CS12 in TCCR1B. */
  const CS10: nat := 0
  const CS11: nat := 1
  const CS12: nat := 2

  /** `prescaler_bits`: the clock-select field written into TCCR1B for each code. */
  const PrescalerBits: seq<bv8> := [
    0,
    1 << CS10,
    1 << CS11,
    (1 << CS11) | (1 << CS10),
    1 << CS12,
    (1 << CS12) | (1 << CS10)
  ]

  /** Each code's clock-select field equals the code's own value and stays within the
      three low bits of TCCR1B; "no clock" clears them. */
  lemma PrescalerBitsAreCodeValues()
    ensures |PrescalerBits| == Prescalers
    ensures forall i :: 0 <= i < Prescalers ==> PrescalerBits[i] as int == i
    ensures forall i :: 0 <= i < Prescalers ==> PrescalerBits[i] & 0xF8 == 0
  {
  }

  /** `tick_time__` as `start` computes it: seconds per counter tick. */
  function TickTime(c: PrescalerCode): (t: real)
    requires c != NoClock
    ensures 0.0 < t <= 1024.0 / ClockHz as real
  {
    PrescalerValue(c) as real / ClockHz as real
  }

  /** What the conversion to `uint64_t` in `start` needs: the quotient, truncated
      toward zero, must be representable, so it lies strictly between -1 and 2^64.
      Nothing is needed for "no clock". */
  predicate ValidCaptureWindow(c: PrescalerCode, window: real)
  {
    c != NoClock ==> -1.0 < window / TickTime(c) < Modulus as real
  }

  /** `capture_window_ticks` as `start` computes it: the window in ticks, truncated
      toward zero. A window that is not negative gets the largest tick count that
      fits in it; a window of less than one tick below zero gets none. */
  function WindowTicks(c: PrescalerCode, window: real): (n: u64)
    requires c != NoClock && ValidCaptureWindow(c, window)
    ensures 0.0 <= window ==> n as real * TickTime(c) <= window < (n + 1) as real * TickTime(c)
    ensures window < 0.0 ==> n == 0
  {
    var t := TickTime(c);
    var x := window / t;
    if x < 0.0 then 0
    else
      var n := x.Floor;
      assert n as real <= x < n as real + 1.0;
      assert x * t == window;
      MulMono(n as real, x, t);
      MulMono(x, n as real + 1.0, t);
      n
  }

  /** A tick time `start` can store: none yet (0), or that of one of the five clocked codes. */
  predicate ConfiguredTickTime(t: real)
  {
    t == 0.0 || exists c :: c != NoClock && t == TickTime(c)
  }

  lemma MulMono(a: real, b: real, t: real)
    requires 0.0 < t
    ensures a <= b ==> a * t <= b * t
    ensures a < b ==> a * t < b * t
  {
  }

  /** The default capture window of `start`: 100 milliseconds. */
  const DefaultCaptureWindow: real := 0.1

  /** The default window suits every prescaler; at 64 it is 25000 ticks of 4 microseconds. */
  lemma DefaultCaptureWindowTicks()
    ensures forall c :: ValidCaptureWindow(c, DefaultCaptureWindow)
    ensures WindowTicks(Prescaler64, DefaultCaptureWindow) == 25000
    ensures WindowTicks(Prescaler1, DefaultCaptureWindow) == 1600000
    ensures WindowTicks(Prescaler1024, DefaultCaptureWindow) == 1562
  {
    assert DefaultCaptureWindow / TickTime(Prescaler64) == 25000.0;
    assert DefaultCaptureWindow / TickTime(Prescaler1) == 1600000.0;
    assert DefaultCaptureWindow / TickTime(Prescaler1024) == 1562.5;
  }

  /** A callback is a non-null function pointer; `None` models `nullptr`. */
  datatype Callback = Callback(address: nat)

  /** What a callback setter stores: a non-null argument replaces the stored
      callback, a null argument leaves it as it was. */
  function Install(stored: Option<Callback>, arg: Option<Callback>): (r: Option<Callback>)
    ensures arg.Some? ==> r == arg
    ensures arg.None? ==> r == stored
  {
    if arg.Some? then arg else stored
  }

  /** The stored callback after a sequence of setter calls, first call first. */
  function InstallAll(stored: Option<Callback>, args: seq<Option<Callback>>): Option<Callback>
    decreases |args|
  {
    if args == [] then stored else InstallAll(Install(stored, args[0]), args[1..])
  }

  /** No sequence of setter calls clears an installed callback. */
  lemma {:induction false} InstalledCallbackPersists(stored: Option<Callback>, args: seq<Option<Callback>>)
    requires stored.Some?
    ensures InstallAll(stored, args).Some?
    decreases |args|
  {
    if args != [] {
      InstalledCallbackPersists(Install(stored, args[0]), args[1..]);
    }
  }

  /** The stored callback stays null exactly when it was null and every call passed null. */
  lemma {:induction false} InstallAllNone(stored: Option<Callback>, args: seq<Option<Callback>>)
    ensures InstallAll(stored, args).None? <==> stored.None? && forall i :: 0 <= i < |args| ==> args[i].None?
    decreases |args|
  {
    if args != [] {
      InstallAllNone(Install(stored, args[0]), args[1..]);
      assert forall i :: 1 <= i < |args| ==> args[i] == args[1..][i - 1];
      if stored.Some? {
        InstalledCallbackPersists(Install(stored, args[0]), args[1..]);
      }
    }
  }

  /** After the calls, the stored callback is the argument of the last non-null call. */
  lemma {:induction false} InstallAllKeepsLast(stored: Option<Callback>, args: seq<Option<Callback>>, k: nat)
    requires k < |args| && args[k].Some?
    requires forall i :: k < i < |args| ==> args[i].None?
    ensures InstallAll(stored, args) == args[k]
    decreases |args|
  {
    if k == 0 {
      NullCallsKeep(args[0], args[1..]);
    } else {
      assert forall i :: k - 1 < i < |args| - 1 ==> args[1..][i] == args[i + 1];
      InstallAllKeepsLast(Install(stored, args[0]), args[1..], k - 1);
    }
  }

  /** Setter calls that all pass null change nothing. */
  lemma {:induction false} NullCallsKeep(stored: Option<Callback>, args: seq<Option<Callback>>)
    requires forall i :: 0 <= i < |args| ==> args[i].None?
    ensures InstallAll(stored, args) == stored
    decreases |args|
  {
    if args != [] {
      assert forall i :: 0 <= i < |args| - 1 ==> args[1..][i] == args[i + 1];
      NullCallsKeep(stored, args[1..]);
    }
  }
}
