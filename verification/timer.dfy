/** The timer state of MainActivity.kt: an optional target time in epoch milliseconds, moved
    later by the +1H / +1M / +10S buttons and cleared by STOP. The current time is a parameter. */
module Timer {
  import opened Wrappers
  import Decimal

  const IntMin: int := -0x8000_0000
  const IntMax: int := 0x7fff_ffff
  const IntRange: int := 0x1_0000_0000

  /** Fits in a Kotlin `Int`. */
  predicate IsInt(v: int) {
    IntMin <= v <= IntMax
  }

  /** Kotlin's `Long.toInt()`: keeps the low 32 bits, read as two's complement. */
  function ToInt(v: int): (r: int)
    ensures IsInt(r)
    ensures (r - v) % IntRange == 0
    ensures IsInt(v) ==> r == v
  {
    (v - IntMin) % IntRange + IntMin
  }

  datatype TimeUnit = Hours | Minutes | Seconds

  function SecondsPer(unit: TimeUnit): nat {
    match unit
    case Hours => 3600
    case Minutes => 60
    case Seconds => 1
  }

  /** `unit.toSeconds(value.toLong()).toInt()`. The Long product cannot saturate for an Int
      value; the narrowing back to Int wraps when the product does not fit. */
  function ToSeconds(value: int, unit: TimeUnit): (s: int)
    requires IsInt(value)
    ensures IsInt(s)
    ensures IsInt(value * SecondsPer(unit)) ==> s == value * SecondsPer(unit)
    ensures (s - value * SecondsPer(unit)) % IntRange == 0
    ensures unit == Seconds ==> s == value
  {
    ToInt(value * SecondsPer(unit))
  }

  /** Up to 596523 hours (and any smaller unit for that many) convert without wrapping. */
  lemma ToSecondsExact(value: int, unit: TimeUnit)
    requires 0 <= value <= 596523
    ensures ToSeconds(value, unit) == value * SecondsPer(unit)
  {
    assert value * SecondsPer(unit) <= 596523 * 3600;
  }

  /** One more hour than that does wrap to a negative number of seconds. */
  lemma ToSecondsWraps()
    ensures ToSeconds(596524, Hours) < 0
  {
  }

  /** The saved state: the target time, or none while the clock is stopped. */
  datatype Clock = Clock(target: Option<int>)

  /** `addTime` after the unit conversion: a copy of the target (or of `now` when there is none)
      moved `seconds` later, as `Calendar.add(Calendar.SECOND, seconds)` does. */
  function AddSeconds(clock: Clock, seconds: int, now: int): (c: Clock)
    ensures c.target.Some?
    ensures clock.target.None? ==> c.target.value == now + seconds * 1000
    ensures clock.target.Some? ==> c.target.value - clock.target.value == seconds * 1000
  {
    var base := clock.target.GetOr(now);
    Clock(Some(base + seconds * 1000))
  }

  /** `addTime(value, unit)`: for any value a button can send without wrapping, the target (or
      `now`) moves by exactly `value` units. */
  function AddTime(clock: Clock, value: int, unit: TimeUnit, now: int): (c: Clock)
    requires IsInt(value)
    ensures c.target.Some?
    ensures 0 <= value <= 596523 ==>
              c.target.value == clock.target.GetOr(now) + value * SecondsPer(unit) * 1000
  {
    assert 0 <= value <= 596523 ==> IsInt(value * SecondsPer(unit));
    AddSeconds(clock, ToSeconds(value, unit), now)
  }

  /** `stopClock`. */
  function StopClock(clock: Clock): (c: Clock)
    ensures c.target.None?
  {
    Clock(None)
  }

  /** Once a target is set, adding time does not look at the current time. */
  lemma AddTimeIgnoresNow(clock: Clock, value: int, unit: TimeUnit, now1: int, now2: int)
    requires clock.target.Some? && IsInt(value)
    ensures AddTime(clock, value, unit, now1) == AddTime(clock, value, unit, now2)
  {
  }

  /** Two additions are one addition of the sum, taken from the first call's time. */
  lemma AddSecondsAccumulate(clock: Clock, a: int, b: int, now1: int, now2: int)
    ensures AddSeconds(AddSeconds(clock, a, now1), b, now2) == AddSeconds(clock, a + b, now1)
  {
  }

  /** The buttons of `ButtonGroup`. */
  datatype Button = PlusOneHour | PlusOneMinute | PlusTenSeconds | Stop

  /** The text on each button. */
  function Caption(b: Button): string {
    match b
    case PlusOneHour => "+1H"
    case PlusOneMinute => "+1M"
    case PlusTenSeconds => "+10S"
    case Stop => "STOP"
  }

  function UnitLetter(unit: TimeUnit): char {
    match unit
    case Hours => 'H'
    case Minutes => 'M'
    case Seconds => 'S'
  }

  /** The `(value, unit)` a button passes to `onButtonClick`; STOP calls `onStopClick` instead. */
  function Request(b: Button): (r: Option<(int, TimeUnit)>)
    ensures r.None? <==> b == Stop
    ensures r.Some? ==> 0 < r.value.0 <= 596523 && r.value.0 * SecondsPer(r.value.1) == ButtonSeconds(b)
  {
    match b
    case PlusOneHour => Some((1, Hours))
    case PlusOneMinute => Some((1, Minutes))
    case PlusTenSeconds => Some((10, Seconds))
    case Stop => None
  }

  /** Every adding button sends exactly what its caption says: '+', the value, the unit letter. */
  lemma CaptionMatchesRequest(b: Button)
    ensures Request(b).Some? <==> b != Stop
    ensures Request(b).Some? ==>
              Caption(b) == "+" + Decimal.Digits(Request(b).value.0) + [UnitLetter(Request(b).value.1)]
  {
    if b == PlusTenSeconds {
      assert Decimal.Digits(10) == "10";
    }
  }

  /** A tap on a button at time `now`. An adding button moves the target (or `now`) by its
      caption's worth of milliseconds; STOP clears the target whatever the prior state. */
  function Press(clock: Clock, b: Button, now: int): (c: Clock)
    ensures b == Stop <==> c.target.None?
    ensures b != Stop ==> c.target == Some(clock.target.GetOr(now) + ButtonSeconds(b) * 1000)
  {
    match Request(b)
    case Some((value, unit)) => AddTime(clock, value, unit, now)
    case None => StopClock(clock)
  }

  /** The seconds an adding button adds. */
  function ButtonSeconds(b: Button): nat {
    match b
    case PlusOneHour => 3600
    case PlusOneMinute => 60
    case PlusTenSeconds => 10
    case Stop => 0
  }

  /** A sequence of taps, each with the time it happened. */
  datatype Tap = Tap(button: Button, at: int)

  function Run(clock: Clock, taps: seq<Tap>): Clock
    decreases |taps|
  {
    if taps == [] then clock else Run(Press(clock, taps[0].button, taps[0].at), taps[1..])
  }

  function TotalSeconds(taps: seq<Tap>): nat
    decreases |taps|
  {
    if taps == [] then 0 else ButtonSeconds(taps[0].button) + TotalSeconds(taps[1..])
  }

  predicate NoStop(taps: seq<Tap>) {
    forall i :: 0 <= i < |taps| ==> taps[i].button != Stop
  }

  /** Taps without STOP accumulate: the final target is the first base (the target, or the first
      tap's time) plus the sum of what the buttons add; only the first tap's time matters. */
  lemma {:induction false} RunAccumulates(clock: Clock, taps: seq<Tap>)
    requires |taps| >= 1 && NoStop(taps)
    ensures Run(clock, taps).target
            == Some(clock.target.GetOr(taps[0].at) + TotalSeconds(taps) * 1000)
    decreases |taps|
  {
    var next := Press(clock, taps[0].button, taps[0].at);
    if |taps| > 1 {
      RunAccumulates(next, taps[1..]);
    }
  }

  /** After a STOP, the earlier taps are forgotten. */
  lemma {:induction false} RunAfterStop(clock: Clock, before: seq<Tap>, at: int, after: seq<Tap>)
    ensures Run(clock, before + [Tap(Stop, at)] + after) == Run(Clock(None), after)
    decreases |before|
  {
    var taps := before + [Tap(Stop, at)] + after;
    if before == [] {
      assert taps[1..] == after;
    } else {
      assert taps[1..] == before[1..] + [Tap(Stop, at)] + after;
      RunAfterStop(Press(clock, before[0].button, before[0].at), before[1..], at, after);
    }
  }
}
