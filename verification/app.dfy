/** The screen of MainActivity.kt: the clock's target drives one tick of the countdown, whose
    frame is laid out by the ticker. */
module App {
  import opened Wrappers
  import Decimal
  import Countdown
  import Ticker
  import Timer

  predicate AllAscii(s: string) {
    forall i :: 0 <= i < |s| ==> Ticker.IsAscii(s[i])
  }

  lemma DigitsAreAscii(s: string)
    requires Decimal.AllDigits(s)
    ensures AllAscii(s)
  {
  }

  lemma RenderIsAscii(hms: Countdown.Hms)
    ensures AllAscii(Countdown.Render(hms))
  {
    DigitsAreAscii(Decimal.Pad2(hms.hours));
    DigitsAreAscii(Decimal.Pad2(hms.minutes));
    DigitsAreAscii(Decimal.Pad2(hms.seconds));
  }

  lemma WordsAreAscii()
    ensures AllAscii(Countdown.Ready) && AllAscii(Countdown.TimeUp)
  {
  }

  /** Every text the clock can show is ASCII, so each character has a glyph column. */
  lemma FrameIsAscii(target: Option<int>, reached: bool, now: int)
    ensures AllAscii(Countdown.SelectFrame(target, reached, now).text)
  {
    WordsAreAscii();
    if target.Some? && Countdown.WholeSeconds(target.value, now) > 0 {
      RenderIsAscii(Countdown.Decompose(Countdown.WholeSeconds(target.value, now)));
    }
  }

  /** `MyApp` composing `TickingClock(target?.time)` with `Ticker(text, shouldAnimate)`: one row
      with exactly one column per character of the frame text, animated as the frame says. */
  method Screen(clock: Timer.Clock, now: int) returns (frame: Countdown.Frame, row: seq<Ticker.Cell>)
    ensures frame == Countdown.Tick(clock.target, now)
    ensures frame.text == Countdown.Ready <==> clock.target.None?
    ensures AllAscii(frame.text) && |row| == |frame.text|
    ensures forall i :: 0 <= i < |row| ==>
              row[i] == Ticker.CharColumn(frame.text[i], Ticker.TextList(frame.text[i]), frame.animate)
  {
    var reached := Countdown.ReachedTarget(now, clock.target);
    frame := Countdown.SelectFrame(clock.target, reached, now);
    FrameIsAscii(clock.target, reached, now);
    assert frame.text == Countdown.Ready <==> clock.target.None?;
    row := Ticker.LayoutRow(None, frame.text, None, frame.animate);
  }

  /** From a stopped clock, +1H shows "01:00:00", animated, to a poll in the tap's own
      millisecond; the hour splits as 1 h 0 min 0 s, each field padded to two digits. */
  lemma OneHourFromIdle(now: int)
    ensures var clock := Timer.Press(Timer.Clock(None), Timer.PlusOneHour, now);
            Countdown.Tick(clock.target, now) == Countdown.Frame("01:00:00", true)
  {
    assert Countdown.Render(Countdown.Hms(1, 0, 0)) == "01:00:00";
  }

  /** STOP always brings back "READY", not animated. */
  lemma StopShowsReady(clock: Timer.Clock, at: int, now: int)
    ensures var stopped := Timer.Press(clock, Timer.Stop, at);
            Countdown.Tick(stopped.target, now) == Countdown.Frame(Countdown.Ready, false)
  {
  }
}
