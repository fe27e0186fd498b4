/** The countdown of TickingClock.kt: the remaining-time text, the whole-second "reached"
    test, and the choice of what the ticker shows. Times are epoch milliseconds. */
module Countdown {
  import opened Wrappers
  import Decimal
  import Strings

  const Ready: string := "READY"
  const TimeUp: string := "TIME UP"

  /** Kotlin's `ms / 1000` on a Long: the whole seconds of `ms`, rounded toward zero. */
  function SecondOf(ms: int): (q: int)
    ensures ms >= 0 ==> 0 <= q * 1000 <= ms < q * 1000 + 1000
    ensures ms < 0 ==> q * 1000 - 1000 < ms <= q * 1000 <= 0
  {
    if ms >= 0 then ms / 1000 else -((-ms) / 1000)
  }

  /** Milliseconds left until `target`, clamped at zero (`coerceAtLeast(0L)`). */
  function Remaining(target: int, now: int): nat {
    if target - now > 0 then target - now else 0
  }

  /** Whole seconds left until `target`: none once less than a second is left (a past target
      included), otherwise the milliseconds left rounded down to a whole second. */
  function WholeSeconds(target: int, now: int): (s: nat)
    ensures s > 0 <==> target - now >= 1000
    ensures target - now >= 0 ==> s * 1000 <= target - now < s * 1000 + 1000
  {
    Remaining(target, now) / 1000
  }

  datatype Hms = Hms(hours: nat, minutes: nat, seconds: nat)

  /** The `TimeUnit` split of a number of seconds into hours, minutes of the hour and seconds of
      the minute. It is exact, and it is the only split with minutes and seconds under 60. */
  function Decompose(d: nat): (t: Hms)
    ensures t.hours * 3600 + t.minutes * 60 + t.seconds == d
    ensures t.minutes < 60 && t.seconds < 60
  {
    var hours := d / 3600;
    var totalMinutes := d / 60;
    assert totalMinutes == hours * 60 + (d % 3600) / 60;
    Hms(hours, totalMinutes - hours * 60, d % 60)
  }

  lemma DecomposeUnique(d: nat, t: Hms)
    requires t.hours * 3600 + t.minutes * 60 + t.seconds == d
    requires t.minutes < 60 && t.seconds < 60
    ensures Decompose(d) == t
  {
    var u := Decompose(d);
    assert t.hours * 60 + t.minutes == u.hours * 60 + u.minutes;
  }

  /** The text `getCountingText` builds: "TIME UP" with no target or under one whole second left,
      otherwise the `%02d` fields joined by ':', with leading zero hours and minutes left out.
      It is "TIME UP" exactly when there is no target or no whole second is left (a past target
      included), and never "READY". */
  function CountingText(target: Option<int>, now: int): (s: string)
    ensures s != Ready
    ensures s == TimeUp <==> !(target.Some? && WholeSeconds(target.value, now) > 0)
  {
    match target
    case None => TimeUp
    case Some(t) =>
      var d := WholeSeconds(t, now);
      if d == 0 then TimeUp
      else
        RenderIsNotWord(Decompose(d));
        Render(Decompose(d))
  }

  /** The `buildString` block: each field `%02d` with its trailing ':', each appended only when
      it or a more significant field is non-zero. Nothing at all is built for zero. */
  function Render(hms: Hms): (s: string)
    ensures s == "" <==> hms.hours == 0 && hms.minutes == 0 && hms.seconds == 0
  {
    (if hms.hours > 0 then Decimal.Pad2(hms.hours) + ":" else "")
    + (if hms.minutes > 0 || hms.hours > 0 then Decimal.Pad2(hms.minutes) + ":" else "")
    + (if hms.seconds > 0 || hms.minutes > 0 || hms.hours > 0 then Decimal.Pad2(hms.seconds) else "")
  }

  /** The numbers the countdown of `t` shows, most significant first. */
  function Fields(t: Hms): seq<nat> {
    (if t.hours > 0 then [t.hours] else [])
    + (if t.hours > 0 || t.minutes > 0 then [t.minutes] else [])
    + (if t.hours > 0 || t.minutes > 0 || t.seconds > 0 then [t.seconds] else [])
  }

  function PadAll(vs: seq<nat>): (parts: seq<string>)
    ensures |parts| == |vs|
    ensures forall i :: 0 <= i < |vs| ==> parts[i] == Decimal.Pad2(vs[i])
  {
    if vs == [] then [] else [Decimal.Pad2(vs[0])] + PadAll(vs[1..])
  }

  /** Positional value of fields read from the right as seconds, minutes, hours. */
  function Base60(vs: seq<nat>): nat {
    if vs == [] then 0 else Base60(vs[..|vs| - 1]) * 60 + vs[|vs| - 1]
  }

  predicate AllFieldsDigits(parts: seq<string>) {
    forall i :: 0 <= i < |parts| ==> |parts[i]| >= 1 && Decimal.AllDigits(parts[i])
  }

  function ParseAll(parts: seq<string>): (vs: seq<nat>)
    requires AllFieldsDigits(parts)
    ensures |vs| == |parts|
    ensures forall i :: 0 <= i < |parts| ==> vs[i] == Decimal.Parse(parts[i])
  {
    if parts == [] then [] else [Decimal.Parse(parts[0])] + ParseAll(parts[1..])
  }

  /** Reads a countdown text back into seconds: one to three ':'-separated digit fields,
      combined from the right as seconds, minutes, hours. Anything else reads as None. */
  function ReadCountingText(text: string): Option<nat> {
    var parts := Strings.Split(text, ':');
    if |parts| <= 3 && AllFieldsDigits(parts) then Some(Base60(ParseAll(parts))) else None
  }

  lemma JoinThree(a: string, b: string, c: string)
    ensures Strings.Join([a, b, c], ':') == (a + ":") + (b + ":") + c
  {
    assert [a, b, c][1..] == [b, c];
    JoinTwo(b, c);
  }

  lemma JoinTwo(a: string, b: string)
    ensures Strings.Join([a, b], ':') == (a + ":") + b
  {
    assert [a, b][1..] == [b];
  }

  lemma PadAllThree(x: nat, y: nat, z: nat)
    ensures PadAll([x, y, z]) == [Decimal.Pad2(x), Decimal.Pad2(y), Decimal.Pad2(z)]
  {
  }

  /** When some field is non-zero, the rendering is exactly the `%02d` fields joined by ':'. */
  lemma RenderIsJoin(hms: Hms)
    requires hms.hours > 0 || hms.minutes > 0 || hms.seconds > 0
    ensures |Fields(hms)| >= 1
    ensures Render(hms) == Strings.Join(PadAll(Fields(hms)), ':')
  {
    var h, m, s := Decimal.Pad2(hms.hours), Decimal.Pad2(hms.minutes), Decimal.Pad2(hms.seconds);
    if hms.hours > 0 {
      assert Fields(hms) == [hms.hours, hms.minutes, hms.seconds];
      PadAllThree(hms.hours, hms.minutes, hms.seconds);
      assert Render(hms) == (h + ":") + (m + ":") + s;
      JoinThree(h, m, s);
    } else if hms.minutes > 0 {
      assert Fields(hms) == [hms.minutes, hms.seconds];
      assert PadAll(Fields(hms)) == [m, s];
      assert Render(hms) == (m + ":") + s;
      JoinTwo(m, s);
    } else {
      assert Fields(hms) == [hms.seconds];
      assert PadAll(Fields(hms)) == [s];
      assert Render(hms) == s;
    }
  }

  /** With at least one whole second left, the text is the rendering of its split. */
  lemma CountingTextIsRender(t: int, now: int)
    requires WholeSeconds(t, now) > 0
    ensures CountingText(Some(t), now) == Render(Decompose(WholeSeconds(t, now)))
  {
  }

  /** Splitting a rendering on ':' gives back the padded fields. */
  lemma SplitRender(hms: Hms)
    requires hms.hours > 0 || hms.minutes > 0 || hms.seconds > 0
    ensures Strings.Split(Render(hms), ':') == PadAll(Fields(hms))
  {
    var p := PadAll(Fields(hms));
    RenderIsJoin(hms);
    Strings.SplitJoin(p, ':');
  }

  /** The fields a countdown of `hms` shows: the hours field is there iff there are whole
      hours, the minutes field iff there are whole hours or minutes, the seconds field always
      and last; every field is at least two digits, the minutes and seconds fields exactly two,
      and only a two-digit field starts with '0'; read as numbers, the fields are the hours,
      minutes and seconds shown. Together these fix the fields: see `ShowsFieldsUnique`. */
  predicate ShowsFields(parts: seq<string>, hms: Hms) {
    && FieldLayout(parts, hms)
    && AllFieldsDigits(parts) && ParseAll(parts) == Fields(hms)
  }

  /** Which fields are there and how wide they are. */
  predicate FieldLayout(parts: seq<string>, hms: Hms) {
    && 1 <= |parts| <= 3
    && (|parts| == 3 <==> hms.hours > 0)
    && (|parts| >= 2 <==> hms.hours > 0 || hms.minutes > 0)
    && (forall i :: 0 <= i < |parts| ==> |parts[i]| >= 2 && Decimal.AllDigits(parts[i]))
    && (forall i :: 0 <= i < |parts| ==> parts[i][0] == '0' ==> |parts[i]| == 2)
    && |parts[|parts| - 1]| == 2
    && (|parts| >= 2 ==> |parts[|parts| - 2]| == 2)
    && Decimal.Parse(parts[|parts| - 1]) == hms.seconds
  }

  /** Only the `%02d` fields of `hms` meet `ShowsFields`. */
  lemma ShowsFieldsUnique(parts: seq<string>, hms: Hms)
    requires ShowsFields(parts, hms)
    ensures parts == PadAll(Fields(hms))
  {
    var vs := Fields(hms);
    forall i | 0 <= i < |parts|
      ensures parts[i] == Decimal.Pad2(vs[i])
    {
      Decimal.PaddedField(parts[i]);
    }
  }

  lemma PaddedFields(hms: Hms)
    requires hms.hours > 0 || hms.minutes > 0 || hms.seconds > 0
    requires hms.minutes < 60 && hms.seconds < 60
    ensures ShowsFields(PadAll(Fields(hms)), hms)
  {
    PaddedLayout(hms);
    ParsePadAll(Fields(hms));
  }

  lemma PaddedLayout(hms: Hms)
    requires hms.hours > 0 || hms.minutes > 0 || hms.seconds > 0
    requires hms.minutes < 60 && hms.seconds < 60
    ensures FieldLayout(PadAll(Fields(hms)), hms)
  {
    var vs := Fields(hms);
    if hms.hours > 0 {
      assert vs == [hms.hours, hms.minutes, hms.seconds];
    } else if hms.minutes > 0 {
      assert vs == [hms.minutes, hms.seconds];
    } else {
      assert vs == [hms.seconds];
    }
  }

  /** The ':'-separated fields of a countdown text are the ones `ShowsFields` describes. */
  lemma CountingTextFields(t: int, now: int)
    requires WholeSeconds(t, now) > 0
    ensures ShowsFields(Strings.Split(CountingText(Some(t), now), ':'), Decompose(WholeSeconds(t, now)))
  {
    var hms := Decompose(WholeSeconds(t, now));
    CountingTextIsRender(t, now);
    SplitRender(hms);
    PaddedFields(hms);
  }

  /** A countdown text never ends in the separator. */
  lemma CountingTextEndsInDigit(t: int, now: int)
    requires WholeSeconds(t, now) > 0
    ensures var text := CountingText(Some(t), now);
            |text| >= 2 && Decimal.IsDigitChar(text[|text| - 1])
  {
    CountingTextIsRender(t, now);
    RenderEndsInDigit(Decompose(WholeSeconds(t, now)));
  }

  lemma RenderEndsInDigit(hms: Hms)
    requires hms.hours > 0 || hms.minutes > 0 || hms.seconds > 0
    ensures var text := Render(hms); |text| >= 2 && Decimal.IsDigitChar(text[|text| - 1])
  {
    var s := Decimal.Pad2(hms.seconds);
    var text := Render(hms);
    assert text[|text| - |s|..] == s;
    assert text[|text| - 1] == s[|s| - 1];
  }

  /** Positional reading of the fields of a non-zero split recovers the seconds. */
  lemma Base60Fields(hms: Hms)
    ensures Base60(Fields(hms)) == hms.hours * 3600 + hms.minutes * 60 + hms.seconds
  {
    var vs := Fields(hms);
    if hms.hours > 0 {
      assert vs == [hms.hours, hms.minutes, hms.seconds];
      assert vs[..2] == [hms.hours, hms.minutes];
      assert vs[..2][..1] == [hms.hours];
      assert [hms.hours][..0] == [];
      assert Base60([hms.hours]) == hms.hours;
      assert Base60(vs[..2]) == hms.hours * 60 + hms.minutes;
      assert Base60(vs) == (hms.hours * 60 + hms.minutes) * 60 + hms.seconds;
      assert (hms.hours * 60 + hms.minutes) * 60 == hms.hours * 3600 + hms.minutes * 60;
    } else if hms.minutes > 0 {
      assert vs == [hms.minutes, hms.seconds];
      assert vs[..1] == [hms.minutes];
      assert [hms.minutes][..0] == [];
      assert Base60([hms.minutes]) == hms.minutes;
    } else if hms.seconds > 0 {
      assert vs == [hms.seconds];
      assert vs[..0] == [];
    } else {
      assert vs == [];
    }
  }

  /** Parsing the padded fields gives the fields back. */
  lemma ParsePadAll(vs: seq<nat>)
    ensures AllFieldsDigits(PadAll(vs)) && ParseAll(PadAll(vs)) == vs
  {
  }

  /** The non-numeric texts read as nothing. */
  lemma ReadWordIsNone(word: string)
    requires |word| >= 1 && !Decimal.IsDigitChar(word[0]) && ':' !in word
    ensures ReadCountingText(word) == None
  {
    Strings.SplitNoSeparator(word, ':');
  }

  /** Reading back one to three joined digit fields. */
  lemma ReadJoined(parts: seq<string>)
    requires 1 <= |parts| <= 3 && AllFieldsDigits(parts)
    requires forall i :: 0 <= i < |parts| ==> ':' !in parts[i]
    ensures ReadCountingText(Strings.Join(parts, ':')) == Some(Base60(ParseAll(parts)))
  {
    Strings.SplitJoin(parts, ':');
  }

  lemma ReadRender(hms: Hms)
    requires hms.hours > 0 || hms.minutes > 0 || hms.seconds > 0
    ensures ReadCountingText(Render(hms)) == Some(Base60(Fields(hms)))
  {
    var vs := Fields(hms);
    RenderIsJoin(hms);
    ParsePadAll(vs);
    ReadJoined(PadAll(vs));
  }

  lemma ReadCountdown(t: int, now: int)
    requires WholeSeconds(t, now) > 0
    ensures ReadCountingText(CountingText(Some(t), now)) == Some(WholeSeconds(t, now))
  {
    var hms := Decompose(WholeSeconds(t, now));
    CountingTextIsRender(t, now);
    ReadRender(hms);
    Base60Fields(hms);
  }

  /** Round trip: reading the text back gives the whole seconds left, and "TIME UP" (no
      target, or under one second left) reads as nothing. */
  lemma CountingTextRoundTrip(target: Option<int>, now: int)
    ensures ReadCountingText(CountingText(target, now))
            == if target.Some? && WholeSeconds(target.value, now) > 0
               then Some(WholeSeconds(target.value, now)) else None
  {
    if target.Some? && WholeSeconds(target.value, now) > 0 {
      ReadCountdown(target.value, now);
    } else {
      ReadWordIsNone(TimeUp);
    }
  }

  /** A rendering ends in a digit, and neither word does. */
  lemma RenderIsNotWord(hms: Hms)
    requires hms.hours > 0 || hms.minutes > 0 || hms.seconds > 0
    ensures Render(hms) != Ready && Render(hms) != TimeUp
  {
    RenderEndsInDigit(hms);
    assert Ready[|Ready| - 1] == 'Y' && TimeUp[|TimeUp| - 1] == 'P';
  }

  /** The `reachedTarget` test: the current whole second is at or past the target's whole
      second, with Kotlin's truncating division; no target counts as second 0. A target that
      `now` has passed is always reached, and truncation lets the test fire at most two seconds
      early (one second away from zero, where second 0 spans from -999 to 999 ms). */
  function ReachedTarget(now: int, target: Option<int>): (r: bool)
    ensures target.None? ==> (r <==> now > -1000)
    ensures target.Some? && now >= target.value ==> r
    ensures target.Some? && r ==> now > target.value - 2000
  {
    SecondOf(now) >= SecondOf(target.GetOr(0))
  }

  /** For non-negative times, the target is reached iff `now` is in or past the target's second. */
  lemma ReachedTargetIff(now: int, t: int)
    requires now >= 0 && t >= 0
    ensures ReachedTarget(now, Some(t)) <==> now >= t - t % 1000
  {
    assert t - t % 1000 == (t / 1000) * 1000;
    assert now - now % 1000 == (now / 1000) * 1000;
  }

  /** Without a target, any non-negative time counts as reached. */
  lemma ReachedWithoutTarget(now: int)
    requires now >= 0
    ensures ReachedTarget(now, None)
  {
  }

  /** A reached target always leaves under one whole second, so the two "TIME UP" tests agree. */
  lemma ReachedLeavesNoWholeSecond(now: int, t: int)
    requires now >= 0 && t >= 0
    requires ReachedTarget(now, Some(t))
    ensures WholeSeconds(t, now) == 0
    ensures CountingText(Some(t), now) == TimeUp
  {
    ReachedTargetIff(now, t);
  }

  /** What the ticker is given: the text and whether to animate it. */
  datatype Frame = Frame(text: string, animate: bool)

  /** The `when` that picks the clock text, with `reached` the last value of `reachedTarget`;
      animation is on exactly when the text is neither "READY" nor "TIME UP". */
  function SelectFrame(target: Option<int>, reached: bool, now: int): (f: Frame)
    ensures target.None? ==> f.text == Ready
    ensures target.Some? && reached ==> f.text == TimeUp
    ensures target.Some? && !reached ==> f.text == CountingText(target, now)
    ensures f.animate <==> f.text != Ready && f.text != TimeUp
  {
    var text := if target.None? then Ready else if reached then TimeUp else CountingText(target, now);
    Frame(text, text != TimeUp && text != Ready)
  }

  /** Animation runs exactly when a target is set, not yet reached, and at least one whole
      second is left. */
  lemma SelectFrameAnimates(target: Option<int>, reached: bool, now: int)
    ensures SelectFrame(target, reached, now).animate
            <==> target.Some? && !reached && WholeSeconds(target.value, now) > 0
  {
  }

  /** One poll of the clock at time `now`: the reached test followed by the text selection.
      With no target it shows "READY" still; otherwise it animates the countdown while the
      target is unreached with a whole second left, showing the counting text, and shows
      "TIME UP" when it does not. */
  function Tick(target: Option<int>, now: int): (f: Frame)
    ensures target.None? ==> f == Frame(Ready, false)
    ensures f.animate <==> target.Some? && !ReachedTarget(now, target) && WholeSeconds(target.value, now) > 0
    ensures target.Some? && !f.animate ==> f.text == TimeUp
    ensures f.animate ==> f.text == CountingText(target, now)
  {
    SelectFrameAnimates(target, ReachedTarget(now, target), now);
    SelectFrame(target, ReachedTarget(now, target), now)
  }

  /** For non-negative times the clock animates iff at least a full second separates `now`
      from the target, and otherwise shows "TIME UP". */
  lemma TickAnimatesIff(t: int, now: int)
    requires now >= 0 && t >= 0
    ensures Tick(Some(t), now).animate <==> t - now >= 1000
    ensures !Tick(Some(t), now).animate ==> Tick(Some(t), now).text == TimeUp
  {
    ReachedTargetIff(now, t);
    SelectFrameAnimates(Some(t), ReachedTarget(now, Some(t)), now);
    if !Tick(Some(t), now).animate && !ReachedTarget(now, Some(t)) {
      assert WholeSeconds(t, now) == 0;
    }
  }
}
