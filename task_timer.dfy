/** The per-task timer widget: the `H:MM:SS` / `M:SS` clock text, the value it
    shows (the stored baseline, plus the whole seconds since the timer was
    started while it runs), and which buttons each timer status offers.

    Instants are integer milliseconds (`Date.getTime()`, `Date.now()`); the
    stored baseline `elapsedTime` is in seconds. */
module TaskTimer {
  import opened Wrappers
  import opened Text

  datatype TimerStatus = Stopped | Running | Paused

  // ---------------------------------------------------------------------------
  // Clock text

  /** `formatTime`: hours, then minutes and seconds padded to two digits when
      there is at least one whole hour; otherwise unpadded minutes and padded
      seconds. Components follow JavaScript: `Math.floor` divisions and the
      truncating `%`. The text of a non-negative count reads back as that
      count. */
  function FormatClock(seconds: int): (r: string)
    ensures seconds >= 0 ==> ParseClock(r) == Some(seconds)
  {
    var hours := seconds / 3600;
    var minutes := JsRem(seconds, 3600) / 60;
    var secs := JsRem(seconds, 60);
    var r :=
      if hours > 0 then
        IntToString(hours) + ":" + PadStart2(IntToString(minutes)) + ":" + PadStart2(IntToString(secs))
      else
        IntToString(minutes) + ":" + PadStart2(IntToString(secs));
    assert seconds >= 0 ==> ParseClock(r) == Some(seconds) by {
      if seconds >= 0 {
        HoursMinutesSeconds(seconds);
        assert hours >= 0 && minutes >= 0 && secs >= 0;
        assert IntToString(hours) == NatToString(hours);
        assert IntToString(minutes) == NatToString(minutes);
        assert IntToString(secs) == NatToString(secs);
        ParseClockText(hours, minutes, secs);
      }
    }
    r
  }

  /** Reads a clock text back: `M:SS` or `H:MM:SS` with two-digit fields after
      the first, each below 60, and a positive hour field. */
  function ParseClock(t: string): Option<int> {
    var f := Split(t, ':');
    if |f| == 2 && |f[1]| == 2 then
      match (ParseNat(f[0]), ParseNat(f[1]))
      case (Some(m), Some(s)) => if m < 60 && s < 60 then Some(m * 60 + s) else None
      case _ => None
    else if |f| == 3 && |f[1]| == 2 && |f[2]| == 2 then
      match (ParseNat(f[0]), ParseNat(f[1]), ParseNat(f[2]))
      case (Some(h), Some(m), Some(s)) =>
        if h > 0 && m < 60 && s < 60 then Some(h * 3600 + m * 60 + s) else None
      case _ => None
    else None
  }

  lemma DigitsHaveNoColon(s: string)
    requires AllDigits(s)
    ensures ':' !in s
  {
  }

  /** The fields of `H:MM:SS` and `M:SS` texts built from minutes and seconds
      below 60. */
  lemma ClockTextFields(h: nat, m: nat, s: nat)
    requires m < 60 && s < 60
    ensures Split(NatToString(h) + ":" + PadStart2(NatToString(m)) + ":" + PadStart2(NatToString(s)), ':') ==
              [NatToString(h), PadStart2(NatToString(m)), PadStart2(NatToString(s))]
    ensures Split(NatToString(m) + ":" + PadStart2(NatToString(s)), ':') ==
              [NatToString(m), PadStart2(NatToString(s))]
  {
    var a, a' := NatToString(h), NatToString(m);
    var b, c := PadStart2(NatToString(m)), PadStart2(NatToString(s));
    ParsePadded(m);
    ParsePadded(s);
    DigitsHaveNoColon(a);
    DigitsHaveNoColon(a');
    DigitsHaveNoColon(b);
    DigitsHaveNoColon(c);
    SplitFields(a, b, c, ':');
    SplitFields(a', c, c, ':');
  }

  /** Three clock fields, two digits after the first, read back as the count
      they denote. */
  lemma ParseClockFields(t: string, a: string, b: string, c: string, h: nat, m: nat, s: nat)
    requires Split(t, ':') == [a, b, c] && |b| == 2 && |c| == 2
    requires ParseNat(a) == Some(h) && ParseNat(b) == Some(m) && ParseNat(c) == Some(s)
    requires h > 0 && m < 60 && s < 60
    ensures ParseClock(t) == Some(h * 3600 + m * 60 + s)
  {
  }

  /** Two clock fields, two digits after the first, read back as the count
      they denote. */
  lemma ParseClockMinutes(t: string, a: string, c: string, m: nat, s: nat)
    requires Split(t, ':') == [a, c] && |c| == 2
    requires ParseNat(a) == Some(m) && ParseNat(c) == Some(s)
    requires m < 60 && s < 60
    ensures ParseClock(t) == Some(m * 60 + s)
  {
  }

  /** `H:MM:SS` with a positive hour, and `M:SS`, read back as their count. */
  lemma ParseClockText(h: nat, m: nat, s: nat)
    requires m < 60 && s < 60
    ensures h > 0 ==>
              ParseClock(NatToString(h) + ":" + PadStart2(NatToString(m)) + ":" + PadStart2(NatToString(s))) ==
              Some(h * 3600 + m * 60 + s)
    ensures ParseClock(NatToString(m) + ":" + PadStart2(NatToString(s))) == Some(m * 60 + s)
  {
    ClockTextFields(h, m, s);
    ParsePadded(m);
    ParsePadded(s);
    ParseNatToString(h);
    ParseNatToString(m);
    var a, b, c := NatToString(h), PadStart2(NatToString(m)), PadStart2(NatToString(s));
    ParseClockMinutes(NatToString(m) + ":" + c, NatToString(m), c, m, s);
    if h > 0 {
      ParseClockFields(a + ":" + b + ":" + c, a, b, c, h, m, s);
    }
  }

  /** The fields of the clock text of a non-negative count. */
  lemma ClockFields(n: int)
    requires n >= 0
    ensures n >= 3600 ==> (Split(FormatClock(n), ':') ==
      [NatToString(n / 3600), PadStart2(NatToString(JsRem(n, 3600) / 60)), PadStart2(NatToString(n % 60))])
    ensures n < 3600 ==> (Split(FormatClock(n), ':') ==
      [NatToString(n / 60), PadStart2(NatToString(n % 60))])
  {
    HoursMinutesSeconds(n);
    var m := JsRem(n, 3600) / 60;
    ClockTextFields(n / 3600, m, n % 60);
    if n < 3600 {
      assert m == n / 60;
    }
  }

  /** At least one hour: three fields, hours unpadded, minutes and seconds two
      digits each. Under an hour: two fields, unpadded minutes and two-digit
      seconds. */
  lemma FormatClockShape(n: int)
    requires n >= 0
    ensures var f := Split(FormatClock(n), ':');
            n >= 3600 ==> |f| == 3 && f[0] == NatToString(n / 3600) && |f[1]| == 2 && |f[2]| == 2
    ensures var f := Split(FormatClock(n), ':');
            n < 3600 ==> |f| == 2 && f[0] == NatToString(n / 60) && |f[1]| == 2
  {
    ClockFields(n);
    HoursMinutesSeconds(n);
    ParsePadded(JsRem(n, 3600) / 60);
    ParsePadded(n % 60);
  }

  /** Under an hour: 45 s and 125 s on the clock. */
  lemma FormatClockExamples()
    ensures FormatClock(45) == "0:45"
    ensures FormatClock(125) == "2:05"
  {
    assert JsRem(45, 3600) / 60 == 0 && JsRem(45, 60) == 45 && 45 / 3600 == 0;
    assert FormatClock(45) == IntToString(0) + ":" + PadStart2(IntToString(45));
    assert NatToString(45) == "45";
    assert JsRem(125, 3600) / 60 == 2 && JsRem(125, 60) == 5 && 125 / 3600 == 0;
    assert FormatClock(125) == IntToString(2) + ":" + PadStart2(IntToString(5));
  }

  /** From an hour up: 3725 s on the clock. */
  lemma FormatClockHourExample()
    ensures FormatClock(3725) == "1:02:05"
  {
    assert JsRem(3725, 3600) / 60 == 2 && JsRem(3725, 60) == 5 && 3725 / 3600 == 1;
    assert FormatClock(3725) == IntToString(1) + ":" + PadStart2(IntToString(2)) + ":" + PadStart2(IntToString(5));
  }

  // ---------------------------------------------------------------------------
  // Displayed value

  /** The effect's condition for running the one-second interval: the status
      is running and `timerStartedAt` is present (neither null nor empty). */
  predicate Ticks(status: TimerStatus, startedAt: Option<int>) {
    status == Running && startedAt.Some?
  }

  /** The value one interval tick displays: the baseline plus the whole
      seconds elapsed since the start instant, `Math.floor((now - start) / 1000)`. */
  function TickValue(elapsedTime: int, startedAt: int, now: int): (r: int)
    ensures (r - elapsedTime) * 1000 <= now - startedAt < (r - elapsedTime + 1) * 1000
  {
    elapsedTime + (now - startedAt) / 1000
  }

  /** As time advances the displayed value never decreases. */
  lemma TickValueMonotone(elapsedTime: int, startedAt: int, now: int, later: int)
    requires now <= later
    ensures TickValue(elapsedTime, startedAt, now) <= TickValue(elapsedTime, startedAt, later)
  {
    var a, b := now - startedAt, later - startedAt;
    assert a == 1000 * (a / 1000) + a % 1000;
    assert b == 1000 * (b / 1000) + b % 1000;
  }

  /** From the start instant on, the display is never below the baseline, and
      during the first second it equals the baseline. */
  lemma TickValueFromStart(elapsedTime: int, startedAt: int, now: int)
    requires startedAt <= now
    ensures TickValue(elapsedTime, startedAt, now) >= elapsedTime
    ensures now < startedAt + 1000 ==> TickValue(elapsedTime, startedAt, now) == elapsedTime
  {
  }

  /** Every further 1000 ms add exactly one second to the display. */
  lemma TickValueStep(elapsedTime: int, startedAt: int, now: int)
    ensures TickValue(elapsedTime, startedAt, now + 1000) == TickValue(elapsedTime, startedAt, now) + 1
  {
    var a := now - startedAt;
    assert (a + 1000) / 1000 == a / 1000 + 1;
  }

  /** The timer widget's state: its props, the `displayTime` state field, and
      whether the interval is installed. */
  class TimerView {
    var status: TimerStatus
    var elapsedTime: int
    var startedAt: Option<int>
    var displayTime: int
    var ticking: bool

    /** The interval runs exactly when the props call for it, and while it does
        not, the display shows the stored baseline. */
    ghost predicate Valid()
      reads this
    {
      && ticking == Ticks(status, startedAt)
      && (!ticking ==> displayTime == elapsedTime)
    }

    /** Mount: `useState(elapsedTime)`, then the effect's first run. */
    constructor (status: TimerStatus, elapsedTime: int, startedAt: Option<int>)
      ensures Valid()
      ensures this.status == status && this.elapsedTime == elapsedTime && this.startedAt == startedAt
      ensures displayTime == elapsedTime
    {
      this.status := status;
      this.elapsedTime := elapsedTime;
      this.startedAt := startedAt;
      displayTime := elapsedTime;
      ticking := status == Running && startedAt.Some?;
    }

    /** New props: the effect clears the old interval and either installs a new
        one (keeping the current display until it fires) or shows the baseline. */
    method Render(status: TimerStatus, elapsedTime: int, startedAt: Option<int>)
      requires Valid()
      modifies this
      ensures Valid()
      ensures this.status == status && this.elapsedTime == elapsedTime && this.startedAt == startedAt
      ensures !Ticks(status, startedAt) ==> displayTime == elapsedTime
      ensures Ticks(status, startedAt) ==> displayTime == old(displayTime)
    {
      this.status := status;
      this.elapsedTime := elapsedTime;
      this.startedAt := startedAt;
      ticking := status == Running && startedAt.Some?;
      if !ticking {
        displayTime := elapsedTime;
      }
    }

    /** One second has passed: an installed interval recomputes the display;
        a cleared one never fires. */
    method Tick(now: int)
      requires Valid()
      modifies this
      ensures Valid()
      ensures status == old(status) && elapsedTime == old(elapsedTime) && startedAt == old(startedAt)
      ensures ticking == old(ticking)
      ensures ticking ==> displayTime == TickValue(elapsedTime, startedAt.value, now)
      ensures !ticking ==> displayTime == old(displayTime)
    {
      if ticking {
        displayTime := TickValue(elapsedTime, startedAt.value, now);
      }
    }
  }

  // ---------------------------------------------------------------------------
  // Controls

  datatype Control = StartButton | PauseButton | ResumeButton | StopButton

  /** The prop callbacks a button can call. */
  datatype Callback = OnStart | OnPause | OnStop

  /** The buttons rendered for each status, in order. */
  function Controls(status: TimerStatus): (r: seq<Control>)
    ensures StartButton in r <==> status == Stopped
    ensures PauseButton in r <==> status == Running
    ensures ResumeButton in r <==> status == Paused
    ensures StopButton in r <==> status != Stopped
    ensures |r| == if status == Stopped then 1 else 2
  {
    match status
    case Stopped => [StartButton]
    case Running => [PauseButton, StopButton]
    case Paused => [ResumeButton, StopButton]
  }

  /** The callback a button's click calls: Resume restarts through `onStart`. */
  function Invokes(c: Control): (cb: Callback)
    ensures cb == OnStart <==> c == StartButton || c == ResumeButton
    ensures cb == OnPause <==> c == PauseButton
    ensures cb == OnStop <==> c == StopButton
  {
    match c
    case StartButton => OnStart
    case PauseButton => OnPause
    case ResumeButton => OnStart
    case StopButton => OnStop
  }

  /** The callbacks reachable from the buttons of a status. */
  function OfferedCallbacks(status: TimerStatus): set<Callback> {
    set c | c in Controls(status) :: Invokes(c)
  }

  /** `onPause` is reachable only while running, `onStop` never when stopped,
      and `onStart` exactly when the timer is not running. */
  lemma OfferedCallbacksByStatus(status: TimerStatus)
    ensures OnPause in OfferedCallbacks(status) <==> status == Running
    ensures OnStop in OfferedCallbacks(status) <==> status != Stopped
    ensures OnStart in OfferedCallbacks(status) <==> status != Running
  {
    var r := Controls(status);
    match status
    case Stopped => assert Invokes(r[0]) == OnStart;
    case Running => assert Invokes(r[0]) == OnPause && Invokes(r[1]) == OnStop;
    case Paused => assert Invokes(r[0]) == OnStart && Invokes(r[1]) == OnStop;
  }
}
