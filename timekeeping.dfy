/** The App component's timekeeping state: the mode, the countdown
    configuration, the remaining countdown, the running flag, the pending and
    accumulated effective time, and the displayed `{hours, minutes, seconds}`.
    Each handler and each interval callback is a transition on `State`; the
    `App` class performs the same transitions by updating its fields. */
module Timekeeping {
  import opened Duration
  import EffectiveTime
  import FlipClock

  datatype Mode = Clock | Countdown

  /** The configuration field a countdown input edits. */
  datatype Unit = Hours | Minutes | Seconds

  datatype State = State(
    mode: Mode,
    time: Hms,
    countdownTime: Hms,
    countdown: nat,
    isCountdownRunning: bool,
    effectiveTime: nat,
    pendingTime: nat)

  /** The initial `useState` values: countdown mode, thirty minutes configured
      and displayed, nothing running, no effective time. */
  const Initial: State :=
    State(Countdown, Hms(0, 30, 0), Hms(0, 30, 0), 0, false, 0, 0)

  function UnitOf(t: Hms, u: Unit): nat {
    match u
    case Hours => t.hours
    case Minutes => t.minutes
    case Seconds => t.seconds
  }

  /** `Math.max(0, value)`. */
  function ClampNonNegative(value: int): (v: nat)
    ensures value <= 0 ==> v == 0
    ensures 0 <= value ==> v == value
  {
    if value < 0 then 0 else value
  }

  /** `handleCountdownTimeChange(unit, value)`. */
  function SetCountdownUnit(s: State, u: Unit, value: int): (r: State)
    ensures UnitOf(r.countdownTime, u) == ClampNonNegative(value)
    ensures forall w :: w != u ==> UnitOf(r.countdownTime, w) == UnitOf(s.countdownTime, w)
    ensures r.(countdownTime := s.countdownTime) == s
  {
    var v := ClampNonNegative(value);
    var c := s.countdownTime;
    s.(countdownTime :=
      match u
      case Hours => c.(hours := v)
      case Minutes => c.(minutes := v)
      case Seconds => c.(seconds := v))
  }

  /** `handleStartCountdown()`: a zero total is ignored. */
  function StartCountdown(s: State): (r: State)
    ensures TotalSeconds(s.countdownTime) == 0 ==> r == s
    ensures 0 < TotalSeconds(s.countdownTime) ==>
      r.countdown == TotalSeconds(s.countdownTime) && r.isCountdownRunning &&
      r.(countdown := s.countdown, isCountdownRunning := s.isCountdownRunning) == s
  {
    var totalSeconds := TotalSeconds(s.countdownTime);
    if totalSeconds > 0 then s.(countdown := totalSeconds, isCountdownRunning := true) else s
  }

  /** The countdown interval exists only while `isCountdownRunning && countdown > 0`. */
  predicate TickerArmed(s: State) {
    s.isCountdownRunning && 0 < s.countdown
  }

  /** Under the invariant the arming condition is the running flag alone. */
  lemma ArmedIffRunning(s: State)
    requires Inv(s)
    ensures TickerArmed(s) <==> s.isCountdownRunning
  {
  }

  /** The tick that finds `prev <= 1` and completes the countdown. */
  predicate Completes(s: State) {
    TickerArmed(s) && s.countdown <= 1
  }

  /** One firing of the countdown interval: the `setCountdown` updater. */
  function CountdownTick(s: State): (r: State)
    ensures !TickerArmed(s) ==> r == s
    ensures TickerArmed(s) && !Completes(s) ==>
      r.countdown + 1 == s.countdown && r.isCountdownRunning &&
      r.(countdown := s.countdown) == s
    ensures Completes(s) ==>
      r.countdown == 0 && !r.isCountdownRunning &&
      r.pendingTime == TotalSeconds(s.countdownTime) &&
      r.(countdown := s.countdown, isCountdownRunning := s.isCountdownRunning,
         pendingTime := s.pendingTime) == s
  {
    if !TickerArmed(s) then s
    else if s.countdown <= 1 then
      s.(countdown := 0, isCountdownRunning := false, pendingTime := TotalSeconds(s.countdownTime))
    else s.(countdown := s.countdown - 1)
  }

  /** What the countdown display derives from the countdown state. */
  function CountdownDisplay(countdown: nat, running: bool, config: Hms): (d: Hms)
    ensures (running || 0 < countdown) ==> TotalSeconds(d) == countdown && Normalized(d)
    ensures !(running || 0 < countdown) ==> d == config
  {
    if running || countdown > 0 then FromSeconds(countdown) else config
  }

  /** The display effect: in countdown mode `time` follows the countdown state;
      in clock mode it is left to the clock interval. */
  function UpdateDisplay(s: State): (r: State)
    ensures s.mode == Countdown ==>
      r == s.(time := CountdownDisplay(s.countdown, s.isCountdownRunning, s.countdownTime))
    ensures s.mode == Clock ==> r == s
  {
    if s.mode == Countdown
    then s.(time := CountdownDisplay(s.countdown, s.isCountdownRunning, s.countdownTime))
    else s
  }

  /** One firing of the clock interval with the host clock reading `now`;
      the interval exists only in clock mode. */
  function ClockTick(s: State, now: Hms): (r: State)
    ensures s.mode == Clock ==> r.time == now
    ensures r.(time := s.time) == s
    ensures s.mode == Countdown ==> r == s
  {
    if s.mode == Clock then s.(time := now) else s
  }

  /** `handleAddEffectiveTime()`. */
  function AddEffectiveTime(s: State): (r: State)
    ensures r.pendingTime == 0
    ensures r.effectiveTime + r.pendingTime == s.effectiveTime + s.pendingTime
    ensures r.(effectiveTime := s.effectiveTime, pendingTime := s.pendingTime) == s
  {
    if s.pendingTime > 0
    then s.(effectiveTime := s.effectiveTime + s.pendingTime, pendingTime := 0)
    else s
  }

  /** `handleClearPendingTime()`. */
  function ClearPendingTime(s: State): (r: State)
    ensures r.pendingTime == 0 && r.effectiveTime == s.effectiveTime
    ensures r.(pendingTime := s.pendingTime) == s
  {
    s.(pendingTime := 0)
  }

  /** `handleModeChange(newMode)`: only the mode changes; a running countdown
      keeps running. */
  function ChangeMode(s: State, newMode: Mode): (r: State)
    ensures r.mode == newMode
    ensures r.(mode := s.mode) == s
  {
    s.(mode := newMode)
  }

  /** The user commands and interval firings that drive the App. */
  datatype Event =
    | SetUnit(unit: Unit, value: int)
    | Start
    | CountdownInterval
    | ClockInterval(now: Hms)
    | Add
    | ClearPending
    | SwitchMode(newMode: Mode)

  function Handle(s: State, e: Event): State {
    match e
    case SetUnit(u, v) => SetCountdownUnit(s, u, v)
    case Start => StartCountdown(s)
    case CountdownInterval => CountdownTick(s)
    case ClockInterval(now) => ClockTick(s, now)
    case Add => AddEffectiveTime(s)
    case ClearPending => ClearPendingTime(s)
    case SwitchMode(m) => ChangeMode(s, m)
  }

  /** One commit: the state update, then the display effect. */
  function Commit(s: State, e: Event): State {
    UpdateDisplay(Handle(s, e))
  }

  function Run(s: State, events: seq<Event>): State
    decreases |events|
  {
    if events == [] then s else Run(Commit(s, events[0]), events[1..])
  }

  /** The countdown runs exactly while time remains, and in countdown mode the
      displayed time is the one derived from the countdown state. */
  ghost predicate Inv(s: State) {
    (s.isCountdownRunning <==> 0 < s.countdown) &&
    (s.mode == Countdown ==>
      s.time == CountdownDisplay(s.countdown, s.isCountdownRunning, s.countdownTime))
  }

  lemma InitialInv()
    ensures Inv(Initial) && Initial.time == Initial.countdownTime
  {
  }

  lemma CommitKeepsInv(s: State, e: Event)
    requires Inv(s)
    ensures Inv(Commit(s, e))
  {
    var h := Handle(s, e);
    assert h.isCountdownRunning <==> 0 < h.countdown by {
      match e
      case SetUnit(u, v) => assert h == SetCountdownUnit(s, u, v);
      case Start => assert h == StartCountdown(s);
      case CountdownInterval => assert h == CountdownTick(s);
      case ClockInterval(now) => assert h == ClockTick(s, now);
      case Add => assert h == AddEffectiveTime(s);
      case ClearPending => assert h == ClearPendingTime(s);
      case SwitchMode(m) => assert h == ChangeMode(s, m);
    }
    assert Commit(s, e) == UpdateDisplay(h);
  }

  lemma {:induction false} RunKeepsInv(s: State, events: seq<Event>)
    requires Inv(s)
    ensures Inv(Run(s, events))
    decreases |events|
  {
    if events != [] {
      CommitKeepsInv(s, events[0]);
      RunKeepsInv(Commit(s, events[0]), events[1..]);
    }
  }

  /** Under the invariant the display effect changes nothing, so running it
      after every commit or only when its dependencies change is the same. */
  lemma SyncedDisplayIsFixpoint(s: State)
    requires Inv(s)
    ensures UpdateDisplay(s) == s
  {
  }

  /** `n` firings of the countdown interval in a row. */
  function Ticks(s: State, n: nat): State
    decreases n
  {
    if n == 0 then s else Ticks(CountdownTick(s), n - 1)
  }

  /** From an armed countdown of `c` seconds, `k <= c` ticks leave `c - k`
      seconds; it is still running until the `c`-th tick, which stops it and
      sets the pending time to the configured total. Nothing else changes. */
  lemma {:induction false} TicksCountDown(s: State, k: nat)
    requires TickerArmed(s) && k <= s.countdown
    ensures var r := Ticks(s, k);
      r.countdown == s.countdown - k &&
      r.isCountdownRunning == (k < s.countdown) &&
      r.pendingTime == (if k == s.countdown then TotalSeconds(s.countdownTime) else s.pendingTime) &&
      r.(countdown := s.countdown, isCountdownRunning := s.isCountdownRunning,
         pendingTime := s.pendingTime) == s
    decreases k
  {
    if k > 0 {
      var next := CountdownTick(s);
      if s.countdown > 1 {
        TicksCountDown(next, k - 1);
      } else {
        assert Ticks(s, k) == next;
      }
    }
  }

  /** Of the first `c` ticks of an armed countdown of `c` seconds only the
      last completes, so the pending time is assigned exactly once. */
  lemma CompletesOnlyOnLastTick(s: State, k: nat)
    requires TickerArmed(s) && k < s.countdown
    ensures Completes(Ticks(s, k)) <==> k == s.countdown - 1
  {
    TicksCountDown(s, k);
  }

  /** Once the interval is gone further ticks change nothing. */
  lemma {:induction false} DisarmedTicksAreInert(s: State, n: nat)
    requires !TickerArmed(s)
    ensures Ticks(s, n) == s
  {
    if n > 0 {
      DisarmedTicksAreInert(s, n - 1);
    }
  }

  /** Starting a countdown of total `T > 0` and ticking `T` times ends with
      nothing remaining, the countdown stopped and `T` pending; mode,
      configuration and effective time are untouched. */
  lemma StartThenRunToEnd(s: State)
    requires 0 < TotalSeconds(s.countdownTime)
    ensures var r := Ticks(StartCountdown(s), TotalSeconds(s.countdownTime));
      r.countdown == 0 && !r.isCountdownRunning &&
      r.pendingTime == TotalSeconds(s.countdownTime) &&
      r.mode == s.mode && r.countdownTime == s.countdownTime &&
      r.effectiveTime == s.effectiveTime
  {
    TicksCountDown(StartCountdown(s), TotalSeconds(s.countdownTime));
  }

  /** The credited time is the configured total at completion time: an edit
      made while the countdown runs changes what is credited, though not how
      long the countdown runs. */
  lemma CreditUsesConfigAtCompletion(s: State, u: Unit, value: int)
    requires TickerArmed(s)
    ensures var edited := SetCountdownUnit(s, u, value);
      var r := Ticks(edited, s.countdown);
      r.countdown == 0 && !r.isCountdownRunning &&
      r.pendingTime == TotalSeconds(edited.countdownTime)
  {
    TicksCountDown(SetCountdownUnit(s, u, value), s.countdown);
  }

  /** From the initial state: start thirty minutes, set the minutes to zero,
      let it run out, and nothing is pending. */
  lemma EditDuringRunCreditsNothing()
    ensures var started := StartCountdown(Initial);
      var edited := SetCountdownUnit(started, Minutes, 0);
      started.countdown == 1800 &&
      Ticks(edited, 1800).pendingTime == 0 && !Ticks(edited, 1800).isCountdownRunning
  {
    var started := StartCountdown(Initial);
    CreditUsesConfigAtCompletion(started, Minutes, 0);
  }

  /** A countdown tick does not look at the mode: changing mode and ticking
      commute, and a countdown keeps running in clock mode. */
  lemma TickIgnoresMode(s: State, m: Mode)
    ensures CountdownTick(ChangeMode(s, m)) == ChangeMode(CountdownTick(s), m)
    ensures ChangeMode(s, m).isCountdownRunning == s.isCountdownRunning
    ensures ChangeMode(s, m).countdown == s.countdown
  {
  }

  /** In countdown mode with time remaining or the countdown running, the
      display is the remaining time split into hours, minutes (0..59) and
      seconds (0..59); otherwise it is the configuration. */
  lemma CountdownModeDisplay(s: State)
    requires s.mode == Countdown
    ensures var d := UpdateDisplay(s).time;
      var c := s.countdown;
      if s.isCountdownRunning || 0 < c then
        d == Hms(c / 3600, (c % 3600) / 60, c % 60) &&
        d.hours * 3600 + d.minutes * 60 + d.seconds == c &&
        d.minutes < 60 && d.seconds < 60
      else d == s.countdownTime
  {
  }

  /** Starting a configuration with minutes and seconds below 60 shows that
      same configuration on the first display. */
  lemma StartShowsConfiguration(s: State)
    requires s.mode == Countdown && 0 < TotalSeconds(s.countdownTime)
    requires Normalized(s.countdownTime)
    ensures UpdateDisplay(StartCountdown(s)).time == s.countdownTime
  {
    FromSecondsUnique(s.countdownTime);
  }

  /** When the countdown completes the display returns to the configuration. */
  lemma CompletionShowsConfiguration(s: State)
    requires s.mode == Countdown && Completes(s)
    ensures UpdateDisplay(CountdownTick(s)).time == s.countdownTime
  {
  }

  /** Below 100 hours remaining, and with a two-digit configuration, the
      countdown display fits the six flip-clock slots. */
  lemma CountdownDisplayFits(s: State)
    requires s.countdown < 360000 && FlipClock.Fits(s.countdownTime)
    ensures FlipClock.Fits(CountdownDisplay(s.countdown, s.isCountdownRunning, s.countdownTime))
  {
    FromSecondsHoursBelow100(s.countdown);
  }

  /** The Add and Clear buttons are enabled exactly when pressing them would
      change the state. */
  lemma ButtonsEnabledExactlyWhenEffective(s: State)
    ensures AddEffectiveTime(s) != s <==> EffectiveTime.ButtonsEnabled(s.pendingTime)
    ensures ClearPendingTime(s) != s <==> EffectiveTime.ButtonsEnabled(s.pendingTime)
  {
    if s.pendingTime > 0 {
      assert ClearPendingTime(s).pendingTime != s.pendingTime;
    }
  }

  /** Adding credits the pending time once: a second Add and a following
      Clear both change nothing more. */
  lemma AddOnce(s: State)
    ensures AddEffectiveTime(AddEffectiveTime(s)) == AddEffectiveTime(s)
    ensures ClearPendingTime(AddEffectiveTime(s)) == AddEffectiveTime(s)
    ensures AddEffectiveTime(s).effectiveTime == s.effectiveTime + s.pendingTime
  {
  }

  /** The timer state as the App component holds it. */
  class App {
    var mode: Mode
    var time: Hms
    var countdownTime: Hms
    var countdown: nat
    var isCountdownRunning: bool
    var effectiveTime: nat
    var pendingTime: nat

    function View(): State
      reads this
    {
      State(mode, time, countdownTime, countdown, isCountdownRunning, effectiveTime, pendingTime)
    }

    constructor ()
      ensures View() == Initial
    {
      mode := Countdown;
      time := Hms(0, 30, 0);
      countdownTime := Hms(0, 30, 0);
      countdown := 0;
      isCountdownRunning := false;
      effectiveTime := 0;
      pendingTime := 0;
    }

    method HandleModeChange(newMode: Mode)
      modifies this
      ensures View() == ChangeMode(old(View()), newMode)
    {
      mode := newMode;
    }

    method HandleCountdownTimeChange(unit: Unit, value: int)
      modifies this
      ensures View() == SetCountdownUnit(old(View()), unit, value)
    {
      var v: nat := if value < 0 then 0 else value;
      match unit
      case Hours => countdownTime := countdownTime.(hours := v);
      case Minutes => countdownTime := countdownTime.(minutes := v);
      case Seconds => countdownTime := countdownTime.(seconds := v);
    }

    method HandleStartCountdown()
      modifies this
      ensures View() == StartCountdown(old(View()))
    {
      var totalSeconds := countdownTime.hours * 3600 + countdownTime.minutes * 60 + countdownTime.seconds;
      if totalSeconds > 0 {
        countdown := totalSeconds;
        isCountdownRunning := true;
      }
    }

    /** The countdown interval's callback; it is armed only while running with
        time left. */
    method OnCountdownInterval()
      modifies this
      ensures View() == CountdownTick(old(View()))
    {
      if isCountdownRunning && countdown > 0 {
        var prev := countdown;
        if prev <= 1 {
          isCountdownRunning := false;
          pendingTime := countdownTime.hours * 3600 + countdownTime.minutes * 60 + countdownTime.seconds;
          countdown := 0;
        } else {
          countdown := prev - 1;
        }
      }
    }

    /** The clock interval's callback with the host clock's reading; it is
        armed only in clock mode. */
    method OnClockInterval(now: Hms)
      modifies this
      ensures View() == ClockTick(old(View()), now)
    {
      if mode == Clock {
        time := now;
      }
    }

    method UpdateDisplayEffect()
      modifies this
      ensures View() == UpdateDisplay(old(View()))
    {
      if mode == Countdown {
        if isCountdownRunning || countdown > 0 {
          time := Hms(countdown / 3600, (countdown % 3600) / 60, countdown % 60);
        } else {
          time := countdownTime;
        }
      }
    }

    method HandleAddEffectiveTime()
      modifies this
      ensures View() == AddEffectiveTime(old(View()))
    {
      if pendingTime > 0 {
        effectiveTime := effectiveTime + pendingTime;
        pendingTime := 0;
      }
    }

    method HandleClearPendingTime()
      modifies this
      ensures View() == ClearPendingTime(old(View()))
    {
      pendingTime := 0;
    }
  }
}
