/** The countdown of `src/App.jsx`: per-mode durations, the current mode, the
    remaining seconds, whether the countdown runs, and whether a screen wake
    lock is held. Every button handler and every clock tick is followed by
    the effect of App.jsx:78-91, which React re-runs only when `isActive` or
    `time` changed; when it does and `time` is 0 it stops the countdown,
    releases the wake lock and plays the notification.

    `Handle`, `Effect` and `Step` say on values what one event does; the
    class `App` does the same on mutable fields, one method per handler, and
    each method is proved to agree with `Step`. */
module PomodoroApp {
  import opened JsParseInt

  datatype Mode = Focus | ShortBreak | LongBreak

  /** `DEFAULT_SETTINGS`: minutes per mode. */
  function DefaultMinutes(m: Mode): (minutes: int)
    ensures 0 < minutes <= 25
    ensures minutes == 25 <==> m == Focus
  {
    match m
    case Focus => 25
    case ShortBreak => 5
    case LongBreak => 10
  }

  function DefaultSettings(): (d: map<Mode, int>)
    ensures HasAllModes(d)
    ensures forall m: Mode :: d[m] == DefaultMinutes(m)
  {
    map m: Mode :: DefaultMinutes(m)
  }

  /** The component state: `timerSettings` (minutes per mode), `mode`,
      `time` (remaining seconds), `isActive`, and whether `wakeLockRef`
      holds a lock. */
  datatype State = State(settings: map<Mode, int>, mode: Mode, time: int, isActive: bool, wakeLock: bool)

  predicate HasAllModes(settings: map<Mode, int>) {
    forall m: Mode :: m in settings
  }

  /** What every reachable state satisfies: every mode has a duration, and a
      countdown is never left running at zero. */
  predicate Consistent(s: State) {
    HasAllModes(s.settings) && (s.time == 0 ==> !s.isActive)
  }

  /** The state at mount. */
  function Initial(): (s: State)
    ensures Consistent(s)
    ensures s.mode == Focus && s.time == 25 * 60 && !s.isActive && !s.wakeLock
  {
    State(DefaultSettings(), Focus, DefaultSettings()[Focus] * 60, false, false)
  }

  datatype Event =
    | Start(granted: bool)       // `granted`: the platform hands out a wake lock
    | Pause
    | Reset
    | ModeChange(newMode: Mode)
    | SettingChange(key: Mode, input: string)
    | Tick                       // one call of the interval callback

  /** Controls.jsx shows the start button only while idle and the pause
      button only while running. */
  predicate StartOffered(s: State) { !s.isActive }
  predicate PauseOffered(s: State) { s.isActive }

  /** The effect keeps an interval armed, so that ticks arrive, exactly
      while the countdown runs above zero. */
  predicate Ticking(s: State) { s.isActive && s.time > 0 }

  /** What a handler (or the interval callback) sets, before the effect. */
  function Handle(s: State, e: Event): (h: State)
    requires HasAllModes(s.settings)
    ensures HasAllModes(h.settings)
    ensures h.mode != s.mode ==> e.ModeChange?
    ensures h.settings != s.settings ==> e.SettingChange?
    ensures h.isActive && !s.isActive ==> e.Start?
    ensures h.wakeLock && !s.wakeLock ==> e == Start(true)
    ensures h.isActive && h.time != s.time ==> e == Tick && h.time == s.time - 1
  {
    match e
    case Start(granted) => s.(isActive := true, wakeLock := s.wakeLock || granted)
    case Pause => s.(isActive := false, wakeLock := false)
    case Reset => s.(isActive := false, wakeLock := false, time := s.settings[s.mode] * 60)
    case ModeChange(m) => s.(mode := m, isActive := false, time := s.settings[m] * 60)
    case SettingChange(k, input) =>
      var minutes := MinutesSetting(input);
      if s.mode == k && !s.isActive then s.(settings := s.settings[k := minutes], time := minutes * 60)
      else s.(settings := s.settings[k := minutes])
    case Tick => if Ticking(s) then s.(time := s.time - 1) else s
  }

  /** A state after an event, and whether the notification played. */
  datatype Outcome = Outcome(state: State, alarm: bool)

  /** The effect of App.jsx:78-91 after the state went from `before` to
      `after`: it runs only if `time` or `isActive` changed, and at zero
      it stops the countdown, releases the wake lock and plays the sound. */
  function Effect(before: State, after: State): (o: Outcome)
    ensures o.alarm <==> (after.time != before.time || after.isActive != before.isActive) && after.time == 0
    ensures o.state.(isActive := after.isActive, wakeLock := after.wakeLock) == after
    ensures o.alarm ==> !o.state.isActive && !o.state.wakeLock
    ensures !o.alarm ==> o.state == after
  {
    var rerun := after.time != before.time || after.isActive != before.isActive;
    if rerun && after.time == 0 then Outcome(after.(isActive := false, wakeLock := false), true)
    else Outcome(after, false)
  }

  function Step(s: State, e: Event): (o: Outcome)
    requires HasAllModes(s.settings)
    ensures HasAllModes(o.state.settings)
  {
    Effect(s, Handle(s, e))
  }

  /** Events one after the other; the alarm says whether any of them played
      the notification. */
  function Run(s: State, events: seq<Event>): (o: Outcome)
    requires HasAllModes(s.settings)
    ensures HasAllModes(o.state.settings)
    decreases |events|
  {
    if events == [] then Outcome(s, false)
    else
      var first := Step(s, events[0]);
      var rest := Run(first.state, events[1..]);
      Outcome(rest.state, first.alarm || rest.alarm)
  }

  function Ticks(k: nat): (ts: seq<Event>)
    ensures |ts| == k && forall i :: 0 <= i < k ==> ts[i] == Tick
  {
    if k == 0 then [] else [Tick] + Ticks(k - 1)
  }

  // ----- the state machine, event by event -----

  lemma InitialState()
    ensures Consistent(Initial())
    ensures Initial().mode == Focus && Initial().time == 1500 && !Initial().isActive
    ensures Initial().settings[Focus] == 25 && Initial().settings[ShortBreak] == 5
    ensures Initial().settings[LongBreak] == 10
  {
  }

  /** Every event keeps a consistent state consistent; in particular a
      state that has reached zero is idle, whatever the event was. */
  lemma StepKeepsConsistent(s: State, e: Event)
    requires Consistent(s)
    ensures Consistent(Step(s, e).state)
  {
  }

  /** The notification plays exactly when the event brought the state to
      zero or (at zero) changed whether it runs; the state is then idle
      with the wake lock released. Having been running plays no part. */
  lemma AlarmRule(s: State, e: Event)
    requires Consistent(s)
    ensures var h := Handle(s, e);
      Step(s, e).alarm <==> h.time == 0 && (s.time != 0 || h.isActive)
    ensures Step(s, e).alarm ==>
      var t := Step(s, e).state;
      t.time == 0 && !t.isActive && !t.wakeLock
  {
  }

  /** A tick while counting down takes exactly one second off and touches
      nothing else, unless it reaches zero, which stops the countdown and
      plays the notification and releases the wake lock. */
  lemma TickCountsDown(s: State)
    requires HasAllModes(s.settings) && Ticking(s)
    ensures var o := Step(s, Tick);
      && o.state.time == s.time - 1
      && o.state.settings == s.settings && o.state.mode == s.mode
      && (o.state.isActive <==> s.time > 1)
      && (o.alarm <==> s.time == 1)
      && (o.state.wakeLock <==> s.wakeLock && !o.alarm)
  {
  }

  /** Without an armed interval, a tick changes nothing: in particular a
      negative remaining time never counts down and never plays. */
  lemma TickWhenNotTicking(s: State)
    requires HasAllModes(s.settings) && !Ticking(s)
    ensures Step(s, Tick) == Outcome(s, false)
  {
  }

  /** Start from idle has no guard on the remaining time: it only sets the
      countdown running (and takes a wake lock if one is granted). At zero the effect
      stops it at once and plays; below zero it runs with no interval. */
  lemma StartOnlyActivates(s: State, granted: bool)
    requires Consistent(s) && StartOffered(s)
    ensures var o := Step(s, Start(granted));
      && o.state.settings == s.settings && o.state.mode == s.mode && o.state.time == s.time
      && (o.state.isActive <==> s.time != 0)
      && (o.alarm <==> s.time == 0)
      && (o.state.wakeLock <==> s.time != 0 && (s.wakeLock || granted))
  {
  }

  /** Pause keeps the remaining time and the mode; starting again resumes
      from the paused value. */
  lemma PauseThenStartResumes(s: State, granted: bool)
    requires Consistent(s) && PauseOffered(s)
    ensures var p := Step(s, Pause);
      && p == Outcome(s.(isActive := false, wakeLock := false), false)
      && var r := Step(p.state, Start(granted));
         r.state.time == s.time && r.state.mode == s.mode && r.state.isActive && !r.alarm
  {
  }

  /** Reset stops the countdown and reloads the current mode's duration. */
  lemma ResetReloads(s: State)
    requires Consistent(s)
    ensures var t := Step(s, Reset).state;
      && t.settings == s.settings && t.mode == s.mode
      && t.time == s.settings[s.mode] * 60
      && !t.isActive && !t.wakeLock
  {
  }

  /** A mode change stops the countdown and loads the new mode's duration,
      whatever ran before. It does not release the wake lock: one taken by
      a running countdown stays held unless the new duration is zero. */
  lemma ModeChangeLoads(s: State, m: Mode)
    requires Consistent(s)
    ensures var o := Step(s, ModeChange(m));
      && o.state.settings == s.settings && o.state.mode == m
      && o.state.time == s.settings[m] * 60 && !o.state.isActive
      && (o.state.wakeLock <==> s.wakeLock && !o.alarm)
  {
  }

  /** After a mode change and a reset, the remaining time is that mode's
      duration as currently configured. */
  lemma ModeChangeThenReset(s: State, m: Mode)
    requires Consistent(s)
    ensures Step(Step(s, ModeChange(m)).state, Reset).state.time == s.settings[m] * 60
  {
  }

  /** A settings edit changes that mode's duration only, to
      `parseInt(input) || 0`. The remaining time follows it exactly when the
      edited mode is on display and idle, which stays idle; otherwise time
      and running flag are left alone. The wake lock is kept unless the
      notification played. */
  lemma SettingChangeUpdates(s: State, k: Mode, input: string)
    requires Consistent(s)
    ensures var o := Step(s, SettingChange(k, input));
      var t := o.state;
      && t.settings == s.settings[k := MinutesSetting(input)]
      && t.mode == s.mode
      && (t.wakeLock <==> s.wakeLock && !o.alarm)
      && (s.mode == k && !s.isActive ==> t.time == MinutesSetting(input) * 60 && !t.isActive)
      && (!(s.mode == k && !s.isActive) ==> t.time == s.time && t.isActive == s.isActive)
  {
    var minutes := MinutesSetting(input);
    var settings := s.settings[k := minutes];
    var h := Handle(s, SettingChange(k, input));
    if s.mode == k && !s.isActive {
      assert h == s.(settings := settings, time := minutes * 60);
    } else {
      assert h == s.(settings := settings);
    }
  }

  // ----- runs of events -----

  /** Running events one after the other composes. */
  lemma {:induction false} RunAppend(s: State, a: seq<Event>, b: seq<Event>)
    requires HasAllModes(s.settings)
    decreases |a|
    ensures var ra := Run(s, a);
      var rb := Run(ra.state, b);
      Run(s, a + b) == Outcome(rb.state, ra.alarm || rb.alarm)
  {
    if a != [] {
      assert (a + b)[0] == a[0];
      assert (a + b)[1..] == a[1..] + b;
      RunAppend(Step(s, a[0]).state, a[1..], b);
    } else {
      assert a + b == b;
    }
  }

  /** `k` ticks on a countdown with more than `k` seconds left take `k`
      seconds off and play nothing. */
  lemma {:induction false} TicksWhileRunning(s: State, k: nat)
    requires HasAllModes(s.settings) && s.isActive && k < s.time
    ensures Run(s, Ticks(k)) == Outcome(s.(time := s.time - k), false)
    decreases k
  {
    if k > 0 {
      var next := Step(s, Tick);
      assert next == Outcome(s.(time := s.time - 1), false);
      assert Ticks(k)[1..] == Ticks(k - 1);
      TicksWhileRunning(next.state, k - 1);
    }
  }

  /** A running countdown with `n` seconds left reaches zero after exactly
      `n` ticks: it then stands idle at zero, the wake lock released, and
      the notification has played. */
  lemma CountdownExpires(s: State)
    requires HasAllModes(s.settings) && s.isActive && s.time > 0
    ensures Run(s, Ticks(s.time)) == Outcome(s.(time := 0, isActive := false, wakeLock := false), true)
  {
    var n := s.time;
    var before := s.(time := 1);
    TicksWhileRunning(s, n - 1);
    assert Ticks(n) == Ticks(n - 1) + [Tick] by {
      TicksSnoc(n);
    }
    RunAppend(s, Ticks(n - 1), [Tick]);
    assert Run(before, [Tick]) == Step(before, Tick);
  }

  lemma {:induction false} TicksSnoc(k: nat)
    requires k > 0
    ensures Ticks(k) == Ticks(k - 1) + [Tick]
  {
    if k > 1 {
      TicksSnoc(k - 1);
      assert Ticks(k) == [Tick] + (Ticks(k - 2) + [Tick]);
    }
  }

  /** From mount, starting a focus session and letting 1500 ticks pass
      ends idle at zero with the notification played. */
  lemma FocusSession(granted: bool)
    ensures Run(Initial(), [Start(granted)] + Ticks(1500))
      == Outcome(Initial().(time := 0), true)
  {
    var started := Step(Initial(), Start(granted));
    assert started == Outcome(Initial().(isActive := true, wakeLock := granted), false);
    assert ([Start(granted)] + Ticks(1500))[1..] == Ticks(1500);
    CountdownExpires(started.state);
  }

  /** Switching to a short break while a focus session runs at 900 seconds
      leaves an idle short break of 300 seconds. */
  lemma ShortBreakWhileRunning(s: State)
    requires s.settings == DefaultSettings() && s.mode == Focus && s.time == 900 && s.isActive
    ensures var t := Step(s, ModeChange(ShortBreak)).state;
      t.mode == ShortBreak && t.time == 300 && !t.isActive
  {
  }

  /** Setting the displayed, idle mode to "0" zeroes the time at once, and
      that plays the notification although nothing was running. */
  lemma ZeroSettingWhileIdlePlays()
    ensures var o := Step(Initial(), SettingChange(Focus, "0"));
      o.state.time == 0 && !o.state.isActive && o.alarm
  {
    ZeroInput();
    var edited := Handle(Initial(), SettingChange(Focus, "0"));
    assert edited == Initial().(settings := Initial().settings[Focus := 0], time := 0);
  }

  lemma ZeroInput()
    ensures MinutesSetting("0") == 0
  {
    assert Numerals.Zeros(0) + Numerals.Decimal(0) + "" == "0";
    ParseIntNumeral(0, 0, "");
  }

  // ----- remaining time below zero -----

  /** No negative durations and no negative remaining time. */
  predicate NonNegative(s: State) {
    s.time >= 0 && forall m :: m in s.settings ==> s.settings[m] >= 0
  }

  /** As long as no edit parses to a negative number, nothing goes below
      zero. */
  lemma NonNegativeKept(s: State, e: Event)
    requires HasAllModes(s.settings) && NonNegative(s)
    requires e.SettingChange? ==> MinutesSetting(e.input) >= 0
    ensures NonNegative(Step(s, e).state)
  {
    assert NonNegative(Handle(s, e));
  }

  /** `parseInt(..) || 0` keeps a minus sign: "-1" as the focus duration of
      an idle focus timer sets the remaining time to -60, where it stays
      through any number of ticks, even after a start. */
  lemma NegativeInputFreezes(k: nat)
    ensures var o := Run(Initial(), [SettingChange(Focus, "-1"), Start(false)]);
      && o.state.time == -60 && o.state.isActive && !o.alarm
      && Run(o.state, Ticks(k)) == Outcome(o.state, false)
  {
    MinusOne();
    var edited := Step(Initial(), SettingChange(Focus, "-1"));
    assert edited == Outcome(Initial().(settings := Initial().settings[Focus := -1], time := -60), false);
    var started := Step(edited.state, Start(false));
    assert started == Outcome(edited.state.(isActive := true), false);
    var events := [SettingChange(Focus, "-1"), Start(false)];
    assert events[1..] == [Start(false)] && events[1..][1..] == [];
    assert Run(Initial(), events) == started;
    FrozenTicks(started.state, k);
  }

  lemma MinusOne()
    ensures MinutesSetting("-1") == -1
  {
    assert Numerals.Decimal(1) == "1";
    ParseIntSignedNumeral(0, 1, "");
    assert "-" + (Numerals.Zeros(0) + Numerals.Decimal(1) + "") == "-1";
  }

  lemma {:induction false} FrozenTicks(s: State, k: nat)
    requires HasAllModes(s.settings) && !Ticking(s)
    ensures Run(s, Ticks(k)) == Outcome(s, false)
  {
    if k > 0 {
      assert Ticks(k)[1..] == Ticks(k - 1);
      FrozenTicks(s, k - 1);
    }
  }

  // ----- the component -----

  /** The component's state hooks as mutable fields; each handler is a
      method that sets them and then runs the effect. */
  class App {
    var settings: map<Mode, int>
    var mode: Mode
    var time: int
    var isActive: bool
    var wakeLock: bool

    function Snapshot(): State
      reads this
    {
      State(settings, mode, time, isActive, wakeLock)
    }

    ghost predicate Valid()
      reads this
    {
      Consistent(Snapshot())
    }

    /** Mount: default settings, focus mode, 25 minutes, idle. */
    constructor ()
      ensures Valid() && Snapshot() == Initial()
      ensures settings == DefaultSettings() && mode == Focus
      ensures time == 1500 && !isActive && !wakeLock
    {
      settings := DefaultSettings();
      mode := Focus;
      time := DefaultSettings()[Focus] * 60;
      isActive := false;
      wakeLock := false;
    }

    /** The effect, given the state the event started from. */
    method RunEffect(before: State) returns (alarm: bool)
      modifies this
      ensures Outcome(Snapshot(), alarm) == Effect(before, old(Snapshot()))
    {
      alarm := false;
      if time != before.time || isActive != before.isActive {
        if isActive && time > 0 {
          // an interval is armed; its callbacks arrive as Tick
        } else if time == 0 {
          isActive := false;
          wakeLock := false;
          alarm := true;
        }
      }
    }

    /** `handleStart` */
    method Start(granted: bool) returns (alarm: bool)
      requires Valid()
      modifies this
      ensures Valid()
      ensures Outcome(Snapshot(), alarm) == Step(old(Snapshot()), Event.Start(granted))
      ensures settings == old(settings) && mode == old(mode) && time == old(time)
      ensures isActive == (time != 0) && alarm == (time == 0)
    {
      var before := Snapshot();
      if granted {
        wakeLock := true;
      }
      isActive := true;
      alarm := RunEffect(before);
    }

    /** `handlePause` */
    method Pause() returns (alarm: bool)
      requires Valid()
      modifies this
      ensures Valid()
      ensures Outcome(Snapshot(), alarm) == Step(old(Snapshot()), Event.Pause)
      ensures settings == old(settings) && mode == old(mode) && time == old(time)
      ensures !isActive && !wakeLock && !alarm
    {
      var before := Snapshot();
      wakeLock := false;
      isActive := false;
      alarm := RunEffect(before);
    }

    /** `handleReset` */
    method Reset() returns (alarm: bool)
      requires Valid()
      modifies this
      ensures Valid()
      ensures Outcome(Snapshot(), alarm) == Step(old(Snapshot()), Event.Reset)
      ensures settings == old(settings) && mode == old(mode)
      ensures time == settings[mode] * 60 && !isActive && !wakeLock
    {
      var before := Snapshot();
      wakeLock := false;
      isActive := false;
      time := settings[mode] * 60;
      alarm := RunEffect(before);
    }

    /** `handleModeChange` */
    method ModeChange(newMode: Mode) returns (alarm: bool)
      requires Valid()
      modifies this
      ensures Valid()
      ensures Outcome(Snapshot(), alarm) == Step(old(Snapshot()), Event.ModeChange(newMode))
      ensures settings == old(settings) && mode == newMode
      ensures time == settings[newMode] * 60 && !isActive
      ensures wakeLock == (old(wakeLock) && !alarm)
    {
      var before := Snapshot();
      mode := newMode;
      isActive := false;
      time := settings[newMode] * 60;
      alarm := RunEffect(before);
    }

    /** `handleSettingChange` */
    method SettingChange(key: Mode, input: string) returns (alarm: bool)
      requires Valid()
      modifies this
      ensures Valid()
      ensures Outcome(Snapshot(), alarm) == Step(old(Snapshot()), Event.SettingChange(key, input))
      ensures settings == old(settings)[key := MinutesSetting(input)] && mode == old(mode)
      ensures old(mode) == key && !old(isActive) ==> time == settings[key] * 60
      ensures !(old(mode) == key && !old(isActive)) ==> time == old(time) && isActive == old(isActive)
    {
      var before := Snapshot();
      var minutes := MinutesSetting(input);
      settings := settings[key := minutes];
      if mode == key && !isActive {
        time := minutes * 60;
      }
      assert Snapshot() == Handle(before, Event.SettingChange(key, input));
      alarm := RunEffect(before);
    }

    /** One call of the interval callback, `setTime(prev => prev - 1)`;
        without an armed interval no callback comes and nothing changes. */
    method Tick() returns (alarm: bool)
      requires Valid()
      modifies this
      ensures Valid()
      ensures Outcome(Snapshot(), alarm) == Step(old(Snapshot()), Event.Tick)
      ensures settings == old(settings) && mode == old(mode)
      ensures time == if old(isActive) && old(time) > 0 then old(time) - 1 else old(time)
      ensures alarm <==> old(isActive) && old(time) == 1
    {
      var before := Snapshot();
      if isActive && time > 0 {
        time := time - 1;
      }
      alarm := RunEffect(before);
    }
  }
}
