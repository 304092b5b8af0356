# Pomodoro timer: the countdown and its clock face, in Dafny

This project models the logic of a single-page Pomodoro timer. The timer has three
modes: focus, short break and long break. Each mode has a duration in minutes
that the user can change. The countdown runs one second per tick, and at zero
it stops and plays a notification. Two pieces of the code hold real logic, and
both are modelled here.

- **The countdown state machine of `src/App.jsx`** (module `PomodoroApp`). The
  state is the per-mode durations, the current mode, the remaining seconds,
  whether the countdown runs, and whether a screen wake lock is held. The
  events are Start, Pause, Reset, ModeChange, SettingChange and Tick. Each
  event is followed by the effect at App.jsx:78-91. React re-runs that effect
  only when `isActive` or `time` changed. When it re-runs and `time` is 0, it
  stops the countdown, releases the wake lock and plays the notification.
  `Handle`, `Effect` and `Step` state on values what one event does. The class
  `App` holds the same state in mutable fields and has one method per handler.
  Each method is proved to end in the state and alarm that `Step` gives.
- **`formatTime` of `src/components/Timer.jsx`** (module `TimerDisplay`). It
  shows whole minutes and left-over seconds, each zero-padded to two
  characters. `ReadClock` reads such a face back, and the lemmas prove the
  round trip, injectivity, the field widths and the 5-character form below
  100 minutes.
- **`parseInt(input) || 0`** of the settings form (module `JsParseInt`). This
  follows section 19.2.5 of ECMA-262 with no radix argument. It skips leading
  white space and line terminators and takes an optional sign. A `0x`/`0X`
  prefix switches to radix 16. It reads the longest run of digits, and an
  empty run gives NaN, which `|| 0` turns into 0.
- `Numerals` holds what the two modules above share: the decimal rendering
  of a whole number (`toString`) and the value of a digit string.

The model follows the code as written. Some of this behaviour is easy to
assume otherwise:

- Start has no guard on the remaining time. Starting at 0 makes the effect
  stop the countdown at once and play the notification. Starting below 0
  leaves the countdown "running" with no interval, so it never moves
  (`StartOnlyActivates`, `NegativeInputFreezes`).
- The zero branch of the effect does not look at `isActive`. So setting the
  displayed, idle mode to 0 minutes plays the notification when the
  remaining time was not already 0, even though nothing was running
  (`ZeroSettingWhileIdlePlays`).
- `parseInt(..) || 0` keeps negative numbers. A typed "-1" gives a duration of
  -1 (`MinutesSetting`, `ParseIntSignedNumeral`) and, when that mode is shown
  and idle, a remaining time of -60 (`NegativeInputFreezes`).
- `handleModeChange` does not release the wake lock. A lock taken by a
  running countdown stays held after switching modes, unless the new mode's
  duration is 0: then the effect stops the countdown and releases the lock
  (`ModeChangeLoads`).
- The effect runs again only when `time` or `isActive` changed. So an event
  that leaves both unchanged does not play the notification, even at zero.
  An example is Reset on an idle timer that is already at 0 and whose
  duration is 0 (`AlarmRule`).
- Controls.jsx shows the start button only while idle and the pause button
  only while running (src/components/Controls.jsx:29-33). This is the
  predicates `StartOffered` and `PauseOffered`, which are used as the
  preconditions of `StartOnlyActivates` and `PauseThenStartResumes`. The
  transitions themselves (`Handle`, the class methods) do not assume them.

## Model

| member | source | states |
|---|---|---|
| `Numerals.Decimal` | src/components/Timer.jsx:8 | `toString` of a whole number is non-empty, all decimal digits, and starts with '0' only for 0 |
| `Numerals.DecimalValue` | src/components/Timer.jsx:8 | reading the decimal rendering back gives the number |
| `Numerals.DecimalLength` | src/components/Timer.jsx:8 | the rendering has one digit exactly below 10, two exactly from 10 to 99, and three or more exactly from 100 |
| `Numerals.DecimalInjective` | src/components/Timer.jsx:8 | different numbers render differently |
| `Numerals.LeadingZeros` | src/components/Timer.jsx:8 | any number of leading zeros leaves the value of a digit string unchanged |
| `TimerDisplay.PadZeros` | src/components/Timer.jsx:8 | `padStart(2, '0')`: the result is as long as the width or the input, whichever is longer; the input is its suffix and everything before it is '0' |
| `TimerDisplay.PaddedValue` | src/components/Timer.jsx:8 | padding a digit string keeps it all digits and keeps its value |
| `TimerDisplay.FormatTime` | src/components/Timer.jsx:5-9 | `formatTime` as the face of `floor(seconds / 60)` and `seconds % 60`; what the face means is stated by the lemmas below, `FormatTimeRoundTrip` first |
| `TimerDisplay.FaceParts` | src/components/Timer.jsx:8 | a face is the padded minutes, a colon, and the two padded seconds digits |
| `TimerDisplay.SecondsField` | src/components/Timer.jsx:7-8 | after the colon come exactly two digits whose value is `seconds % 60`, in 0..59 |
| `TimerDisplay.MinutesField` | src/components/Timer.jsx:6-8 | before the colon come digits whose value is `floor(seconds / 60)`, padded to at least two and never cut off: three or more digits exactly from 100 minutes |
| `TimerDisplay.ReadDigitsColonDigits` | src/components/Timer.jsx:8 | the `${mm}:${ss}` shape splits back at its one colon into the two digit runs and their values |
| `TimerDisplay.FormatTimeRoundTrip` | src/components/Timer.jsx:5-9 | reading the face back gives `(seconds / 60, seconds % 60)`, and `m * 60 + s == seconds` |
| `TimerDisplay.FormatTimeInjective` | src/components/Timer.jsx:5-9 | two different times never show the same face |
| `TimerDisplay.FormatTimeWidth` | src/components/Timer.jsx:8 | the face has exactly 5 characters iff the time is below 6000 seconds, and then the colon is at index 2 |
| `TimerDisplay.FormatTimeZero` | src/components/Timer.jsx:5-9 | 0 seconds show as "00:00" |
| `TimerDisplay.FormatTimeFocusDefault` | src/components/Timer.jsx:5-9 | 1500 seconds show as "25:00" |
| `TimerDisplay.FormatTimeHundredMinutes` | src/components/Timer.jsx:5-9 | 6000 seconds show as "100:00" |
| `JsParseInt.TrimStart` | src/App.jsx:126 | trimming leaves a no-longer input that does not start with white space |
| `JsParseInt.TrimStartDropsWhiteSpace` | src/App.jsx:126 | what trimming drops is all white space, and what it keeps is the rest of the input |
| `JsParseInt.LeadingDigits` | src/App.jsx:126 | the digit run is a prefix of the input, all digits of the radix, and is followed by a non-digit or the end |
| `JsParseInt.ParseInt` | src/App.jsx:126 | `parseInt(input)`: a number only comes from non-blank input, and a negative one only from input whose first non-blank character is '-' |
| `JsParseInt.MinutesSetting` | src/App.jsx:126 | the setting read from the input is the number `parseInt` reads, negative ones included, and 0 when it reads NaN |
| `JsParseInt.LeadingDigitsOfNumeral` | src/App.jsx:126 | decimal digits followed by a non-digit form exactly the digit run |
| `JsParseInt.ParseIntSkipsWhiteSpace` | src/App.jsx:126 | white space in front does not change the result |
| `JsParseInt.ParseIntSigned` | src/App.jsx:126 | a leading '-' negates the unsigned reading and a leading '+' keeps it |
| `JsParseInt.ParseIntDigits` | src/App.jsx:126 | any run of decimal digits, ended by the end of the input or a non-digit and not a `0x` prefix, parses to its value, and with a '-' in front to its negation |
| `JsParseInt.PaddedNumeral` | src/App.jsx:126 | the numeral of `n` after any number of leading zeros is all digits with value `n`, and starts a `0x` prefix only as a lone "0" |
| `JsParseInt.ParseIntNumeral` | src/App.jsx:126 | a decimal numeral, leading zeros allowed, followed by the end or a non-digit (a fraction or an exponent; 'x' too unless the numeral is a lone "0") parses to the digits before that non-digit |
| `JsParseInt.ParseIntSignedNumeral` | src/App.jsx:126 | the same with a sign in front: '-' gives the negative value and '+' the value itself |
| `JsParseInt.ParseIntNoDigits` | src/App.jsx:126 | input that starts with neither white space, a sign nor a digit is NaN, and the setting becomes 0 |
| `JsParseInt.NegativeNeedsMinus` | src/App.jsx:126 | a negative setting only comes from input that, after white space, starts with '-' |
| `JsParseInt.ParseIntBlankAndSign` | src/App.jsx:126 | " -5" parses to -5 |
| `JsParseInt.ParseIntFraction` | src/App.jsx:126 | "7.9" parses to 7 |
| `JsParseInt.ParseIntLeadingZeros` | src/App.jsx:126 | "007.5" parses to 7 |
| `JsParseInt.ParseIntSignedLeadingZero` | src/App.jsx:126 | "-05" parses to -5 |
| `JsParseInt.ParseIntHexPrefix` | src/App.jsx:126 | "0x1f" parses to 31 |
| `PomodoroApp.DefaultMinutes` | src/App.jsx:6-10 | every default duration is positive and at most 25 minutes, and 25 is the focus duration only |
| `PomodoroApp.DefaultSettings` | src/App.jsx:6-10 | the default settings give every mode its default duration |
| `PomodoroApp.Initial` | src/App.jsx:13-16 | the mount state is consistent, in focus mode with 1500 seconds, idle and without a wake lock |
| `PomodoroApp.StartOffered` | src/components/Controls.jsx:29-33 | the start button is shown exactly while the countdown is idle |
| `PomodoroApp.PauseOffered` | src/components/Controls.jsx:29-33 | the pause button is shown exactly while the countdown runs |
| `PomodoroApp.Handle` | src/App.jsx:79-133 | before the effect: only a mode change changes the mode, only a settings edit the settings, only Start sets the countdown running or takes a lock, and a running countdown's time moves only by a tick, one second at a time |
| `PomodoroApp.Effect` | src/App.jsx:78-91 | the notification plays iff `time` or `isActive` changed and `time` is 0; it then stops the countdown and releases the lock, and changes nothing else; otherwise the state is untouched |
| `PomodoroApp.InitialState` | src/App.jsx:6-16 | at mount: focus mode, 1500 seconds, idle, durations 25/5/10 minutes, and the state is consistent |
| `PomodoroApp.Step` | src/App.jsx:78-133 | after any event every mode still has a duration |
| `PomodoroApp.StepKeepsConsistent` | src/App.jsx:78-91 | every event keeps a consistent state consistent: once the time is 0, the countdown is not running |
| `PomodoroApp.AlarmRule` | src/App.jsx:78-91 | the notification plays iff the event leaves the time at 0 and changed the time or the running flag; the state is then idle at 0 with the wake lock released |
| `PomodoroApp.TickCountsDown` | src/App.jsx:79-88 | a tick while counting down takes exactly one second off, keeps mode and settings, and stops and plays iff it reaches 0; the wake lock is kept unless the notification played |
| `PomodoroApp.TickWhenNotTicking` | src/App.jsx:79-83 | when idle, or at 0 or below, a tick changes nothing and plays nothing |
| `PomodoroApp.StartOnlyActivates` | src/App.jsx:93-106 | Start from idle keeps settings, mode and time, whatever the time is; the countdown runs iff the time is not 0, and the notification plays iff it is 0 |
| `PomodoroApp.PauseThenStartResumes` | src/App.jsx:93-110 | Pause only stops the countdown and releases the lock; Start then resumes from the paused time |
| `PomodoroApp.ResetReloads` | src/App.jsx:112-116 | Reset keeps settings and mode, reloads the mode's duration and leaves the timer idle with no lock |
| `PomodoroApp.ModeChangeLoads` | src/App.jsx:118-122 | a mode change sets the mode, loads its duration and stops the countdown, keeps the settings, and keeps a held wake lock unless the notification played |
| `PomodoroApp.ModeChangeThenReset` | src/App.jsx:112-122 | after a mode change and a reset the time is that mode's current duration |
| `PomodoroApp.SettingChangeUpdates` | src/App.jsx:124-133 | an edit sets only that mode's duration, to what `parseInt` gives, or 0 for NaN; the time becomes the new duration if the edited mode is shown and idle, which stays idle, and otherwise time and running flag are untouched; the wake lock is kept unless the notification played |
| `PomodoroApp.TicksWhileRunning` | src/App.jsx:79-82 | `k` ticks with more than `k` seconds left take `k` seconds off and play nothing |
| `PomodoroApp.CountdownExpires` | src/App.jsx:79-88 | a countdown with `n` seconds left stands idle at 0 after exactly `n` ticks, with the lock released and the notification played |
| `PomodoroApp.FocusSession` | src/App.jsx:13-106 | from mount, Start and 1500 ticks end idle at 0 with the notification played |
| `PomodoroApp.ShortBreakWhileRunning` | src/App.jsx:118-122 | switching to a short break while focus runs at 900 seconds gives an idle short break at 300 seconds |
| `PomodoroApp.ZeroSettingWhileIdlePlays` | src/App.jsx:124-133 | setting the idle focus mode to "0" zeroes the time and plays the notification |
| `PomodoroApp.NonNegativeKept` | src/App.jsx:124-133 | as long as no edit parses below 0, no duration and no remaining time goes below 0 |
| `PomodoroApp.NegativeInputFreezes` | src/App.jsx:126 | "-1" for the idle focus mode gives -60 seconds; after Start it "runs" but no tick changes it or plays |
| `PomodoroApp.FrozenTicks` | src/App.jsx:79-83 | without an armed interval any number of ticks changes nothing |
| `PomodoroApp.App.constructor` | src/App.jsx:13-16 | the fields start as the mount state |
| `PomodoroApp.App.RunEffect` | src/App.jsx:78-91 | the fields and the alarm end as `Effect` gives them |
| `PomodoroApp.App.Start` | src/App.jsx:93-106 | `handleStart` ends in the state and alarm of `Step`, keeping settings, mode and time |
| `PomodoroApp.App.Pause` | src/App.jsx:107-110 | `handlePause` ends idle with no lock, time and mode kept, and no notification |
| `PomodoroApp.App.Reset` | src/App.jsx:112-116 | `handleReset` reloads the current mode's duration and ends idle with no lock |
| `PomodoroApp.App.ModeChange` | src/App.jsx:118-122 | `handleModeChange` sets the mode and its duration and ends idle; the lock is released only if the notification played |
| `PomodoroApp.App.SettingChange` | src/App.jsx:124-133 | `handleSettingChange` updates one duration and, for the shown idle mode, the time |
| `PomodoroApp.App.Tick` | src/App.jsx:79-82 | the interval callback takes one second off while counting down and plays iff it reaches 0 |

## Left out

- Rendering: the JSX markup, the settings modal, the theme toggle and its DOM attribute, and the mode labels in the settings, which are display strings only.
- Interval timing. `setInterval`/`clearInterval` and the effect's cleanup are not modelled. A tick is a discrete event that can only arrive while the countdown runs above zero, the one state in which the effect keeps an interval armed.
- Audio. Preloading, the priming `play()`/`pause()` in `handleStart` and the vibration fallback are calls into the browser. The notification is the boolean `alarm`. How many times `playSound` runs is not counted: when the countdown was running, the effect runs again after its own `setIsActive(false)` and plays a second time.
- Wake lock. The platform call is asynchronous, and the model treats it as taking effect at once: Start takes a lock when `granted` says the platform gives one, and a release always succeeds. A lock request that resolves after a pause or after reaching zero is not modelled. Neither is the earlier lock that a second request overwrites and leaks, because a boolean cannot tell two locks apart.
- The shallow copy at App.jsx:125-126 writes into the shared `DEFAULT_SETTINGS` objects. Settings are modelled as a map that each edit updates with a new value.
- `formatTime` on negative input, where `Math.floor` and `%` produce faces like "-6:-1". The display model takes naturals only.
- Number precision. Integers are unbounded here. JavaScript numbers are exact only up to 2^53, parseInt approximates runs of more than 20 significant digits, and `toString` switches to exponent notation from 1e21. None of this is modelled.
- Strings are sequences of Unicode scalar values rather than UTF-16 code units.
- `getProgress` in Timer.jsx is a placeholder that always returns 100.
- Controls.jsx is button markup. Its only rule is which action button shows, modelled as `StartOffered` and `PauseOffered`.
