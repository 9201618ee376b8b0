# Focus Launcher: Instagram timer and foreground watcher

A Dafny model of the two small state machines in Focus Launcher that decide
when time spent in Instagram is counted, and of the arithmetic that turns a
millisecond total into the overlay's text and colour.

- `ForegroundWatcher` (`watcher.dfy`) — `MyAccessibilityService.onAccessibilityEvent`
  as a pure step `(isInstagramOpen, event) -> (isInstagramOpen', commands)`.
  An event keeps only what the handler reads: whether it has a source node,
  the node's class name and content description, the event type and the
  (nullable) package name. Commands are `Start`, `Stop` and `Lock`.
- `TimerService` (`timer.dfy`) — `startTimer`, `stopTimer` and the
  `timerRunnable` tick over a state `(running, startTime, instagramTimeSpent)`,
  the last one nullable. The clock reading `now` is a parameter. Handler posts
  and cancellations, writes of the saved total and overlay redraws are
  returned as effects.
- `Overlay` (`overlay.dfy`) — `updateTimerTextView`: the hours/minutes/seconds
  split, `HH:MM:SS` or `MM:SS` text, the four colour tiers. A parser for that
  text shows that the text determines the reading.
- `Decimal` (`decimal.dfy`) — the `%d` and `%02d` conversions written over
  digit strings, with their inverse `Value`.
- `Pipeline` (`pipeline.dfy`) — the watcher's commands fed, in order and
  exactly once, into the timer. Inputs carry the milliseconds since the
  previous input, so the clock never runs backwards. The main result is that
  after any inputs the timer runs exactly while the watcher's flag is set.
  Also, the time accounted for (saved total plus the running session) grows
  by exactly the time the flag was set.
- `Wrappers` (`wrappers.dfy`) — `Option`, standing for Kotlin's nullable types.

Clock: `SystemClock.elapsedRealtime` is monotonic, so a start time it handed
out is never later than a later reading. `Stop`, `Tick` and `Accounted`
therefore require `running ==> startTime <= now` (`ClockAfterStart`). In
`Pipeline` this holds by construction.

The lock layout's content description is a string resource whose value is not
part of this model. It is the parameter `marker`.

## Model

| member | source | states |
|---|---|---|
| Decimal.Digits | app/src/main/java/app/focuslauncher/helper/TimerService.kt:88-91 | the decimal text of n is all digits and reads back as n; it has no leading zero unless n = 0; it has two or more digits iff n >= 10 |
| Decimal.Pad2 | app/src/main/java/app/focuslauncher/helper/TimerService.kt:88-91 | a `%02d` field is all digits, at least two wide, reads back as n, and has a leading zero only when exactly two wide; it is two wide iff n < 100 |
| Decimal.Pad2Unique | app/src/main/java/app/focuslauncher/helper/TimerService.kt:88-91 | any digit string of that padded shape that denotes n is the `%02d` field of n |
| Overlay.ClockOf | app/src/main/java/app/focuslauncher/helper/TimerService.kt:84-86 | minutes < 60 and seconds < 60, and h·3600000 + m·60000 + s·1000 <= total < that + 1000 |
| Overlay.ClockOfUnique | app/src/main/java/app/focuslauncher/helper/TimerService.kt:84-86 | conversely, the only reading with minutes and seconds below 60 whose second contains the total is the one the split computes |
| Overlay.Tier | app/src/main/java/app/focuslauncher/helper/TimerService.kt:93-100 | RED iff hours >= 3, ORANGE iff hours = 2, YELLOW iff hours = 1, WHITE iff hours = 0 |
| Overlay.TierMonotone | app/src/main/java/app/focuslauncher/helper/TimerService.kt:84-100 | a larger total never shows a lower colour tier |
| Overlay.TextFields | app/src/main/java/app/focuslauncher/helper/TimerService.kt:88-91 | the text has three ':'-separated fields iff hours >= 1 and two otherwise; each field is the `%02d` form of its number |
| Overlay.TextRoundTrip | app/src/main/java/app/focuslauncher/helper/TimerService.kt:88-91 | parsing the text gives back the reading it was made from |
| Overlay.RenderRoundTrip | app/src/main/java/app/focuslauncher/helper/TimerService.kt:84-91 | the overlay text for a total parses to a reading whose second contains the total |
| Overlay.Example65Seconds | app/src/main/java/app/focuslauncher/helper/TimerService.kt:84-100 | 65000 ms shows "01:05" in white |
| Overlay.Example1h2m5s | app/src/main/java/app/focuslauncher/helper/TimerService.kt:84-100 | 3725000 ms shows "01:02:05" in yellow |
| TimerService.Start | app/src/main/java/app/focuslauncher/helper/TimerService.kt:113-119 | afterwards the timer runs and the saved total is unchanged; started while running, nothing changes and no tick is queued; started while idle, startTime = now and one tick is queued; the accounted time is unchanged |
| TimerService.Stop | app/src/main/java/app/focuslauncher/helper/TimerService.kt:121-131 | afterwards the timer is idle; stopped while idle, nothing changes and nothing is written; stopped while running, pending ticks are cancelled and the saved total (absent read as 0) grows by now − startTime in exactly one write; the accounted time is unchanged |
| TimerService.Tick | app/src/main/java/app/focuslauncher/helper/TimerService.kt:133-140 | a tick never changes the state or writes the total; it redraws and requeues iff running, and draws the saved total plus now − startTime |
| TimerService.StartIdempotent | app/src/main/java/app/focuslauncher/helper/TimerService.kt:113-119 | a second start changes nothing and queues no second tick loop |
| TimerService.StartStopAccumulates | app/src/main/java/app/focuslauncher/helper/TimerService.kt:113-131 | start at t0, a repeated start, then stop at t1 leaves the saved total at previous (absent read as 0) + (t1 − t0), written exactly once |
| TimerService.TicksNondecreasing | app/src/main/java/app/focuslauncher/helper/TimerService.kt:80-82 | while running, ticks keep the state, and the shown total and its colour tier never decrease as the clock advances |
| ForegroundWatcher.OnEvent | app/src/main/java/app/focuslauncher/helper/MyAccessibilityService.kt:28-54 | no source: no change, no command; Lock iff the source is a FrameLayout with the lock description; the flag becomes "package is Instagram" on a window-state change with a source and is kept otherwise; exactly one Start when the flag rises, exactly one Stop when it falls, no timer command otherwise; a Lock comes before any timer command |
| ForegroundWatcher.LockAlongsideStart | app/src/main/java/app/focuslauncher/helper/MyAccessibilityService.kt:31-42 | a window change to Instagram on the lock layout issues both Lock and Start |
| ForegroundWatcher.SameSideIdempotent | app/src/main/java/app/focuslauncher/helper/MyAccessibilityService.kt:36-48 | a second window change to the same side (Instagram or not) changes nothing and issues no Start or Stop |
| ForegroundWatcher.StartStopAlternate | app/src/main/java/app/focuslauncher/helper/MyAccessibilityService.kt:36-48 | over any events, Start and Stop strictly alternate, beginning with Start if Instagram was closed and with Stop if it was open |
| ForegroundWatcher.FlagFollowsLastCommand | app/src/main/java/app/focuslauncher/helper/MyAccessibilityService.kt:36-48 | after any events the flag is set iff the last Start or Stop issued was Start; with none issued it is unchanged |
| ForegroundWatcher.FromClosedStartsWithStart | app/src/main/java/app/focuslauncher/helper/MyAccessibilityService.kt:16-48 | from the initial closed flag, timer commands go Start, Stop, Start, ..., and the flag is set iff their count is odd |
| Pipeline.Initial | app/src/main/java/app/focuslauncher/helper/TimerService.kt:26-27 | a fresh service is idle, matches the watcher's closed flag, and accounts exactly the saved total |
| Pipeline.Deliver | app/src/main/java/app/focuslauncher/helper/TimerService.kt:103-111 | delivering commands keeps the accounted time; no timer command keeps the timer; a lone Start leaves it running and a lone Stop leaves it idle |
| Pipeline.Step | app/src/main/java/app/focuslauncher/helper/MyAccessibilityService.kt:36-48 | one input keeps the timer running exactly while the watcher's flag is set, and grows the accounted time by the delay iff the timer was running |
| Pipeline.RunAccounts | app/src/main/java/app/focuslauncher/helper/TimerService.kt:121-131 | after any inputs the timer still runs iff the flag is set, and the accounted time grew by exactly the time the watcher's flag was set |
| Pipeline.RunWatcherAgrees | app/src/main/java/app/focuslauncher/helper/MyAccessibilityService.kt:28-54 | the watcher inside the pipeline is the watcher run on the accessibility events alone |
| Pipeline.OverlayShowsWatchedTime | app/src/main/java/app/focuslauncher/helper/TimerService.kt:80-101 | from a fresh service, a later tick draws iff Instagram is in front and shows the saved total plus all time in front; when not in front that sum is what is saved |
| Pipeline.TickShowsAccounted | app/src/main/java/app/focuslauncher/helper/TimerService.kt:133-140 | inside the pipeline a tick keeps the timer, draws iff it runs, and draws the accounted time at the tick's clock reading |

## Left out

- Overlay window management (`onCreate` inflation and `addView`, `onDestroy`'s `removeView`): calls into the window manager.
- `onCreate`'s start time offset by the saved total: `startTimer` overwrites it before any tick can run. The model starts from the field initialisers.
- Handler/Looper scheduling and the real one-second delay: a tick is an explicit input. Queued and cancelled ticks appear only as effects. The model does not track which queued ticks are still pending.
- Intent-based delivery of start and stop (`startTimer`/`stopTimer` companions, `onStartCommand`): commands are assumed delivered in order and exactly once.
- `Prefs` persistence: the saved total is a single nullable field. The `lockModeOn` write in `onServiceConnected` is left out.
- The exception handler in `onAccessibilityEvent`: the one failure it swallows in the modelled path is `startService` throwing inside `startTimer`/`stopTimer` (for example `IllegalStateException` or `SecurityException`). The flag has already moved by then, so the command is lost. The model assumes every command is delivered, which excludes this case.
- `Color` and `String.format`: the colour is an enumeration of the four tiers, not an ARGB value; the text is built by `Decimal.Pad2`.
- Decimal.Pad2: the text is the `%02d` format in a locale whose zero digit is `'0'`. `String.format` is called without a locale, so a device locale with other digits (Persian, Arabic, Bengali, ...) shows those digits instead; localized digits are not modelled.
- The comparisons of `className` and `contentDescription`, which are CharSequences, with Strings: modelled as equality of character sequences.
- Overlay.ClockOf: Kotlin's 64-bit `Long` arithmetic and the `toInt()` of the hours are not modelled. Totals are unbounded naturals. The difference shows only beyond 2^31 hours.
- TimerService.Stop: the saved total is an unbounded natural. `Long` overflow of the sum is not modelled.
- Pipeline.RunAccounts: commands reach the timer at the same clock reading as the event that issued them. In the app, `startService` is asynchronous and `onStartCommand` runs later, so the saved total differs from the watched time by the Stop command's delivery delay minus the Start command's. The equality holds only under immediate delivery.
- `MainActivity` (day-rollover check, lifecycle, permissions, theme): platform plumbing outside this model.
