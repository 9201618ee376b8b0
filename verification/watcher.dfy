/**
  The foreground watcher (MyAccessibilityService.onAccessibilityEvent) as
  a pure step from an accessibility event and the `isInstagramOpen` flag
  to the new flag and the commands it issues.
 */
module ForegroundWatcher {
  import opened Wrappers

  const INSTAGRAM_PACKAGE: string := "com.instagram.android"
  const FRAME_LAYOUT: string := "android.widget.FrameLayout"
  /** AccessibilityEvent.TYPE_WINDOW_STATE_CHANGED */
  const TYPE_WINDOW_STATE_CHANGED: int := 0x20

  /** The event's source node: its class name and content description (both nullable) */
  datatype Node = Node(className: Option<string>, contentDescription: Option<string>)

  datatype Event = Event(source: Option<Node>, eventType: int, packageName: Option<string>)

  datatype Command =
    | Start  // TimerService.startTimer
    | Stop   // TimerService.stopTimer
    | Lock   // performGlobalAction(GLOBAL_ACTION_LOCK_SCREEN)

  datatype Watcher = Watcher(instagramOpen: bool)

  datatype Reaction = Reaction(watcher: Watcher, commands: seq<Command>)

  /** The node is the launcher's lock layout, identified by `marker` */
  predicate IsLockLayout(n: Node, marker: string) {
    n.className == Some(FRAME_LAYOUT) && n.contentDescription == Some(marker)
  }

  /** A window-state change that has a source node: the only kind that moves the flag */
  predicate IsWindowChange(e: Event) {
    e.source.Some? && e.eventType == TYPE_WINDOW_STATE_CHANGED
  }

  predicate IsInstagram(packageName: Option<string>) {
    packageName == Some(INSTAGRAM_PACKAGE)
  }

  /** The commands addressed to the timer, in order (Lock goes to the system) */
  function TimerCommands(cs: seq<Command>): (ts: seq<Command>)
    ensures Lock !in ts
    ensures |ts| <= |cs|
  {
    if cs == [] then []
    else (if cs[0] == Lock then [] else [cs[0]]) + TimerCommands(cs[1..])
  }

  lemma {:induction false} TimerCommandsAppend(a: seq<Command>, b: seq<Command>)
    ensures TimerCommands(a + b) == TimerCommands(a) + TimerCommands(b)
    decreases |a|
  {
    if a == [] {
      assert a + b == b;
    } else {
      var head := if a[0] == Lock then [] else [a[0]];
      assert (a + b)[0] == a[0];
      assert (a + b)[1..] == a[1..] + b;
      assert TimerCommands(a + b) == head + TimerCommands(a[1..] + b);
      TimerCommandsAppend(a[1..], b);
      assert head + (TimerCommands(a[1..]) + TimerCommands(b))
          == (head + TimerCommands(a[1..])) + TimerCommands(b);
    }
  }

  /** onAccessibilityEvent; `marker` is the lock layout's content description */
  function OnEvent(w: Watcher, e: Event, marker: string): (r: Reaction)
    // no source node: dropped before any check
    ensures e.source.None? ==> r == Reaction(w, [])
    // the lock check, on its own
    ensures Lock in r.commands <==> e.source.Some? && IsLockLayout(e.source.value, marker)
    // the flag records whether the last window change was Instagram
    ensures r.watcher.instagramOpen == if IsWindowChange(e) then IsInstagram(e.packageName) else w.instagramOpen
    // Start exactly when Instagram comes to the front, Stop exactly when it leaves
    ensures TimerCommands(r.commands) ==
      if r.watcher.instagramOpen == w.instagramOpen then []
      else if r.watcher.instagramOpen then [Start]
      else [Stop]
    // at most one lock request, issued before any timer command
    ensures r.commands == (if Lock in r.commands then [Lock] else []) + TimerCommands(r.commands)
  {
    match e.source
    case None => Reaction(w, [])
    case Some(source) =>
      var lock := if IsLockLayout(source, marker) then [Lock] else [];
      if e.eventType == TYPE_WINDOW_STATE_CHANGED then
        if IsInstagram(e.packageName) then
          if !w.instagramOpen then Reaction(Watcher(true), lock + [Start])
          else Reaction(w, lock)
        else
          if w.instagramOpen then Reaction(Watcher(false), lock + [Stop])
          else Reaction(w, lock)
      else
        Reaction(w, lock)
  }

  /** A second window change to the same side changes nothing and issues no timer command */
  lemma {:induction false} SameSideIdempotent(w: Watcher, e1: Event, e2: Event, marker: string)
    requires IsWindowChange(e1) && IsWindowChange(e2)
    requires IsInstagram(e1.packageName) == IsInstagram(e2.packageName)
    ensures var r1 := OnEvent(w, e1, marker);
      var r2 := OnEvent(r1.watcher, e2, marker);
      r2.watcher == r1.watcher && TimerCommands(r2.commands) == []
  {
  }

  /**
    The lock request does not depend on the flag or the event type: a
    window change to Instagram on the lock layout both locks and starts.
   */
  lemma {:induction false} LockAlongsideStart(marker: string)
    ensures var e := Event(Some(Node(Some(FRAME_LAYOUT), Some(marker))), TYPE_WINDOW_STATE_CHANGED, Some(INSTAGRAM_PACKAGE));
      OnEvent(Watcher(false), e, marker).commands == [Lock, Start]
  {
  }

  /** Processes events in order, collecting every command issued */
  function Run(w: Watcher, events: seq<Event>, marker: string): (r: Reaction)
    decreases |events|
  {
    if events == [] then Reaction(w, [])
    else
      var first := OnEvent(w, events[0], marker);
      var rest := Run(first.watcher, events[1..], marker);
      Reaction(rest.watcher, first.commands + rest.commands)
  }

  /** Timer commands alternate, the first being `first` */
  predicate Alternating(cs: seq<Command>, first: Command) {
    forall i :: 0 <= i < |cs| ==> cs[i] == if i % 2 == 0 then first else Other(first)
  }

  function Other(c: Command): Command {
    if c == Start then Stop else Start
  }

  lemma AlternatingCons(c: Command, cs: seq<Command>)
    requires c != Lock && Alternating(cs, Other(c))
    ensures Alternating([c] + cs, c)
  {
    var s := [c] + cs;
    forall i | 0 <= i < |s|
      ensures s[i] == if i % 2 == 0 then c else Other(c)
    {
      if i > 0 {
        assert s[i] == cs[i - 1];
      }
    }
  }

  /** One event followed by a run: the commands of both, in order */
  lemma RunCons(w: Watcher, events: seq<Event>, marker: string)
    requires events != []
    ensures var first := OnEvent(w, events[0], marker);
      var rest := Run(first.watcher, events[1..], marker);
      && Run(w, events, marker).watcher == rest.watcher
      && TimerCommands(Run(w, events, marker).commands)
         == TimerCommands(first.commands) + TimerCommands(rest.commands)
  {
    var first := OnEvent(w, events[0], marker);
    var rest := Run(first.watcher, events[1..], marker);
    TimerCommandsAppend(first.commands, rest.commands);
  }

  /** One event issues the next timer command of the alternation, if any */
  lemma OnEventTimerCommand(w: Watcher, e: Event, marker: string)
    ensures var r := OnEvent(w, e, marker);
      var ts := TimerCommands(r.commands);
      && (ts == [] ==> r.watcher == w)
      && (ts != [] ==> ts == [if w.instagramOpen then Stop else Start]
                       && r.watcher.instagramOpen == (ts[0] == Start))
  {
  }

  /**
    Over any event sequence the Start and Stop commands strictly
    alternate, beginning with Start when Instagram was not in front and
    with Stop when it was.
   */
  lemma {:induction false} StartStopAlternate(w: Watcher, events: seq<Event>, marker: string)
    ensures Alternating(TimerCommands(Run(w, events, marker).commands), if w.instagramOpen then Stop else Start)
    decreases |events|
  {
    if events != [] {
      var first := OnEvent(w, events[0], marker);
      var rest := Run(first.watcher, events[1..], marker);
      RunCons(w, events, marker);
      OnEventTimerCommand(w, events[0], marker);
      StartStopAlternate(first.watcher, events[1..], marker);
      var ts1 := TimerCommands(first.commands);
      var ts2 := TimerCommands(rest.commands);
      if ts1 == [] {
        assert ts1 + ts2 == ts2;
      } else {
        AlternatingCons(ts1[0], ts2);
      }
    }
  }

  /**
    After any event sequence the flag is set exactly when the last Start
    or Stop issued was Start; with none issued it is as it was before.
   */
  lemma {:induction false} FlagFollowsLastCommand(w: Watcher, events: seq<Event>, marker: string)
    ensures var r := Run(w, events, marker);
      var ts := TimerCommands(r.commands);
      r.watcher.instagramOpen == if ts == [] then w.instagramOpen else ts[|ts| - 1] == Start
    decreases |events|
  {
    if events != [] {
      var first := OnEvent(w, events[0], marker);
      var rest := Run(first.watcher, events[1..], marker);
      RunCons(w, events, marker);
      OnEventTimerCommand(w, events[0], marker);
      FlagFollowsLastCommand(first.watcher, events[1..], marker);
      var ts1 := TimerCommands(first.commands);
      var ts2 := TimerCommands(rest.commands);
      if ts1 == [] {
        assert ts1 + ts2 == ts2;
      } else if ts2 != [] {
        assert (ts1 + ts2)[|ts1 + ts2| - 1] == ts2[|ts2| - 1];
      }
    }
  }

  /** From a closed Instagram, the timer commands are Start, Stop, Start, ... */
  lemma {:induction false} FromClosedStartsWithStart(events: seq<Event>, marker: string)
    ensures var r := Run(Watcher(false), events, marker);
      var ts := TimerCommands(r.commands);
      && Alternating(ts, Start)
      && (r.watcher.instagramOpen <==> |ts| % 2 == 1)
  {
    StartStopAlternate(Watcher(false), events, marker);
    FlagFollowsLastCommand(Watcher(false), events, marker);
    var ts := TimerCommands(Run(Watcher(false), events, marker).commands);
    if ts != [] {
      AlternatingLast(ts);
    }
  }

  lemma AlternatingLast(ts: seq<Command>)
    requires ts != [] && Alternating(ts, Start)
    ensures ts[|ts| - 1] == Start <==> |ts| % 2 == 1
  {
    var last := |ts| - 1;
    assert ts[last] == if last % 2 == 0 then Start else Stop;
  }
}
