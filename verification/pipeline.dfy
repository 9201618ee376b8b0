/**
  The watcher and the timer together: every command the watcher issues
  is delivered to the timer in order and exactly once, at the clock
  reading of the event that caused it. Inputs arrive with the
  milliseconds elapsed since the previous one, so the clock never runs
  backwards.
 */
module Pipeline {
  import opened Wrappers
  import W = ForegroundWatcher
  import T = TimerService
  import Overlay

  datatype Input = Accessibility(event: W.Event) | TickFires

  datatype Timed = Timed(delay: nat, input: Input)

  datatype System = System(watcher: W.Watcher, timer: T.Timer, now: nat)

  datatype Transition = Transition(system: System, effects: seq<T.Effect>)

  predicate Valid(sys: System) {
    T.ClockAfterStart(sys.timer, sys.now)
  }

  /** The timer runs exactly while the watcher believes Instagram is in front */
  predicate Synced(sys: System) {
    sys.timer.running == sys.watcher.instagramOpen
  }

  /** A just-created watcher and timer */
  function Initial(stored: Option<nat>, now: nat): (sys: System)
    ensures Valid(sys) && Synced(sys)
    ensures !sys.timer.running && !sys.watcher.instagramOpen && sys.now == now
    ensures T.Accounted(sys.timer, sys.now) == stored.GetOr(0)
  {
    System(W.Watcher(false), T.Fresh(stored), now)
  }

  /** Hands the commands to the timer in order; Lock does not concern it */
  function Deliver(t: T.Timer, cmds: seq<W.Command>, now: nat): (o: T.Outcome)
    requires T.ClockAfterStart(t, now)
    ensures T.ClockAfterStart(o.timer, now)
    ensures T.Accounted(o.timer, now) == T.Accounted(t, now)
    ensures W.TimerCommands(cmds) == [] ==> o.timer == t
    ensures W.TimerCommands(cmds) == [W.Start] ==> o.timer.running
    ensures W.TimerCommands(cmds) == [W.Stop] ==> !o.timer.running
    decreases |cmds|
  {
    if cmds == [] then T.Outcome(t, [])
    else
      var first :=
        match cmds[0]
        case Start => T.Start(t, now)
        case Stop => T.Stop(t, now)
        case Lock => T.Outcome(t, []);
      var rest := Deliver(first.timer, cmds[1..], now);
      T.Outcome(rest.timer, first.effects + rest.effects)
  }

  /** One input: the clock advances by its delay, then the event or tick is handled */
  function Step(sys: System, x: Timed, marker: string): (tr: Transition)
    requires Valid(sys)
    ensures Valid(tr.system)
    ensures tr.system.now == sys.now + x.delay
    ensures Synced(sys) ==> Synced(tr.system)
    ensures T.Accounted(tr.system.timer, tr.system.now)
         == T.Accounted(sys.timer, sys.now) + (if sys.timer.running then x.delay else 0)
  {
    var now := sys.now + x.delay;
    match x.input
    case Accessibility(e) =>
      var r := W.OnEvent(sys.watcher, e, marker);
      var o := Deliver(sys.timer, r.commands, now);
      Transition(System(r.watcher, o.timer, now), o.effects)
    case TickFires =>
      var o := T.Tick(sys.timer, now);
      Transition(System(sys.watcher, o.timer, now), o.effects)
  }

  function Run(sys: System, inputs: seq<Timed>, marker: string): (s: System)
    requires Valid(sys)
    ensures Valid(s)
    decreases |inputs|
  {
    if inputs == [] then sys
    else Run(Step(sys, inputs[0], marker).system, inputs[1..], marker)
  }

  /**
    Reference measure, from the watcher alone: the milliseconds during
    which the watcher's flag said Instagram was in front.
   */
  function WatchedTime(w: W.Watcher, inputs: seq<Timed>, marker: string): nat
    decreases |inputs|
  {
    if inputs == [] then 0
    else
      var next := match inputs[0].input
        case Accessibility(e) => W.OnEvent(w, e, marker).watcher
        case TickFires => w;
      (if w.instagramOpen then inputs[0].delay else 0) + WatchedTime(next, inputs[1..], marker)
  }

  /** The accessibility events among the inputs, in order */
  function Events(inputs: seq<Timed>): seq<W.Event>
    decreases |inputs|
  {
    if inputs == [] then []
    else (match inputs[0].input
          case Accessibility(e) => [e]
          case TickFires => []) + Events(inputs[1..])
  }

  /**
    After any inputs the timer still runs exactly while the watcher's flag
    is set, and the time accounted for has grown by exactly the time
    Instagram was in front.
   */
  lemma {:induction false} RunAccounts(sys: System, inputs: seq<Timed>, marker: string)
    requires Valid(sys) && Synced(sys)
    ensures var s := Run(sys, inputs, marker);
      && Synced(s)
      && T.Accounted(s.timer, s.now) == T.Accounted(sys.timer, sys.now) + WatchedTime(sys.watcher, inputs, marker)
    decreases |inputs|
  {
    if inputs != [] {
      RunAccounts(Step(sys, inputs[0], marker).system, inputs[1..], marker);
    }
  }

  /** The watcher inside the pipeline is the watcher run on the accessibility events alone */
  lemma {:induction false} RunWatcherAgrees(sys: System, inputs: seq<Timed>, marker: string)
    requires Valid(sys)
    ensures Run(sys, inputs, marker).watcher == W.Run(sys.watcher, Events(inputs), marker).watcher
    decreases |inputs|
  {
    if inputs != [] {
      var next := Step(sys, inputs[0], marker).system;
      RunWatcherAgrees(next, inputs[1..], marker);
      match inputs[0].input
      case Accessibility(e) =>
        assert Events(inputs) == [e] + Events(inputs[1..]);
      case TickFires =>
        assert Events(inputs) == Events(inputs[1..]);
    }
  }

  /**
    Starting from a fresh service, a tick after any inputs draws the
    overlay exactly when Instagram is in front, and what it draws is the
    saved total plus all the time Instagram has been in front, up to the
    tick. When Instagram is not in front, that same sum is what is saved.
   */
  lemma {:induction false} OverlayShowsWatchedTime(
    stored: Option<nat>, now0: nat, inputs: seq<Timed>, delay: nat, marker: string)
    ensures var s := Run(Initial(stored, now0), inputs, marker);
      var watched := WatchedTime(W.Watcher(false), inputs, marker);
      var tr := Step(s, Timed(delay, TickFires), marker);
      && s.timer.running == s.watcher.instagramOpen
      && (tr.effects != [] <==> s.watcher.instagramOpen)
      && (s.watcher.instagramOpen ==>
            tr.effects[0] == T.Show(Overlay.Render(stored.GetOr(0) + watched + delay)))
      && (!s.watcher.instagramOpen ==> s.timer.stored.GetOr(0) == stored.GetOr(0) + watched)
  {
    var sys0 := Initial(stored, now0);
    RunAccounts(sys0, inputs, marker);
    var s := Run(sys0, inputs, marker);
    var watched := WatchedTime(W.Watcher(false), inputs, marker);
    assert T.Accounted(s.timer, s.now) + delay == stored.GetOr(0) + watched + delay;
    TickShowsAccounted(s, delay, marker);
  }

  /** A tick draws exactly while the timer runs, and draws the time accounted for */
  lemma TickShowsAccounted(sys: System, delay: nat, marker: string)
    requires Valid(sys)
    ensures var tr := Step(sys, Timed(delay, TickFires), marker);
      && tr.system.timer == sys.timer
      && (tr.effects != [] <==> sys.timer.running)
      && (sys.timer.running ==>
            tr.effects[0] == T.Show(Overlay.Render(T.Accounted(sys.timer, sys.now) + delay)))
  {
    var now := sys.now + delay;
    var o := T.Tick(sys.timer, now);
    var tr := Step(sys, Timed(delay, TickFires), marker);
    assert tr == Transition(System(sys.watcher, o.timer, now), o.effects);
    if sys.timer.running {
      var total := T.Accounted(sys.timer, now);
      assert total == T.Accounted(sys.timer, sys.now) + delay;
      assert o.effects[0] == T.Show(Overlay.Render(total));
    }
  }
}
