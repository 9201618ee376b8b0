/**
  The overlay timer's session logic (TimerService): start, stop and the
  once-a-second tick, as pure steps over an explicit clock reading `now`
  (milliseconds of the monotonic clock). The persisted total
  `instagramTimeSpent` is a nullable field of the state; the Handler
  queue and the preference writes appear as effects.
 */
module TimerService {
  import opened Wrappers
  import Overlay

  datatype Timer = Timer(running: bool, startTime: nat, stored: Option<nat>)

  datatype Effect =
    | PostTick           // a tick is queued on the Handler
    | CancelTick         // pending ticks are removed from the Handler
    | Store(total: nat)  // instagramTimeSpent is written
    | Show(view: Overlay.View)

  datatype Outcome = Outcome(timer: Timer, effects: seq<Effect>)

  /** A service just created: not running, start time 0, whatever total was saved */
  function Fresh(stored: Option<nat>): Timer {
    Timer(false, 0, stored)
  }

  /**
    The monotonic clock never reads earlier than a start time it handed
    out: while a session runs, `now` is at or after its start.
   */
  predicate ClockAfterStart(t: Timer, now: nat) {
    t.running ==> t.startTime <= now
  }

  /** The values of every write to the persisted total, in order */
  function Stores(effects: seq<Effect>): (totals: seq<nat>)
    ensures |totals| <= |effects|
  {
    if effects == [] then []
    else (if effects[0].Store? then [effects[0].total] else []) + Stores(effects[1..])
  }

  lemma {:induction false} StoresAppend(a: seq<Effect>, b: seq<Effect>)
    ensures Stores(a + b) == Stores(a) + Stores(b)
    decreases |a|
  {
    if a == [] {
      assert a + b == b;
    } else {
      var head := if a[0].Store? then [a[0].total] else [];
      assert (a + b)[0] == a[0];
      assert (a + b)[1..] == a[1..] + b;
      assert Stores(a + b) == head + Stores(a[1..] + b);
      StoresAppend(a[1..], b);
      assert Stores(a) == head + Stores(a[1..]);
      assert head + (Stores(a[1..]) + Stores(b)) == (head + Stores(a[1..])) + Stores(b);
    }
  }

  /**
    Milliseconds accounted for at `now`: the persisted total (absent reads
    as 0) plus, while running, the current session's elapsed time. While
    running this is the total the overlay shows.
   */
  function Accounted(t: Timer, now: nat): nat
    requires ClockAfterStart(t, now)
  {
    t.stored.GetOr(0) + (if t.running then now - t.startTime else 0)
  }

  /** startTimer: begin a session unless one is already running */
  function Start(t: Timer, now: nat): (o: Outcome)
    ensures o.timer.running
    ensures o.timer.stored == t.stored
    ensures Stores(o.effects) == []
    ensures t.running ==> o.timer == t && o.effects == []
    ensures !t.running ==> o.timer.startTime == now && o.effects == [PostTick]
    ensures ClockAfterStart(t, now) ==> Accounted(o.timer, now) == Accounted(t, now)
  {
    if !t.running then
      Outcome(Timer(true, now, t.stored), [PostTick])
    else
      Outcome(t, [])
  }

  /** stopTimer: end the running session and add its length to the persisted total */
  function Stop(t: Timer, now: nat): (o: Outcome)
    requires ClockAfterStart(t, now)
    ensures !o.timer.running
    ensures !t.running ==> o.timer == t && o.effects == []
    ensures t.running ==> o.timer.startTime == t.startTime
    ensures t.running ==> o.timer.stored == Some(t.stored.GetOr(0) + (now - t.startTime))
    ensures t.running ==> Stores(o.effects) == [t.stored.GetOr(0) + (now - t.startTime)]
    ensures t.running ==> CancelTick in o.effects && PostTick !in o.effects
    ensures Accounted(o.timer, now) == Accounted(t, now)
  {
    if t.running then
      var total := t.stored.GetOr(0) + (now - t.startTime);
      Outcome(Timer(false, t.startTime, Some(total)), [CancelTick, Store(total)])
    else
      Outcome(t, [])
  }

  /** timerRunnable.run: while running, redraw the overlay and queue the next tick */
  function Tick(t: Timer, now: nat): (o: Outcome)
    requires ClockAfterStart(t, now)
    ensures o.timer == t
    ensures Stores(o.effects) == []
    ensures o.effects != [] <==> t.running
    ensures t.running ==> o.effects == [Show(Overlay.Render(Accounted(t, now))), PostTick]
  {
    if t.running then
      Outcome(t, [Show(Overlay.Render(Accounted(t, now))), PostTick])
    else
      Outcome(t, [])
  }

  /** Starting twice queues one tick loop: the second start changes nothing */
  lemma {:induction false} StartIdempotent(t: Timer, t0: nat, t1: nat)
    ensures var o := Start(t, t0);
      Start(o.timer, t1) == Outcome(o.timer, [])
  {
  }

  /**
    A session started at `t0` and stopped at `t1` adds exactly `t1 - t0`
    to the persisted total, written once; a repeated start in between
    changes nothing.
   */
  lemma {:induction false} StartStopAccumulates(t: Timer, t0: nat, tr: nat, t1: nat)
    requires !t.running && t0 <= tr <= t1
    ensures var o1 := Start(t, t0);
      var o2 := Start(o1.timer, tr);
      var o3 := Stop(o2.timer, t1);
      && !o3.timer.running
      && o3.timer.stored == Some(t.stored.GetOr(0) + (t1 - t0))
      && Stores(o1.effects + o2.effects + o3.effects) == [t.stored.GetOr(0) + (t1 - t0)]
  {
    var o1 := Start(t, t0);
    var o2 := Start(o1.timer, tr);
    var o3 := Stop(o2.timer, t1);
    StoresAppend(o1.effects, o2.effects);
    StoresAppend(o1.effects + o2.effects, o3.effects);
  }

  /**
    Ticks never write the total, and while a session runs the total
    they show, and its colour tier, never decrease as the clock advances.
   */
  lemma {:induction false} TicksNondecreasing(t: Timer, n1: nat, n2: nat)
    requires t.running && t.startTime <= n1 <= n2
    ensures Tick(t, n1).timer == t
    ensures Accounted(t, n1) <= Accounted(t, n2)
    ensures Overlay.Rank(Overlay.Render(Accounted(t, n1)).colour)
         <= Overlay.Rank(Overlay.Render(Accounted(t, n2)).colour)
  {
    Overlay.TierMonotone(Accounted(t, n1), Accounted(t, n2));
  }
}
