/**
  What the timer overlay shows for a total of milliseconds: the
  hours/minutes/seconds split, the `HH:MM:SS` / `MM:SS` text and the
  colour tier (TimerService.updateTimerTextView).
 */
module Overlay {
  import opened Wrappers
  import opened Decimal

  const MILLIS_PER_SECOND: nat := 1000
  const MILLIS_PER_MINUTE: nat := 1000 * 60
  const MILLIS_PER_HOUR: nat := 1000 * 60 * 60

  datatype Clock = Clock(hours: nat, minutes: nat, seconds: nat)

  /** The first millisecond of the second a clock reading names */
  function Millis(c: Clock): nat {
    c.hours * MILLIS_PER_HOUR + c.minutes * MILLIS_PER_MINUTE + c.seconds * MILLIS_PER_SECOND
  }

  /** A well-formed reading: minutes and seconds are below sixty */
  predicate Normal(c: Clock) {
    c.minutes < 60 && c.seconds < 60
  }

  /** Integer division by the unit, then the remainder modulo sixty */
  function ClockOf(total: nat): (c: Clock)
    ensures Normal(c)
    ensures Millis(c) <= total < Millis(c) + MILLIS_PER_SECOND
  {
    ClockOfBounds(total);
    Clock(total / MILLIS_PER_HOUR, (total / MILLIS_PER_MINUTE) % 60, (total / MILLIS_PER_SECOND) % 60)
  }

  lemma DivModUnique(x: int, d: int, q: int, r: int)
    requires d > 0 && 0 <= r < d && x == q * d + r
    ensures x / d == q && x % d == r
  {
    var q', r' := x / d, x % d;
    assert x == q' * d + r';
    if q' < q {
      MulMono(q' + 1, q, d);
    } else if q < q' {
      MulMono(q + 1, q', d);
    }
  }

  lemma MulMono(a: int, b: int, d: int)
    requires a <= b && d >= 0
    ensures a * d <= b * d
  {
    var k := b - a;
    assert b * d == a * d + k * d;
  }

  /**
    The split at the three units, given the quotient and remainders a
    total decomposes into
   */
  lemma SplitAt(total: nat, h: nat, m: nat, sec: nat, ms: nat)
    requires m < 60 && sec < 60 && ms < MILLIS_PER_SECOND
    requires total == h * MILLIS_PER_HOUR + m * MILLIS_PER_MINUTE + sec * MILLIS_PER_SECOND + ms
    ensures total / MILLIS_PER_SECOND == h * 3600 + m * 60 + sec
    ensures total / MILLIS_PER_MINUTE == h * 60 + m
    ensures total / MILLIS_PER_HOUR == h
    ensures (total / MILLIS_PER_MINUTE) % 60 == m
    ensures (total / MILLIS_PER_SECOND) % 60 == sec
  {
    DivModUnique(total, MILLIS_PER_SECOND, h * 3600 + m * 60 + sec, ms);
    DivModUnique(total, MILLIS_PER_MINUTE, h * 60 + m, sec * MILLIS_PER_SECOND + ms);
    DivModUnique(total, MILLIS_PER_HOUR, h, m * MILLIS_PER_MINUTE + sec * MILLIS_PER_SECOND + ms);
    DivModUnique(h * 60 + m, 60, h, m);
    DivModUnique(h * 3600 + m * 60 + sec, 60, h * 60 + m, sec);
  }

  lemma ClockOfBounds(total: nat)
    ensures var c := Clock(total / MILLIS_PER_HOUR, (total / MILLIS_PER_MINUTE) % 60, (total / MILLIS_PER_SECOND) % 60);
      Normal(c) && Millis(c) <= total < Millis(c) + MILLIS_PER_SECOND
  {
    var h := total / MILLIS_PER_HOUR;
    var rh := total % MILLIS_PER_HOUR;
    var m := rh / MILLIS_PER_MINUTE;
    var rm := rh % MILLIS_PER_MINUTE;
    var sec := rm / MILLIS_PER_SECOND;
    var ms := rm % MILLIS_PER_SECOND;
    assert total == h * MILLIS_PER_HOUR + rh;
    assert rh == m * MILLIS_PER_MINUTE + rm;
    assert rm == sec * MILLIS_PER_SECOND + ms;
    SplitAt(total, h, m, sec, ms);
  }

  /** Any normal reading whose second contains `total` is `ClockOf(total)` */
  lemma {:induction false} ClockOfUnique(total: nat, c: Clock)
    requires Normal(c)
    requires Millis(c) <= total < Millis(c) + MILLIS_PER_SECOND
    ensures c == ClockOf(total)
  {
    SplitAt(total, c.hours, c.minutes, c.seconds, total - Millis(c));
  }

  /** More milliseconds never show fewer hours */
  lemma {:induction false} HoursMonotone(t1: nat, t2: nat)
    requires t1 <= t2
    ensures ClockOf(t1).hours <= ClockOf(t2).hours
  {
  }

  /** `HH:MM:SS` from one hour on, `MM:SS` below, each field `%02d` */
  function Text(c: Clock): string {
    if c.hours >= 1 then
      Pad2(c.hours) + ":" + Pad2(c.minutes) + ":" + Pad2(c.seconds)
    else
      Pad2(c.minutes) + ":" + Pad2(c.seconds)
  }

  datatype Colour = White | Yellow | Orange | Red

  /** Position of a colour in the warning order */
  function Rank(colour: Colour): nat {
    match colour
    case White => 0
    case Yellow => 1
    case Orange => 2
    case Red => 3
  }

  /** The colour tier for a number of hours */
  function Tier(hours: nat): (colour: Colour)
    ensures colour == Red <==> hours >= 3
    ensures colour == Orange <==> hours == 2
    ensures colour == Yellow <==> hours == 1
    ensures colour == White <==> hours == 0
    ensures Rank(colour) == if hours < 3 then hours else 3
  {
    if hours >= 3 then Red
    else if hours >= 2 then Orange
    else if hours >= 1 then Yellow
    else White
  }

  datatype View = View(text: string, colour: Colour)

  /** What the overlay shows for `total` milliseconds */
  function Render(total: nat): (v: View)
  {
    var c := ClockOf(total);
    View(Text(c), Tier(c.hours))
  }

  /** The warning colour never goes down as the total grows */
  lemma {:induction false} TierMonotone(t1: nat, t2: nat)
    requires t1 <= t2
    ensures Rank(Render(t1).colour) <= Rank(Render(t2).colour)
  {
    HoursMonotone(t1, t2);
  }

  /* ---------- reading the text back ---------- */

  predicate NoColon(s: string) {
    forall i :: 0 <= i < |s| ==> s[i] != ':'
  }

  /** The pieces of `s` between ':' separators */
  function Fields(s: string): (fs: seq<string>)
    ensures |fs| >= 1
    decreases |s|
  {
    if s == [] then [""]
    else if s[0] == ':' then [""] + Fields(s[1..])
    else
      var rest := Fields(s[1..]);
      [[s[0]] + rest[0]] + rest[1..]
  }

  lemma {:induction false} FieldsSingle(a: string)
    requires NoColon(a)
    ensures Fields(a) == [a]
    decreases |a|
  {
    if a != [] {
      FieldsSingle(a[1..]);
      assert [a[0]] + a[1..] == a;
    }
  }

  lemma {:induction false} FieldsCons(a: string, b: string)
    requires NoColon(a)
    ensures Fields(a + ":" + b) == [a] + Fields(b)
    decreases |a|
  {
    var s := a + ":" + b;
    if a == [] {
      assert s[1..] == b;
    } else {
      assert s[1..] == a[1..] + ":" + b;
      FieldsCons(a[1..], b);
      assert [a[0]] + a[1..] == a;
    }
  }

  lemma DigitsNoColon(s: string)
    requires AllDigits(s)
    ensures NoColon(s)
  {
  }

  /** Reads `HH:MM:SS` or `MM:SS` text back into a clock reading */
  function ParseClock(text: string): Option<Clock> {
    var fs := Fields(text);
    if |fs| == 3 && AllDigits(fs[0]) && AllDigits(fs[1]) && AllDigits(fs[2]) then
      Some(Clock(Value(fs[0]), Value(fs[1]), Value(fs[2])))
    else if |fs| == 2 && AllDigits(fs[0]) && AllDigits(fs[1]) then
      Some(Clock(0, Value(fs[0]), Value(fs[1])))
    else
      None
  }

  /**
    The text has three fields exactly when at least one hour is shown,
    two otherwise; every field is the `%02d` form of its number.
   */
  lemma {:induction false} TextFields(c: Clock)
    ensures var fs := Fields(Text(c));
      && (|fs| == 3 <==> c.hours >= 1)
      && (|fs| == 2 <==> c.hours == 0)
      && (c.hours >= 1 ==> fs == [Pad2(c.hours), Pad2(c.minutes), Pad2(c.seconds)])
      && (c.hours == 0 ==> fs == [Pad2(c.minutes), Pad2(c.seconds)])
  {
    var h, m, s := Pad2(c.hours), Pad2(c.minutes), Pad2(c.seconds);
    DigitsNoColon(h);
    DigitsNoColon(m);
    DigitsNoColon(s);
    FieldsSingle(s);
    FieldsCons(m, s);
    if c.hours >= 1 {
      assert Text(c) == h + ":" + (m + ":" + s);
      FieldsCons(h, m + ":" + s);
    }
  }

  /** The text determines the clock reading it was made from */
  lemma {:induction false} TextRoundTrip(c: Clock)
    ensures ParseClock(Text(c)) == Some(c)
  {
    TextFields(c);
  }

  /** The overlay text for a total determines the total's whole seconds */
  lemma {:induction false} RenderRoundTrip(total: nat)
    ensures ParseClock(Render(total).text).Some?
    ensures var c := ParseClock(Render(total).text).value;
      Normal(c) && Millis(c) <= total < Millis(c) + MILLIS_PER_SECOND
  {
    TextRoundTrip(ClockOf(total));
  }

  /** 65 seconds shows as "01:05" in white */
  lemma Example65Seconds()
    ensures Render(65000) == View("01:05", White)
  {
    assert ClockOf(65000) == Clock(0, 1, 5);
  }

  /** One hour, two minutes and five seconds show as "01:02:05" in yellow */
  lemma Example1h2m5s()
    ensures Render(3725000) == View("01:02:05", Yellow)
  {
    assert ClockOf(3725000) == Clock(1, 2, 5);
  }
}
