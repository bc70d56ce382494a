/** The countdown that runs inside each overlay, timerend.js.

    The overlay renders a count of seconds, decrements it once per second,
    lets a click or key press end the break once the first second has
    passed, and sends 'timer-complete' to the main process when the count
    runs out. Its interval is never cleared, so once the count reaches zero
    every later tick sends the message again. */
module TimerEnd {

  /** Length of a break, in seconds. */
  const TimerSeconds: int := 20

  /** Period of the countdown interval, in milliseconds. */
  const UpdateIntervalMs: int := 1000

  const MsPerSecond: int := 1000

  datatype Countdown = Countdown(
    remainingMs: int,   // the `timerMilliseconds` global
    shown: real,        // the number last written into the page
    inputArmed: bool,   // the click and keydown listeners are installed
    sent: nat           // 'timer-complete' messages sent so far
  )

  /** The script's start: twenty seconds left, "20" rendered, no listeners,
      nothing sent. */
  function Init(): (r: Countdown)
    ensures r.remainingMs == 20000 && r.shown == 20.0
    ensures !r.inputArmed && r.sent == 0
  {
    Countdown(TimerSeconds * MsPerSecond, TimerSeconds as real, false, 0)
  }

  /** `timerComplete`: send one 'timer-complete' message. */
  function Complete(c: Countdown): (r: Countdown)
    ensures r.sent == c.sent + 1
    ensures r.(sent := c.sent) == c
  {
    c.(sent := c.sent + 1)
  }

  /** `timerUpdate`, one firing of the countdown interval. While time is
      left it renders the remaining seconds (a floating-point quotient) and
      installs the input listeners once fewer than twenty seconds remain;
      otherwise it completes. */
  function Update(c: Countdown): (r: Countdown)
    ensures r.remainingMs == c.remainingMs - UpdateIntervalMs
    ensures r.remainingMs > 0 ==> r.shown * MsPerSecond as real == r.remainingMs as real
    ensures r.remainingMs > 0 ==> r.sent == c.sent
    ensures r.remainingMs > 0 ==> (r.inputArmed <==> c.inputArmed || r.shown < TimerSeconds as real)
    ensures r.remainingMs <= 0 ==> r.sent == c.sent + 1 && r.shown == c.shown && r.inputArmed == c.inputArmed
  {
    var ms := c.remainingMs - UpdateIntervalMs;
    if ms > 0 then
      var seconds := ms as real / MsPerSecond as real;
      c.(remainingMs := ms, shown := seconds,
         inputArmed := c.inputArmed || seconds < TimerSeconds as real)
    else
      Complete(c.(remainingMs := ms))
  }

  /** A click or key press reaches the page. The same listener is added on
      every tick, which the page keeps once, so one input sends at most one
      message; before the listeners exist, input does nothing. */
  function Input(c: Countdown): (r: Countdown)
    ensures r.sent == if c.inputArmed then c.sent + 1 else c.sent
    ensures r.(sent := c.sent) == c
  {
    if c.inputArmed then Complete(c) else c
  }

  /** What the overlay's page can receive. Mouse moves have no listener. */
  datatype Event = Tick | Click | KeyDown | MouseMove

  function Step(c: Countdown, e: Event): Countdown {
    match e
    case Tick => Update(c)
    case Click => Input(c)
    case KeyDown => Input(c)
    case MouseMove => c
  }

  /** The state after `es`, in order, starting from `c`. */
  function Run(c: Countdown, es: seq<Event>): Countdown
    decreases |es|
  {
    if es == [] then c else Step(Run(c, es[..|es| - 1]), es[|es| - 1])
  }

  /** The number of countdown ticks in `es`. */
  function Ticks(es: seq<Event>): (n: nat)
    ensures n == 0 <==> forall i :: 0 <= i < |es| ==> !es[i].Tick?
    decreases |es|
  {
    if es == [] then 0
    else Ticks(es[..|es| - 1]) + (if es[|es| - 1].Tick? then 1 else 0)
  }

  /** The number rendered after `t` ticks: the whole seconds left while
      any are left, and the last one rendered, 1, after that. */
  function ShownAfter(t: nat): real {
    if t < TimerSeconds then (TimerSeconds - t) as real else 1.0
  }

  /** When a message is sent, stated per event rather than per state: a
      tick sends exactly when it is the twentieth tick or a later one, and
      a click or key press sends exactly when at least one tick came
      before it. */
  function ExpectedSent(es: seq<Event>): nat
    decreases |es|
  {
    if es == [] then 0
    else
      var front := es[..|es| - 1];
      var e := es[|es| - 1];
      var sends :=
        if e.Tick? then Ticks(front) + 1 >= TimerSeconds
        else if e.Click? || e.KeyDown? then Ticks(front) >= 1
        else false;
      ExpectedSent(front) + (if sends then 1 else 0)
  }

  /** The countdown after `t` ticks and `sent` messages. */
  function AfterTicks(t: nat, sent: nat): Countdown {
    Countdown(TimerSeconds * MsPerSecond - t * UpdateIntervalMs, ShownAfter(t), t >= 1, sent)
  }

  /** One tick from the closed form of `t` ticks is the closed form of
      `t + 1` ticks; it sends exactly when `t + 1` reaches twenty. */
  lemma UpdateAfterTicks(t: nat, sent: nat)
    ensures Update(AfterTicks(t, sent))
         == AfterTicks(t + 1, if t + 1 >= TimerSeconds then sent + 1 else sent)
  {
    var ms := TimerSeconds * MsPerSecond - (t + 1) * UpdateIntervalMs;
    if t + 1 < TimerSeconds {
      assert ms > 0;
      assert ms as real / MsPerSecond as real == (TimerSeconds - (t + 1)) as real;
    } else {
      assert ms <= 0;
    }
  }

  /** From the start, any interleaving of ticks and input leaves the
      countdown in the closed form of its tick count, having sent exactly
      the messages the per-event description predicts. */
  lemma {:induction false} RunFromInit(es: seq<Event>)
    ensures Run(Init(), es) == AfterTicks(Ticks(es), ExpectedSent(es))
    decreases |es|
  {
    if es != [] {
      var front := es[..|es| - 1];
      RunFromInit(front);
      var e := es[|es| - 1];
      match e
      case Tick => UpdateAfterTicks(Ticks(front), ExpectedSent(front));
      case Click =>
      case KeyDown =>
      case MouseMove =>
    }
  }

  /** The countdown starts at 20 x 1000 ms and each tick takes exactly
      1000 ms off it, whatever input arrives in between. */
  lemma RemainingAfter(es: seq<Event>)
    ensures Init().remainingMs == 20000
    ensures Run(Init(), es).remainingMs == 20000 - 1000 * Ticks(es)
  {
    RunFromInit(es);
  }

  /** While time is left, the number rendered is a whole number of seconds
      from 19 down to 1, and each tick renders a smaller one than the last. */
  lemma ShownWhileCounting(es: seq<Event>)
    requires 1 <= Ticks(es) && Run(Init(), es).remainingMs > 0
    ensures var c := Run(Init(), es);
      && c.shown == (20 - Ticks(es)) as real
      && 1.0 <= c.shown <= 19.0
      && c.shown * 1000.0 == c.remainingMs as real
      && (Update(c).remainingMs > 0 ==> Update(c).shown < c.shown)
  {
    RunFromInit(es);
    UpdateAfterTicks(Ticks(es), ExpectedSent(es));
  }

  /** With no input, nothing is sent on ticks 1 to 19, the first message
      goes on tick 20, when the remaining time reaches 0, and every tick
      after that sends one more: `k` ticks send `k - 19` messages. */
  lemma {:induction false} TicksOnly(k: nat)
    ensures var c := Run(Init(), seq(k, _ => Tick));
      && (k < 20 ==> c.sent == 0 && c.remainingMs > 0)
      && (k == 20 ==> c.sent == 1 && c.remainingMs == 0)
      && (k >= 20 ==> c.sent == k - 19)
    decreases k
  {
    if k > 0 {
      var es := seq(k, _ => Tick);
      assert es[..k - 1] == seq(k - 1, _ => Tick);
      TicksOnly(k - 1);
      TicksOnlyCount(k);
      TicksOnlyCount(k - 1);
      RunFromInit(es);
      RunFromInit(es[..k - 1]);
    }
  }

  lemma {:induction false} TicksOnlyCount(k: nat)
    ensures Ticks(seq(k, _ => Tick)) == k
    decreases k
  {
    if k > 0 {
      var es := seq(k, _ => Tick);
      assert es[..k - 1] == seq(k - 1, _ => Tick);
      TicksOnlyCount(k - 1);
    }
  }

  /** Input before the first tick finds no listener and sends nothing. */
  lemma {:induction false} InputBeforeFirstTick(es: seq<Event>)
    requires Ticks(es) == 0
    ensures Run(Init(), es) == Init()
  {
    RunFromInit(es);
    NoTickNoSend(es);
  }

  lemma {:induction false} NoTickNoSend(es: seq<Event>)
    requires Ticks(es) == 0
    ensures ExpectedSent(es) == 0
    decreases |es|
  {
    if es != [] {
      NoTickNoSend(es[..|es| - 1]);
    }
  }

  /** Once a tick has passed, every click or key press sends a message, and
      once the count has run out every tick sends one: nothing bounds the
      number of messages one overlay sends. */
  lemma SendsAfterFirstTick(es: seq<Event>, e: Event)
    requires Ticks(es) >= 1
    ensures e.Click? || e.KeyDown? ==> Step(Run(Init(), es), e).sent == Run(Init(), es).sent + 1
    ensures e.Tick? && Ticks(es) >= 19 ==> Step(Run(Init(), es), e).sent == Run(Init(), es).sent + 1
  {
    RunFromInit(es);
  }
}
