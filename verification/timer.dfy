/** The break scheduler and overlay controller of timer.js.

    The controller's module globals (`timerInterval`, `timerWindow`,
    `timerPeriod`) are paired with the runtime resources they refer to: the
    intervals the event loop will fire and the overlay windows the toolkit
    has open. Every Electron call is an abstract effect on those resources,
    and every callback the event loop can dispatch is an `Event`. */
module Timer {
  import opened Optional

  /** Interval between breaks, in milliseconds: twenty minutes. */
  const PeriodDefaultMs: nat := 20 * 60 * 1000

  /** The handle `setInterval` returns. */
  type IntervalId = nat

  /** One overlay `BrowserWindow`. */
  type WindowId = nat

  datatype Controller = Controller(
    interval: Option<IntervalId>,   // the `timerInterval` global
    period: nat,                    // the `timerPeriod` global
    armed: map<IntervalId, nat>,    // intervals the event loop fires, with their period
    window: Option<WindowId>,       // the `timerWindow` global
    open: set<WindowId>,            // overlays the toolkit has open
    completionHandlers: nat,        // 'timer-complete' listeners registered on the main process
    intervalsCreated: nat,          // `setInterval` calls so far; the next handle
    windowsCreated: nat             // overlays constructed so far; the next window id
  )

  /** The state when the module is first loaded: no interval handle, no
      overlay, the default period, and nothing registered yet. */
  function Init(): (r: Controller)
    ensures r.interval.None? && r.armed == map[]
    ensures r.window.None? && r.open == {}
    ensures r.period == 1200000
    ensures r.completionHandlers == 0
  {
    Controller(None, PeriodDefaultMs, map[], None, {}, 0, 0, 0)
  }

  /** The periodic trigger and its bookkeeping are the same in `s` and `r`. */
  predicate SchedulingUnchanged(s: Controller, r: Controller) {
    && r.interval == s.interval
    && r.period == s.period
    && r.armed == s.armed
    && r.intervalsCreated == s.intervalsCreated
  }

  /** The overlay and its listeners are the same in `s` and `r`. */
  predicate OverlayUnchanged(s: Controller, r: Controller) {
    && r.window == s.window
    && r.open == s.open
    && r.completionHandlers == s.completionHandlers
    && r.windowsCreated == s.windowsCreated
  }

  /** `timerIsEnabled`: true exactly when the interval handle is set. */
  function IsEnabled(s: Controller): (r: bool)
    ensures r <==> s.interval.Some?
  {
    match s.interval
    case Some(_) => true
    case None => false
  }

  /** The globals agree with the runtime: the handle names the one armed
      interval, armed at the stored period; the overlay reference names the
      one open overlay, one already constructed; and each overlay ever
      constructed registered one completion listener. */
  ghost predicate Inv(s: Controller) {
    && s.period == PeriodDefaultMs
    && s.armed.Keys == Elements(s.interval)
    && (forall h :: h in s.armed ==> s.armed[h] == s.period)
    && s.open == Elements(s.window)
    && (s.window.Some? ==> s.window.value < s.windowsCreated)
    && s.completionHandlers == s.windowsCreated
  }

  /** `timerDestroyWindow`: close the referenced overlay, if any, and clear
      the reference. This is the only path that closes an overlay. */
  function DestroyWindow(s: Controller): (r: Controller)
    ensures r.window.None?
    ensures r.open == s.open - Elements(s.window)
    ensures s.window.None? ==> r == s
    ensures SchedulingUnchanged(s, r)
    ensures r.completionHandlers == s.completionHandlers && r.windowsCreated == s.windowsCreated
  {
    match s.window
    case None => s
    case Some(w) => s.(window := None, open := s.open - {w})
  }

  /** The guard makes destroying twice the same as destroying once. */
  lemma DestroyWindowIdempotent(s: Controller)
    ensures DestroyWindow(DestroyWindow(s)) == DestroyWindow(s)
  {
  }

  /** The `clearInterval` half of `timerStop`. */
  function ClearInterval(s: Controller): (r: Controller)
    ensures r.interval.None?
    ensures r.armed.Keys == s.armed.Keys - Elements(s.interval)
    ensures forall h :: h in r.armed ==> r.armed[h] == s.armed[h]
    ensures s.interval.None? ==> r == s
    ensures OverlayUnchanged(s, r)
  {
    match s.interval
    case None => s
    case Some(h) => s.(interval := None, armed := s.armed - {h})
  }

  /** `timerStop`: disarm the referenced interval and destroy any overlay. */
  function Stop(s: Controller): (r: Controller)
    ensures !IsEnabled(r)
    ensures r.window.None?
    ensures r.armed.Keys == s.armed.Keys - Elements(s.interval)
    ensures r.open == s.open - Elements(s.window)
    ensures !IsEnabled(s) && s.window.None? ==> r == s
    ensures r.completionHandlers == s.completionHandlers
  {
    DestroyWindow(ClearInterval(s))
  }

  /** `timerStart`: stop, then arm one new interval at the stored period. */
  function Start(s: Controller): (r: Controller)
    ensures IsEnabled(r)
    ensures r.window.None?
    ensures r.armed.Keys == (s.armed.Keys - Elements(s.interval)) + {s.intervalsCreated}
    ensures r.armed[s.intervalsCreated] == s.period
    ensures r.open == s.open - Elements(s.window)
    ensures r.period == s.period
    ensures r.completionHandlers == s.completionHandlers
  {
    var t := Stop(s);
    var h := t.intervalsCreated;
    t.(interval := Some(h), armed := t.armed[h := t.period], intervalsCreated := h + 1)
  }

  /** `timerTimeoutHandler`: destroy any leftover overlay, then construct a
      new one and register its 'closed' and 'timer-complete' listeners.
      `created` is false when construction yields no window, the early
      return after the constructor. */
  function Tick(s: Controller, created: bool): (r: Controller)
    ensures SchedulingUnchanged(s, r)
    ensures created ==> r.window == Some(s.windowsCreated)
    ensures created ==> r.open == (s.open - Elements(s.window)) + {s.windowsCreated}
    ensures created ==> r.completionHandlers == s.completionHandlers + 1
    ensures created ==> r.windowsCreated == s.windowsCreated + 1
    ensures !created ==> r == DestroyWindow(s)
  {
    var t := DestroyWindow(s);
    if created then
      var w := t.windowsCreated;
      t.(window := Some(w), open := t.open + {w},
         windowsCreated := w + 1, completionHandlers := t.completionHandlers + 1)
    else
      t
  }

  /** Fire `n` 'timer-complete' listeners in turn; each one calls
      `DestroyWindow`. */
  function FireCompletionHandlers(s: Controller, n: nat): (r: Controller)
    ensures n == 0 ==> r == s
    ensures n > 0 ==> r == DestroyWindow(s)
    decreases n
  {
    if n == 0 then s
    else
      DestroyWindowIdempotent(s);
      FireCompletionHandlers(DestroyWindow(s), n - 1)
  }

  /** A 'timer-complete' message reaches the main process. It carries no
      sender, so every listener ever registered fires and destroys whatever
      overlay is live now. */
  function Complete(s: Controller): (r: Controller)
    ensures s.completionHandlers > 0 ==> r == DestroyWindow(s)
    ensures s.completionHandlers > 0 ==> r.window.None? && r.open == s.open - Elements(s.window)
    ensures s.window.None? || s.completionHandlers == 0 ==> r == s
    ensures r.completionHandlers == s.completionHandlers && r.windowsCreated == s.windowsCreated
    ensures SchedulingUnchanged(s, r)
  {
    FireCompletionHandlers(s, s.completionHandlers)
  }

  /** Once the controller is consistent, any 'timer-complete' leaves no
      overlay live, whichever overlay sent it, and one arriving when none is
      live changes nothing. */
  lemma CompleteClosesOverlay(s: Controller)
    requires Inv(s)
    ensures Complete(s).window.None? && Complete(s).open == {}
    ensures s.window.None? ==> Complete(s) == s
  {
  }

  /** The toolkit reports overlay `w` closed by other means; its 'closed'
      listener clears the reference without looking at which window it was
      registered on. A window that is not open cannot close. */
  function Closed(s: Controller, w: WindowId): (r: Controller)
    ensures w in s.open ==> r.window.None? && r.open == s.open - {w}
    ensures w !in s.open ==> r == s
    ensures SchedulingUnchanged(s, r)
    ensures r.completionHandlers == s.completionHandlers && r.windowsCreated == s.windowsCreated
  {
    if w in s.open then s.(window := None, open := s.open - {w}) else s
  }

  /** Everything the event loop can dispatch to the controller. `Fire` is one
      firing of interval `id`; it runs the tick handler only while `id` is
      armed. */
  datatype Event =
    | StartCall
    | StopCall
    | Fire(id: IntervalId, created: bool)
    | CompleteMessage
    | WindowClosed(w: WindowId)

  function Step(s: Controller, e: Event): Controller {
    match e
    case StartCall => Start(s)
    case StopCall => Stop(s)
    case Fire(id, created) => if id in s.armed then Tick(s, created) else s
    case CompleteMessage => Complete(s)
    case WindowClosed(w) => Closed(s, w)
  }

  /** The state after dispatching `es` in order, starting from `s`. */
  function Run(s: Controller, es: seq<Event>): Controller
    decreases |es|
  {
    if es == [] then s else Step(Run(s, es[..|es| - 1]), es[|es| - 1])
  }

  /** No event removes a 'timer-complete' listener: the count only grows,
      by one for each overlay a tick constructs. */
  lemma StepKeepsListeners(s: Controller, e: Event)
    ensures Step(s, e).completionHandlers >= s.completionHandlers
    ensures Step(s, e).completionHandlers - s.completionHandlers
         == Step(s, e).windowsCreated - s.windowsCreated
  {
  }

  lemma {:induction false} RunKeepsListeners(s: Controller, es: seq<Event>)
    ensures Run(s, es).completionHandlers >= s.completionHandlers
    ensures Run(s, es).completionHandlers - s.completionHandlers
         == Run(s, es).windowsCreated - s.windowsCreated
    decreases |es|
  {
    if es != [] {
      RunKeepsListeners(s, es[..|es| - 1]);
      StepKeepsListeners(Run(s, es[..|es| - 1]), es[|es| - 1]);
    }
  }

  lemma InitInv()
    ensures Inv(Init())
    ensures !IsEnabled(Init()) && Init().open == {}
  {
  }

  lemma StopInv(s: Controller)
    requires Inv(s)
    ensures Inv(Stop(s))
  {
  }

  lemma StartInv(s: Controller)
    requires Inv(s)
    ensures Inv(Start(s))
  {
    StopInv(s);
  }

  lemma TickInv(s: Controller, created: bool)
    requires Inv(s)
    ensures Inv(Tick(s, created))
  {
  }

  /** Every event keeps the globals in agreement with the runtime. */
  lemma StepInv(s: Controller, e: Event)
    requires Inv(s)
    ensures Inv(Step(s, e))
  {
    match e
    case StartCall => StartInv(s);
    case StopCall => StopInv(s);
    case Fire(id, created) => TickInv(s, created);
    case CompleteMessage => CompleteClosesOverlay(s);
    case WindowClosed(w) =>
  }

  lemma {:induction false} RunInv(s: Controller, es: seq<Event>)
    requires Inv(s)
    ensures Inv(Run(s, es))
    decreases |es|
  {
    if es != [] {
      RunInv(s, es[..|es| - 1]);
      StepInv(Run(s, es[..|es| - 1]), es[|es| - 1]);
    }
  }

  /** After any sequence of calls, ticks, completions and closures from
      start-up: at most one interval is armed, at most one overlay is open,
      the controller reports itself enabled exactly when an interval is
      armed, and that interval fires every twenty minutes. */
  lemma Reachable(es: seq<Event>)
    ensures var r := Run(Init(), es);
      && |r.armed| <= 1
      && |r.open| <= 1
      && (IsEnabled(r) <==> |r.armed| == 1)
      && (forall h :: h in r.armed ==> r.armed[h] == PeriodDefaultMs)
  {
    InitInv();
    RunInv(Init(), es);
    var r := Run(Init(), es);
    assert |r.armed| == |r.armed.Keys|;
  }

  /** `start` called `n >= 1` times in a row leaves exactly one armed
      interval, not `n`. */
  lemma {:induction false} RepeatedStart(s: Controller, n: nat)
    requires Inv(s)
    requires n >= 1
    ensures var r := Run(s, seq(n, _ => StartCall));
      IsEnabled(r) && |r.armed| == 1 && r.window.None?
    decreases n
  {
    var es := seq(n, _ => StartCall);
    assert es[..n - 1] == seq(n - 1, _ => StartCall);
    RunInv(s, es[..n - 1]);
    var t := Run(s, es[..n - 1]);
    var r := Start(t);
    StepInv(t, StartCall);
    assert r.armed.Keys == {r.interval.value};
  }

  /** `stop` is idempotent: a second call changes nothing. */
  lemma StopIdempotent(s: Controller)
    ensures Stop(Stop(s)) == Stop(s)
  {
  }

  /** After `stop`, nothing brings an overlay back until the next `start`:
      no interval is armed, so no tick fires. */
  lemma {:induction false} NoOverlayUntilStart(s: Controller, es: seq<Event>)
    requires Inv(s)
    requires forall i :: 0 <= i < |es| ==> !es[i].StartCall?
    ensures var r := Run(Stop(s), es);
      !IsEnabled(r) && r.armed == map[] && r.window.None? && r.open == {}
    decreases |es|
  {
    StepInv(s, StopCall);
    if es != [] {
      var front := es[..|es| - 1];
      NoOverlayUntilStart(s, front);
      var t := Run(Stop(s), front);
      var e := es[|es| - 1];
      assert !e.StartCall?;
      match e
      case StopCall =>
      case Fire(id, created) =>
      case CompleteMessage =>
      case WindowClosed(w) =>
    }
  }

  /** Ticks leave the schedule alone: the same interval stays armed at the
      default period, whichever overlay events come between two `start`s. */
  lemma {:induction false} TicksKeepSchedule(s: Controller, es: seq<Event>)
    requires Inv(s) && IsEnabled(s)
    requires forall i :: 0 <= i < |es| ==> es[i].Fire? || es[i].CompleteMessage? || es[i].WindowClosed?
    ensures SchedulingUnchanged(s, Run(s, es))
    ensures Run(s, es).armed == map[s.interval.value := PeriodDefaultMs]
    decreases |es|
  {
    assert s.armed.Keys == {s.interval.value};
    if es != [] {
      TicksKeepSchedule(s, es[..|es| - 1]);
      var e := es[|es| - 1];
      assert e.Fire? || e.CompleteMessage? || e.WindowClosed?;
    }
  }

  /** Each successful tick adds one completion listener and none is ever
      removed; a completion then fires them all, which has the effect of
      one destroy. */
  lemma CompletionAfterTicks(s: Controller, created: bool)
    requires Inv(s)
    ensures var t := Tick(s, created);
      && t.completionHandlers >= s.completionHandlers
      && Complete(t) == (if t.completionHandlers > 0 then DestroyWindow(t) else t)
      && (created ==> Complete(t).window.None? && Complete(t).open == {})
  {
  }

  /** The scenario of one enabled period: `start`, then the interval fires
      twice. Exactly two overlays are constructed in all, the first one is
      closed by the second tick, and one is live at the end. */
  lemma TwoPeriods(s: Controller)
    requires Inv(s)
    ensures var h := s.intervalsCreated;
      var r := Step(Step(Step(s, StartCall), Fire(h, true)), Fire(h, true));
      && r.windowsCreated == s.windowsCreated + 2
      && r.window == Some(s.windowsCreated + 1)
      && r.open == {s.windowsCreated + 1}
      && IsEnabled(r)
  {
    var a := Start(s);
    StepInv(s, StartCall);
    TwoTicks(a);
  }

  lemma TwoTicks(a: Controller)
    requires Inv(a)
    ensures var r := Tick(Tick(a, true), true);
      && r.windowsCreated == a.windowsCreated + 2
      && r.window == Some(a.windowsCreated + 1)
      && r.open == {a.windowsCreated + 1}
      && SchedulingUnchanged(a, r)
  {
  }
}
