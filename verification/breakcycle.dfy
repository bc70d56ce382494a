/** One break end to end: the controller's tick opens an overlay, the
    overlay's countdown sends 'timer-complete', and the controller closes
    the overlay while the schedule carries on. */
module BreakCycle {
  import Timer
  import TimerEnd

  /** `n` 'timer-complete' messages delivered one after another. */
  function Deliver(s: Timer.Controller, n: nat): Timer.Controller {
    Timer.Run(s, seq(n, _ => Timer.CompleteMessage))
  }

  /** Duplicate messages are absorbed: the first one closes the live
      overlay and every later one finds none and changes nothing. */
  lemma {:induction false} DuplicateCompletions(s: Timer.Controller, n: nat)
    requires Timer.Inv(s)
    requires n >= 1
    ensures Deliver(s, n) == Timer.Complete(s)
    ensures Deliver(s, n).window.None? && Deliver(s, n).open == {}
    decreases n
  {
    var es := seq(n, _ => Timer.CompleteMessage);
    Timer.CompleteClosesOverlay(s);
    if n == 1 {
      assert es[..0] == [] && es[0] == Timer.CompleteMessage;
      assert Timer.Run(s, es[..0]) == s;
    } else {
      assert es[..n - 1] == seq(n - 1, _ => Timer.CompleteMessage);
      DuplicateCompletions(s, n - 1);
      Timer.StepInv(s, Timer.CompleteMessage);
      Timer.CompleteClosesOverlay(Timer.Complete(s));
    }
  }

  /** While enabled, the interval fires and opens overlay number
      `windowsCreated`; left alone, its countdown sends the first message on
      its twentieth tick; delivering it closes the overlay and leaves the
      same interval armed, so the next break comes a period after this one
      began. */
  lemma OneBreak(s: Timer.Controller)
    requires Timer.Inv(s) && Timer.IsEnabled(s)
    ensures var live := Timer.Step(s, Timer.Fire(s.interval.value, true));
      var overlay := TimerEnd.Run(TimerEnd.Init(), seq(20, _ => TimerEnd.Tick));
      var done := Deliver(live, overlay.sent);
      && live.open == {s.windowsCreated}
      && overlay.sent == 1
      && done.open == {} && done.window.None?
      && Timer.IsEnabled(done) && done.armed == s.armed
  {
    var live := Timer.Step(s, Timer.Fire(s.interval.value, true));
    Timer.StepInv(s, Timer.Fire(s.interval.value, true));
    TimerEnd.TicksOnly(20);
    DuplicateCompletions(live, 1);
  }
}
