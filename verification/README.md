# Break reminder timer: a Dafny model

This project models the two state machines at the heart of the standup
break-reminder app.

- **The scheduler and overlay controller** (`timer.js`, module `Timer`).
  `start` stops the timer, then arms one interval with a period of twenty
  minutes. `stop` clears that interval and destroys any overlay. On each
  firing, the tick handler destroys any leftover overlay and opens a new
  full-screen overlay. It then registers that overlay's `closed` listener and
  one more `timer-complete` listener on the main process.
- **The overlay countdown** (`timerend.js`, module `TimerEnd`). It starts at
  20 × 1000 ms. Each one-second tick takes 1000 ms off and renders the
  remaining seconds. The first tick installs click and keydown listeners.
  Once the count reaches zero, each tick sends `timer-complete`.

The controller state pairs the JavaScript globals (`timerInterval`,
`timerWindow`, `timerPeriod`) with the runtime resources they point to:

- the intervals the event loop will fire, each with its period;
- the overlays the toolkit has open;
- the `timer-complete` listeners registered so far.

Every callback the event loop can dispatch is an `Event`. `Run` folds a
sequence of events through the pure transition functions.

The invariant `Timer.Inv` says the globals agree with the runtime:

- the handle names the only armed interval, and that interval is armed at
  the default period;
- the overlay reference names the only open overlay;
- each overlay constructed so far has registered exactly one completion
  listener.

`Timer.RunInv` proves that `Inv` holds after every event sequence. From it
follow:

- at most one interval is armed;
- at most one overlay is live;
- the controller is enabled exactly when an interval is armed.

The countdown is given a closed form after any mix of ticks and input.
`TimerEnd.RunFromInit` compares it with a per-event description of when
messages are sent.

Module `BreakCycle` joins the two halves into one full break.
Module `Optional` holds the nullable-reference type.

Four behaviours of the code shape the model:

- **Completions carry no session id.** Any `timer-complete` message fires
  every listener ever registered, and each listener destroys whichever
  overlay is live (`timer.js:223-225`).
- **Listeners pile up.** They are never deregistered, so their number grows
  by one per constructed overlay (`Timer.RunKeepsListeners`). Because destroy
  is guarded, firing all of them has the effect of firing one
  (`Timer.FireCompletionHandlers`).
- **One overlay can send many completions.** The countdown's interval is
  never cleared (`timerend.js:134`), so every tick after zero sends again,
  and so does every click or key press after the first tick
  (`TimerEnd.TicksOnly`, `TimerEnd.SendsAfterFirstTick`).
  `BreakCycle.DuplicateCompletions` shows the controller absorbs the
  duplicates.
- **Input has a one-second grace period.** Listeners are installed on the
  first tick, when 19 seconds are shown, so input before that sends nothing
  (`TimerEnd.InputBeforeFirstTick`).

## Model

| member | source | states |
|---|---|---|
| Timer.Init | timer.js:57-59 | at load time there is no interval handle and none armed, no overlay reference and none open, the period is 1,200,000 ms and no completion listener is registered |
| Timer.IsEnabled | timer.js:140-144 | enabled is true exactly when the interval handle is set |
| Timer.DestroyWindow | timer.js:230-254 | the overlay reference is cleared and the overlay it named, and only that one, is closed; with no overlay nothing changes; the schedule is untouched |
| Timer.DestroyWindowIdempotent | timer.js:250-253 | destroying twice has the effect of destroying once |
| Timer.ClearInterval | timer.js:111-114 | the referenced interval, and only that one, is disarmed and the handle cleared; with no handle nothing changes; the overlay is untouched |
| Timer.Stop | timer.js:109-117 | afterwards the controller is disabled and no overlay is referenced; only the referenced interval and overlay go away; on a stopped controller with no overlay nothing changes |
| Timer.Start | timer.js:84-89 | afterwards the controller is enabled with no overlay; the old interval is disarmed and exactly one new one is armed at the stored period |
| Timer.Tick | timer.js:165-228 | a tick closes any leftover overlay, then opens exactly one new overlay with a fresh id, registers one more completion listener and leaves the schedule alone; when construction yields no window, only the destroy happens |
| Timer.FireCompletionHandlers | timer.js:223-225 | firing n >= 1 completion listeners, each of which destroys the live overlay, has the effect of one destroy; firing none changes nothing |
| Timer.Complete | timer.js:223-225 | with any listener registered, a completion message has exactly the effect of one destroy of whatever overlay is live; with no live overlay or no listener it changes nothing; the schedule, the listener count and the overlay counter are untouched |
| Timer.CompleteClosesOverlay | timer.js:223-225 | from a consistent state a completion leaves no overlay live, whichever overlay sent it, and is a no-op when none is live |
| Timer.Closed | timer.js:215-217 | an open overlay closing by other means clears the overlay reference, whichever overlay it was; a window not open changes nothing; the schedule and the listeners are untouched |
| Timer.StepKeepsListeners | timer.js:223-225 | no event removes a completion listener; each event adds exactly as many listeners as overlays it constructs |
| Timer.RunKeepsListeners | timer.js:223-225 | over any event sequence the listener count never drops and grows by exactly the number of overlays constructed |
| Timer.InitInv | timer.js:57-59 | at load time the controller is consistent, disabled and shows no overlay |
| Timer.StopInv | timer.js:109-117 | stop keeps the globals in agreement with the armed intervals and open overlays |
| Timer.StartInv | timer.js:84-89 | start keeps the globals in agreement with the armed intervals and open overlays |
| Timer.TickInv | timer.js:165-228 | a tick keeps the globals in agreement with the armed intervals and open overlays |
| Timer.StepInv | timer.js:84-254 | every event keeps the globals in agreement with the runtime |
| Timer.RunInv | timer.js:84-254 | any event sequence keeps the globals in agreement with the runtime |
| Timer.Reachable | timer.js:120-145 | after any event sequence from load: at most one armed interval, at most one live overlay, enabled exactly when an interval is armed, every armed interval at 1,200,000 ms |
| Timer.RepeatedStart | timer.js:84-89 | start called n >= 1 times in a row leaves exactly one armed interval and the controller enabled |
| Timer.StopIdempotent | timer.js:109-117 | a second stop changes nothing |
| Timer.NoOverlayUntilStart | timer.js:109-117 | after stop, no event other than start arms an interval or brings an overlay back |
| Timer.TicksKeepSchedule | timer.js:59-89 | ticks, completions and closures leave the same interval armed at the default 1,200,000 ms period |
| Timer.CompletionAfterTicks | timer.js:223-225 | a tick never lowers the listener count, and a completion after it acts as one destroy and leaves no overlay |
| Timer.TwoPeriods | timer.js:165-194 | start followed by two firings constructs exactly two overlays, and only the second is live at the end |
| Timer.TwoTicks | timer.js:171-190 | two ticks in a row construct two overlays, the second closes the first, and the schedule is unchanged |
| TimerEnd.Init | timerend.js:34-47 | the countdown starts at 20,000 ms with 20 rendered, no input listeners and nothing sent |
| TimerEnd.Complete | timerend.js:118-122 | completing sends exactly one more message and changes nothing else |
| TimerEnd.Update | timerend.js:72-97 | a tick takes exactly 1000 ms off; while time is left it renders remaining/1000, sends nothing and installs the listeners once fewer than 20 seconds are shown; otherwise it sends one message and leaves the display and listeners alone |
| TimerEnd.Input | timerend.js:87-90 | a click or key press sends one message exactly when the listeners are installed, and changes nothing else |
| TimerEnd.UpdateAfterTicks | timerend.js:76-94 | a tick moves the countdown from its closed form after t ticks to the one after t + 1 ticks, sending exactly when tick t + 1 is the twentieth or later |
| TimerEnd.RunFromInit | timerend.js:46-134 | after any mix of ticks and input, the countdown equals the closed form for its tick count, and the messages sent equal the per-event count: ticks from the twentieth on, plus input after the first tick |
| TimerEnd.RemainingAfter | timerend.js:34-47 | the countdown starts at 20000 ms and stands at 20000 - 1000 x ticks after any event sequence |
| TimerEnd.ShownWhileCounting | timerend.js:77-79 | while time is left after the first tick, the rendered value is remaining/1000, a whole number from 19 down to 1, and strictly smaller on the next tick that renders |
| TimerEnd.TicksOnly | timerend.js:76-94 | with no input, nothing is sent on ticks 1-19; the first message goes on tick 20, when the remaining time is 0; k >= 20 ticks send k - 19 messages |
| TimerEnd.InputBeforeFirstTick | timerend.js:87-90 | input before the first tick finds no listener: the countdown is still in its initial state and has sent nothing |
| TimerEnd.SendsAfterFirstTick | timerend.js:87-94 | after the first tick every click or key press sends one message, and from the twentieth tick on every tick sends one more |
| BreakCycle.DuplicateCompletions | timer.js:223-225 | n >= 1 completion messages in a row have the effect of one: the live overlay is closed and later duplicates change nothing |
| BreakCycle.OneBreak | timer.js:147-228 | a firing opens one overlay; its countdown sends the first message on tick 20; delivering it closes the overlay and the same interval stays armed |

## Left out

- `tray.js` is not part of this model. It builds the menu, picks the icon
  and forwards its entries to `start`, `stop` and quitting the app. It calls
  only `start` and `stop`; nothing in the app calls `isEnabled`, which is
  exported and modelled as `Timer.IsEnabled`.
- `main.js` is not part of this model. Its one rule is that if the tray
  fails to initialise, the timer is never started (`main.js:42-45`).
- Electron specifics are abstract effects:
  - window options;
  - `loadURL`;
  - the `ready-to-show` show and focus;
  - IPC transport;
  - writing into the page.
- Construction failure: in JavaScript a constructor never yields a falsy
  value. The early return at `timer.js:192-194` is modelled by the `created`
  flag of `Timer.Fire`.
- Timing of `closed` events. Closing an overlay through
  `timerDestroyWindow` is modelled as one step, with the overlay's `closed`
  notification delivered within it. Electron delivers `closed` later. The
  `closed` listener clears the reference without checking which overlay it
  was registered on. So a late `closed` from an overlay destroyed by a tick
  would clear the reference to the overlay that tick just opened. That
  interleaving is not modelled.
- Real time, `setInterval` scheduling and the event loop are left out.
  Firings of the twenty-minute interval and the one-second countdown are
  discrete events. Nothing runs concurrently.
- Floating point: the rendered seconds are exact rationals (`real`). Every
  value the countdown reaches is a multiple of 1000 ms, so each quotient is
  a whole number and JavaScript computes it exactly.
- The model does not stop the countdown when its window closes. A
  countdown on its own keeps ticking and sending, and the controller treats
  any message as a plain `timer-complete`.
