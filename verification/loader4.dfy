/** Loader4: a full-screen panel with a 0..100 % bar. A repeating timer raises the
    progress by one per tick, with the delay given by `getInterval`; once the progress
    reaches 100 a one-shot timer of `exitDelay` ms sets `isExiting`, which slides the
    panel away and stops rendering the bar.

    Time is discrete here: `Tick` is one firing of the progress interval timer, and
    `ExitClock(ms)` is `ms` milliseconds passing on the exit timer. */
module Loader4 {
  import opened LoaderTiming
  import Transitions

  const DefaultExitDelay: int := 100

  datatype Config = Config(speed: Speed, exitDelay: int)

  const Defaults: Config := Config(DefaultSpeed, DefaultExitDelay)

  /** `progress` and `isExiting` are the component's state; `exitWaited` is the time
      the exit timer has been running. */
  datatype State = State(progress: int, exitWaited: nat, isExiting: bool)

  datatype Event = Tick | ExitClock(ms: nat)

  const Init: State := State(0, 0, false)

  /** The progress effect schedules a tick only while progress is below 100. */
  predicate TickScheduled(s: State) {
    s.progress < MaxProgress
  }

  /** The delay the progress effect gives the interval timer. */
  function TickDelay(cfg: Config, s: State): real {
    Interval(cfg.speed, s.progress as real)
  }

  function Step(cfg: Config, s: State, e: Event): State {
    match e
    case Tick =>
      if !TickScheduled(s) then s else s.(progress := TickProgress(s.progress))
    case ExitClock(ms) =>
      // the exit timer is armed only while progress is exactly 100
      if s.progress != MaxProgress then s
      else
        var waited := s.exitWaited + ms;
        s.(exitWaited := waited, isExiting := s.isExiting || waited >= cfg.exitDelay)
  }

  function Run(cfg: Config, s: State, es: seq<Event>): State {
    Transitions.Run((t, e) => Step(cfg, t, e), s, es)
  }

  /** The bar and the percentage are rendered only while the panel is not exiting. */
  predicate ContentRendered(s: State) {
    !s.isExiting
  }

  /** What every reachable state satisfies: progress within 0..100, the exit timer
      running only at 100, and `isExiting` set only at 100 after the full delay. */
  predicate Valid(cfg: Config, s: State) {
    && 0 <= s.progress <= MaxProgress
    && (s.exitWaited > 0 ==> s.progress == MaxProgress)
    && (s.isExiting ==> s.progress == MaxProgress && s.exitWaited >= cfg.exitDelay)
  }

  /** One event keeps the state valid, never lowers the progress, never clears
      `isExiting`, and leaves a full loader full. */
  lemma StepPreservesValid(cfg: Config, s: State, e: Event)
    requires Valid(cfg, s)
    ensures Valid(cfg, Step(cfg, s, e))
    ensures Step(cfg, s, e).progress >= s.progress
    ensures s.isExiting ==> Step(cfg, s, e).isExiting
    ensures s.progress == MaxProgress ==> Step(cfg, s, e).progress == MaxProgress
  {
  }

  /** Whatever happens, `isExiting` is never set before progress is 100 and the exit
      delay has elapsed, and the bar is visible for the whole of the loading. */
  lemma {:induction false} ExitOnlyAfterDelay(cfg: Config, es: seq<Event>)
    ensures var s := Run(cfg, Init, es);
      && Valid(cfg, s)
      && (s.isExiting ==> s.progress == MaxProgress && s.exitWaited >= cfg.exitDelay)
      && (s.progress < MaxProgress ==> ContentRendered(s))
  {
    var step := (t, e) => Step(cfg, t, e);
    var inv := t => Valid(cfg, t);
    forall t, e | inv(t)
      ensures inv(step(t, e))
    {
      StepPreservesValid(cfg, t, e);
    }
    Transitions.RunPreserves(step, inv, Init, es);
  }

  function Ticks(n: nat): seq<Event> {
    seq(n, _ => Tick)
  }

  /** `n` ticks from any valid state add `n` to the progress, capped at 100, and change
      nothing else. */
  lemma {:induction false} RunTicks(cfg: Config, s: State, n: nat)
    requires Valid(cfg, s)
    ensures Run(cfg, s, Ticks(n)) == s.(progress := Min(s.progress + n, MaxProgress))
    decreases n
  {
    if n > 0 {
      var step := (t, e) => Step(cfg, t, e);
      assert Ticks(n)[0] == Tick;
      assert Ticks(n)[1..] == Ticks(n - 1);
      var s' := Step(cfg, s, Tick);
      if s.progress < MaxProgress {
        assert s' == s.(progress := s.progress + 1);
        assert s.exitWaited == 0 && !s.isExiting;
      }
      RunTicks(cfg, s', n - 1);
    }
  }

  /** From the start, 100 ticks fill the bar and a further `exitDelay` ms on the exit
      timer start the exit; 99 ticks leave it one short. */
  lemma LoadsThenExits(cfg: Config)
    ensures Run(cfg, Init, Ticks(99)).progress == 99
    ensures Run(cfg, Init, Ticks(100)) == State(MaxProgress, 0, false)
    ensures var wait := if cfg.exitDelay < 0 then 0 else cfg.exitDelay;
      Run(cfg, Init, Ticks(100) + [ExitClock(wait)]).isExiting
  {
    RunTicks(cfg, Init, 99);
    RunTicks(cfg, Init, 100);
    var wait := if cfg.exitDelay < 0 then 0 else cfg.exitDelay;
    Transitions.RunAppend((t, e) => Step(cfg, t, e), Init, Ticks(100), [ExitClock(wait)]);
  }
}
