/** Loader5: the same progress clock as Loader4 with a two-phase exit. When progress
    reaches 100 the completion effect sets `isContentExiting` at once (the bar and the
    big percentage slide out) and arms a one-shot timer of `exitDelay` ms (default 400)
    that sets `isExiting` (the panel slides away and its content is dropped).

    `Tick` is one firing of the progress interval timer (the completion effect runs
    right after the render it causes); `ExitClock(ms)` is time passing on the exit timer. */
module Loader5 {
  import opened LoaderTiming
  import Transitions

  const DefaultExitDelay: int := 400

  datatype Config = Config(speed: Speed, exitDelay: int)

  const Defaults: Config := Config(DefaultSpeed, DefaultExitDelay)

  datatype State = State(progress: int, isContentExiting: bool, exitWaited: nat, isExiting: bool)

  datatype Event = Tick | ExitClock(ms: nat)

  const Init: State := State(0, false, 0, false)

  predicate TickScheduled(s: State) {
    s.progress < MaxProgress
  }

  function Step(cfg: Config, s: State, e: Event): State {
    match e
    case Tick =>
      if !TickScheduled(s) then s
      else
        var p := TickProgress(s.progress);
        // the completion effect: content starts exiting as soon as 100 is rendered
        s.(progress := p, isContentExiting := s.isContentExiting || p == MaxProgress)
    case ExitClock(ms) =>
      if s.progress != MaxProgress then s
      else
        var waited := s.exitWaited + ms;
        s.(exitWaited := waited, isExiting := s.isExiting || waited >= cfg.exitDelay)
  }

  function Run(cfg: Config, s: State, es: seq<Event>): State {
    Transitions.Run((t, e) => Step(cfg, t, e), s, es)
  }

  /** The panel's content (bar and percentage) is rendered only while not exiting. */
  predicate ContentRendered(s: State) {
    !s.isExiting
  }

  predicate Valid(cfg: Config, s: State) {
    && 0 <= s.progress <= MaxProgress
    && (s.isContentExiting <==> s.progress == MaxProgress)
    && (s.exitWaited > 0 ==> s.progress == MaxProgress)
    && (s.isExiting ==> s.isContentExiting && s.exitWaited >= cfg.exitDelay)
  }

  lemma StepPreservesValid(cfg: Config, s: State, e: Event)
    requires Valid(cfg, s)
    ensures Valid(cfg, Step(cfg, s, e))
    ensures Step(cfg, s, e).progress >= s.progress
    ensures s.isContentExiting ==> Step(cfg, s, e).isContentExiting
    ensures s.isExiting ==> Step(cfg, s, e).isExiting
  {
  }

  /** In every reachable state: neither exit flag is set while progress is below 100,
      the content starts exiting exactly when progress is 100, and the panel exits only
      after the content did and the exit delay has elapsed. */
  lemma {:induction false} TwoPhaseExit(cfg: Config, es: seq<Event>)
    ensures var s := Run(cfg, Init, es);
      && Valid(cfg, s)
      && (s.progress < MaxProgress ==> !s.isContentExiting && !s.isExiting)
      && (s.isContentExiting <==> s.progress == MaxProgress)
      && (s.isExiting ==> s.isContentExiting && s.exitWaited >= cfg.exitDelay)
  {
    var step := (t, e) => Step(cfg, t, e);
    var inv := t => Valid(cfg, t);
    forall t, e | inv(t)
      ensures inv(step(t, e))
    {
      StepPreservesValid(cfg, t, e);
    }
    Transitions.RunPreserves(step, inv, Init, es);
  }

  function Ticks(n: nat): seq<Event> {
    seq(n, _ => Tick)
  }

  /** `n` ticks add `n` to the progress, capped at 100; the content-exit flag is raised
      exactly when the cap is reached; the panel's exit flag is untouched. */
  lemma {:induction false} RunTicks(cfg: Config, s: State, n: nat)
    requires Valid(cfg, s)
    ensures var p := Min(s.progress + n, MaxProgress);
      Run(cfg, s, Ticks(n)) == s.(progress := p, isContentExiting := p == MaxProgress)
    decreases n
  {
    if n > 0 {
      assert Ticks(n)[0] == Tick;
      assert Ticks(n)[1..] == Ticks(n - 1);
      var s' := Step(cfg, s, Tick);
      StepPreservesValid(cfg, s, Tick);
      RunTicks(cfg, s', n - 1);
    }
  }

  /** From the start: the content starts exiting on the hundredth tick, not before,
      and the panel follows `exitDelay` ms later. */
  lemma LoadsThenExits(cfg: Config)
    ensures !Run(cfg, Init, Ticks(99)).isContentExiting
    ensures Run(cfg, Init, Ticks(100)) == State(MaxProgress, true, 0, false)
    ensures var wait := if cfg.exitDelay < 0 then 0 else cfg.exitDelay;
      Run(cfg, Init, Ticks(100) + [ExitClock(wait)]).isExiting
  {
    RunTicks(cfg, Init, 99);
    RunTicks(cfg, Init, 100);
    var wait := if cfg.exitDelay < 0 then 0 else cfg.exitDelay;
    Transitions.RunAppend((t, e) => Step(cfg, t, e), Init, Ticks(100), [ExitClock(wait)]);
  }

  /** The default configuration: 40 ms and 120 ms speeds, threshold 70, cap 100, and a
      400 ms exit delay. */
  lemma DefaultConfig()
    ensures Defaults.speed.baseSpeed == 40.0 && Defaults.speed.maxSlowdown == 120.0
    ensures ProgressThreshold == 70 && MaxProgress == 100
    ensures Defaults.exitDelay == 400
    ensures Interval(Defaults.speed, 100.0) == 120.0
  {
  }
}
