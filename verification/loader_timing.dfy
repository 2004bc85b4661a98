/** The progress clock shared by the two percentage loaders (Loader4 and Loader5):
    the delay before the next tick as a function of the current progress, and the
    tick itself. Both components declare the same constants and the same
    `getInterval`; they are modelled once here. */
module LoaderTiming {

  const DefaultBaseSpeed: real := 40.0
  const DefaultMaxSlowdown: real := 120.0
  const ProgressThreshold: int := 70
  const MaxProgress: int := 100

  /** The two speed props, in milliseconds per tick. */
  datatype Speed = Speed(baseSpeed: real, maxSlowdown: real)

  const DefaultSpeed: Speed := Speed(DefaultBaseSpeed, DefaultMaxSlowdown)

  function Min(a: int, b: int): int { if a <= b then a else b }

  /** The quadratic slow-down curve: `baseSpeed` at the threshold, `maxSlowdown` at 100. */
  function Ramp(sp: Speed, p: real): real {
    var t := (p - ProgressThreshold as real) / (MaxProgress - ProgressThreshold) as real;
    sp.baseSpeed + (sp.maxSlowdown - sp.baseSpeed) * (t * t)
  }

  /** `getInterval`: the delay before the next tick when progress is `p`. */
  function Interval(sp: Speed, p: real): real {
    if p <= ProgressThreshold as real then sp.baseSpeed else Ramp(sp, p)
  }

  /** The tick's state update `Math.min(prev + 1, MAX_PROGRESS)`. */
  function TickProgress(prev: int): int {
    Min(prev + 1, MaxProgress)
  }

  /** A tick raises progress by exactly one until it reaches 100, and never past 100. */
  lemma TickStepsByOne(prev: int)
    ensures prev < MaxProgress ==> TickProgress(prev) == prev + 1
    ensures prev <= MaxProgress ==> TickProgress(prev) <= MaxProgress
    ensures TickProgress(prev) > prev <==> prev < MaxProgress
  {
  }

  /** The interval is flat up to the threshold, and the two branches meet there: from the
      threshold on, the interval is the ramp, which starts at `baseSpeed` and ends at
      `maxSlowdown` at 100. */
  lemma IntervalShape(sp: Speed, p: real)
    ensures p <= ProgressThreshold as real ==> Interval(sp, p) == sp.baseSpeed
    ensures p >= ProgressThreshold as real ==> Interval(sp, p) == Ramp(sp, p)
    ensures Interval(sp, MaxProgress as real) == sp.maxSlowdown
  {
  }

  /** With the default speeds: 40 ms up to 70 %, 60 ms at 85 %, 120 ms at 100 %. */
  lemma DefaultIntervals()
    ensures forall p: real :: p <= 70.0 ==> Interval(DefaultSpeed, p) == 40.0
    ensures Interval(DefaultSpeed, 85.0) == 60.0
    ensures Interval(DefaultSpeed, 100.0) == 120.0
  {
  }

  lemma SquareMonotone(a: real, b: real)
    requires 0.0 <= a <= b
    ensures a * a <= b * b
  {
    assert a * a <= a * b;
    assert a * b <= b * b;
  }

  /** When `maxSlowdown >= baseSpeed` the ticks never speed up as progress grows. */
  lemma IntervalMonotone(sp: Speed, p: real, q: real)
    requires sp.baseSpeed <= sp.maxSlowdown
    requires p <= q
    ensures Interval(sp, p) <= Interval(sp, q)
  {
    var d := sp.maxSlowdown - sp.baseSpeed;
    var tq := (q - 70.0) / 30.0;
    if q > 70.0 {
      var tp := (p - 70.0) / 30.0;
      assert 0.0 <= tq * tq;
      assert 0.0 <= d * (tq * tq);
      if p > 70.0 {
        SquareMonotone(tp, tq);
        assert d * (tp * tp) <= d * (tq * tq);
      }
    }
  }

  /** On the progress range the interval stays between `baseSpeed` and `maxSlowdown`. */
  lemma IntervalBounded(sp: Speed, p: real)
    requires sp.baseSpeed <= sp.maxSlowdown
    requires p <= MaxProgress as real
    ensures sp.baseSpeed <= Interval(sp, p) <= sp.maxSlowdown
  {
    IntervalMonotone(sp, p, MaxProgress as real);
    if p > ProgressThreshold as real {
      IntervalMonotone(sp, ProgressThreshold as real, p);
    }
  }
}
