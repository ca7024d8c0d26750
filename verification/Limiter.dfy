/**
 * `RateLimiter` (src/spconnect/transport.py:810-827), shared by any number of threads. The
 * lock makes one `acquire` a critical section; everything else may interleave. Times are
 * reals, the clock never goes back, and a sleep lasts at least as long as asked.
 */
module Limiter {
  import opened Options

  /** A thread inside `acquire`: it has the lock, it sleeps until a time, or it has the time
      it is going to be granted. */
  datatype Pc = Locked | Asleep(until: real) | Awake(now: real)

  datatype State = State(clock: real, nextAllowed: real, holder: Option<(nat, Pc)>, grants: seq<real>)

  datatype Step = Tick(dt: real) | Enter(thread: nat) | ReadClock | WakeUp | Leave

  function Interval(requestsPerSecond: real): real {
    if requestsPerSecond > 0.0 then 1.0 / requestsPerSecond else 0.0
  }

  /** `wait = next_allowed - now`: sleep that long, or go on. */
  function AfterReading(nextAllowed: real, now: real): Pc {
    var wait := nextAllowed - now;
    if wait > 0.0 then Asleep(now + wait) else Awake(now)
  }

  predicate Takes(interval: real, s: State, e: Step, t: State) {
    match e
    case Tick(dt) => dt >= 0.0 && t == s.(clock := s.clock + dt)
    case Enter(thread) => s.holder.None? && t == s.(holder := Some((thread, Locked)))
    case ReadClock =>
      && s.holder.Some? && s.holder.value.1.Locked?
      && t == s.(holder := Some((s.holder.value.0, AfterReading(s.nextAllowed, s.clock))))
    case WakeUp =>
      && s.holder.Some? && s.holder.value.1.Asleep? && s.clock >= s.holder.value.1.until
      && t == s.(holder := Some((s.holder.value.0, Awake(s.clock))))
    case Leave =>
      && s.holder.Some? && s.holder.value.1.Awake?
      && t == s.(holder := None, nextAllowed := s.holder.value.1.now + interval,
                 grants := s.grants + [s.holder.value.1.now])
  }

  ghost predicate Next(interval: real, s: State, t: State) {
    exists e :: Takes(interval, s, e, t)
  }

  ghost predicate IsRun(interval: real, trace: seq<State>) {
    && trace != [] && trace[0].nextAllowed == 0.0 && trace[0].holder.None? && trace[0].grants == []
    && forall i :: 0 <= i < |trace| - 1 ==> Next(interval, trace[i], trace[i + 1])
  }

  /** Each grant is at least one interval behind the one before it. */
  ghost predicate Spaced(interval: real, grants: seq<real>) {
    forall i :: 0 < i < |grants| ==> grants[i] >= grants[i - 1] + interval
  }

  ghost predicate Inv(interval: real, s: State) {
    && Spaced(interval, s.grants)
    && (s.grants != [] ==> s.nextAllowed == s.grants[|s.grants| - 1] + interval)
    && (s.holder.Some? && s.holder.value.1.Asleep? ==> s.holder.value.1.until >= s.nextAllowed)
    && (s.holder.Some? && s.holder.value.1.Awake? ==> s.holder.value.1.now >= s.nextAllowed)
  }

  lemma StepKeepsInv(interval: real, s: State, t: State)
    requires Inv(interval, s) && Next(interval, s, t)
    ensures Inv(interval, t)
  {
  }

  lemma {:induction false} GrantsSpaced(interval: real, trace: seq<State>, i: nat)
    requires IsRun(interval, trace) && i < |trace|
    ensures Inv(interval, trace[i])
  {
    if i > 0 {
      GrantsSpaced(interval, trace, i - 1);
      StepKeepsInv(interval, trace[i - 1], trace[i]);
    }
  }

  lemma {:induction false} SpacingAddsUp(interval: real, grants: seq<real>, i: nat, j: nat)
    requires Spaced(interval, grants) && i <= j < |grants|
    ensures grants[j] - grants[i] >= (j - i) as real * interval
  {
    if i < j {
      SpacingAddsUp(interval, grants, i, j - 1);
      assert (j - i) as real * interval == (j - 1 - i) as real * interval + interval;
    }
  }

  /** Any window of length `window` holds at most floor(window / interval) + 1 grants, however
      many threads compete and however they interleave. */
  lemma WindowBound(interval: real, trace: seq<State>, k: nat, i: nat, j: nat, window: real)
    requires interval > 0.0 && IsRun(interval, trace) && k < |trace|
    requires i <= j < |trace[k].grants| && trace[k].grants[j] - trace[k].grants[i] <= window
    ensures j - i + 1 <= (window / interval).Floor + 1
  {
    GrantsSpaced(interval, trace, k);
    SpacingAddsUp(interval, trace[k].grants, i, j);
    QuotientBound((j - i) as real, interval, window);
    assert (j - i) as real <= window / interval;
  }

  lemma QuotientBound(n: real, interval: real, window: real)
    requires interval > 0.0 && n * interval <= window
    ensures n <= window / interval
  {
    assert n == (n * interval) / interval;
  }

  lemma OneMoreStep(interval: real, trace: seq<State>, e: Step, t: State)
    requires IsRun(interval, trace) && Takes(interval, trace[|trace| - 1], e, t)
    ensures IsRun(interval, trace + [t])
  {
    assert Next(interval, trace[|trace| - 1], t);
  }

  /** One thread that comes back as soon as it may: its grants are exactly one interval apart. */
  lemma {:induction false} TightRun(interval: real, n: nat) returns (trace: seq<State>)
    requires interval > 0.0
    ensures IsRun(interval, trace)
    ensures var s := trace[|trace| - 1];
      && s.holder.None? && s.clock == n as real * interval && s.nextAllowed == s.clock + interval
      && |s.grants| == n + 1 && s.grants[0] == 0.0 && s.grants[n] == s.clock
  {
    var before: seq<State>, s: State;
    if n == 0 {
      s := State(0.0, 0.0, None, []);
      before := [s];
    } else {
      var earlier := TightRun(interval, n - 1);
      s := earlier[|earlier| - 1].(clock := earlier[|earlier| - 1].clock + interval);
      OneMoreStep(interval, earlier, Tick(interval), s);
      before := earlier + [s];
      assert n as real * interval == (n - 1) as real * interval + interval;
    }
    var locked := s.(holder := Some((0, Locked)));
    OneMoreStep(interval, before, Enter(0), locked);
    var awake := s.(holder := Some((0, Awake(s.clock))));
    OneMoreStep(interval, before + [locked], ReadClock, awake);
    var left := s.(nextAllowed := s.clock + interval, grants := s.grants + [s.clock]);
    OneMoreStep(interval, before + [locked] + [awake], Leave, left);
    trace := before + [locked] + [awake] + [left];
  }

  /** The run ends with as many grants as the bound allows, all inside a window of this length. */
  ghost predicate FillsWindow(interval: real, trace: seq<State>, window: real)
    requires interval > 0.0 && window >= 0.0
  {
    && IsRun(interval, trace)
    && var grants := trace[|trace| - 1].grants;
       |grants| == (window / interval).Floor + 1 && grants[|grants| - 1] - grants[0] <= window
  }

  /** The bound is reached: for every window there is a run with as many grants inside it as the
      bound allows. */
  lemma BoundIsReached(interval: real, window: real)
    requires interval > 0.0 && window >= 0.0
    ensures exists trace :: FillsWindow(interval, trace, window)
  {
    var n := (window / interval).Floor;
    var trace := TightRun(interval, n);
    assert n as real * interval <= (window / interval) * interval == window;
    assert FillsWindow(interval, trace, window);
  }

  /** The object itself. `now` is the clock before the wait, `woken` the clock after it. */
  class RateLimiter {
    const minInterval: real
    var nextAllowed: real

    constructor (requestsPerSecond: real)
      ensures minInterval == Interval(requestsPerSecond) && nextAllowed == 0.0
    {
      minInterval := Interval(requestsPerSecond);
      nextAllowed := 0.0;
    }

    /** What the critical section does to the shared field is what `Leave` does to it. */
    method Acquire(now: real, woken: real) returns (granted: real)
      requires AfterReading(nextAllowed, now).Asleep? ==> woken >= AfterReading(nextAllowed, now).until
      modifies this
      ensures minInterval <= 0.0 ==> granted == now && nextAllowed == old(nextAllowed)
      ensures minInterval > 0.0 ==> granted >= old(nextAllowed) && nextAllowed == granted + minInterval
      ensures minInterval > 0.0 ==> granted == if old(nextAllowed) > now then woken else now
    {
      granted := now;
      if minInterval <= 0.0 {
        return;
      }
      var wait := nextAllowed - now;
      if wait > 0.0 {
        granted := woken;
      }
      nextAllowed := granted + minInterval;
    }
  }

  /** In terms of the configured rate: however the threads interleave, a window of so many seconds holds at
      most one request more than the rate allows for it. */
  lemma RateBound(rate: real, trace: seq<State>, k: nat, i: nat, j: nat, seconds: real)
    requires rate > 0.0 && IsRun(Interval(rate), trace) && k < |trace|
    requires i <= j < |trace[k].grants| && trace[k].grants[j] - trace[k].grants[i] <= seconds
    ensures (j - i) as real <= rate * seconds
  {
    var interval := Interval(rate);
    assert interval == 1.0 / rate && interval > 0.0;
    GrantsSpaced(interval, trace, k);
    SpacingAddsUp(interval, trace[k].grants, i, j);
    InRate((j - i) as real, rate, seconds);
  }

  lemma InRate(n: real, rate: real, seconds: real)
    requires rate > 0.0 && n * (1.0 / rate) <= seconds
    ensures n <= rate * seconds
  {
    assert n == n * (1.0 / rate) * rate;
    assert n * (1.0 / rate) * rate <= seconds * rate;
  }
}
