/**
  The supervision loop of one agent execution (looper-agent, `run_loop`): an idle
  timeout, a maximum runtime, SIGTERM first and SIGKILL after a grace period.

  Each iteration reads the clock several times.  Those readings, the measured idle
  time, the kill flag and the child's exit are the inputs of the iteration, so the
  results below hold whatever the child, the caller of `kill` and the scheduler do.
  Durations are nanoseconds.
*/
module RunLoop {
  import opened Wrappers

  type Time = nat

  const NANOS_PER_SECOND: nat := 1_000_000_000

  /** Without a known `pid` no signal can be sent. */
  datatype Config = Config(maxRuntime: nat, idleTimeout: nat, graceful: nat, pid: Option<nat>)

  /**
    One iteration as the loop sees it.  `idle` is measured on the wall clock and may
    be anything; the other readings are of the monotonic clock, in program order.
    `exit` is set once the child has exited, with its success.
  */
  datatype Tick = Tick(
    idle: nat, idleArm: Time, maxCheck: Time, maxArm: Time, killed: bool, graceCheck: Time, exit: Option<bool>)

  datatype TimeoutType = Idle | MaxRuntime

  datatype Signal = Term(at: Time) | Kill(at: Time)

  datatype Status = Completed | Failed | Killed | TimedOut

  datatype LoopState = LoopState(
    idleFired: bool, maxFired: bool, graceTimer: Option<Time>,
    timedOut: bool, killed: bool, completed: bool, timeoutType: Option<TimeoutType>,
    signals: seq<Signal>, result: Option<Status>)

  const INITIAL := LoopState(false, false, None, false, false, false, None, [], None)

  predicate IdleDue(cfg: Config, t: Tick) {
    t.idle >= cfg.idleTimeout && cfg.idleTimeout / NANOS_PER_SECOND > 0
  }

  predicate MaxDue(cfg: Config, start: Time, t: Tick) {
    t.maxCheck - start >= cfg.maxRuntime
  }

  function Send(cfg: Config, signal: Signal): seq<Signal> {
    if cfg.pid.Some? then [signal] else []
  }

  function Fire(cfg: Config, s: LoopState, kind: TimeoutType, at: Time): LoopState {
    s.(timedOut := true, timeoutType := Some(kind), graceTimer := Some(at), signals := s.signals + Send(cfg, Term(at)))
  }

  function IdleStage(cfg: Config, s: LoopState, t: Tick): LoopState {
    if !s.idleFired && IdleDue(cfg, t) then Fire(cfg, s, Idle, t.idleArm).(idleFired := true) else s
  }

  function MaxStage(cfg: Config, start: Time, s: LoopState, t: Tick): LoopState {
    if !s.maxFired && MaxDue(cfg, start, t) then Fire(cfg, s, MaxRuntime, t.maxArm).(maxFired := true) else s
  }

  predicate GraceOver(cfg: Config, s: LoopState, t: Tick) {
    s.graceTimer.Some? && t.graceCheck - s.graceTimer.value >= cfg.graceful
  }

  function LastStage(cfg: Config, s: LoopState, t: Tick): LoopState {
    if GraceOver(cfg, s, t) then
      s.(signals := s.signals + Send(cfg, Kill(t.graceCheck)), completed := true,
         result := Some(if s.timedOut then TimedOut else Killed))
    else if t.exit.Some? then
      s.(completed := true,
         result := Some(if s.timedOut then TimedOut
                        else if s.killed then Killed
                        else if t.exit.value then Completed else Failed))
    else s
  }

  /** One iteration of the loop. */
  function Iterate(cfg: Config, start: Time, s: LoopState, t: Tick): LoopState {
    var fired := MaxStage(cfg, start, IdleStage(cfg, s, t), t);
    LastStage(cfg, if t.killed then fired.(killed := true) else fired, t)
  }

  /** The loop over the iterations it is given; it stops at the first result. */
  function Run(cfg: Config, start: Time, ticks: seq<Tick>): LoopState
    decreases |ticks|
  {
    if ticks == [] then INITIAL
    else
      var before := Run(cfg, start, ticks[..|ticks| - 1]);
      if before.result.Some? then before
      else Iterate(cfg, start, before, ticks[|ticks| - 1])
  }

  class Execution {
    const cfg: Config
    const start: Time
    var idleFired: bool
    var maxFired: bool
    var graceTimer: Option<Time>
    var timedOut: bool
    var killed: bool
    var completed: bool
    var timeoutType: Option<TimeoutType>
    var signals: seq<Signal>
    var result: Option<Status>

    ghost function State(): LoopState
      reads this
    {
      LoopState(idleFired, maxFired, graceTimer, timedOut, killed, completed, timeoutType, signals, result)
    }

    constructor (cfg: Config, start: Time)
      ensures this.cfg == cfg && this.start == start && State() == INITIAL
    {
      this.cfg, this.start := cfg, start;
      idleFired, maxFired, graceTimer := false, false, None;
      timedOut, killed, completed, timeoutType := false, false, false, None;
      signals, result := [], None;
    }

    /** The two timeouts, each of which fires once and arms the grace timer. */
    method CheckTimeouts(t: Tick)
      modifies this
      ensures State() == MaxStage(cfg, start, IdleStage(cfg, old(State()), t), t)
    {
      if !idleFired {
        if t.idle >= cfg.idleTimeout && cfg.idleTimeout / NANOS_PER_SECOND > 0 {
          idleFired := true;
          timedOut := true;
          timeoutType := Some(Idle);
          if cfg.pid.Some? {
            signals := signals + [Term(t.idleArm)];
          }
          graceTimer := Some(t.idleArm);
        }
      }
      assert State() == IdleStage(cfg, old(State()), t);
      if !maxFired && t.maxCheck - start >= cfg.maxRuntime {
        maxFired := true;
        timedOut := true;
        timeoutType := Some(MaxRuntime);
        if cfg.pid.Some? {
          signals := signals + [Term(t.maxArm)];
        }
        graceTimer := Some(t.maxArm);
      }
    }

    /** SIGKILL once the grace period is over, otherwise the child's exit if it has exited. */
    method CheckEnd(t: Tick)
      modifies this
      ensures State() == LastStage(cfg, old(State()), t)
    {
      if graceTimer.Some? && t.graceCheck - graceTimer.value >= cfg.graceful {
        if cfg.pid.Some? {
          signals := signals + [Kill(t.graceCheck)];
        }
        completed := true;
        result := Some(if timedOut then TimedOut else Killed);
      } else if t.exit.Some? {
        completed := true;
        result := Some(if timedOut then TimedOut
                       else if killed then Killed
                       else if t.exit.value then Completed else Failed);
      }
    }

    /** The body of the loop. */
    method Iteration(t: Tick)
      modifies this
      ensures State() == Iterate(cfg, start, old(State()), t)
    {
      CheckTimeouts(t);
      if t.killed {
        killed := true;
      }
      CheckEnd(t);
    }

    /** The loop itself: `used` iterations are carried out, all of them unless a result is reached. */
    method RunLoop(ticks: seq<Tick>) returns (used: nat)
      requires State() == INITIAL
      modifies this
      ensures used <= |ticks| && State() == Run(cfg, start, ticks[..used])
      ensures used < |ticks| ==> result.Some?
    {
      used := 0;
      while used < |ticks| && result.None?
        invariant used <= |ticks|
        invariant State() == Run(cfg, start, ticks[..used])
      {
        assert ticks[..used + 1][..used] == ticks[..used];
        Iteration(ticks[used]);
        used := used + 1;
      }
    }
  }

  // ----- Time -----

  /** The readings of one iteration never go back, and follow the previous reading. */
  predicate InOrder(after: Time, t: Tick) {
    after <= t.idleArm <= t.maxCheck <= t.maxArm <= t.graceCheck
  }

  /** Monotone readings; each iteration is over within `gap` of the beginning of the one before. */
  ghost predicate WellTimed(start: Time, ticks: seq<Tick>, gap: nat) {
    && (|ticks| > 0 ==> InOrder(start, ticks[0]) && ticks[0].graceCheck <= start + gap)
    && forall i :: 0 < i < |ticks| ==>
         && InOrder(ticks[i - 1].graceCheck, ticks[i])
         && ticks[i].graceCheck <= ticks[i - 1].idleArm + gap
  }

  lemma WellTimedPrefix(start: Time, ticks: seq<Tick>, gap: nat, n: nat)
    requires WellTimed(start, ticks, gap) && n <= |ticks|
    ensures WellTimed(start, ticks[..n], gap)
  {
  }

  /** While the loop is running: where the grace timer can be, and what the last iteration saw. */
  ghost predicate OnSchedule(cfg: Config, start: Time, s: LoopState, last: Tick, gap: nat) {
    && (!s.maxFired ==> last.maxCheck < start + cfg.maxRuntime)
    && (s.graceTimer.Some? ==> last.graceCheck < s.graceTimer.value + cfg.graceful)
    && (s.maxFired ==>
          && s.graceTimer.Some?
          && s.graceTimer.value <= start + cfg.maxRuntime + gap + (if s.idleFired then cfg.graceful + gap else 0))
  }

  lemma FirstIterationOnSchedule(cfg: Config, start: Time, t: Tick, gap: nat)
    requires InOrder(start, t) && t.graceCheck <= start + gap
    requires Iterate(cfg, start, INITIAL, t).result.None?
    ensures OnSchedule(cfg, start, Iterate(cfg, start, INITIAL, t), t, gap)
  {
  }

  lemma IterationStaysOnSchedule(cfg: Config, start: Time, s: LoopState, last: Tick, t: Tick, gap: nat)
    requires OnSchedule(cfg, start, s, last, gap)
    requires last.idleArm <= last.maxCheck <= last.graceCheck
    requires InOrder(last.graceCheck, t) && t.graceCheck <= last.idleArm + gap
    requires Iterate(cfg, start, s, t).result.None?
    ensures OnSchedule(cfg, start, Iterate(cfg, start, s, t), t, gap)
  {
    var idle := IdleStage(cfg, s, t);
    var fired := MaxStage(cfg, start, idle, t);
    assert !GraceOver(cfg, fired, t);
    var r := Iterate(cfg, start, s, t);
    assert r.graceTimer == fired.graceTimer && r.maxFired == fired.maxFired && r.idleFired == fired.idleFired;
  }

  lemma {:induction false} RunningIsOnSchedule(cfg: Config, start: Time, ticks: seq<Tick>, gap: nat)
    requires ticks != [] && WellTimed(start, ticks, gap)
    requires Run(cfg, start, ticks).result.None?
    ensures OnSchedule(cfg, start, Run(cfg, start, ticks), ticks[|ticks| - 1], gap)
    decreases |ticks|
  {
    var n := |ticks| - 1;
    var before := ticks[..n];
    if n > 0 {
      WellTimedPrefix(start, ticks, gap, n);
      RunningIsOnSchedule(cfg, start, before, gap);
      assert before[n - 1] == ticks[n - 1];
      OrderedReadings(start, ticks, gap, n - 1);
      IterationStaysOnSchedule(cfg, start, Run(cfg, start, before), ticks[n - 1], ticks[n], gap);
    } else {
      assert Run(cfg, start, before) == INITIAL;
      FirstIterationOnSchedule(cfg, start, ticks[0], gap);
    }
  }

  lemma OrderedReadings(start: Time, ticks: seq<Tick>, gap: nat, i: nat)
    requires WellTimed(start, ticks, gap) && i < |ticks|
    ensures InOrder(if i == 0 then start else ticks[i - 1].graceCheck, ticks[i])
  {
  }

  /**
    The loop always ends.  An iteration that is still carried out, and so whatever
    ends the loop, is over by start + maxRuntime + 2 * graceful + 3 * gap: each timeout
    fires once, and the idle one can restart the grace timer once.
  */
  lemma LoopEndsInTime(cfg: Config, start: Time, ticks: seq<Tick>, gap: nat, i: nat)
    requires WellTimed(start, ticks, gap) && i < |ticks|
    requires Run(cfg, start, ticks[..i]).result.None?
    ensures ticks[i].graceCheck <= start + cfg.maxRuntime + 2 * cfg.graceful + 3 * gap
  {
    if i > 0 {
      WellTimedPrefix(start, ticks, gap, i);
      RunningIsOnSchedule(cfg, start, ticks[..i], gap);
    }
  }

  /** As long as the idle timeout has not fired, one grace period is enough. */
  lemma LoopEndsSoonerWithoutIdle(cfg: Config, start: Time, ticks: seq<Tick>, gap: nat, i: nat)
    requires WellTimed(start, ticks, gap) && i < |ticks|
    requires Run(cfg, start, ticks[..i]).result.None? && !Run(cfg, start, ticks[..i]).idleFired
    ensures ticks[i].graceCheck <= start + cfg.maxRuntime + cfg.graceful + 2 * gap
  {
    if i > 0 {
      WellTimedPrefix(start, ticks, gap, i);
      RunningIsOnSchedule(cfg, start, ticks[..i], gap);
    }
  }

  /** So the loop has a result as soon as it is given an iteration beyond that time. */
  lemma NoResultMeansEarly(cfg: Config, start: Time, ticks: seq<Tick>, gap: nat)
    requires ticks != [] && WellTimed(start, ticks, gap)
    requires ticks[|ticks| - 1].graceCheck > start + cfg.maxRuntime + 2 * cfg.graceful + 3 * gap
    ensures Run(cfg, start, ticks).result.Some?
  {
    var n := |ticks| - 1;
    if Run(cfg, start, ticks[..n]).result.None? {
      LoopEndsInTime(cfg, start, ticks, gap, n);
    }
  }

  function At(t: Time, idle: nat): Tick {
    Tick(idle, t, t, t, false, t, None)
  }

  /**
    One grace period is not enough for the bound: here the idle timeout fires during
    the grace period of the maximum runtime, and the loop is still running after
    maxRuntime + graceful + 2 * gap.
  */
  lemma OneGracePeriodIsNotEnough()
    ensures var s := NANOS_PER_SECOND;
            var cfg := Config(10 * s, 30 * s, 20 * s, Some(1));
            var ticks := [At(9 * s, 0), At(19 * s, 0), At(29 * s, 0), At(38 * s, 30 * s), At(48 * s, 0),
                          At(57 * s, 0)];
            && WellTimed(0, ticks + [At(67 * s, 0)], 10 * s)
            && Run(cfg, 0, ticks).result.None?
            && ticks[5].graceCheck >= cfg.maxRuntime + cfg.graceful + 2 * (10 * s)
  {
    var s := NANOS_PER_SECOND;
    var cfg := Config(10 * s, 30 * s, 20 * s, Some(1));
    var t1 := [At(9 * s, 0)];
    var t2 := t1 + [At(19 * s, 0)];
    var t3 := t2 + [At(29 * s, 0)];
    var t4 := t3 + [At(38 * s, 30 * s)];
    var t5 := t4 + [At(48 * s, 0)];
    var t6 := t5 + [At(57 * s, 0)];
    assert t1[..0] == [] && t2[..1] == t1 && t3[..2] == t2 && t4[..3] == t3 && t5[..4] == t4 && t6[..5] == t5;
    assert Run(cfg, 0, t1) == INITIAL;
    var armed := Fire(cfg, INITIAL, MaxRuntime, 19 * s).(maxFired := true);
    assert Run(cfg, 0, t2) == armed;
    assert Run(cfg, 0, t3) == armed;
    assert Run(cfg, 0, t4) == Fire(cfg, armed, Idle, 38 * s).(idleFired := true);
    assert Run(cfg, 0, t5) == Run(cfg, 0, t4);
    assert Run(cfg, 0, t6) == Run(cfg, 0, t4);
    assert t6 == [At(9 * s, 0), At(19 * s, 0), At(29 * s, 0), At(38 * s, 30 * s), At(48 * s, 0), At(57 * s, 0)];
  }

  // ----- Signals -----

  /** The grace timer, the flags and the SIGTERMs all tell the same story. */
  ghost predicate Coherent(cfg: Config, s: LoopState) {
    && (s.graceTimer.Some? <==> s.timedOut)
    && (s.timedOut <==> s.idleFired || s.maxFired)
    && (s.timedOut <==> s.timeoutType.Some?)
    && (s.completed <==> s.result.Some?)
    && (cfg.pid.None? ==> s.signals == [])
    && (cfg.pid.Some? && s.result.None? ==>
          |s.signals| == (if s.idleFired then 1 else 0) + (if s.maxFired then 1 else 0))
  }

  /** Only SIGTERMs while running, all at or before the armed grace timer. */
  ghost predicate OnlyTerms(s: LoopState) {
    forall k :: 0 <= k < |s.signals| ==>
      s.signals[k].Term? && s.graceTimer.Some? && s.signals[k].at <= s.graceTimer.value
  }

  /** At most one SIGKILL, as the very last signal, a full grace period after every SIGTERM. */
  ghost predicate Escalated(cfg: Config, s: LoopState) {
    forall k :: 0 <= k < |s.signals| && s.signals[k].Kill? ==>
      && k == |s.signals| - 1
      && 0 < k <= 2
      && s.result == Some(TimedOut)
      && forall j :: 0 <= j < k ==> s.signals[j].Term? && s.signals[j].at + cfg.graceful <= s.signals[k].at
  }

  /** What holds of a running loop whose last reading of the clock was `now`. */
  ghost predicate RunningSignals(cfg: Config, s: LoopState, now: Time) {
    Coherent(cfg, s) && OnlyTerms(s) && (s.graceTimer.Some? ==> s.graceTimer.value <= now)
  }

  lemma FireKeepsTerms(cfg: Config, s: LoopState, kind: TimeoutType, at: Time)
    requires OnlyTerms(s) && (s.graceTimer.Some? ==> s.graceTimer.value <= at)
    ensures OnlyTerms(Fire(cfg, s, kind, at))
  {
  }

  lemma IdleStageSignals(cfg: Config, s: LoopState, now: Time, t: Tick)
    requires s.result.None? && RunningSignals(cfg, s, now) && now <= t.idleArm
    ensures RunningSignals(cfg, IdleStage(cfg, s, t), t.idleArm) && IdleStage(cfg, s, t).result.None?
  {
    FireKeepsTerms(cfg, s, Idle, t.idleArm);
  }

  lemma MaxStageSignals(cfg: Config, start: Time, s: LoopState, now: Time, t: Tick)
    requires s.result.None? && RunningSignals(cfg, s, now) && now <= t.maxArm
    ensures RunningSignals(cfg, MaxStage(cfg, start, s, t), t.maxArm) && MaxStage(cfg, start, s, t).result.None?
  {
    FireKeepsTerms(cfg, s, MaxRuntime, t.maxArm);
  }

  lemma LastStageSignals(cfg: Config, s: LoopState, now: Time, t: Tick)
    requires s.result.None? && RunningSignals(cfg, s, now) && now <= t.graceCheck
    ensures var r := LastStage(cfg, s, t);
            && Coherent(cfg, r) && Escalated(cfg, r)
            && (r.result.None? ==> RunningSignals(cfg, r, t.graceCheck))
  {
    var r := LastStage(cfg, s, t);
    if !GraceOver(cfg, s, t) {
      assert r.signals == s.signals;
    }
  }

  lemma IterationSignals(cfg: Config, start: Time, s: LoopState, now: Time, t: Tick)
    requires s.result.None? && RunningSignals(cfg, s, now) && InOrder(now, t)
    ensures var r := Iterate(cfg, start, s, t);
            && Coherent(cfg, r) && Escalated(cfg, r)
            && (r.result.None? ==> RunningSignals(cfg, r, t.graceCheck))
  {
    IdleStageSignals(cfg, s, now, t);
    var idle := IdleStage(cfg, s, t);
    MaxStageSignals(cfg, start, idle, t.idleArm, t);
    var fired := MaxStage(cfg, start, idle, t);
    var flagged := if t.killed then fired.(killed := true) else fired;
    LastStageSignals(cfg, flagged, t.maxArm, t);
  }

  /** Over every run: at most one SIGKILL, last, and only after a timeout's full grace period. */
  lemma {:induction false} SignalsAreDisciplined(cfg: Config, start: Time, ticks: seq<Tick>, gap: nat)
    requires WellTimed(start, ticks, gap)
    ensures var s := Run(cfg, start, ticks);
            && Coherent(cfg, s) && Escalated(cfg, s)
            && (s.result.None? ==> RunningSignals(cfg, s, if ticks == [] then start else ticks[|ticks| - 1].graceCheck))
    decreases |ticks|
  {
    if ticks != [] {
      var n := |ticks| - 1;
      WellTimedPrefix(start, ticks, gap, n);
      SignalsAreDisciplined(cfg, start, ticks[..n], gap);
      OrderedReadings(start, ticks, gap, n);
      var before := Run(cfg, start, ticks[..n]);
      if before.result.None? {
        var now := if n == 0 then start else ticks[n - 1].graceCheck;
        assert n > 0 ==> ticks[..n][n - 1] == ticks[n - 1];
        IterationSignals(cfg, start, before, now, ticks[n]);
      }
    }
  }

  // ----- The recorded status -----

  ghost predicate SomeKill(ticks: seq<Tick>) {
    exists i :: 0 <= i < |ticks| && ticks[i].killed
  }

  /** Some idle time reached the timeout, which is at least a second. */
  ghost predicate SomeIdle(cfg: Config, ticks: seq<Tick>) {
    exists i :: 0 <= i < |ticks| && ticks[i].idle >= cfg.idleTimeout && cfg.idleTimeout >= 1_000_000_000
  }

  /** Some reading was at or after the maximum runtime. */
  ghost predicate SomeMax(cfg: Config, start: Time, ticks: seq<Tick>) {
    exists i :: 0 <= i < |ticks| && ticks[i].maxCheck >= start + cfg.maxRuntime
  }

  lemma SomeByLast(cfg: Config, start: Time, ticks: seq<Tick>, n: nat)
    requires n + 1 == |ticks|
    ensures SomeIdle(cfg, ticks) <==>
            SomeIdle(cfg, ticks[..n]) || (ticks[n].idle >= cfg.idleTimeout && cfg.idleTimeout >= 1_000_000_000)
    ensures SomeMax(cfg, start, ticks) <==>
            SomeMax(cfg, start, ticks[..n]) || ticks[n].maxCheck >= start + cfg.maxRuntime
    ensures SomeKill(ticks) <==> SomeKill(ticks[..n]) || ticks[n].killed
  {
    assert forall i :: 0 <= i < n ==> ticks[..n][i] == ticks[i];
    if SomeIdle(cfg, ticks) {
      var i :| 0 <= i < |ticks| && ticks[i].idle >= cfg.idleTimeout && cfg.idleTimeout >= 1_000_000_000;
      assert i < n ==> ticks[..n][i] == ticks[i];
    }
    if SomeMax(cfg, start, ticks) {
      var i :| 0 <= i < |ticks| && ticks[i].maxCheck >= start + cfg.maxRuntime;
      assert i < n ==> ticks[..n][i] == ticks[i];
    }
    if SomeKill(ticks) {
      var i :| 0 <= i < |ticks| && ticks[i].killed;
      assert i < n ==> ticks[..n][i] == ticks[i];
    }
  }

  /** What one iteration does to the flags. */
  lemma IterationFlags(cfg: Config, start: Time, s: LoopState, t: Tick)
    requires s.result.None? && (s.timedOut <==> s.idleFired || s.maxFired) && (s.timedOut <==> s.graceTimer.Some?)
    ensures var r := Iterate(cfg, start, s, t);
            var idleDue := t.idle >= cfg.idleTimeout && cfg.idleTimeout >= 1_000_000_000;
            var maxDue := t.maxCheck >= start + cfg.maxRuntime;
            && (r.idleFired <==> s.idleFired || idleDue)
            && (r.maxFired <==> s.maxFired || maxDue)
            && (r.killed <==> s.killed || t.killed)
            && (r.timedOut <==> r.idleFired || r.maxFired)
            && (r.timedOut <==> r.graceTimer.Some?)
            && (!r.timedOut ==> r.signals == s.signals)
            && (maxDue && !s.maxFired ==> r.timeoutType == Some(MaxRuntime) && r.graceTimer == Some(t.maxArm))
            && (idleDue && !s.idleFired && (s.maxFired || !maxDue) ==>
                  r.timeoutType == Some(Idle) && r.graceTimer == Some(t.idleArm))
            && (r.idleFired == s.idleFired && r.maxFired == s.maxFired ==>
                  r.timeoutType == s.timeoutType && r.graceTimer == s.graceTimer)
            && (r.result == if r.graceTimer.Some? && t.graceCheck >= r.graceTimer.value + cfg.graceful then Some(TimedOut)
                            else if t.exit.None? then None
                            else if r.timedOut then Some(TimedOut)
                            else if r.killed then Some(Killed)
                            else if t.exit.value then Some(Completed) else Some(Failed))
  {
    var idle := IdleStage(cfg, s, t);
    var fired := MaxStage(cfg, start, idle, t);
    assert idle.maxFired == s.maxFired && fired.idleFired == idle.idleFired;
    assert cfg.idleTimeout / NANOS_PER_SECOND > 0 <==> cfg.idleTimeout >= 1_000_000_000;
  }

  /** A signal that is sent on a condition, and only with a process id. */
  function Sent(cfg: Config, condition: bool, signal: Signal): (signals: seq<Signal>)
    ensures signals == if cfg.pid.Some? && condition then [signal] else []
  {
    if condition then Send(cfg, signal) else []
  }

  lemma StagesSend(cfg: Config, start: Time, s: LoopState, t: Tick)
    ensures var r := IdleStage(cfg, s, t);
            r.signals == s.signals + Sent(cfg, r.idleFired && !s.idleFired, Term(t.idleArm))
    ensures var r := MaxStage(cfg, start, s, t);
            r.signals == s.signals + Sent(cfg, r.maxFired && !s.maxFired, Term(t.maxArm)) && r.idleFired == s.idleFired
    ensures var r := LastStage(cfg, s, t);
            r.signals == s.signals + Sent(cfg, GraceOver(cfg, s, t), Kill(t.graceCheck))
            && r.idleFired == s.idleFired && r.maxFired == s.maxFired && r.graceTimer == s.graceTimer
    ensures IdleStage(cfg, s, t).maxFired == s.maxFired
  {
  }

  /** The signals that one iteration sends, given which timeouts fire in it. */
  lemma IterationSends(cfg: Config, start: Time, s: LoopState, t: Tick)
    ensures var r := Iterate(cfg, start, s, t);
            var kills := r.graceTimer.Some? && t.graceCheck >= r.graceTimer.value + cfg.graceful;
            r.signals == s.signals
                         + Sent(cfg, r.idleFired && !s.idleFired, Term(t.idleArm))
                         + Sent(cfg, r.maxFired && !s.maxFired, Term(t.maxArm))
                         + Sent(cfg, kills, Kill(t.graceCheck))
  {
    hide IdleStage, MaxStage, LastStage, Sent;
    StagesSend(cfg, start, s, t);
    var idle := IdleStage(cfg, s, t);
    StagesSend(cfg, start, idle, t);
    var fired := MaxStage(cfg, start, idle, t);
    StagesSend(cfg, start, if t.killed then fired.(killed := true) else fired, t);
  }

  lemma {:induction false} FlagsRemember(cfg: Config, start: Time, ticks: seq<Tick>)
    requires ticks != [] ==> Run(cfg, start, ticks[..|ticks| - 1]).result.None?
    ensures var s := Run(cfg, start, ticks);
            && (s.idleFired <==> SomeIdle(cfg, ticks))
            && (s.maxFired <==> SomeMax(cfg, start, ticks))
            && (s.killed <==> SomeKill(ticks))
            && (s.timedOut <==> s.idleFired || s.maxFired)
            && (s.timedOut <==> s.graceTimer.Some?)
            && (!s.timedOut ==> s.signals == [])
    decreases |ticks|
  {
    if ticks != [] {
      var n := |ticks| - 1;
      RunningAllAlong(cfg, start, ticks[..n]);
      FlagsRemember(cfg, start, ticks[..n]);
      SomeByLast(cfg, start, ticks, n);
      IterationFlags(cfg, start, Run(cfg, start, ticks[..n]), ticks[n]);
    }
  }

  lemma RunningAllAlong(cfg: Config, start: Time, ticks: seq<Tick>)
    requires Run(cfg, start, ticks).result.None?
    ensures ticks != [] ==> Run(cfg, start, ticks[..|ticks| - 1]).result.None?
  {
  }

  /**
    While the loop runs, the idle timeout has fired exactly if an idle time of at least the
    timeout was measured and the timeout is at least a second, and the maximum runtime
    exactly if the clock was read at or after it.
  */
  lemma FiredIff(cfg: Config, start: Time, ticks: seq<Tick>)
    requires ticks != [] ==> Run(cfg, start, ticks[..|ticks| - 1]).result.None?
    ensures var s := Run(cfg, start, ticks);
            && (s.idleFired <==> exists i :: 0 <= i < |ticks| && ticks[i].idle >= cfg.idleTimeout
                                             && cfg.idleTimeout >= 1_000_000_000)
            && (s.maxFired <==> exists i :: 0 <= i < |ticks| && ticks[i].maxCheck >= start + cfg.maxRuntime)
            && (s.killed <==> exists i :: 0 <= i < |ticks| && ticks[i].killed)
  {
    hide Run, Iterate;
    FlagsRemember(cfg, start, ticks);
  }

  /**
    What the recorded status says about the whole run.  It is "timeout" exactly when
    some timeout was ever due, however the loop was left; a forced exit is never
    recorded as anything else; and without a timeout the child has exited.
  */
  lemma StatusTellsTheRun(cfg: Config, start: Time, ticks: seq<Tick>)
    requires ticks != []
    requires Run(cfg, start, ticks[..|ticks| - 1]).result.None?
    requires Run(cfg, start, ticks).result.Some?
    ensures var s, last := Run(cfg, start, ticks), ticks[|ticks| - 1];
            var timeout := || (exists i :: 0 <= i < |ticks| && ticks[i].idle >= cfg.idleTimeout
                                           && cfg.idleTimeout >= 1_000_000_000)
                           || (exists i :: 0 <= i < |ticks| && ticks[i].maxCheck >= start + cfg.maxRuntime);
            var kill := exists i :: 0 <= i < |ticks| && ticks[i].killed;
            && (s.result.value == TimedOut <==> timeout)
            && (s.result.value == Killed <==> !timeout && kill)
            && (s.result.value == Completed <==> !timeout && !kill && last.exit == Some(true))
            && (s.result.value == Failed <==> !timeout && !kill && last.exit == Some(false))
            && (!timeout ==> last.exit.Some? && s.signals == [])
  {
    var n := |ticks| - 1;
    RunningAllAlong(cfg, start, ticks[..n]);
    FlagsRemember(cfg, start, ticks[..n]);
    FlagsRemember(cfg, start, ticks);
    IterationFlags(cfg, start, Run(cfg, start, ticks[..n]), ticks[n]);
    FiredIff(cfg, start, ticks);
  }

  // ----- Captured output -----

  function Flatten<T>(chunks: seq<seq<T>>): seq<T> {
    if chunks == [] then [] else Flatten(chunks[..|chunks| - 1]) + chunks[|chunks| - 1]
  }

  const READ_BUFFER: nat := 8192

  /**
    A reader task: the buffer is a run of whole reads from the start of the stream,
    all of the stream or at least the limit, and overshoots the limit by less than
    one read.  Every read counts as a heartbeat, kept or not.
  */
  method Capture<T>(chunks: seq<seq<T>>, maxOutput: nat) returns (buffer: seq<T>, heartbeats: nat)
    requires forall c :: c in chunks ==> 0 < |c| <= READ_BUFFER
    ensures exists k :: 0 <= k <= |chunks| && buffer == Flatten(chunks[..k])
    ensures buffer == Flatten(chunks) || maxOutput <= |buffer|
    ensures buffer == [] || |buffer| < maxOutput + READ_BUFFER
    ensures heartbeats == |chunks|
  {
    buffer, heartbeats := [], 0;
    ghost var kept := 0;
    assert chunks[..0] == [];
    for i := 0 to |chunks|
      invariant heartbeats == i
      invariant 0 <= kept <= i && buffer == Flatten(chunks[..kept])
      invariant kept == i || maxOutput <= |buffer|
      invariant buffer == [] || |buffer| < maxOutput + READ_BUFFER
    {
      if |buffer| < maxOutput {
        assert chunks[..kept + 1][..kept] == chunks[..kept];
        buffer := buffer + chunks[i];
        kept := kept + 1;
      }
      heartbeats := heartbeats + 1;
    }
    assert chunks[..|chunks|] == chunks;
  }
}
