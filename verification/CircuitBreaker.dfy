/**
  The circuit breaker (looper-infra).  Its three mutable fields are compared with a
  stateless reading of the history of calls: how many failures since the last
  success or reset, and when the last of them was.
*/
module CircuitBreaker {
  import opened Wrappers

  type Time = nat

  const U32_MAX: nat := 0xFFFF_FFFF

  datatype Mode = Closed | Open | HalfOpen

  datatype Config = Config(failureThreshold: nat, cooldown: nat)

  datatype Breaker = Breaker(mode: Mode, failureCount: nat, lastFailure: Option<Time>)

  const INITIAL := Breaker(Closed, 0, None)

  /** A call on the breaker, with the clock reading it takes. */
  datatype Call = IsAvailable(at: Time) | Failure(at: Time) | Success | Reset

  predicate CooldownOver(cfg: Config, b: Breaker, at: Time) {
    b.lastFailure.Some? && at - b.lastFailure.value >= cfg.cooldown
  }

  /** `is_available` answers and may open the breaker halfway. */
  function Query(cfg: Config, b: Breaker, at: Time): (Breaker, bool) {
    match b.mode
    case Closed => (b, true)
    case HalfOpen => (b, true)
    case Open => if CooldownOver(cfg, b, at) then (b.(mode := HalfOpen), true) else (b, false)
  }

  function RecordFailure(cfg: Config, b: Breaker, at: Time): Breaker {
    var count := if b.failureCount == U32_MAX then U32_MAX else b.failureCount + 1;
    var mode := match b.mode
      case Closed => if count >= cfg.failureThreshold then Open else Closed
      case HalfOpen => Open
      case Open => Open;
    Breaker(mode, count, Some(at))
  }

  function Apply(cfg: Config, b: Breaker, c: Call): Breaker {
    match c
    case IsAvailable(at) => Query(cfg, b, at).0
    case Failure(at) => RecordFailure(cfg, b, at)
    case Success => INITIAL
    case Reset => INITIAL
  }

  function Run(cfg: Config, calls: seq<Call>): Breaker {
    if calls == [] then INITIAL
    else Apply(cfg, Run(cfg, calls[..|calls| - 1]), calls[|calls| - 1])
  }

  class Circuit {
    const cfg: Config
    var mode: Mode
    var failureCount: nat
    var lastFailure: Option<Time>

    function State(): Breaker
      reads this
    {
      Breaker(mode, failureCount, lastFailure)
    }

    constructor (cfg: Config)
      ensures this.cfg == cfg && State() == INITIAL
    {
      this.cfg := cfg;
      mode, failureCount, lastFailure := Closed, 0, None;
    }

    method CheckAvailable(at: Time) returns (available: bool)
      modifies this
      ensures (State(), available) == Query(cfg, old(State()), at)
    {
      match mode {
        case Closed => return true;
        case Open =>
          if lastFailure.Some? {
            if at - lastFailure.value >= cfg.cooldown {
              mode := HalfOpen;
              return true;
            }
          }
          return false;
        case HalfOpen => return true;
      }
    }

    method OnSuccess()
      modifies this
      ensures State() == Apply(cfg, old(State()), Success)
    {
      failureCount, lastFailure, mode := 0, None, Closed;
    }

    method OnFailure(at: Time)
      modifies this
      ensures State() == Apply(cfg, old(State()), Failure(at))
    {
      failureCount := if failureCount == U32_MAX then U32_MAX else failureCount + 1;
      lastFailure := Some(at);
      match mode {
        case Closed =>
          if failureCount >= cfg.failureThreshold {
            mode := Open;
          }
        case HalfOpen =>
          mode := Open;
        case Open =>
      }
    }

    method DoReset()
      modifies this
      ensures State() == Apply(cfg, old(State()), Reset)
    {
      failureCount, lastFailure, mode := 0, None, Closed;
    }
  }

  // ----- The stateless reading -----

  /** Failures since the last success or reset. */
  function FailuresSince(calls: seq<Call>): nat {
    if calls == [] then 0
    else
      match calls[|calls| - 1]
      case IsAvailable(_) => FailuresSince(calls[..|calls| - 1])
      case Failure(_) => FailuresSince(calls[..|calls| - 1]) + 1
      case Success => 0
      case Reset => 0
  }

  /** The time of the last failure since the last success or reset. */
  function LastFailure(calls: seq<Call>): Option<Time> {
    if calls == [] then None
    else
      match calls[|calls| - 1]
      case IsAvailable(_) => LastFailure(calls[..|calls| - 1])
      case Failure(at) => Some(at)
      case Success => None
      case Reset => None
  }

  /** A threshold of zero trips on the first failure, like a threshold of one. */
  function TripCount(cfg: Config): nat {
    if cfg.failureThreshold == 0 then 1 else cfg.failureThreshold
  }

  predicate AvailableByHistory(cfg: Config, calls: seq<Call>, at: Time) {
    || FailuresSince(calls) < TripCount(cfg)
    || (LastFailure(calls).Some? && at - LastFailure(calls).value >= cfg.cooldown)
  }

  predicate Reads(c: Call) {
    c.IsAvailable? || c.Failure?
  }

  /** The clock readings of the calls never go back, and none is after `now`. */
  ghost predicate Monotone(calls: seq<Call>, now: Time) {
    && (forall i, j :: 0 <= i < j < |calls| && Reads(calls[i]) && Reads(calls[j]) ==> calls[i].at <= calls[j].at)
    && forall i :: 0 <= i < |calls| && Reads(calls[i]) ==> calls[i].at <= now
  }

  lemma MonotonePrefix(calls: seq<Call>, now: Time)
    requires Monotone(calls, now) && calls != []
    ensures var last := calls[|calls| - 1];
            Monotone(calls[..|calls| - 1], if Reads(last) then last.at else now)
  {
  }

  /** Somebody has asked since the last other call, at least a cooldown after the last failure. */
  ghost predicate Probed(cfg: Config, calls: seq<Call>) {
    LastFailure(calls).Some? &&
    exists i :: 0 <= i < |calls|
      && (forall j :: i <= j < |calls| ==> calls[j].IsAvailable?)
      && calls[i].at - LastFailure(calls).value >= cfg.cooldown
  }

  lemma ProbedByLast(cfg: Config, calls: seq<Call>, n: nat)
    requires n + 1 == |calls|
    ensures calls[n].IsAvailable? ==>
              (Probed(cfg, calls) <==>
               || Probed(cfg, calls[..n])
               || (LastFailure(calls).Some? && calls[n].at - LastFailure(calls).value >= cfg.cooldown))
    ensures !calls[n].IsAvailable? ==> !Probed(cfg, calls)
  {
    if calls[n].IsAvailable? {
      assert LastFailure(calls) == LastFailure(calls[..n]);
      ProbedByLastCall(cfg, calls, n);
    }
  }

  lemma ProbedByLastCall(cfg: Config, calls: seq<Call>, n: nat)
    requires n + 1 == |calls| && calls[n].IsAvailable? && LastFailure(calls) == LastFailure(calls[..n])
    ensures Probed(cfg, calls) <==>
            || Probed(cfg, calls[..n])
            || (LastFailure(calls).Some? && calls[n].at - LastFailure(calls).value >= cfg.cooldown)
  {
    hide LastFailure;
    var before := calls[..n];
    assert calls == before + [calls[n]];
    if Probed(cfg, before) {
      var i :| 0 <= i < n && (forall j :: i <= j < n ==> before[j].IsAvailable?)
               && before[i].at - LastFailure(calls).value >= cfg.cooldown;
      assert forall j :: i <= j < n ==> calls[j] == before[j];
    }
    if Probed(cfg, calls) {
      var i :| 0 <= i < |calls| && (forall j :: i <= j < |calls| ==> calls[j].IsAvailable?)
               && calls[i].at - LastFailure(calls).value >= cfg.cooldown;
      assert i < n ==> before[i] == calls[i];
    }
  }

  /**
    The fields at any point of a trace, read off the history: closed below the threshold,
    half-open exactly if somebody asked late enough since the last failure, else open.
  */
  lemma {:induction false} StateIsHistory(cfg: Config, calls: seq<Call>, now: Time)
    requires cfg.failureThreshold <= U32_MAX && Monotone(calls, now)
    ensures var b := Run(cfg, calls);
            && b.failureCount == (if FailuresSince(calls) <= 4294967295 then FailuresSince(calls) else 4294967295)
            && b.lastFailure == LastFailure(calls)
            && (b.lastFailure.Some? <==> FailuresSince(calls) > 0)
            && (b.mode == Closed <==> FailuresSince(calls) < TripCount(cfg))
            && (b.mode == HalfOpen <==> FailuresSince(calls) >= TripCount(cfg) && Probed(cfg, calls))
            && (b.mode == HalfOpen ==> CooldownOver(cfg, b, now))
    decreases |calls|
  {
    hide Probed;
    if calls != [] {
      var n := |calls| - 1;
      var last := calls[n];
      MonotonePrefix(calls, now);
      StateIsHistory(cfg, calls[..n], if Reads(last) then last.at else now);
      ProbedByLast(cfg, calls, n);
    } else {
      NotProbed(cfg);
    }
  }

  lemma NotProbed(cfg: Config)
    ensures !Probed(cfg, [])
  {
  }

  /**
    Main result, for every trace with a monotone clock: `is_available` answers true
    exactly when too few failures have happened since the last success or reset, or
    the last of them is at least a cooldown ago.
  */
  lemma AvailableIffHistory(cfg: Config, calls: seq<Call>, at: Time)
    requires cfg.failureThreshold <= U32_MAX && Monotone(calls, at)
    ensures Query(cfg, Run(cfg, calls), at).1 <==> AvailableByHistory(cfg, calls, at)
  {
    StateIsHistory(cfg, calls, at);
  }

  /** Asking leaves no trace in the history. */
  lemma {:induction false} ProbesLeaveHistory(calls: seq<Call>, probes: seq<Call>)
    requires forall p :: p in probes ==> p.IsAvailable?
    ensures FailuresSince(calls + probes) == FailuresSince(calls)
    ensures LastFailure(calls + probes) == LastFailure(calls)
    decreases |probes|
  {
    if probes == [] {
      assert calls + probes == calls;
    } else {
      var n := |probes| - 1;
      assert probes[n] in probes && (calls + probes)[..|calls| + n] == calls + probes[..n];
      ProbesLeaveHistory(calls, probes[..n]);
    }
  }

  /**
    The half-open breaker does not limit itself to one probe: once a caller has been let
    through at time `first`, however many ask after it, at whatever times, until the next
    failure is recorded every one is let through as well.
  */
  lemma EveryProbeIsLetThrough(cfg: Config, calls: seq<Call>, first: Time, probes: seq<Call>, at: Time)
    requires cfg.failureThreshold <= U32_MAX && Monotone(calls + ([IsAvailable(first)] + probes), at)
    requires Query(cfg, Run(cfg, calls), first).1
    requires forall p :: p in probes ==> p.IsAvailable?
    ensures Query(cfg, Run(cfg, calls + ([IsAvailable(first)] + probes)), at).1
  {
    var asked := [IsAvailable(first)] + probes;
    MonotoneBefore(calls, asked, at);
    AvailableIffHistory(cfg, calls, first);
    ProbesLeaveHistory(calls, asked);
    AvailableIffHistory(cfg, calls + asked, at);
  }

  lemma MonotoneBefore(calls: seq<Call>, more: seq<Call>, at: Time)
    requires more != [] && more[0].IsAvailable? && Monotone(calls + more, at)
    ensures Monotone(calls, more[0].at) && more[0].at <= at
  {
    var all := calls + more;
    assert all[|calls|] == more[0];
    assert forall i :: 0 <= i < |calls| ==> all[i] == calls[i];
  }
}
