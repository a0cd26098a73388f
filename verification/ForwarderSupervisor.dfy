/**
  The webhook forwarder supervisor (looper-infra): one child process per repository,
  restarted with exponential backoff and given up for good after ten exits.
*/
module ForwarderSupervisor {
  import opened Wrappers

  /** Processes are numbered by spawn, so a number is never used twice. */
  type Pid = nat

  const MAX_CONSECUTIVE_TRANSIENT: nat := 10
  const DEFAULT_MAX_RESPAWN_DELAY: nat := 60

  function Min(a: nat, b: nat): nat {
    if a <= b then a else b
  }

  function Pow2(n: nat): nat {
    if n == 0 then 1 else 2 * Pow2(n - 1)
  }

  /** `2^(attempt - 1)` seconds up to the maximum; the power is taken in 64 bits. */
  function RespawnDelay(attempt: nat, max: nat): nat
    requires attempt <= 64
  {
    Min(Pow2(if attempt == 0 then 0 else attempt - 1), max)
  }

  /** The time slept before the first `n` respawns of one entry. */
  function Backoff(n: nat, max: nat): nat
    requires n <= 64
  {
    if n == 0 then 0 else Backoff(n - 1, max) + RespawnDelay(n, max)
  }

  /** What the supervisor keeps per repository; `failed` says that a last error is recorded. */
  datatype Forwarder = Forwarder(
    child: Option<Pid>, respawnCount: nat, consecutiveTransient: nat, degraded: bool, failed: bool)

  function Started(pid: Pid): Forwarder {
    Forwarder(Some(pid), 0, 0, false, false)
  }

  /** The entry's child runs, or has exited without being reaped. */
  predicate Live(f: Forwarder) {
    f.child.Some? && !f.degraded
  }

  /** The entry after its child was found to have exited; `spawn` is the outcome of the respawn, if tried. */
  function AfterExit(f: Forwarder, spawn: Option<Pid>): Forwarder {
    var n := f.consecutiveTransient + 1;
    if n >= MAX_CONSECUTIVE_TRANSIENT then Forwarder(f.child, f.respawnCount + 1, n, true, true)
    else
      match spawn
      case Some(pid) => Forwarder(Some(pid), f.respawnCount + 1, n, false, false)
      case None => Forwarder(f.child, f.respawnCount + 1, n, true, true)
  }

  // ----- The fleet: the entries and the processes behind them -----

  /**
    `unreaped` are the spawned processes nobody has waited for, `owner` the repository
    of each live child, `leaked` the live children whose entry was overwritten, `slept` the
    seconds slept for the present entry of each repository and `total` those slept in all.
  */
  datatype Fleet = Fleet(
    processes: map<string, Forwarder>, unreaped: set<Pid>, next: Pid,
    owner: map<Pid, string>, leaked: set<Pid>, slept: map<string, nat>, total: nat)

  const NO_FLEET := Fleet(map[], {}, 0, map[], {}, map[], 0)

  ghost predicate EntryOk(max: nat, f: Forwarder, slept: nat) {
    && f.respawnCount == f.consecutiveTransient <= MAX_CONSECUTIVE_TRANSIENT
    && (f.respawnCount == MAX_CONSECUTIVE_TRANSIENT ==> f.degraded)
    && (f.degraded ==> f.respawnCount > 0) && (f.failed <==> f.degraded)
    && slept == Backoff(Min(f.respawnCount, MAX_CONSECUTIVE_TRANSIENT - 1), max)
  }

  ghost predicate EntriesOk(max: nat, fl: Fleet) {
    forall repo :: repo in fl.processes ==>
      repo in fl.slept && EntryOk(max, fl.processes[repo], fl.slept[repo])
  }

  /** The owners are exactly the entries with a live child, one child each. */
  ghost predicate OwnersOk(fl: Fleet) {
    && (forall repo :: repo in fl.processes && Live(fl.processes[repo]) ==>
          fl.processes[repo].child.value in fl.owner && fl.owner[fl.processes[repo].child.value] == repo)
    && (forall pid :: pid in fl.owner ==>
          && fl.owner[pid] in fl.processes
          && Live(fl.processes[fl.owner[pid]])
          && fl.processes[fl.owner[pid]].child.value == pid)
  }

  ghost predicate ProcessesOk(fl: Fleet) {
    && fl.unreaped == fl.owner.Keys + fl.leaked
    && fl.owner.Keys !! fl.leaked
    && (forall pid :: pid in fl.unreaped ==> pid < fl.next)
    && forall repo :: repo in fl.processes && fl.processes[repo].child.Some? && fl.processes[repo].degraded ==>
         fl.processes[repo].child.value < fl.next && fl.processes[repo].child.value !in fl.unreaped
  }

  ghost predicate Inv(max: nat, fl: Fleet) {
    EntriesOk(max, fl) && OwnersOk(fl) && ProcessesOk(fl)
  }

  /** `start_forwarder` when the spawn succeeds; an existing entry is overwritten. */
  function Start(fl: Fleet, repo: string): Fleet {
    var lost := if repo in fl.processes && Live(fl.processes[repo]) then {fl.processes[repo].child.value} else {};
    Fleet(fl.processes[repo := Started(fl.next)], fl.unreaped + {fl.next}, fl.next + 1,
          (fl.owner - lost)[fl.next := repo], fl.leaked + lost, fl.slept[repo := 0], fl.total)
  }

  /** `stop_forwarder`: the child is killed and reaped; the entry stays, without a child. */
  function Stop(fl: Fleet, repo: string): Fleet {
    if repo !in fl.processes then fl
    else
      var f := fl.processes[repo];
      var dead := if Live(f) then {f.child.value} else {};
      fl.(processes := fl.processes[repo := f.(child := None)], unreaped := fl.unreaped - dead, owner := fl.owner - dead)
  }

  function Remove(fl: Fleet, repo: string): Fleet {
    fl.(processes := fl.processes - {repo})
  }

  /** A live child is found to have exited and is reaped; below ten exits a respawn is tried after a delay. */
  ghost function Exit(max: nat, fl: Fleet, repo: string, spawned: bool): Fleet
    requires EntriesOk(max, fl) && repo in fl.processes && Live(fl.processes[repo])
  {
    var f := fl.processes[repo];
    var reaped := fl.(unreaped := fl.unreaped - {f.child.value}, owner := fl.owner - {f.child.value});
    if f.consecutiveTransient + 1 >= MAX_CONSECUTIVE_TRANSIENT then
      reaped.(processes := fl.processes[repo := AfterExit(f, None)])
    else
      var delay := RespawnDelay(f.respawnCount + 1, max);
      var waited := reaped.(slept := fl.slept[repo := fl.slept[repo] + delay], total := fl.total + delay);
      if spawned then
        waited.(processes := fl.processes[repo := AfterExit(f, Some(fl.next))],
                unreaped := reaped.unreaped + {fl.next}, next := fl.next + 1, owner := reaped.owner[fl.next := repo])
      else waited.(processes := fl.processes[repo := AfterExit(f, None)])
  }

  lemma StartKeepsOwners(max: nat, fl: Fleet, repo: string)
    requires Inv(max, fl)
    ensures OwnersOk(Start(fl, repo))
  {
    hide EntriesOk;
    var t := Start(fl, repo);
    forall r | r in t.processes && Live(t.processes[r])
      ensures t.processes[r].child.value in t.owner && t.owner[t.processes[r].child.value] == r
    {
      if r != repo {
        assert t.processes[r] == fl.processes[r] && fl.processes[r].child.value in fl.unreaped;
      }
    }
    forall p | p in t.owner
      ensures && t.owner[p] in t.processes
              && Live(t.processes[t.owner[p]])
              && t.processes[t.owner[p]].child.value == p
    {
      if p != fl.next {
        assert p in fl.owner && t.owner[p] == fl.owner[p] && fl.owner[p] != repo;
      }
    }
  }

  lemma StartKeepsProcesses(max: nat, fl: Fleet, repo: string)
    requires Inv(max, fl)
    ensures ProcessesOk(Start(fl, repo))
  {
    hide EntriesOk;
    var t := Start(fl, repo);
    var lost := t.leaked - fl.leaked;
    assert fl.next !in fl.unreaped && lost <= fl.owner.Keys;
    assert t.owner.Keys == (fl.owner.Keys - lost) + {fl.next};
  }

  lemma StartKeepsInv(max: nat, fl: Fleet, repo: string)
    requires Inv(max, fl)
    ensures Inv(max, Start(fl, repo))
  {
    hide OwnersOk, ProcessesOk;
    StartKeepsOwners(max, fl, repo);
    StartKeepsProcesses(max, fl, repo);
    assert EntryOk(max, Started(fl.next), 0);
  }

  lemma StopKeepsInv(max: nat, fl: Fleet, repo: string)
    requires Inv(max, fl)
    ensures Inv(max, Stop(fl, repo))
  {
    var t := Stop(fl, repo);
    assert EntriesOk(max, t);
    assert OwnersOk(t);
  }

  lemma RemoveKeepsInv(max: nat, fl: Fleet, repo: string)
    requires Inv(max, fl)
    requires repo in fl.processes ==> !Live(fl.processes[repo])
    ensures Inv(max, Remove(fl, repo))
  {
  }

  lemma ExitKeepsEntries(max: nat, fl: Fleet, repo: string, spawned: bool)
    requires EntriesOk(max, fl) && repo in fl.processes && Live(fl.processes[repo])
    ensures EntriesOk(max, Exit(max, fl, repo, spawned))
  {
    var t, f := Exit(max, fl, repo, spawned), fl.processes[repo];
    assert EntryOk(max, f, fl.slept[repo]);
    assert EntryOk(max, t.processes[repo], t.slept[repo]);
    forall r | r in t.processes
      ensures r in t.slept && EntryOk(max, t.processes[r], t.slept[r])
    {
      if r != repo {
        assert r in fl.processes && t.processes[r] == fl.processes[r] && t.slept[r] == fl.slept[r];
      }
    }
  }

  lemma ExitKeepsOwners(max: nat, fl: Fleet, repo: string, spawned: bool)
    requires Inv(max, fl) && repo in fl.processes && Live(fl.processes[repo])
    ensures OwnersOk(Exit(max, fl, repo, spawned))
  {
    hide EntriesOk, Backoff, RespawnDelay;
    var t, pid := Exit(max, fl, repo, spawned), fl.processes[repo].child.value;
    forall r | r in t.processes && Live(t.processes[r])
      ensures t.processes[r].child.value in t.owner && t.owner[t.processes[r].child.value] == r
    {
      if r != repo {
        assert t.processes[r] == fl.processes[r] && fl.processes[r].child.value in fl.unreaped;
      }
    }
    forall p | p in t.owner
      ensures && t.owner[p] in t.processes
              && Live(t.processes[t.owner[p]])
              && t.processes[t.owner[p]].child.value == p
    {
      if p in fl.owner && p != pid {
        assert p in fl.unreaped && fl.owner[p] != repo;
      }
    }
  }

  lemma ExitKeepsProcesses(max: nat, fl: Fleet, repo: string, spawned: bool)
    requires Inv(max, fl) && repo in fl.processes && Live(fl.processes[repo])
    ensures ProcessesOk(Exit(max, fl, repo, spawned))
  {
    hide EntriesOk, Backoff, RespawnDelay;
    var t, pid := Exit(max, fl, repo, spawned), fl.processes[repo].child.value;
    assert pid in fl.owner.Keys && pid in fl.unreaped;
    assert fl.next !in fl.unreaped;
  }

  lemma ExitKeepsInv(max: nat, fl: Fleet, repo: string, spawned: bool)
    requires Inv(max, fl) && repo in fl.processes && Live(fl.processes[repo])
    ensures Inv(max, Exit(max, fl, repo, spawned))
  {
    hide Exit, EntriesOk, OwnersOk, ProcessesOk;
    ExitKeepsEntries(max, fl, repo, spawned);
    ExitKeepsOwners(max, fl, repo, spawned);
    ExitKeepsProcesses(max, fl, repo, spawned);
  }

  // ----- Runs -----

  /**
    `Begin` and `End` are what reconcile does to a repository that is new or no longer
    configured; `Restart` is a direct call of `start_forwarder`, whatever the map holds.
  */
  datatype Action =
    | Begin(repo: string)
    | End(repo: string)
    | ChildExit(repo: string, spawned: bool)
    | StopOne(repo: string)
    | Restart(repo: string)

  ghost function Step(max: nat, fl: Fleet, a: Action): (t: Fleet)
    requires Inv(max, fl)
    ensures Inv(max, t)
  {
    match a
    case Begin(repo) => if repo in fl.processes then fl else (StartKeepsInv(max, fl, repo); Start(fl, repo))
    case StopOne(repo) => StopKeepsInv(max, fl, repo); Stop(fl, repo)
    case Restart(repo) => StartKeepsInv(max, fl, repo); Start(fl, repo)
    case End(repo) =>
      StopKeepsInv(max, fl, repo);
      RemoveKeepsInv(max, Stop(fl, repo), repo);
      Remove(Stop(fl, repo), repo)
    case ChildExit(repo, spawned) =>
      if repo in fl.processes && Live(fl.processes[repo]) then
        ExitKeepsInv(max, fl, repo, spawned);
        Exit(max, fl, repo, spawned)
      else fl
  }

  ghost function Run(max: nat, fl: Fleet, actions: seq<Action>): (t: Fleet)
    requires Inv(max, fl)
    ensures Inv(max, t)
    decreases |actions|
  {
    if actions == [] then fl
    else Step(max, Run(max, fl, actions[..|actions| - 1]), actions[|actions| - 1])
  }

  ghost function LiveChildren(fl: Fleet): set<Pid> {
    set repo | repo in fl.processes && Live(fl.processes[repo]) :: fl.processes[repo].child.value
  }

  ghost predicate OneChildEach(fl: Fleet) {
    forall r, s :: r in fl.processes && s in fl.processes && r != s && Live(fl.processes[r]) && Live(fl.processes[s]) ==>
      fl.processes[r].child.value != fl.processes[s].child.value
  }

  lemma UnreapedAreOwned(max: nat, fl: Fleet)
    requires Inv(max, fl)
    ensures fl.unreaped == LiveChildren(fl) + fl.leaked
    ensures LiveChildren(fl) !! fl.leaked
    ensures OneChildEach(fl)
  {
    forall pid | pid in fl.owner
      ensures pid in LiveChildren(fl)
    {
      var repo := fl.owner[pid];
      assert repo in fl.processes && fl.processes[repo].child.value == pid;
    }
    assert LiveChildren(fl) == fl.owner.Keys;
  }

  predicate LiveIn(fl: Fleet, repo: string) {
    repo in fl.processes && Live(fl.processes[repo])
  }

  /** Starting over an existing live entry is the one call that loses a process. */
  lemma RestartLosesTheChild(max: nat, fl: Fleet, repo: string)
    requires Inv(max, fl)
    ensures Start(fl, repo).leaked == fl.leaked <==> !LiveIn(fl, repo)
    ensures LiveIn(fl, repo) ==>
              var pid, t := fl.processes[repo].child.value, Start(fl, repo);
              pid in t.unreaped && pid !in LiveChildren(t)
  {
    StartKeepsInv(max, fl, repo);
    UnreapedAreOwned(max, Start(fl, repo));
    if LiveIn(fl, repo) {
      assert fl.processes[repo].child.value in fl.owner.Keys;
    }
  }

  /** A restart over a live entry. */
  predicate Leaks(fl: Fleet, a: Action) {
    a.Restart? && LiveIn(fl, a.repo)
  }

  lemma StepLeaksIff(max: nat, fl: Fleet, a: Action)
    requires Inv(max, fl)
    ensures fl.leaked <= Step(max, fl, a).leaked
    ensures Step(max, fl, a).leaked == fl.leaked <==> !Leaks(fl, a)
  {
    hide Inv, LiveIn;
    if a.Restart? {
      RestartLosesTheChild(max, fl, a.repo);
    }
  }

  /** Some action of the run is a restart over a live entry. */
  ghost predicate SomeLeak(max: nat, fl: Fleet, actions: seq<Action>)
    requires Inv(max, fl)
    decreases |actions|
  {
    actions != [] &&
    var n := |actions| - 1;
    SomeLeak(max, fl, actions[..n]) || Leaks(Run(max, fl, actions[..n]), actions[n])
  }

  lemma {:induction false} LeaksIff(max: nat, fl: Fleet, actions: seq<Action>)
    requires Inv(max, fl)
    ensures fl.leaked <= Run(max, fl, actions).leaked
    ensures Run(max, fl, actions).leaked == fl.leaked <==> !SomeLeak(max, fl, actions)
    decreases |actions|
  {
    hide Inv, Step, Leaks;
    if actions != [] {
      var n := |actions| - 1;
      LeaksIff(max, fl, actions[..n]);
      StepLeaksIff(max, Run(max, fl, actions[..n]), actions[n]);
    }
  }

  /**
    Over every run of reconcile, stop and start: the processes not yet reaped are exactly
    the live children in the map if and only if no start hit a live entry; and no process
    ever belongs to two repositories.
  */
  lemma NoProcessIsLost(max: nat, actions: seq<Action>)
    ensures var fl := Run(max, NO_FLEET, actions);
            && (fl.unreaped == LiveChildren(fl) <==> !SomeLeak(max, NO_FLEET, actions))
            && OneChildEach(fl)
  {
    LeaksIff(max, NO_FLEET, actions);
    UnreapedAreOwned(max, Run(max, NO_FLEET, actions));
  }

  /** No action ends the repository or starts it anew. */
  predicate Keeps(actions: seq<Action>, repo: string) {
    forall k :: 0 <= k < |actions| ==> actions[k] != End(repo) && actions[k] != Restart(repo)
  }

  /** Still degraded, with the same counters and the same time slept; the dead child may have been dropped. */
  ghost predicate SameDegraded(s: Fleet, t: Fleet, repo: string) {
    && repo in s.processes && repo in t.processes
    && s.processes[repo].degraded
    && t.processes[repo].(child := None) == s.processes[repo].(child := None)
    && (t.processes[repo].child == s.processes[repo].child || t.processes[repo].child == None)
    && repo in s.slept && repo in t.slept && t.slept[repo] == s.slept[repo]
  }

  lemma StepKeepsDegraded(max: nat, fl: Fleet, a: Action, repo: string)
    requires Inv(max, fl) && repo in fl.processes && fl.processes[repo].degraded
    requires a != End(repo) && a != Restart(repo)
    ensures SameDegraded(fl, Step(max, fl, a), repo)
  {
    hide OwnersOk, ProcessesOk, AfterExit;
  }

  lemma StepKeepsStopped(max: nat, fl: Fleet, a: Action, repo: string)
    requires Inv(max, fl) && repo in fl.processes && fl.processes[repo].child.None?
    requires a != End(repo) && a != Restart(repo)
    ensures repo in Step(max, fl, a).processes
    ensures Step(max, fl, a).processes[repo] == fl.processes[repo]
  {
    hide OwnersOk, ProcessesOk, AfterExit;
  }

  /** Degraded is final: no respawn, no further delay, until the repository is no longer configured. */
  lemma {:induction false} DegradedIsFinal(max: nat, fl: Fleet, actions: seq<Action>, repo: string)
    requires Inv(max, fl) && repo in fl.processes && fl.processes[repo].degraded
    requires Keeps(actions, repo)
    ensures SameDegraded(fl, Run(max, fl, actions), repo)
    decreases |actions|
  {
    assert repo in fl.slept;
    hide Inv, Step;
    if actions != [] {
      var n := |actions| - 1;
      DegradedIsFinal(max, fl, actions[..n], repo);
      StepKeepsDegraded(max, Run(max, fl, actions[..n]), actions[n], repo);
    }
  }

  /** A stopped forwarder stays stopped as long as it is configured: the entry without a child is never restarted. */
  lemma {:induction false} StoppedStaysStopped(max: nat, fl: Fleet, actions: seq<Action>, repo: string)
    requires Inv(max, fl) && repo in fl.processes && fl.processes[repo].child.None?
    requires Keeps(actions, repo)
    ensures repo in Run(max, fl, actions).processes
    ensures Run(max, fl, actions).processes[repo] == fl.processes[repo]
    decreases |actions|
  {
    hide Inv, Step;
    if actions != [] {
      var n := |actions| - 1;
      StoppedStaysStopped(max, fl, actions[..n], repo);
      StepKeepsStopped(max, Run(max, fl, actions[..n]), actions[n], repo);
    }
  }

  // ----- Which entries are live after reconcile -----

  /** The exit that the action handles is not followed by a successful respawn. */
  predicate Fatal(fl: Fleet, a: Action, repo: string) {
    && a.ChildExit? && a.repo == repo && LiveIn(fl, repo)
    && !(a.spawned && fl.processes[repo].consecutiveTransient + 1 < MAX_CONSECUTIVE_TRANSIENT)
  }

  ghost predicate SomeFatal(max: nat, fl: Fleet, actions: seq<Action>, repo: string)
    requires Inv(max, fl)
    decreases |actions|
  {
    actions != [] &&
    var n := |actions| - 1;
    SomeFatal(max, fl, actions[..n], repo) || Fatal(Run(max, fl, actions[..n]), actions[n], repo)
  }

  lemma StepLiveIff(max: nat, fl: Fleet, a: Action, repo: string)
    requires Inv(max, fl) && a != StopOne(repo) && a != End(repo) && a != Restart(repo)
    ensures var t := Step(max, fl, a);
            && (repo in t.processes <==> repo in fl.processes || a == Begin(repo))
            && (LiveIn(t, repo) <==>
                (LiveIn(fl, repo) && !Fatal(fl, a, repo)) || (repo !in fl.processes && a == Begin(repo)))
  {
    hide OwnersOk, ProcessesOk, EntryOk, Backoff, RespawnDelay;
  }

  /**
    The repository has a live entry afterwards if and only if it had one, or had none and
    was started, and every exit that was found was followed by a successful respawn.
  */
  ghost predicate LivesOn(max: nat, before: Fleet, actions: seq<Action>, after: Fleet, repo: string)
    requires Inv(max, before)
  {
    && (repo in after.processes <==> repo in before.processes || Begin(repo) in actions)
    && (LiveIn(after, repo) <==>
        && (LiveIn(before, repo) || (repo !in before.processes && Begin(repo) in actions))
        && !SomeFatal(max, before, actions, repo))
  }

  /** The exact condition holds over every run that neither stops nor drops nor restarts the repository. */
  lemma {:induction false} LiveAfterIff(max: nat, fl: Fleet, actions: seq<Action>, repo: string)
    requires Inv(max, fl)
    requires forall a :: a in actions ==> a != StopOne(repo) && a != End(repo) && a != Restart(repo)
    ensures LivesOn(max, fl, actions, Run(max, fl, actions), repo)
    ensures SomeFatal(max, fl, actions, repo) ==> repo in Run(max, fl, actions).processes
    decreases |actions|
  {
    hide Inv, Step, LiveIn, Fatal;
    if actions != [] {
      var n := |actions| - 1;
      assert actions == actions[..n] + [actions[n]] && actions[n] in actions;
      assert forall a :: a in actions[..n] ==> a in actions;
      LiveAfterIff(max, fl, actions[..n], repo);
      StepLiveIff(max, Run(max, fl, actions[..n]), actions[n], repo);
      FatalIsLive(Run(max, fl, actions[..n]), actions[n], repo);
    }
  }

  lemma FatalIsLive(fl: Fleet, a: Action, repo: string)
    ensures Fatal(fl, a, repo) ==> LiveIn(fl, repo)
    ensures LiveIn(fl, repo) ==> repo in fl.processes
  {
  }

  // ----- Backoff -----

  lemma {:induction false} Pow2Grows(n: nat, m: nat)
    requires n <= m
    ensures 1 <= Pow2(n) <= Pow2(m)
    decreases m
  {
    if n < m {
      Pow2Grows(n, m - 1);
    } else if n > 0 {
      Pow2Grows(n - 1, n - 1);
    }
  }

  lemma {:induction false} BackoffGrows(n: nat, m: nat, max: nat)
    requires n <= m <= 64
    ensures Backoff(n, max) <= Backoff(m, max)
    decreases m - n
  {
    if n < m {
      BackoffGrows(n, m - 1, max);
    }
  }

  /**
    The delays written out: at most the maximum, never shrinking, one second or the maximum
    before the first respawn, and each next one double the one before or the maximum.
  */
  lemma DelaysGrow(attempt: nat, max: nat)
    requires 1 <= attempt < 64
    ensures RespawnDelay(attempt, max) <= RespawnDelay(attempt + 1, max) <= max
    ensures RespawnDelay(0, max) == RespawnDelay(1, max) == if max < 1 then max else 1
    ensures RespawnDelay(attempt + 1, max) ==
            if 2 * RespawnDelay(attempt, max) < max then 2 * RespawnDelay(attempt, max) else max
  {
    Pow2Grows(attempt - 1, attempt);
  }

  /** Handling an exit takes the delay of its respawn: none at the tenth exit. */
  lemma ExitSleeps(max: nat, fl: Fleet, repo: string, spawned: bool)
    requires Inv(max, fl) && LiveIn(fl, repo)
    ensures var t := Exit(max, fl, repo, spawned);
            var n := fl.processes[repo].respawnCount;
            && n < 10 && repo in fl.slept
            && t.total == fl.total + (if n < 9 then RespawnDelay(n + 1, max) else 0)
            && t.slept == fl.slept[repo := fl.slept[repo] + (if n < 9 then RespawnDelay(n + 1, max) else 0)]
            && t.processes[repo].respawnCount == n + 1
            && (t.processes[repo].degraded <==> n == 9 || !spawned)
            && (t.processes[repo].failed <==> n == 9 || !spawned)
            && (t.processes[repo].child == if n < 9 && spawned then Some(fl.next) else fl.processes[repo].child)
  {
    hide OwnersOk, ProcessesOk, Backoff, RespawnDelay;
    assert EntryOk(max, fl.processes[repo], fl.slept[repo]);
  }

  /**
    In every run, per entry: the two counters are equal and at most ten, no respawn
    delay needs a power above 2^8, and all the sleeping of one entry stays within the
    nine delays, which is 243 seconds with the default maximum.
  */
  lemma BackoffIsBounded(max: nat, actions: seq<Action>, repo: string)
    ensures var fl := Run(max, NO_FLEET, actions);
            repo in fl.processes ==>
              var f := fl.processes[repo];
              && f.respawnCount == f.consecutiveTransient <= 10
              && (Live(f) && f.respawnCount < 9 ==> Pow2(f.respawnCount) <= 256)
              && repo in fl.slept && fl.slept[repo] <= Backoff(9, max)
  {
    BackoffFromInv(max, Run(max, NO_FLEET, actions), repo);
  }

  lemma BackoffFromInv(max: nat, fl: Fleet, repo: string)
    requires Inv(max, fl)
    ensures repo in fl.processes ==>
              var f := fl.processes[repo];
              && f.respawnCount == f.consecutiveTransient <= 10
              && (Live(f) && f.respawnCount < 9 ==> Pow2(f.respawnCount) <= 256)
              && repo in fl.slept && fl.slept[repo] <= Backoff(9, max)
  {
    if repo in fl.processes {
      var f := fl.processes[repo];
      assert EntryOk(max, f, fl.slept[repo]);
      BackoffGrows(Min(f.respawnCount, MAX_CONSECUTIVE_TRANSIENT - 1), MAX_CONSECUTIVE_TRANSIENT - 1, max);
      if f.respawnCount <= 8 {
        Pow2Grows(f.respawnCount, 8);
      }
      assert Pow2(8) == 256;
    }
  }

  lemma DefaultBackoff()
    ensures Backoff(9, DEFAULT_MAX_RESPAWN_DELAY) == 243
    ensures forall n :: 1 <= n <= 9 ==>
              RespawnDelay(n, DEFAULT_MAX_RESPAWN_DELAY) == [1, 2, 4, 8, 16, 32, 60, 60, 60][n - 1]
  {
    var m := DEFAULT_MAX_RESPAWN_DELAY;
    assert Pow2(2) == 4 && Pow2(4) == 16 && Pow2(6) == 64 && Pow2(8) == 256;
    assert Backoff(3, m) == 7;
    assert Backoff(6, m) == 63;
  }

  // ----- The supervisor in place -----

  /** The processes spawned by the supervisor that nobody has waited for yet. */
  class ProcessTable {
    var next: Pid
    var unreaped: set<Pid>
    /** The seconds slept between a found exit and the respawn. */
    var slept: nat
    /** The number of failed spawns, and the processes that have been asked whether they have exited. */
    ghost var failures: nat
    ghost var polled: set<Pid>

    constructor ()
      ensures next == 0 && unreaped == {} && slept == 0 && failures == 0 && polled == {}
    {
      next, unreaped, slept, failures, polled := 0, {}, 0, 0, {};
    }

    /** The supervising thread sleeps. */
    method Sleep(seconds: nat)
      modifies this`slept
      ensures slept == old(slept) + seconds
    {
      slept := slept + seconds;
    }

    /** Spawning may fail. */
    method Spawn() returns (pid: Option<Pid>)
      modifies this
      ensures polled == old(polled) && slept == old(slept)
      ensures pid.Some? ==>
                && pid.value == old(next) && next == old(next) + 1 && unreaped == old(unreaped) + {pid.value}
                && failures == old(failures)
      ensures pid.None? ==> next == old(next) && unreaped == old(unreaped) && failures == old(failures) + 1
    {
      var fails: bool := *;
      if fails {
        failures := failures + 1;
        return None;
      }
      pid := Some(next);
      unreaped := unreaped + {next};
      next := next + 1;
    }

    /** `try_wait`: whether the process has exited, in which case it is reaped. */
    method TryWait(pid: Pid) returns (exited: bool)
      modifies this
      ensures next == old(next) && slept == old(slept) && failures == old(failures) && polled == old(polled) + {pid}
      ensures unreaped == if exited then old(unreaped) - {pid} else old(unreaped)
    {
      polled := polled + {pid};
      exited := *;
      if exited {
        unreaped := unreaped - {pid};
      }
    }

    /** `kill` and `wait`; both are harmless on a child that has been reaped before. */
    method KillAndWait(pid: Pid)
      modifies this
      ensures next == old(next) && slept == old(slept) && failures == old(failures) && polled == old(polled)
      ensures unreaped == old(unreaped) - {pid}
    {
      unreaped := unreaped - {pid};
    }
  }

  class Supervisor {
    const maxDelay: nat
    const os: ProcessTable
    var processes: map<string, Forwarder>
    ghost var fleet: Fleet

    ghost predicate Valid()
      reads this, os
    {
      && fleet.processes == processes
      && fleet.unreaped == os.unreaped && fleet.next == os.next && fleet.total == os.slept
      && Inv(maxDelay, fleet)
    }

    constructor (maxDelay: nat)
      ensures Valid() && fresh(os) && this.maxDelay == maxDelay && fleet == NO_FLEET
    {
      this.maxDelay := maxDelay;
      os := new ProcessTable();
      processes, fleet := map[], NO_FLEET;
    }

    method StartForwarder(repo: string) returns (ok: bool)
      requires Valid()
      modifies this, os
      ensures Valid() && fleet == if ok then Start(old(fleet), repo) else old(fleet)
      ensures os.polled == old(os.polled) && os.failures == old(os.failures) + if ok then 0 else 1
    {
      hide Inv;
      var child := os.Spawn();
      ok := child.Some?;
      if ok {
        processes := processes[repo := Started(child.value)];
        StartKeepsInv(maxDelay, fleet, repo);
        fleet := Start(fleet, repo);
      }
    }

    method StopForwarder(repo: string)
      requires Valid()
      modifies this, os
      ensures Valid() && fleet == Stop(old(fleet), repo)
      ensures os.polled == old(os.polled) && os.failures == old(os.failures)
    {
      if repo in processes {
        var f := processes[repo];
        if f.child.Some? {
          os.KillAndWait(f.child.value);
          processes := processes[repo := f.(child := None)];
        }
        assert f.(child := None) == f || f.child.Some?;
        assert processes == old(processes)[repo := f.(child := None)];
      }
      StopKeepsInv(maxDelay, fleet, repo);
      fleet := Stop(fleet, repo);
    }

    /** Afterwards no entry has a child, and every process started through reconcile has been reaped. */
    method StopAll()
      requires Valid()
      modifies this, os
      ensures Valid() && processes.Keys == old(processes.Keys)
      ensures forall repo :: repo in processes ==> processes[repo] == old(processes)[repo].(child := None)
      ensures os.unreaped == fleet.leaked == old(fleet.leaked)
    {
      hide Inv;
      var todo := processes.Keys;
      while todo != {}
        invariant Valid() && fleet.leaked == old(fleet.leaked)
        invariant todo <= processes.Keys == old(processes.Keys)
        invariant forall repo :: repo in processes ==>
                    processes[repo] == if repo in todo then old(processes)[repo] else old(processes)[repo].(child := None)
        decreases todo
      {
        var repo :| repo in todo;
        StopForwarder(repo);
        todo := todo - {repo};
      }
      UnreapedAreOwned(maxDelay, fleet);
      assert LiveChildren(fleet) == {};
    }

    /** The last part of reconcile, for one repository: an exit that has happened is acted upon. */
    method CheckForwarder(repo: string) returns (ghost actions: seq<Action>)
      requires Valid()
      modifies this, os
      ensures Valid() && fleet == Run(maxDelay, old(fleet), actions)
      ensures forall a :: a in actions ==> a.ChildExit? && a.repo == repo
      ensures actions != [] ==> repo in old(processes) && old(processes)[repo].respawnCount < 10
      ensures os.failures >= old(os.failures) && os.polled >= old(os.polled) && os.next >= old(os.next)
      ensures repo in old(processes) && Live(old(processes)[repo]) ==> old(processes)[repo].child.value in os.polled
      ensures os.slept == old(os.slept) + if actions == [] || old(processes)[repo].respawnCount >= 9 then 0
                                          else RespawnDelay(old(processes)[repo].respawnCount + 1, maxDelay)
      ensures forall r :: r in old(processes) ==> r in processes && (r != repo ==> processes[r] == old(processes)[r])
      ensures repo in old(processes) && Live(processes[repo]) ==>
                processes[repo] == old(processes)[repo] || processes[repo].child.value >= old(os.next)
    {
      hide Inv, Step, Run;
      actions := [];
      RunNone(maxDelay, fleet);
      if repo in processes {
        var f := processes[repo];
        if !f.degraded && f.child.Some? {
          LiveEntry(maxDelay, fleet, repo);
          var exited := os.TryWait(f.child.value);
          if exited {
            ghost var spawned := false;
            if f.consecutiveTransient + 1 >= MAX_CONSECUTIVE_TRANSIENT {
              f := Forwarder(f.child, f.respawnCount + 1, f.consecutiveTransient + 1, true, true);
            } else {
              os.Sleep(RespawnDelay(f.respawnCount + 1, maxDelay));
              var child := os.Spawn();
              spawned := child.Some?;
              if child.Some? {
                f := Forwarder(child, f.respawnCount + 1, f.consecutiveTransient + 1, false, false);
              } else {
                f := Forwarder(f.child, f.respawnCount + 1, f.consecutiveTransient + 1, true, true);
              }
            }
            processes := processes[repo := f];
            ExitKeepsInv(maxDelay, fleet, repo, spawned);
            actions := [ChildExit(repo, spawned)];
            ExitIsStep(maxDelay, fleet, repo, spawned);
            RunOne(maxDelay, fleet, actions[0]);
            fleet := Exit(maxDelay, fleet, repo, spawned);
          }
        }
      }
    }

    /** The first part of reconcile: configured repositories without an entry are started. */
    method StartMissing(configured: seq<string>) returns (ghost actions: seq<Action>)
      requires Valid()
      modifies this, os
      ensures Valid() && fleet == Run(maxDelay, old(fleet), actions) && ReconcileActions(actions, configured)
      ensures forall repo :: repo in old(processes) ==> repo in processes
      ensures os.failures >= old(os.failures) && os.next >= old(os.next)
      ensures os.failures == old(os.failures) ==> forall repo :: repo in configured ==> repo in processes
    {
      hide Inv, Step, Run;
      actions := [];
      RunNone(maxDelay, fleet);
      for i := 0 to |configured|
        invariant Valid() && fleet == Run(maxDelay, old(fleet), actions) && ReconcileActions(actions, configured)
        invariant forall repo :: repo in old(processes) ==> repo in processes
        invariant os.failures >= old(os.failures) && os.next >= old(os.next)
        invariant os.failures == old(os.failures) ==> forall j :: 0 <= j < i ==> configured[j] in processes
      {
        var repo := configured[i];
        if repo !in processes {
          ghost var before := fleet;
          var ok := StartForwarder(repo);
          if ok {
            BeginIsStart(maxDelay, before, repo);
            RunSnoc(maxDelay, old(fleet), actions, Begin(repo));
            actions := actions + [Begin(repo)];
          }
        }
      }
    }

    /** The second part of reconcile: entries of other repositories are stopped and removed. */
    method StopUnconfigured(configured: seq<string>) returns (ghost actions: seq<Action>)
      requires Valid()
      modifies this, os
      ensures Valid() && fleet == Run(maxDelay, old(fleet), actions) && ReconcileActions(actions, configured)
      ensures forall repo :: repo in processes <==> repo in old(processes) && repo in configured
      ensures os.failures == old(os.failures) && os.next == old(os.next)
    {
      hide Inv, Step, Run;
      actions := [];
      RunNone(maxDelay, fleet);
      var keys := processes.Keys;
      while keys != {}
        invariant Valid() && fleet == Run(maxDelay, old(fleet), actions) && ReconcileActions(actions, configured)
        invariant forall repo :: repo in processes ==> repo in old(processes) && (repo in configured || repo in keys)
        invariant forall repo :: repo in old(processes) && repo in configured ==> repo in processes
        invariant os.failures == old(os.failures) && os.next == old(os.next)
        decreases keys
      {
        var repo :| repo in keys;
        keys := keys - {repo};
        if repo !in configured {
          ghost var before := fleet;
          StopForwarder(repo);
          processes := processes - {repo};
          StopThenRemove(maxDelay, before, repo);
          fleet := Remove(fleet, repo);
          RunSnoc(maxDelay, old(fleet), actions, End(repo));
          actions := actions + [End(repo)];
        }
      }
    }

    /** The last part of reconcile: every configured repository with a live child is checked. */
    method CheckConfigured(configured: seq<string>) returns (ghost actions: seq<Action>)
      requires Valid() && forall repo :: repo in processes ==> repo in configured
      modifies this, os
      ensures Valid() && fleet == Run(maxDelay, old(fleet), actions) && ReconcileActions(actions, configured)
      ensures processes.Keys == old(processes).Keys
      ensures os.failures >= old(os.failures)
      ensures forall repo :: repo in processes && Live(processes[repo]) ==>
                Asked(processes[repo], os.polled, old(os.next))
    {
      hide Inv, Step, Run;
      actions := [];
      RunNone(maxDelay, fleet);
      for i := 0 to |configured|
        invariant Valid() && fleet == Run(maxDelay, old(fleet), actions) && ReconcileActions(actions, configured)
        invariant processes.Keys == old(processes).Keys
        invariant os.failures >= old(os.failures) && os.next >= old(os.next)
        invariant forall j :: 0 <= j < i && configured[j] in processes && Live(processes[configured[j]]) ==>
                    Asked(processes[configured[j]], os.polled, old(os.next))
      {
        ghost var before := fleet;
        ghost var more := CheckForwarder(configured[i]);
        ExitsKeepKeys(maxDelay, before, more);
        RunConcat(maxDelay, old(fleet), actions, more);
        actions := actions + more;
      }
    }

    /**
      Reconcile is a run of begins for configured repositories, ends for the others and
      exits.  Afterwards every entry belongs to a configured repository; unless a spawn
      failed every configured repository has an entry; and every live child that was
      there before has been asked whether it has exited.
    */
    method Reconcile(configured: seq<string>) returns (ghost actions: seq<Action>)
      requires Valid()
      modifies this, os
      ensures Valid() && fleet == Run(maxDelay, old(fleet), actions)
      ensures ReconcileActions(actions, configured)
      ensures forall repo :: repo in configured ==> LivesOn(maxDelay, old(fleet), actions, fleet, repo)
      ensures forall repo :: repo in processes ==> repo in configured
      ensures forall repo :: repo in old(processes) && repo in configured ==> repo in processes
      ensures os.failures == old(os.failures) ==> forall repo :: repo in configured ==> repo in processes
      ensures forall repo :: repo in processes && Live(processes[repo]) ==>
                Asked(processes[repo], os.polled, old(os.next))
    {
      hide Inv, Step, Run, LivesOn;
      ghost var begins := StartMissing(configured);
      ghost var ends := StopUnconfigured(configured);
      ghost var exits := CheckConfigured(configured);
      RunConcat(maxDelay, old(fleet), begins, ends);
      RunConcat(maxDelay, old(fleet), begins + ends, exits);
      actions := begins + ends + exits;
      ReconcileLives(maxDelay, old(fleet), actions, configured);
    }
  }

  /** The child has been asked whether it has exited, or is new. */
  ghost predicate Asked(f: Forwarder, polled: set<Pid>, next: Pid) {
    f.child.Some? && (f.child.value in polled || f.child.value >= next)
  }

  ghost predicate ReconcileActions(actions: seq<Action>, configured: seq<string>) {
    forall a :: a in actions ==> !a.StopOne? && !a.Restart? && (a.End? <==> a.repo !in configured)
  }

  lemma ReconcileLives(max: nat, fl: Fleet, actions: seq<Action>, configured: seq<string>)
    requires Inv(max, fl) && ReconcileActions(actions, configured)
    ensures forall repo :: repo in configured ==> LivesOn(max, fl, actions, Run(max, fl, actions), repo)
  {
    hide Inv, Run, LiveIn, SomeFatal;
    forall repo | repo in configured
      ensures LivesOn(max, fl, actions, Run(max, fl, actions), repo)
    {
      LiveAfterIff(max, fl, actions, repo);
    }
  }

  lemma RunNone(max: nat, fl: Fleet)
    requires Inv(max, fl)
    ensures Run(max, fl, []) == fl
  {
  }

  lemma LiveEntry(max: nat, fl: Fleet, repo: string)
    requires Inv(max, fl) && repo in fl.processes && Live(fl.processes[repo])
    ensures EntriesOk(max, fl)
    ensures fl.processes[repo].respawnCount == fl.processes[repo].consecutiveTransient < MAX_CONSECUTIVE_TRANSIENT
  {
    assert EntryOk(max, fl.processes[repo], fl.slept[repo]);
  }

  lemma ExitIsStep(max: nat, fl: Fleet, repo: string, spawned: bool)
    requires Inv(max, fl) && repo in fl.processes && Live(fl.processes[repo])
    ensures Step(max, fl, ChildExit(repo, spawned)) == Exit(max, fl, repo, spawned)
  {
  }

  lemma RunOne(max: nat, fl: Fleet, a: Action)
    requires Inv(max, fl)
    ensures Run(max, fl, [a]) == Step(max, fl, a)
  {
    assert [a][..0] == [];
    assert Run(max, fl, [a][..0]) == fl;
  }

  lemma RunSnoc(max: nat, fl: Fleet, actions: seq<Action>, a: Action)
    requires Inv(max, fl)
    ensures Run(max, fl, actions + [a]) == Step(max, Run(max, fl, actions), a)
  {
    assert (actions + [a])[..|actions|] == actions;
  }

  lemma {:induction false} RunConcat(max: nat, fl: Fleet, a: seq<Action>, b: seq<Action>)
    requires Inv(max, fl)
    ensures Run(max, fl, a + b) == Run(max, Run(max, fl, a), b)
    decreases |b|
  {
    hide Inv, Step;
    if b == [] {
      assert a + b == a;
    } else {
      var n := |b| - 1;
      RunConcat(max, fl, a, b[..n]);
      RunSnoc(max, fl, a + b[..n], b[n]);
      assert a + b == (a + b[..n]) + [b[n]];
    }
  }

  lemma BeginIsStart(max: nat, fl: Fleet, repo: string)
    requires Inv(max, fl) && repo !in fl.processes
    ensures Step(max, fl, Begin(repo)) == Start(fl, repo)
  {
  }

  lemma StopThenRemove(max: nat, fl: Fleet, repo: string)
    requires Inv(max, fl)
    ensures Step(max, fl, End(repo)) == Remove(Stop(fl, repo), repo)
    ensures Inv(max, Remove(Stop(fl, repo), repo))
  {
    StopKeepsInv(max, fl, repo);
    RemoveKeepsInv(max, Stop(fl, repo), repo);
  }

  lemma {:induction false} ExitsKeepKeys(max: nat, fl: Fleet, actions: seq<Action>)
    requires Inv(max, fl) && forall a :: a in actions ==> a.ChildExit?
    ensures Run(max, fl, actions).processes.Keys == fl.processes.Keys
    decreases |actions|
  {
    if actions != [] {
      var n := |actions| - 1;
      ExitsKeepKeys(max, fl, actions[..n]);
      assert actions[n] in actions;
    }
  }
}
