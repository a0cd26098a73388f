/**
  The push operation of the git gateway (looper-git) as a protocol: any number of
  pushers, each with its own worktree HEAD, first check and then push, and the two
  steps of different pushers interleave freely at one remote.
*/
module PushProtocol {
  import opened Wrappers

  // ----- Commits -----

  /** Commits are numbered so that parents come first: a commit names its parents by hash. */
  type Commit = nat

  datatype History = History(parents: map<Commit, set<Commit>>)

  ghost predicate WellFormed(h: History) {
    forall c, p :: c in h.parents && p in h.parents[c] ==> p < c
  }

  /** `git merge-base --is-ancestor`: a commit counts as its own ancestor. */
  ghost predicate IsAncestor(h: History, a: Commit, d: Commit)
    requires WellFormed(h)
    decreases d
  {
    a == d || (d in h.parents && exists p :: p in h.parents[d] && IsAncestor(h, a, p))
  }

  lemma {:induction false} AncestorTransitive(h: History, a: Commit, b: Commit, c: Commit)
    requires WellFormed(h) && IsAncestor(h, a, b) && IsAncestor(h, b, c)
    ensures IsAncestor(h, a, c)
    decreases c
  {
    if b != c {
      var p :| p in h.parents[c] && IsAncestor(h, b, p);
      AncestorTransitive(h, a, b, p);
    }
  }

  lemma {:induction false} AncestorIsOlder(h: History, a: Commit, d: Commit)
    requires WellFormed(h) && IsAncestor(h, a, d)
    ensures a <= d
    decreases d
  {
    if a != d {
      var p :| p in h.parents[d] && IsAncestor(h, a, p);
      AncestorIsOlder(h, a, p);
    }
  }

  /** A way through the parents from `d` back to `a`. */
  ghost predicate IsLine(h: History, line: seq<Commit>, a: Commit, d: Commit) {
    && line != [] && line[0] == d && line[|line| - 1] == a
    && forall k :: 0 <= k < |line| - 1 ==> line[k] in h.parents && line[k + 1] in h.parents[line[k]]
  }

  lemma {:induction false} LineOfAncestor(h: History, a: Commit, d: Commit) returns (line: seq<Commit>)
    requires WellFormed(h) && IsAncestor(h, a, d)
    ensures IsLine(h, line, a, d)
    decreases d
  {
    if a == d {
      line := [d];
    } else {
      var p :| p in h.parents[d] && IsAncestor(h, a, p);
      var rest := LineOfAncestor(h, a, p);
      line := [d] + rest;
    }
  }

  lemma {:induction false} AncestorOfLine(h: History, line: seq<Commit>, a: Commit, d: Commit)
    requires WellFormed(h) && IsLine(h, line, a, d)
    ensures IsAncestor(h, a, d)
    decreases |line|
  {
    if |line| > 1 {
      assert IsLine(h, line[1..], a, line[1]);
      AncestorOfLine(h, line[1..], a, line[1]);
    }
  }

  /** A commit is an ancestor exactly if some chain of parents, possibly empty, leads back to it. */
  lemma AncestorIff(h: History, a: Commit, d: Commit)
    requires WellFormed(h)
    ensures IsAncestor(h, a, d) <==> exists line :: IsLine(h, line, a, d)
  {
    if IsAncestor(h, a, d) {
      var line := LineOfAncestor(h, a, d);
    }
    if line :| IsLine(h, line, a, d) {
      AncestorOfLine(h, line, a, d);
    }
  }

  // ----- Pushers and the remote -----

  datatype PushInput = PushInput(
    branch: string, head: Commit, expectedHead: Option<Commit>, protectedBranches: seq<string>)

  datatype PushError =
    | ProtectedBranch
    | RemoteHeadChanged(expected: Commit, actual: Option<Commit>)
    | PushRejected

  datatype Stage = NotStarted | Checked | Pushed | Refused(error: PushError)

  datatype Pusher = Pusher(input: PushInput, stage: Stage)

  /** One entry of the remote's reflog: which pusher moved which branch from where to where. */
  datatype Move = Move(pusher: nat, branch: string, from: Option<Commit>, to: Commit)

  datatype System = System(remote: map<string, Commit>, pushers: seq<Pusher>, reflog: seq<Move>)

  datatype Action = Check(i: nat) | Push(i: nat)

  function RemoteHead(remote: map<string, Commit>, branch: string): Option<Commit> {
    if branch in remote then Some(remote[branch]) else None
  }

  /** Branch guard, then the ancestor test when an expected head is given. */
  ghost function CheckStage(h: History, remote: map<string, Commit>, input: PushInput): Stage
    requires WellFormed(h)
  {
    if input.branch in input.protectedBranches then Refused(ProtectedBranch)
    else
      match input.expectedHead
      case None => Checked
      case Some(e) =>
        if IsAncestor(h, e, input.head) then Checked
        else Refused(RemoteHeadChanged(e, RemoteHead(remote, input.branch)))
  }

  /**
    What git accepts.  A branch already at HEAD is up to date.  With a lease the
    branch must still be at the expected commit; without one the push must create
    the branch or be a fast-forward.
  */
  ghost predicate Accepts(h: History, remote: map<string, Commit>, input: PushInput)
    requires WellFormed(h)
  {
    var current := RemoteHead(remote, input.branch);
    || current == Some(input.head)
    || (match input.expectedHead
        case Some(e) => current == Some(e)
        case None => current.None? || IsAncestor(h, current.value, input.head))
  }

  ghost function Step(h: History, s: System, a: Action): System
    requires WellFormed(h)
  {
    if a.i >= |s.pushers| then s
    else
      var p := s.pushers[a.i];
      match a
      case Check(i) =>
        if p.stage != NotStarted then s
        else s.(pushers := s.pushers[i := p.(stage := CheckStage(h, s.remote, p.input))])
      case Push(i) =>
        if p.stage != Checked then s
        else if !Accepts(h, s.remote, p.input) then
          s.(pushers := s.pushers[i := p.(stage := Refused(PushRejected))])
        else
          var current := RemoteHead(s.remote, p.input.branch);
          var done := s.(pushers := s.pushers[i := p.(stage := Pushed)]);
          if current == Some(p.input.head) then done
          else done.(remote := s.remote[p.input.branch := p.input.head],
                     reflog := s.reflog + [Move(i, p.input.branch, current, p.input.head)])
  }

  ghost function Run(h: History, s: System, actions: seq<Action>): System
    requires WellFormed(h)
    decreases |actions|
  {
    if actions == [] then s
    else Run(h, Step(h, s, actions[0]), actions[1..])
  }

  /** Nobody has started and the reflog is empty. */
  ghost predicate Initial(s: System) {
    && s.reflog == []
    && forall i :: 0 <= i < |s.pushers| ==> s.pushers[i].stage == NotStarted
  }

  // ----- What every step keeps -----

  /** A pusher past its check has an unprotected branch and, with a lease, a HEAD behind the expected commit. */
  ghost predicate ChecksHold(h: History, s: System)
    requires WellFormed(h)
  {
    forall i :: 0 <= i < |s.pushers| && (s.pushers[i].stage == Checked || s.pushers[i].stage == Pushed) ==>
      var input := s.pushers[i].input;
      && input.branch !in input.protectedBranches
      && (input.expectedHead.Some? ==> IsAncestor(h, input.expectedHead.value, input.head))
  }

  /** A move was made by a pusher that passed its check; a leased one started from the expected commit. */
  ghost predicate MoveIsPaid(h: History, s: System, m: Move)
    requires WellFormed(h)
  {
    && m.pusher < |s.pushers|
    && var p := s.pushers[m.pusher];
       && p.stage == Pushed && p.input.branch == m.branch && p.input.head == m.to
       && (m.from.Some? ==> m.from.value != m.to && IsAncestor(h, m.from.value, m.to))
       && (p.input.expectedHead.Some? ==> m.from == p.input.expectedHead)
  }

  /** Whatever a branch was moved to is still an ancestor of where it is now. */
  ghost predicate StillReachable(h: History, s: System, m: Move)
    requires WellFormed(h)
  {
    m.branch in s.remote && IsAncestor(h, m.to, s.remote[m.branch])
  }

  /** Of two moves of one branch the later starts at or after the point the earlier reached. */
  ghost predicate Ordered(h: History, earlier: Move, later: Move)
    requires WellFormed(h)
  {
    earlier.branch == later.branch ==> later.from.Some? && IsAncestor(h, earlier.to, later.from.value)
  }

  ghost predicate Inv(h: History, s: System)
    requires WellFormed(h)
  {
    && ChecksHold(h, s)
    && (forall k :: 0 <= k < |s.reflog| ==> MoveIsPaid(h, s, s.reflog[k]) && StillReachable(h, s, s.reflog[k]))
    && (forall j, k :: 0 <= j < k < |s.reflog| ==> Ordered(h, s.reflog[j], s.reflog[k]))
  }

  /** From `s` to `t` every branch of the remote stayed or advanced to a descendant. */
  ghost predicate Advances(h: History, s: map<string, Commit>, t: map<string, Commit>)
    requires WellFormed(h)
  {
    forall b :: b in s ==> b in t && IsAncestor(h, s[b], t[b])
  }

  ghost predicate SameInputs(s: System, t: System) {
    |s.pushers| == |t.pushers| && forall i :: 0 <= i < |s.pushers| ==> s.pushers[i].input == t.pushers[i].input
  }

  lemma StepAdvances(h: History, s: System, a: Action)
    requires WellFormed(h) && ChecksHold(h, s)
    ensures Advances(h, s.remote, Step(h, s, a).remote)
    ensures ChecksHold(h, Step(h, s, a)) && SameInputs(s, Step(h, s, a))
  {
  }

  lemma StepKeepsInv(h: History, s: System, a: Action)
    requires WellFormed(h) && Inv(h, s)
    ensures Inv(h, Step(h, s, a))
  {
    var t := Step(h, s, a);
    StepAdvances(h, s, a);
    forall k | 0 <= k < |s.reflog|
      ensures MoveIsPaid(h, t, s.reflog[k]) && StillReachable(h, t, s.reflog[k])
    {
      var m := s.reflog[k];
      assert MoveIsPaid(h, s, m) && StillReachable(h, s, m);
      AncestorTransitive(h, m.to, s.remote[m.branch], t.remote[m.branch]);
    }
  }

  lemma {:induction false} RunKeepsInv(h: History, s: System, actions: seq<Action>)
    requires WellFormed(h) && Inv(h, s)
    ensures Inv(h, Run(h, s, actions))
    ensures SameInputs(s, Run(h, s, actions))
    decreases |actions|
  {
    if actions != [] {
      StepKeepsInv(h, s, actions[0]);
      StepAdvances(h, s, actions[0]);
      RunKeepsInv(h, Step(h, s, actions[0]), actions[1..]);
    }
  }

  // ----- Main results, over every interleaving -----

  /** No branch of the remote is ever deleted or moved to anything but a descendant. */
  lemma {:induction false} BranchesOnlyAdvance(h: History, s: System, actions: seq<Action>)
    requires WellFormed(h) && Inv(h, s)
    ensures Advances(h, s.remote, Run(h, s, actions).remote)
    decreases |actions|
  {
    if actions != [] {
      var t := Step(h, s, actions[0]);
      StepKeepsInv(h, s, actions[0]);
      StepAdvances(h, s, actions[0]);
      BranchesOnlyAdvance(h, t, actions[1..]);
      var u := Run(h, s, actions);
      forall b | b in s.remote
        ensures b in u.remote && IsAncestor(h, s.remote[b], u.remote[b])
      {
        AncestorTransitive(h, s.remote[b], t.remote[b], u.remote[b]);
      }
    }
  }

  /** Every commit that was ever the head of a branch, before or after a move, stays reachable from it. */
  lemma NoCommitIsLost(h: History, s: System, actions: seq<Action>, k: nat)
    requires WellFormed(h) && Initial(s)
    requires k < |Run(h, s, actions).reflog|
    ensures var t := Run(h, s, actions);
            var m := t.reflog[k];
            && m.branch in t.remote
            && IsAncestor(h, m.to, t.remote[m.branch])
            && (m.from.Some? ==> IsAncestor(h, m.from.value, t.remote[m.branch]))
  {
    RunKeepsInv(h, s, actions);
    var t := Run(h, s, actions);
    var m := t.reflog[k];
    assert MoveIsPaid(h, t, m) && StillReachable(h, t, m);
    if m.from.Some? {
      AncestorTransitive(h, m.from.value, m.to, t.remote[m.branch]);
    }
  }

  /** A branch that every pusher lists as protected is where it was, or still does not exist. */
  lemma {:induction false} ProtectedBranchesStay(h: History, s: System, actions: seq<Action>, branch: string)
    requires WellFormed(h) && ChecksHold(h, s)
    requires forall i :: 0 <= i < |s.pushers| && s.pushers[i].input.branch == branch ==>
               branch in s.pushers[i].input.protectedBranches
    ensures RemoteHead(Run(h, s, actions).remote, branch) == RemoteHead(s.remote, branch)
    decreases |actions|
  {
    if actions != [] {
      StepAdvances(h, s, actions[0]);
      ProtectedBranchesStay(h, Step(h, s, actions[0]), actions[1..], branch);
    }
  }

  /** A lease is won at most once: two moves of one branch never start from the same commit. */
  lemma LeaseIsWonOnce(h: History, s: System, actions: seq<Action>, j: nat, k: nat)
    requires WellFormed(h) && Initial(s)
    requires j < k < |Run(h, s, actions).reflog|
    requires Run(h, s, actions).reflog[j].branch == Run(h, s, actions).reflog[k].branch
    ensures Run(h, s, actions).reflog[j].from != Run(h, s, actions).reflog[k].from
    ensures Run(h, s, actions).reflog[j].to != Run(h, s, actions).reflog[k].to
  {
    RunKeepsInv(h, s, actions);
    var t := Run(h, s, actions);
    var a, b := t.reflog[j], t.reflog[k];
    assert Ordered(h, a, b) && MoveIsPaid(h, t, a) && MoveIsPaid(h, t, b);
    AncestorIsOlder(h, a.to, b.from.value);
    AncestorIsOlder(h, b.from.value, b.to);
    if a.from.Some? {
      AncestorIsOlder(h, a.from.value, a.to);
    }
  }

  /** Two leased pushers that expect the same head and bring different commits cannot both move the branch. */
  lemma RivalLeases(h: History, s: System, actions: seq<Action>, j: nat, k: nat)
    requires WellFormed(h) && Initial(s)
    requires j < |Run(h, s, actions).reflog| && k < |Run(h, s, actions).reflog|
    requires var t := Run(h, s, actions);
             && t.reflog[j].pusher < |s.pushers| && t.reflog[k].pusher < |s.pushers|
             && var p, q := s.pushers[t.reflog[j].pusher].input, s.pushers[t.reflog[k].pusher].input;
                p.branch == q.branch && p.expectedHead.Some? && p.expectedHead == q.expectedHead
    ensures j == k
  {
    RunKeepsInv(h, s, actions);
    var t := Run(h, s, actions);
    assert MoveIsPaid(h, t, t.reflog[j]) && MoveIsPaid(h, t, t.reflog[k]);
    if j < k {
      LeaseIsWonOnce(h, s, actions, j, k);
    } else if k < j {
      LeaseIsWonOnce(h, s, actions, k, j);
    }
  }

  /** What an undisturbed push must be given to land. */
  ghost predicate CanLand(h: History, remote: map<string, Commit>, input: PushInput)
    requires WellFormed(h)
  {
    && input.branch !in input.protectedBranches
    && (match input.expectedHead
        case Some(e) =>
          && IsAncestor(h, e, input.head)
          && input.branch in remote && (remote[input.branch] == e || remote[input.branch] == input.head)
        case None => input.branch in remote ==> IsAncestor(h, remote[input.branch], input.head))
  }

  /** Why an undisturbed push that cannot land is refused; the actual head is the one of its own branch. */
  ghost function Reason(h: History, remote: map<string, Commit>, input: PushInput): PushError
    requires WellFormed(h)
  {
    if input.branch in input.protectedBranches then ProtectedBranch
    else if input.expectedHead.Some? && !IsAncestor(h, input.expectedHead.value, input.head) then
      RemoteHeadChanged(input.expectedHead.value, if input.branch in remote then Some(remote[input.branch]) else None)
    else PushRejected
  }

  /**
    When nobody comes between the two steps, the push lands exactly when the branch is
    unprotected and the remote is where the lease, or a fast-forward, needs it; then
    the branch is at the pusher's HEAD, and otherwise the remote is as it was and the
    pusher knows why.
  */
  lemma UndisturbedPush(h: History, s: System, i: nat)
    requires WellFormed(h) && i < |s.pushers| && s.pushers[i].stage == NotStarted
    ensures var input := s.pushers[i].input;
            var t := Run(h, s, [Check(i), Push(i)]);
            && i < |t.pushers|
            && t.pushers[i].stage == (if CanLand(h, s.remote, input) then Pushed else Refused(Reason(h, s.remote, input)))
            && t.remote == if CanLand(h, s.remote, input) then s.remote[input.branch := input.head] else s.remote
  {
    var checked := Step(h, s, Check(i));
    var pushed := Step(h, checked, Push(i));
    assert [Check(i), Push(i)][1..] == [Push(i)] && [Push(i)][1..] == [];
    assert Run(h, pushed, []) == pushed;
    assert Run(h, checked, [Push(i)]) == pushed;
    assert Run(h, s, [Check(i), Push(i)]) == pushed;
    var input := s.pushers[i].input;
    if RemoteHead(s.remote, input.branch) == Some(input.head) {
      assert s.remote[input.branch := input.head] == s.remote;
    }
  }

  /** Each branch gets its value from the reflog alone: replaying it on the old remote gives the new one. */
  ghost function Replay(remote: map<string, Commit>, log: seq<Move>): map<string, Commit>
    decreases |log|
  {
    if log == [] then remote
    else
      var m := log[|log| - 1];
      Replay(remote, log[..|log| - 1])[m.branch := m.to]
  }

  lemma {:induction false} RemoteIsReplay(h: History, start: map<string, Commit>, s: System, actions: seq<Action>)
    requires WellFormed(h) && s.remote == Replay(start, s.reflog)
    ensures Run(h, s, actions).remote == Replay(start, Run(h, s, actions).reflog)
    ensures s.reflog <= Run(h, s, actions).reflog
    decreases |actions|
  {
    if actions != [] {
      var t := Step(h, s, actions[0]);
      if |t.reflog| > |s.reflog| {
        assert t.reflog[..|t.reflog| - 1] == s.reflog;
      }
      RemoteIsReplay(h, start, t, actions[1..]);
    }
  }

  /**
    Without the ancestor check the guarantee would be gone: the lease alone accepts
    a HEAD that does not contain the expected commit.
  */
  lemma LeaseAloneIsNotEnough(h: History, branch: string, expected: Commit, head: Commit)
    requires WellFormed(h) && expected != head && !IsAncestor(h, expected, head)
    ensures var input := PushInput(branch, head, Some(expected), []);
            && Accepts(h, map[branch := expected], input)
            && CheckStage(h, map[branch := expected], input) ==
               Refused(RemoteHeadChanged(expected, Some(expected)))
  {
  }
}
