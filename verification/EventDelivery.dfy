/**
  What the polling tasks of `EventStream` deliver: which events are sent again, which
  are sent at all, and after how many polls.  With the query as it is a second that
  holds 200 events in scope stops the stream for good.
*/
module EventDelivery {
  import opened EventStream

  /** The events in scope of one second. */
  ghost function Second(scope: Scope, log: set<Record>, t: Stamp): set<Record> {
    set r | r in log && InScope(scope, r) && r.createdAt == t
  }

  ghost function Elems(s: seq<Record>): set<Record> {
    set r | r in s
  }

  lemma {:induction false} ElemsSize(s: seq<Record>)
    ensures |Elems(s)| <= |s|
    ensures Distinct(s) ==> |Elems(s)| == |s|
  {
    if s != [] {
      var n := |s| - 1;
      ElemsSize(s[..n]);
      assert s == s[..n] + [s[n]];
      assert Elems(s) == Elems(s[..n]) + {s[n]};
    }
  }

  lemma SubsetSize(a: set<Record>, b: set<Record>)
    requires a <= b
    ensures |a| <= |b|
  {
    assert b == a + (b - a);
  }

  /** `r` is the first of its kind from index `i` on, so what is before it fills the batch or not. */
  lemma CutByCount(due: seq<Record>, i: nat, among: set<Record>)
    requires Distinct(due) && i < |due|
    ensures (forall j :: 0 <= j <= i ==> due[j] in among) && |among| <= MAX_EVENTS_PER_POLL ==> due[i] in Cut(due)
    ensures (forall r :: r in among ==> r in due[..i]) && |among| >= MAX_EVENTS_PER_POLL ==> due[i] !in Cut(due)
  {
    ElemsSize(due[..i + 1]);
    ElemsSize(due[..i]);
    if forall j :: 0 <= j <= i ==> due[j] in among {
      SubsetSize(Elems(due[..i + 1]), among);
      if |among| <= MAX_EVENTS_PER_POLL {
        assert Cut(due)[i] == due[i];
      }
    }
    if forall r :: r in among ==> r in due[..i] {
      SubsetSize(among, Elems(due[..i]));
    }
  }

  // ----- Which events are sent again -----

  /**
    A poll sends again only events of the cursor's second, and those only with the
    inclusive query; all of them, as long as that second fits into one batch.
  */
  lemma ResendsTheSecond(k: Task, s: State, records: seq<Record>, r: Record)
    requires Inv(k, s) && IsAnswer(k.bound, s.cursor, s.log, records) && r in s.sent
    ensures r in Batch(k.scope, records) ==> k.bound == AtOrAfter && r.createdAt == s.cursor
    ensures |Second(k.scope, s.log, s.cursor)| <= MAX_EVENTS_PER_POLL ==>
              (r in Batch(k.scope, records) <==> k.bound == AtOrAfter && r.createdAt == s.cursor)
  {
    hide Firsts, Due, Step, IsAnswer, Cut;
    var due := PollStep(k, s, records);
    if r in Batch(k.scope, records) {
      assert r in due;
    }
    if k.bound == AtOrAfter && r.createdAt == s.cursor {
      var i :| 0 <= i < |due| && due[i] == r;
      forall j | 0 <= j <= i
        ensures due[j] in Second(k.scope, s.log, s.cursor)
      {
        assert due[j] in due;
      }
      CutByCount(due, i, Second(k.scope, s.log, s.cursor));
    }
  }

  lemma {:induction false} StrictNeverRepeats(k: Task, s: State, actions: seq<Action>)
    requires Fresh(k, s) && LegalRun(k, s, actions) && k.bound == StrictlyAfter
    ensures Distinct(Run(k, s, actions).sent)
    decreases |actions|
  {
    hide Legal, Step, Inv;
    if actions != [] {
      var n := |actions| - 1;
      LegalPrefix(k, s, actions, n);
      StrictNeverRepeats(k, s, actions[..n]);
      FreshInv(k, s);
      RunKeepsInv(k, s, actions[..n]);
      RepeatStep(k, Run(k, s, actions[..n]), actions[n]);
    }
  }

  /** A poll that can repeat something: the query is inclusive and something was sent before. */
  ghost predicate PollsAgain(k: Task, s: State, a: Action) {
    a.Poll? && k.bound == AtOrAfter && s.sent != []
  }

  lemma RepeatStep(k: Task, s: State, a: Action)
    requires Inv(k, s) && Legal(k, s, a) && Distinct(s.sent)
    ensures !PollsAgain(k, s, a) ==> Distinct(Step(k, s, a).sent)
    ensures PollsAgain(k, s, a) && |Second(k.scope, s.log, s.cursor)| <= MAX_EVENTS_PER_POLL ==>
              !Distinct(Step(k, s, a).sent)
  {
    hide Firsts, Due, IsAnswer;
    if a.Poll? {
      var due := PollStep(k, s, a.records);
      var t := Step(k, s, a);
      hide Step;
      if PollsAgain(k, s, a) {
        var r :| r in s.sent && r.createdAt == s.cursor;
        ResendsTheSecond(k, s, a.records, r);
        if |Second(k.scope, s.log, s.cursor)| <= MAX_EVENTS_PER_POLL {
          var i :| 0 <= i < |s.sent| && s.sent[i] == r;
          var j :| 0 <= j < |Cut(due)| && Cut(due)[j] == r;
          assert t.sent[i] == t.sent[|s.sent| + j];
        }
      } else {
        forall i | 0 <= i < |Cut(due)|
          ensures Cut(due)[i] !in s.sent
        {
          if Cut(due)[i] in s.sent {
            ResendsTheSecond(k, s, a.records, Cut(due)[i]);
          }
        }
      }
    }
  }

  /** No second holds more events in scope than one batch. */
  ghost predicate SecondsFit(scope: Scope, log: set<Record>) {
    forall t: Stamp :: |Second(scope, log, t)| <= MAX_EVENTS_PER_POLL
  }

  lemma RepeatStepIff(k: Task, s: State, a: Action)
    requires Inv(k, s) && Legal(k, s, a)
    ensures Distinct(s.sent) && !PollsAgain(k, s, a) ==> Distinct(Step(k, s, a).sent)
    ensures !Distinct(s.sent) ==> !Distinct(Step(k, s, a).sent)
    ensures SecondsFit(k.scope, s.log) && PollsAgain(k, s, a) ==> !Distinct(Step(k, s, a).sent)
  {
    hide Inv, Legal, Batch, Advance;
    if Distinct(s.sent) {
      RepeatStep(k, s, a);
    } else {
      var i, j :| 0 <= i < j < |s.sent| && s.sent[i] == s.sent[j];
      assert Step(k, s, a).sent[i] == Step(k, s, a).sent[j];
    }
  }

  ghost predicate SomeRepeatedPoll(k: Task, s: State, actions: seq<Action>) {
    exists i :: 0 <= i < |actions| && PollsAgain(k, Run(k, s, actions[..i]), actions[i])
  }

  lemma SomeRepeatedPollByLast(k: Task, s: State, actions: seq<Action>, n: nat)
    requires n + 1 == |actions|
    ensures SomeRepeatedPoll(k, s, actions) <==>
            SomeRepeatedPoll(k, s, actions[..n]) || PollsAgain(k, Run(k, s, actions[..n]), actions[n])
  {
    hide PollsAgain, Run;
    assert forall i :: 0 <= i < n ==> actions[..n][..i] == actions[..i] && actions[..n][i] == actions[i];
    if SomeRepeatedPoll(k, s, actions[..n]) {
      var i :| 0 <= i < n && PollsAgain(k, Run(k, s, actions[..n][..i]), actions[..n][i]);
      assert PollsAgain(k, Run(k, s, actions[..i]), actions[i]);
    }
  }

  lemma SecondsFitBefore(scope: Scope, log: set<Record>, later: set<Record>)
    requires log <= later && SecondsFit(scope, later)
    ensures SecondsFit(scope, log)
  {
    forall t: Stamp
      ensures |Second(scope, log, t)| <= MAX_EVENTS_PER_POLL
    {
      SubsetSize(Second(scope, log, t), Second(scope, later, t));
    }
  }

  /**
    Over every run an event is sent twice only if a successful poll follows one that sent
    something; and while no second holds more than one batch, always then.
  */
  lemma {:induction false} InclusiveRepeatsIff(k: Task, s: State, actions: seq<Action>)
    requires Fresh(k, s) && LegalRun(k, s, actions)
    ensures !Distinct(Run(k, s, actions).sent) ==> SomeRepeatedPoll(k, s, actions)
    ensures SecondsFit(k.scope, Run(k, s, actions).log) ==>
              (!Distinct(Run(k, s, actions).sent) <==> SomeRepeatedPoll(k, s, actions))
    decreases |actions|
  {
    hide Legal, Inv, PollsAgain, Batch, SecondsFit, Step, SomeRepeatedPoll;
    if actions == [] {
      NoRepeatedPoll(k, s);
    } else {
      var n := |actions| - 1;
      var u := Run(k, s, actions[..n]);
      LegalPrefix(k, s, actions, n);
      LogGrows(k, s, actions, n);
      if SecondsFit(k.scope, Run(k, s, actions).log) {
        SecondsFitBefore(k.scope, u.log, Run(k, s, actions).log);
      }
      InclusiveRepeatsIff(k, s, actions[..n]);
      FreshInv(k, s);
      RunKeepsInv(k, s, actions[..n]);
      RepeatStepIff(k, u, actions[n]);
      SomeRepeatedPollByLast(k, s, actions, n);
    }
  }

  lemma NoRepeatedPoll(k: Task, s: State)
    ensures !SomeRepeatedPoll(k, s, [])
  {
  }

  // ----- How many polls it takes -----

  function Polls(actions: seq<Action>): nat {
    if actions == [] then 0
    else Polls(actions[..|actions| - 1]) + if actions[|actions| - 1].Poll? then 1 else 0
  }

  /** With the inclusive query: more than `m` other events share a second on the way from the cursor to `r`. */
  ghost predicate Crowded(k: Task, log: set<Record>, from: Stamp, r: Record, m: nat) {
    k.bound == AtOrAfter &&
    exists t: Stamp :: from <= t <= r.createdAt && |Second(k.scope, log, t) - {r}| > m
  }

  /** The events not sent yet that are not newer than `r`. */
  ghost function Pending(k: Task, log: set<Record>, s: State, r: Record): set<Record> {
    set x | x in log && InScope(k.scope, x) && Since(k.bound, s.cursor, x) && x.createdAt <= r.createdAt && x !in s.sent
  }

  /** Still to be sent: the query returns `r` and it has not been sent. */
  ghost predicate Awaits(k: Task, s: State, r: Record) {
    r in s.log && InScope(k.scope, r) && Since(k.bound, s.cursor, r) && r !in s.sent
  }

  /** An awaited event outside the batch is newer than the whole batch, or as new as its end. */
  lemma NotReached(k: Task, s: State, due: seq<Record>, r: Record)
    requires IsDue(k.scope, k.bound, s.cursor, s.log, due) && Awaits(k, s, r) && r !in Cut(due)
    ensures |due| > MAX_EVENTS_PER_POLL && |Cut(due)| == MAX_EVENTS_PER_POLL
    ensures forall x :: x in Cut(due) ==> x in due && x.createdAt <= r.createdAt
    ensures due[MAX_EVENTS_PER_POLL - 1].createdAt < r.createdAt || CutInside(due)
            || (due[MAX_EVENTS_PER_POLL - 1].createdAt == r.createdAt && k.bound == AtOrAfter)
  {
    var i :| 0 <= i < |due| && due[i] == r;
    assert forall j :: 0 <= j < |Cut(due)| ==> Cut(due)[j] == due[j];
    assert i >= |Cut(due)|;
  }

  /** What a poll sends again is at most the rest of the cursor's second. */
  lemma ResendsFew(k: Task, s: State, records: seq<Record>, log: set<Record>, r: Record, m: nat, again: set<Record>)
    requires Inv(k, s) && IsAnswer(k.bound, s.cursor, s.log, records) && s.log <= log
    requires s.cursor <= r.createdAt && !Crowded(k, log, s.cursor, r, m)
    requires forall x :: x in again ==> x in s.sent && x in Batch(k.scope, records) && x != r
    ensures |again| <= m
  {
    hide Firsts, Batch, IsAnswer;
    forall x | x in again
      ensures x in Second(k.scope, log, s.cursor) - {r} && k.bound == AtOrAfter
    {
      ResendsTheSecond(k, s, records, x);
    }
    SubsetSize(again, Second(k.scope, log, s.cursor) - {r});
    if again != {} {
      var x :| x in again;
    }
  }

  /** What is sent for the first time is no longer pending. */
  lemma PendingShrinks(k: Task, log: set<Record>, s: State, t: State, r: Record, batch: set<Record>, again: set<Record>)
    requires again <= batch && s.cursor <= t.cursor
    requires forall x :: x in s.sent || x in batch ==> x in t.sent
    requires batch - again <= Pending(k, log, s, r)
    ensures |Pending(k, log, t, r)| + |batch| - |again| <= |Pending(k, log, s, r)|
  {
    assert batch == (batch - again) + again;
    assert forall x :: Since(k.bound, t.cursor, x) ==> Since(k.bound, s.cursor, x);
    SubsetSize(Pending(k, log, t, r), Pending(k, log, s, r) - (batch - again));
  }

  /** A poll that does not reach `r` sends a full batch, of which at most `m` events are not new. */
  lemma PollProgress(k: Task, s: State, records: seq<Record>, log: set<Record>, r: Record, m: nat)
    requires Inv(k, s) && IsAnswer(k.bound, s.cursor, s.log, records) && Awaits(k, s, r)
    requires s.log <= log && !Crowded(k, log, s.cursor, r, m) && !Loses(k, s, Poll(records))
    requires r !in Step(k, s, Poll(records)).sent
    ensures var t := Step(k, s, Poll(records));
            Awaits(k, t, r) && |Pending(k, log, t, r)| + MAX_EVENTS_PER_POLL - m <= |Pending(k, log, s, r)|
  {
    hide Firsts, Due, IsAnswer, Crowded, Inv, Second;
    var due := PollStep(k, s, records);
    var t := Step(k, s, Poll(records));
    hide Step;
    NotReached(k, s, due, r);
    FullBatchSize(due);
    hide Cut, Distinct, Ascending;
    var batch := Elems(Cut(due));
    var again := set x | x in batch && x in s.sent;
    ResendsFew(k, s, records, log, r, m, again);
    PendingShrinks(k, log, s, t, r, batch, again);
  }

  lemma FullBatchSize(due: seq<Record>)
    requires Distinct(due) && |due| >= MAX_EVENTS_PER_POLL
    ensures |Elems(Cut(due))| == MAX_EVENTS_PER_POLL
  {
    assert forall i :: 0 <= i < |Cut(due)| ==> Cut(due)[i] == due[i];
    ElemsSize(Cut(due));
  }

  lemma ShareOfPolls(polls: nat, more: nat, share: nat)
    ensures (polls + more) * share == polls * share + more * share
  {
  }

  lemma StepOnlyAdds(k: Task, s: State, a: Action)
    ensures s.log <= Step(k, s, a).log && forall r :: r in s.sent ==> r in Step(k, s, a).sent
  {
    hide Batch, Advance;
  }

  lemma CrowdedBefore(k: Task, log: set<Record>, from: Stamp, later: Stamp, r: Record, m: nat)
    requires from <= later && Crowded(k, log, later, r, m)
    ensures Crowded(k, log, from, r, m)
  {
    hide Second;
  }

  /** As long as `r` is not reached, every poll takes its share off the events up to `r`. */
  lemma {:induction false} StillAwaited(k: Task, s: State, actions: seq<Action>, log: set<Record>, r: Record, m: nat)
    requires Inv(k, s) && LegalRun(k, s, actions) && Awaits(k, s, r)
    requires Run(k, s, actions).log <= log && m < MAX_EVENTS_PER_POLL && !Crowded(k, log, s.cursor, r, m)
    requires k.bound == StrictlyAfter ==> !SomeLoss(k, s, actions)
    requires r !in Run(k, s, actions).sent
    ensures var t := Run(k, s, actions);
            && s.cursor <= t.cursor && Awaits(k, t, r)
            && |Pending(k, log, t, r)| + Polls(actions) * (MAX_EVENTS_PER_POLL - m) <= |Pending(k, log, s, r)|
    decreases |actions|
  {
    hide Legal, LegalRun, Inv, Step, SomeLoss, Loses, Crowded, Pending, Awaits;
    if actions != [] {
      var n := |actions| - 1;
      var u, a := Run(k, s, actions[..n]), actions[n];
      LegalPrefix(k, s, actions, n);
      SomeLossByLast(k, s, actions, n);
      StepOnlyAdds(k, u, a);
      StillAwaited(k, s, actions[..n], log, r, m);
      RunKeepsInv(k, s, actions[..n]);
      if Crowded(k, log, u.cursor, r, m) {
        CrowdedBefore(k, log, s.cursor, u.cursor, r, m);
      }
      StepAwaits(k, u, a, log, r, m);
      ShareOfPolls(Polls(actions[..n]), if a.Poll? then 1 else 0, MAX_EVENTS_PER_POLL - m);
    }
  }

  lemma StepAwaits(k: Task, s: State, a: Action, log: set<Record>, r: Record, m: nat)
    requires Inv(k, s) && Legal(k, s, a) && Awaits(k, s, r) && s.log <= log
    requires !Crowded(k, log, s.cursor, r, m)
    requires k.bound == StrictlyAfter ==> !Loses(k, s, a)
    requires r !in Step(k, s, a).sent
    ensures var t := Step(k, s, a);
            && s.cursor <= t.cursor && Awaits(k, t, r)
            && |Pending(k, log, t, r)| + (if a.Poll? then MAX_EVENTS_PER_POLL - m else 0) <= |Pending(k, log, s, r)|
  {
    hide Firsts, Due, Batch, IsAnswer, Crowded;
    match a
    case Append(x) =>
      assert Pending(k, log, Step(k, s, a), r) == Pending(k, log, s, r);
    case Poll(records) =>
      var _ := PollStep(k, s, records);
      PollProgress(k, s, records, log, r, m);
    case Fail =>
  }

  lemma AwaitedIsPending(k: Task, s: State, r: Record)
    requires Awaits(k, s, r)
    ensures |Pending(k, s.log, s, r)| > 0
  {
    assert r in Pending(k, s.log, s, r);
  }

  /**
    Throughput.  If no second on the way to `r` holds more than `m` other events, `r` is
    sent once the polls, each good for 200 - `m` events, cover what is pending up to `r`.
    The log may grow meanwhile; a strict query needs `m` = 0 only, but must not lose events.
  */
  lemma PollsDrainTheLog(k: Task, s: State, actions: seq<Action>, r: Record, m: nat)
    requires Inv(k, s) && LegalRun(k, s, actions) && Awaits(k, s, r) && m < MAX_EVENTS_PER_POLL
    requires var log := Run(k, s, actions).log;
             && !Crowded(k, log, s.cursor, r, m)
             && |Pending(k, log, s, r)| <= Polls(actions) * (MAX_EVENTS_PER_POLL - m)
    requires k.bound == StrictlyAfter ==> !SomeLoss(k, s, actions)
    ensures r in Run(k, s, actions).sent
  {
    hide Crowded, Inv, LegalRun, SomeLoss, Run;
    var t := Run(k, s, actions);
    if r !in t.sent {
      StillAwaited(k, s, actions, t.log, r, m);
      AwaitedIsPending(k, t, r);
    }
  }

  // ----- The stall -----

  /** Two hundred due events up to `t` fill the batch, and the cursor stays at or before `t`. */
  lemma FullBatch(due: seq<Record>, among: set<Record>, t: Stamp)
    requires Ascending(due) && |among| >= MAX_EVENTS_PER_POLL
    requires forall r :: r in among ==> r in due && r.createdAt <= t
    ensures |due| >= MAX_EVENTS_PER_POLL && due[MAX_EVENTS_PER_POLL - 1].createdAt <= t
  {
    var n := Min(MAX_EVENTS_PER_POLL - 1, |due|);
    if forall r :: r in among ==> r in due[..n] {
      SubsetSize(among, Elems(due[..n]));
      ElemsSize(due[..n]);
    } else {
      var r :| r in among && r !in due[..n];
      var i :| 0 <= i < |due| && due[i] == r;
      assert i >= n by {
        assert forall j :: 0 <= j < n ==> due[..n][j] == due[j];
      }
    }
  }

  /**
    The stall.  Once 200 events in scope share a second that the cursor has not passed,
    no run ever gets past that second, whatever is appended.
  */
  lemma {:induction false} StallIsForever(k: Task, s: State, actions: seq<Action>, t: Stamp)
    requires Inv(k, s) && LegalRun(k, s, actions) && k.bound == AtOrAfter
    requires s.cursor <= t && |Second(k.scope, s.log, t)| >= MAX_EVENTS_PER_POLL
    ensures var u := Run(k, s, actions);
            s.log <= u.log && u.cursor <= t && forall r :: r in u.sent ==> r.createdAt <= t
    decreases |actions|
  {
    hide Legal, Step, Firsts, Second;
    if actions != [] {
      var n := |actions| - 1;
      LegalPrefix(k, s, actions, n);
      StallIsForever(k, s, actions[..n], t);
      RunKeepsInv(k, s, actions[..n]);
      StepStalls(k, s.log, Run(k, s, actions[..n]), actions[n], t);
      RunKeepsInv(k, s, actions);
    }
  }

  lemma StepStalls(k: Task, log: set<Record>, s: State, a: Action, t: Stamp)
    requires Inv(k, s) && Legal(k, s, a) && k.bound == AtOrAfter
    requires log <= s.log && s.cursor <= t && |Second(k.scope, log, t)| >= MAX_EVENTS_PER_POLL
    ensures s.log <= Step(k, s, a).log && Step(k, s, a).cursor <= t
  {
    hide Firsts, Due, IsAnswer;
    if a.Poll? {
      var due := PollStep(k, s, a.records);
      FullBatch(due, Second(k.scope, log, t), t);
    }
  }

  // ----- Which events are sent at all -----

  ghost predicate NewestFirst(s: seq<Record>) {
    Distinct(s) && forall i, j :: 0 <= i < j < |s| ==> s[i].createdAt >= s[j].createdAt
  }

  /** Some answer lists the selected events, newest first. */
  lemma Listed(records: set<Record>) returns (s: seq<Record>)
    ensures NewestFirst(s) && forall r :: r in s <==> r in records
    decreases |records|
  {
    if records == {} {
      s := [];
    } else {
      var newest := NewestOf(records);
      var rest := Listed(records - {newest});
      InParts([newest], rest);
      s := [newest] + rest;
    }
  }

  lemma NewestOf(records: set<Record>) returns (newest: Record)
    requires records != {}
    ensures newest in records && forall r :: r in records ==> r.createdAt <= newest.createdAt
    decreases |records|
  {
    newest :| newest in records;
    if records - {newest} != {} {
      var other := NewestOf(records - {newest});
      newest := if other.createdAt > newest.createdAt then other else newest;
    }
  }

  /** An answer that lists `r` behind all other events of its second when read backwards. */
  lemma AnswerWithLast(k: Task, s: State, r: Record) returns (records: seq<Record>, i: nat)
    requires Awaits(k, s, r)
    ensures IsAnswer(k.bound, s.cursor, s.log, records)
    ensures i < |records| && Reverse(records)[i] == r
    ensures forall x :: x in Reverse(records)[..i] <==>
              x in s.log && Since(k.bound, s.cursor, x) && x.createdAt <= r.createdAt && x != r
  {
    hide Reverse, IsAnswer, NewestFirst;
    var newer := Listed(set x | x in s.log && Since(k.bound, s.cursor, x) && x.createdAt > r.createdAt);
    var older := Listed(set x | x in s.log && Since(k.bound, s.cursor, x) && x.createdAt <= r.createdAt && x != r);
    records, i := newer + [r] + older, |older|;
    AnswerInParts(k, s, newer, r, older);
    BackwardsInParts(newer + [r], older);
  }

  /** Two lists of different events, all of the first at least as new, make one list. */
  lemma InParts(newer: seq<Record>, older: seq<Record>)
    requires NewestFirst(newer) && NewestFirst(older)
    requires forall x, y :: x in newer && y in older ==> x != y && x.createdAt >= y.createdAt
    ensures NewestFirst(newer + older)
  {
    var s := newer + older;
    forall i, j | 0 <= i < j < |s|
      ensures s[i] != s[j] && s[i].createdAt >= s[j].createdAt
    {
      assert i < |newer| ==> s[i] in newer;
      assert j >= |newer| ==> s[j] in older;
    }
  }

  lemma BackwardsInParts(newer: seq<Record>, older: seq<Record>)
    ensures var back := Reverse(newer + older);
            && (newer != [] ==> back[|older|] == newer[|newer| - 1])
            && forall x :: x in back[..|older|] <==> x in older
  {
    hide Reverse;
    var back, n := Reverse(newer + older), |older|;
    ReverseIndex(newer + older);
    assert forall j :: 0 <= j < n ==> back[..n][j] == older[n - 1 - j];
    forall x | x in older
      ensures x in back[..n]
    {
      var j :| 0 <= j < n && older[j] == x;
      assert back[..n][n - 1 - j] == x;
    }
  }

  lemma AnswerInParts(k: Task, s: State, newer: seq<Record>, r: Record, older: seq<Record>)
    requires Awaits(k, s, r) && NewestFirst(newer) && NewestFirst(older)
    requires forall x :: x in newer <==> x in s.log && Since(k.bound, s.cursor, x) && x.createdAt > r.createdAt
    requires forall x :: x in older <==>
               x in s.log && Since(k.bound, s.cursor, x) && x.createdAt <= r.createdAt && x != r
    ensures IsAnswer(k.bound, s.cursor, s.log, newer + [r] + older)
  {
    InParts([r], older);
    InParts(newer, [r] + older);
    assert newer + [r] + older == newer + ([r] + older);
    forall x | x in s.log && Since(k.bound, s.cursor, x)
      ensures x in newer + [r] + older
    {
      assert x in newer || x == r || x in older;
    }
  }

  /** What the first `i` events of the answer, read backwards, contribute comes first in what is due. */
  lemma DueInParts(scope: Scope, records: seq<Record>, i: nat) returns (n: nat)
    requires i <= |records|
    ensures var due := Due(scope, records);
            && n <= |due|
            && (forall x :: x in due[..n] <==> x in Reverse(records)[..i] && InScope(scope, x))
            && (i < |records| && InScope(scope, Reverse(records)[i]) ==> n < |due| && due[n] == Reverse(records)[i])
  {
    hide Reverse;
    var oldest := Reverse(records);
    ScopedMembers(scope, oldest[..i]);
    ScopedPrefix(scope, oldest, i);
    n := |Scoped(scope, oldest[..i])|;
    assert Due(scope, records)[..n] == Scoped(scope, oldest[..i]);
    if i < |records| {
      assert oldest[..i + 1][..i] == oldest[..i];
      ScopedPrefix(scope, oldest, i + 1);
    }
  }

  // ----- When a poll has to repeat -----

  /** The poll sends something that was sent before. */
  ghost predicate Repeats(k: Task, s: State, records: seq<Record>) {
    exists r :: r in s.sent && r in Batch(k.scope, records)
  }

  /** The events of the cursor's second that have not been sent. */
  ghost function Unsent(k: Task, s: State): set<Record> {
    Second(k.scope, s.log, s.cursor) - Elems(s.sent)
  }

  /** A batch that does not reach all of the cursor's second lies in it. */
  lemma BatchInSecond(k: Task, s: State, due: seq<Record>, r: Record)
    requires IsDue(k.scope, k.bound, s.cursor, s.log, due)
    requires r in due && r.createdAt == s.cursor && r !in Cut(due)
    ensures |due| > MAX_EVENTS_PER_POLL && Elems(Cut(due)) <= Second(k.scope, s.log, s.cursor)
  {
    var i :| 0 <= i < |due| && due[i] == r;
    assert forall j :: 0 <= j < |Cut(due)| ==> Cut(due)[j] == due[j] && due[j] in due;
    assert i >= |Cut(due)|;
  }

  /** With fewer than a batch left in the cursor's second a poll cannot avoid the events sent before. */
  lemma FewUnsentRepeat(k: Task, s: State, records: seq<Record>)
    requires Inv(k, s) && k.bound == AtOrAfter && s.sent != [] && |Unsent(k, s)| < MAX_EVENTS_PER_POLL
    requires IsAnswer(k.bound, s.cursor, s.log, records)
    ensures Repeats(k, s, records)
  {
    hide Firsts, Due, Reverse, IsAnswer, Step, Second;
    var due := PollStep(k, s, records);
    var r :| r in s.sent && r.createdAt == s.cursor;
    if r !in Cut(due) {
      BatchInSecond(k, s, due, r);
      FullBatchSize(due);
      hide Cut, IsDue, Inv;
      if Elems(Cut(due)) <= Unsent(k, s) {
        SubsetSize(Elems(Cut(due)), Unsent(k, s));
      } else {
        var x :| x in Elems(Cut(due)) && x !in Unsent(k, s);
        assert x in s.sent;
      }
    }
  }

  /** An answer that lists the unsent events of the cursor's second first when read backwards. */
  lemma UnsentFirst(k: Task, s: State) returns (records: seq<Record>, i: nat)
    requires k.bound == AtOrAfter
    ensures IsAnswer(k.bound, s.cursor, s.log, records) && i <= |records|
    ensures forall x :: x in Reverse(records)[..i] <==> x in s.log && x.createdAt == s.cursor && x !in s.sent
  {
    hide Reverse, Distinct;
    var rest := Listed(set x | x in s.log && (x.createdAt > s.cursor || (x.createdAt == s.cursor && x in s.sent)));
    var front := Listed(set x | x in s.log && x.createdAt == s.cursor && x !in s.sent);
    InParts(rest, front);
    BackwardsInParts(rest, front);
    records, i := rest + front, |front|;
    assert forall x :: x in records <==> x in rest || x in front;
  }

  /** With a whole batch left in it an answer may put those in front of the ones sent before. */
  lemma ManyUnsentMayCome(k: Task, s: State) returns (records: seq<Record>)
    requires Inv(k, s) && k.bound == AtOrAfter && |Unsent(k, s)| >= MAX_EVENTS_PER_POLL
    ensures IsAnswer(k.bound, s.cursor, s.log, records) && !Repeats(k, s, records)
  {
    hide Inv, Reverse, Due, IsAnswer;
    var i: nat;
    records, i := UnsentFirst(k, s);
    var n := DueInParts(k.scope, records, i);
    var due := Due(k.scope, records);
    ElemsSize(due[..n]);
    SubsetSize(Unsent(k, s), Elems(due[..n]));
    forall x | x in Batch(k.scope, records)
      ensures x !in s.sent
    {
      var j :| 0 <= j < |Cut(due)| && Cut(due)[j] == x;
      assert due[..n][j] == x;
    }
  }

  /**
    After something was sent, a poll with the inclusive query has to repeat, whatever order
    the answer has, if and only if fewer than 200 events of the cursor's second are unsent.
  */
  lemma MustRepeatIff(k: Task, s: State)
    requires Inv(k, s) && k.bound == AtOrAfter && s.sent != []
    ensures (forall records :: IsAnswer(k.bound, s.cursor, s.log, records) ==> Repeats(k, s, records)) <==>
            |Unsent(k, s)| < MAX_EVENTS_PER_POLL
  {
    hide Inv, IsAnswer, Repeats, Unsent;
    if |Unsent(k, s)| < MAX_EVENTS_PER_POLL {
      forall records | IsAnswer(k.bound, s.cursor, s.log, records)
        ensures Repeats(k, s, records)
      {
        FewUnsentRepeat(k, s, records);
      }
    } else {
      var records := ManyUnsentMayCome(k, s);
    }
  }

  // ----- Which events may be withheld -----

  /** With 200 other events in a second on the way, a poll may pass over `r` and leave the cursor on that second. */
  lemma WithheldPoll(k: Task, s: State, r: Record, t: Stamp) returns (records: seq<Record>)
    requires Inv(k, s) && Awaits(k, s, r) && k.bound == AtOrAfter
    requires s.cursor <= t <= r.createdAt && |Second(k.scope, s.log, t) - {r}| >= MAX_EVENTS_PER_POLL
    ensures Legal(k, s, Poll(records))
    ensures var u := Step(k, s, Poll(records));
            u.log == s.log && u.cursor <= t && Awaits(k, u, r)
  {
    hide Firsts, IsAnswer, Due, Reverse, Batch;
    var i: nat;
    records, i := AnswerWithLast(k, s, r);
    var due := PollStep(k, s, records);
    var n := DueInParts(k.scope, records, i);
    var among := Second(k.scope, s.log, t) - {r};
    forall x | x in among
      ensures x in due[..n] && x in due
    {
      assert x in Reverse(records)[..i];
    }
    CutByCount(due, n, among);
    FullBatch(due, among, t);
  }

  lemma LegalSnoc(k: Task, s: State, actions: seq<Action>, a: Action)
    requires LegalRun(k, s, actions) && Legal(k, Run(k, s, actions), a)
    ensures LegalRun(k, s, actions + [a]) && Run(k, s, actions + [a]) == Step(k, Run(k, s, actions), a)
  {
    hide Legal, Step;
    var longer := actions + [a];
    assert longer[..|actions|] == actions;
    forall i | 0 <= i < |longer|
      ensures Legal(k, Run(k, s, longer[..i]), longer[i])
    {
      if i < |actions| {
        assert longer[..i] == actions[..i];
      }
    }
  }

  ghost predicate NoAppends(actions: seq<Action>) {
    forall i :: 0 <= i < |actions| ==> !actions[i].Append?
  }

  /** The event is still held back behind second `t`. */
  ghost predicate HeldBack(k: Task, log: set<Record>, s: State, r: Record, t: Stamp) {
    && Inv(k, s) && Awaits(k, s, r) && s.log == log
    && s.cursor <= t <= r.createdAt && |Second(k.scope, log, t) - {r}| >= MAX_EVENTS_PER_POLL
  }

  lemma WithheldOnce(k: Task, s: State, before: seq<Action>, r: Record, t: Stamp) returns (actions: seq<Action>)
    requires LegalRun(k, s, before) && NoAppends(before) && k.bound == AtOrAfter
    requires HeldBack(k, s.log, Run(k, s, before), r, t)
    ensures LegalRun(k, s, actions) && NoAppends(actions) && Polls(actions) == Polls(before) + 1
    ensures HeldBack(k, s.log, Run(k, s, actions), r, t)
  {
    hide Run, LegalRun, Legal, Inv, Step, Awaits, Second, Polls;
    var u := Run(k, s, before);
    var records := WithheldPoll(k, u, r, t);
    LegalSnoc(k, s, before, Poll(records));
    PollsSnoc(before, Poll(records));
    StepKeepsInv(k, u, Poll(records));
    actions := before + [Poll(records)];
  }

  lemma {:induction false} Withheld(k: Task, s: State, r: Record, t: Stamp, n: nat) returns (actions: seq<Action>)
    requires HeldBack(k, s.log, s, r, t) && k.bound == AtOrAfter
    ensures LegalRun(k, s, actions) && NoAppends(actions) && Polls(actions) == n
    ensures HeldBack(k, s.log, Run(k, s, actions), r, t)
  {
    hide HeldBack;
    if n == 0 {
      actions := [];
    } else {
      hide Run, LegalRun, NoAppends;
      var before := Withheld(k, s, r, t, n - 1);
      actions := WithheldOnce(k, s, before, r, t);
    }
  }

  lemma PollsSnoc(actions: seq<Action>, a: Action)
    ensures Polls(actions + [a]) == Polls(actions) + if a.Poll? then 1 else 0
  {
    assert (actions + [a])[..|actions|] == actions;
  }

  lemma {:induction false} SameLog(k: Task, s: State, actions: seq<Action>)
    requires NoAppends(actions)
    ensures Run(k, s, actions).log == s.log
    decreases |actions|
  {
    if actions != [] {
      SameLog(k, s, actions[..|actions| - 1]);
    }
  }

  /** Whatever order the answers come in, `n` successful polls are enough for `r`. */
  ghost predicate SentWithin(k: Task, s: State, r: Record, n: nat) {
    forall actions :: LegalRun(k, s, actions) && NoAppends(actions) && Polls(actions) >= n ==>
      r in Run(k, s, actions).sent
  }

  /**
    An event of a log that no longer grows is sure to be sent, after some number of polls,
    exactly if no second from the cursor's to its own holds 200 other events in scope.
  */
  lemma DeliveredIff(k: Task, s: State, r: Record)
    requires Inv(k, s) && Awaits(k, s, r) && k.bound == AtOrAfter
    ensures (exists n: nat :: SentWithin(k, s, r, n)) <==> !Crowded(k, s.log, s.cursor, r, MAX_EVENTS_PER_POLL - 1)
  {
    hide Inv, LegalRun, Pending, Second;
    if Crowded(k, s.log, s.cursor, r, MAX_EVENTS_PER_POLL - 1) {
      var t: Stamp :|
        s.cursor <= t <= r.createdAt && |Second(k.scope, s.log, t) - {r}| > MAX_EVENTS_PER_POLL - 1;
      forall n: nat
        ensures !SentWithin(k, s, r, n)
      {
        var actions := Withheld(k, s, r, t, n);
      }
    } else {
      var n := |Pending(k, s.log, s, r)|;
      forall actions | LegalRun(k, s, actions) && NoAppends(actions) && Polls(actions) >= n
        ensures r in Run(k, s, actions).sent
      {
        SameLog(k, s, actions);
        PollsDrainTheLog(k, s, actions, r, MAX_EVENTS_PER_POLL - 1);
      }
      assert SentWithin(k, s, r, n);
    }
  }
}
