/**
  The server-sent event streams (looper-api): a task that polls the event log from
  a cursor, sends at most 200 events per poll and moves the cursor along.

  Time stamps are whole seconds, so many events share one.  The storage query orders
  its answer by time stamp alone; among equal stamps any order may come back, and a
  different one each time.  The query of looper-storage selects records at or after
  the cursor (`AtOrAfter`), so it returns sent events again; `StrictlyAfter` is the
  query that would not, and that loses events which share a second instead.
  Stamps are numbers in the order of the stored strings.
*/
module EventStream {
  import opened Wrappers

  const MAX_EVENTS_PER_POLL: nat := 200

  type Stamp = nat

  datatype Record = Record(id: string, project: Option<string>, createdAt: Stamp)

  datatype Bound = AtOrAfter | StrictlyAfter

  /** A stream for one project, or the stream of all events. */
  datatype Scope = Project(name: string) | Everything

  predicate InScope(scope: Scope, r: Record) {
    scope.Project? ==> r.project == Some(scope.name)
  }

  predicate Since(bound: Bound, cursor: Stamp, r: Record) {
    r.createdAt > cursor || (bound == AtOrAfter && r.createdAt == cursor)
  }

  ghost predicate Distinct(s: seq<Record>) {
    forall i, j :: 0 <= i < j < |s| ==> s[i] != s[j]
  }

  ghost predicate Ascending(s: seq<Record>) {
    forall i, j :: 0 <= i < j < |s| ==> s[i].createdAt <= s[j].createdAt
  }

  function Reverse<T>(s: seq<T>): (r: seq<T>)
    ensures |r| == |s|
  {
    if s == [] then [] else [s[|s| - 1]] + Reverse(s[..|s| - 1])
  }

  /** What `list_since` may answer: the selected records, each once, newest first, ties in any order. */
  ghost predicate IsAnswer(bound: Bound, cursor: Stamp, log: set<Record>, records: seq<Record>) {
    && Distinct(records)
    && (forall r :: r in records <==> r in log && Since(bound, cursor, r))
    && forall i, j :: 0 <= i < j < |records| ==> records[i].createdAt >= records[j].createdAt
  }

  function Scoped(scope: Scope, records: seq<Record>): seq<Record> {
    if records == [] then []
    else
      var rest := Scoped(scope, records[..|records| - 1]);
      if InScope(scope, records[|records| - 1]) then rest + [records[|records| - 1]] else rest
  }

  function Min(a: nat, b: nat): nat {
    if a <= b then a else b
  }

  function Cut(due: seq<Record>): seq<Record> {
    due[..Min(MAX_EVENTS_PER_POLL, |due|)]
  }

  /** The answer of the query as the loop goes through it: oldest first, in scope only. */
  function Due(scope: Scope, records: seq<Record>): seq<Record> {
    Scoped(scope, Reverse(records))
  }

  /** What one successful poll sends, given the answer of its query. */
  function Batch(scope: Scope, records: seq<Record>): seq<Record> {
    Cut(Due(scope, records))
  }

  /** The cursor after a batch: the newest time stamp sent, never moved back. */
  function Advance(cursor: Stamp, batch: seq<Record>): Stamp {
    if batch == [] then cursor
    else
      var before := Advance(cursor, batch[..|batch| - 1]);
      var last := batch[|batch| - 1].createdAt;
      if last > before then last else before
  }

  // ----- The polling task -----

  class Stream {
    const scope: Scope
    var cursor: Stamp
    var sent: seq<Record>

    constructor (scope: Scope, now: Stamp)
      ensures this.scope == scope && cursor == now && sent == []
    {
      this.scope, cursor, sent := scope, now, [];
    }

    /** One poll of a project stream over the records of the query, given newest first. */
    method PollProject(records: seq<Record>)
      modifies this
      ensures sent == old(sent) + Batch(scope, records)
      ensures cursor == Advance(old(cursor), Batch(scope, records))
    {
      hide Reverse;
      var count := 0;
      ghost var oldest := Reverse(records);
      ghost var batch: seq<Record> := [];
      ReverseIndex(records);
      var i := |records|;
      while i > 0 && count < MAX_EVENTS_PER_POLL
        invariant 0 <= i <= |records| && count == |batch| <= MAX_EVENTS_PER_POLL
        invariant batch == Scoped(scope, oldest[..|records| - i])
        invariant sent == old(sent) + batch && cursor == Advance(old(cursor), batch)
      {
        i := i - 1;
        var record := records[i];
        ghost var k := |records| - i - 1;
        assert oldest[..k + 1][..k] == oldest[..k] && oldest[k] == record;
        if InScope(scope, record) {
          if record.createdAt > cursor {
            cursor := record.createdAt;
          }
          sent := sent + [record];
          count := count + 1;
          assert (batch + [record])[..|batch|] == batch;
          batch := batch + [record];
        }
      }
      ScopedPrefix(scope, oldest, |records| - i);
      assert oldest[..|oldest|] == oldest;
      assert batch == Cut(Scoped(scope, oldest));
    }

    /** One poll of the stream of all events. */
    method PollAll(records: seq<Record>)
      requires scope == Everything
      modifies this
      ensures sent == old(sent) + Batch(scope, records)
      ensures cursor == Advance(old(cursor), Batch(scope, records))
    {
      hide Reverse, Scoped;
      ghost var oldest := Reverse(records);
      ReverseIndex(records);
      EverythingIsScoped(oldest);
      var n := Min(MAX_EVENTS_PER_POLL, |records|);
      for k := 0 to n
        invariant sent == old(sent) + oldest[..k] && cursor == Advance(old(cursor), oldest[..k])
      {
        var record := records[|records| - 1 - k];
        assert oldest[..k + 1][..k] == oldest[..k] && oldest[k] == record;
        assert oldest[..k + 1] == oldest[..k] + [record];
        if record.createdAt > cursor {
          cursor := record.createdAt;
        }
        sent := sent + [record];
      }
    }
  }

  lemma {:induction false} ReverseIndex<T>(s: seq<T>)
    ensures forall k :: 0 <= k < |s| ==> Reverse(s)[k] == s[|s| - 1 - k]
  {
    if s != [] {
      ReverseIndex(s[..|s| - 1]);
    }
  }

  lemma {:induction false} ScopedPrefix(scope: Scope, records: seq<Record>, k: nat)
    requires k <= |records|
    ensures Scoped(scope, records[..k]) <= Scoped(scope, records)
    decreases |records|
  {
    if k == |records| {
      assert records[..k] == records;
    } else {
      assert records[..|records| - 1][..k] == records[..k];
      ScopedPrefix(scope, records[..|records| - 1], k);
    }
  }

  lemma {:induction false} EverythingIsScoped(records: seq<Record>)
    ensures Scoped(Everything, records) == records
  {
    if records != [] {
      EverythingIsScoped(records[..|records| - 1]);
      assert records == records[..|records| - 1] + [records[|records| - 1]];
    }
  }

  // ----- The due events of a poll -----

  /** Every event in scope since the cursor, each once, oldest first, ties in some order. */
  ghost predicate IsDue(scope: Scope, bound: Bound, cursor: Stamp, log: set<Record>, due: seq<Record>) {
    && Distinct(due) && Ascending(due)
    && forall r :: r in due <==> r in log && InScope(scope, r) && Since(bound, cursor, r)
  }

  lemma {:induction false} ScopedMembers(scope: Scope, records: seq<Record>)
    ensures forall r :: r in Scoped(scope, records) <==> r in records && InScope(scope, r)
    decreases |records|
  {
    if records != [] {
      var k := |records| - 1;
      ScopedMembers(scope, records[..k]);
      assert records == records[..k] + [records[k]];
    }
  }

  lemma {:induction false} ScopedKeeps(scope: Scope, records: seq<Record>)
    requires Distinct(records) && Ascending(records)
    ensures Distinct(Scoped(scope, records)) && Ascending(Scoped(scope, records))
    decreases |records|
  {
    if records != [] {
      var k := |records| - 1;
      ScopedKeeps(scope, records[..k]);
      ScopedMembers(scope, records[..k]);
      var s := Scoped(scope, records[..k]);
      forall i | 0 <= i < |s|
        ensures s[i] != records[k] && s[i].createdAt <= records[k].createdAt
      {
        assert s[i] in records[..k];
      }
    }
  }

  /** Whatever the order among ties, the scoped answer read backwards is what is due. */
  lemma AnswerIsDue(scope: Scope, bound: Bound, cursor: Stamp, log: set<Record>, records: seq<Record>)
    requires IsAnswer(bound, cursor, log, records)
    ensures IsDue(scope, bound, cursor, log, Due(scope, records))
  {
    hide Scoped, Reverse;
    ReverseIndex(records);
    var oldest := Reverse(records);
    forall r
      ensures r in oldest <==> r in records
    {
      if r in oldest {
        var k :| 0 <= k < |oldest| && oldest[k] == r;
        assert records[|records| - 1 - k] == r;
      }
      if r in records {
        var k :| 0 <= k < |records| && records[k] == r;
        assert oldest[|records| - 1 - k] == r;
      }
    }
    ScopedKeeps(scope, oldest);
    ScopedMembers(scope, oldest);
  }

  lemma {:induction false} AdvanceToLast(cursor: Stamp, batch: seq<Record>)
    requires Ascending(batch) && forall k :: 0 <= k < |batch| ==> cursor <= batch[k].createdAt
    ensures Advance(cursor, batch) == if batch == [] then cursor else batch[|batch| - 1].createdAt
    decreases |batch|
  {
    if batch != [] {
      var k := |batch| - 1;
      AdvanceToLast(cursor, batch[..k]);
      if k > 0 {
        assert batch[..k][k - 1] == batch[k - 1];
      }
    }
  }

  // ----- Runs -----

  /** `Poll` carries the answer of its query; `Fail` is a poll whose query returned an error. */
  datatype Action = Append(record: Record) | Poll(records: seq<Record>) | Fail

  datatype State = State(log: set<Record>, cursor: Stamp, sent: seq<Record>)

  /** A task that watches `scope` with a query of the given kind from the cursor `start`. */
  datatype Task = Task(scope: Scope, bound: Bound, start: Stamp)

  function Step(k: Task, s: State, a: Action): State {
    match a
    case Append(r) => s.(log := s.log + {r})
    case Poll(records) =>
      s.(cursor := Advance(s.cursor, Batch(k.scope, records)), sent := s.sent + Batch(k.scope, records))
    case Fail => s
  }

  /** Record ids are unique, and a poll gets an answer of its query; stamps may come in any order. */
  ghost predicate Legal(k: Task, s: State, a: Action) {
    match a
    case Append(r) => r !in s.log
    case Poll(records) => IsAnswer(k.bound, s.cursor, s.log, records)
    case Fail => true
  }

  function Run(k: Task, s: State, actions: seq<Action>): State
    decreases |actions|
  {
    if actions == [] then s
    else Step(k, Run(k, s, actions[..|actions| - 1]), actions[|actions| - 1])
  }

  ghost predicate LegalRun(k: Task, s: State, actions: seq<Action>) {
    forall i :: 0 <= i < |actions| ==> Legal(k, Run(k, s, actions[..i]), actions[i])
  }

  ghost predicate Fresh(k: Task, s: State) {
    s.sent == [] && s.cursor == k.start
  }

  /** The first occurrences of the events sent. */
  function Firsts(sent: seq<Record>): seq<Record> {
    if sent == [] then []
    else
      var n := |sent| - 1;
      Firsts(sent[..n]) + if sent[n] in sent[..n] then [] else [sent[n]]
  }

  /** The events of the task: in its scope, at or after where it started. */
  ghost predicate Wanted(k: Task, r: Record) {
    InScope(k.scope, r) && Since(k.bound, k.start, r)
  }

  /** What every action keeps: only wanted events are sent, none beyond the cursor's second, first ones in order. */
  ghost predicate Inv(k: Task, s: State) {
    && k.start <= s.cursor
    && (forall r :: r in s.sent ==> r in s.log && Wanted(k, r) && r.createdAt <= s.cursor)
    && (if s.sent == [] then s.cursor == k.start else exists r :: r in s.sent && r.createdAt == s.cursor)
    && Ascending(Firsts(s.sent))
  }

  lemma {:induction false} FirstsMembers(sent: seq<Record>)
    ensures forall r :: r in Firsts(sent) <==> r in sent
    ensures Distinct(Firsts(sent))
    decreases |sent|
  {
    if sent != [] {
      var n := |sent| - 1;
      FirstsMembers(sent[..n]);
      assert sent == sent[..n] + [sent[n]];
    }
  }

  lemma FirstsSnoc(sent: seq<Record>, r: Record)
    ensures Firsts(sent + [r]) == Firsts(sent) + if r in sent then [] else [r]
  {
    assert (sent + [r])[..|sent|] == sent;
  }

  lemma {:induction false} FirstsOfBatch(sent: seq<Record>, batch: seq<Record>, cursor: Stamp)
    requires Ascending(Firsts(sent)) && Ascending(batch)
    requires forall r :: r in sent ==> r.createdAt <= cursor
    requires forall i :: 0 <= i < |batch| ==> cursor <= batch[i].createdAt
    ensures Ascending(Firsts(sent + batch))
    decreases |batch|
  {
    hide Firsts;
    if batch == [] {
      assert sent + batch == sent;
    } else {
      var n := |batch| - 1;
      FirstsOfBatch(sent, batch[..n], cursor);
      var before := sent + batch[..n];
      assert sent + batch == before + [batch[n]];
      FirstsSnoc(before, batch[n]);
      FirstsMembers(before);
      var f := Firsts(before);
      forall i | 0 <= i < |f|
        ensures f[i].createdAt <= batch[n].createdAt
      {
        assert f[i] in before;
        if f[i] !in sent {
          var j :| 0 <= j < n && batch[..n][j] == f[i];
          assert batch[j] == f[i];
        }
      }
    }
  }

  /** A poll in terms of what is due: the first 200, and the cursor on the last of them. */
  lemma PollStep(k: Task, s: State, records: seq<Record>) returns (due: seq<Record>)
    requires Inv(k, s) && IsAnswer(k.bound, s.cursor, s.log, records)
    ensures due == Due(k.scope, records) && IsDue(k.scope, k.bound, s.cursor, s.log, due)
    ensures forall i :: 0 <= i < |Cut(due)| ==> Cut(due)[i] == due[i] && due[i] in due
    ensures var t := Step(k, s, Poll(records));
            && t.log == s.log && t.sent == s.sent + Cut(due) && s.cursor <= t.cursor
            && t.cursor == if due == [] then s.cursor else due[|Cut(due)| - 1].createdAt
  {
    hide Scoped, Reverse, Advance;
    due := Due(k.scope, records);
    AnswerIsDue(k.scope, k.bound, s.cursor, s.log, records);
    forall i | 0 <= i < |Cut(due)|
      ensures s.cursor <= Cut(due)[i].createdAt && due[i] in due
    {
      assert due[i] in due;
    }
    AdvanceToLast(s.cursor, Cut(due));
  }

  lemma PollKeepsInv(k: Task, s: State, records: seq<Record>)
    requires Inv(k, s) && IsAnswer(k.bound, s.cursor, s.log, records)
    ensures Inv(k, Step(k, s, Poll(records)))
  {
    hide Firsts, IsAnswer, Batch;
    var due := PollStep(k, s, records);
    var t, batch := Step(k, s, Poll(records)), Cut(due);
    hide Step;
    forall i | 0 <= i < |batch|
      ensures batch[i] in due && s.cursor <= batch[i].createdAt <= t.cursor
    {
      assert batch[i] == due[i] && due[i] in due;
    }
    FirstsOfBatch(s.sent, batch, s.cursor);
    if batch != [] {
      assert batch[|batch| - 1] in t.sent;
    }
    forall r | r in t.sent
      ensures r in t.log && Wanted(k, r) && r.createdAt <= t.cursor
    {
      if r !in s.sent {
        var i :| 0 <= i < |batch| && batch[i] == r;
      }
    }
  }

  lemma {:induction false} RunKeepsInv(k: Task, s: State, actions: seq<Action>)
    requires Inv(k, s) && LegalRun(k, s, actions)
    ensures Inv(k, Run(k, s, actions))
    decreases |actions|
  {
    if actions != [] {
      var n := |actions| - 1;
      LegalPrefix(k, s, actions, n);
      RunKeepsInv(k, s, actions[..n]);
      StepKeepsInv(k, Run(k, s, actions[..n]), actions[n]);
    }
  }

  lemma StepKeepsInv(k: Task, s: State, a: Action)
    requires Inv(k, s) && Legal(k, s, a)
    ensures Inv(k, Step(k, s, a))
  {
    hide Firsts;
    match a
    case Append(_) =>
    case Poll(records) => PollKeepsInv(k, s, records);
    case Fail =>
  }

  lemma LegalPrefix(k: Task, s: State, actions: seq<Action>, n: nat)
    requires LegalRun(k, s, actions) && n < |actions|
    ensures LegalRun(k, s, actions[..n])
    ensures Legal(k, Run(k, s, actions[..n]), actions[n])
  {
    forall i | 0 <= i < n
      ensures Legal(k, Run(k, s, actions[..n][..i]), actions[..n][i])
    {
      assert actions[..n][..i] == actions[..i];
    }
  }

  lemma FreshInv(k: Task, s: State)
    requires Fresh(k, s)
    ensures Inv(k, s)
  {
  }

  // ----- Events that are missed for good -----

  /** Wanted and never sent, and the query will not return it any more. */
  ghost predicate Misses(k: Task, s: State, r: Record) {
    r in s.log && Wanted(k, r) && !Since(k.bound, s.cursor, r) && r !in s.sent
  }

  ghost predicate NothingMissed(k: Task, s: State) {
    forall r :: !Misses(k, s, r)
  }

  /** The batch ends inside a second. */
  predicate CutInside(due: seq<Record>) {
    && |due| > MAX_EVENTS_PER_POLL
    && due[MAX_EVENTS_PER_POLL - 1].createdAt == due[MAX_EVENTS_PER_POLL].createdAt
  }

  /** An append behind the cursor, or with the strict query a batch that ends inside a second. */
  ghost predicate Loses(k: Task, s: State, a: Action) {
    match a
    case Append(r) => Wanted(k, r) && !Since(k.bound, s.cursor, r)
    case Poll(records) => k.bound == StrictlyAfter && CutInside(Due(k.scope, records))
    case Fail => false
  }

  lemma StepMissesIff(k: Task, s: State, a: Action)
    requires Inv(k, s) && Legal(k, s, a)
    ensures NothingMissed(k, Step(k, s, a)) <==> NothingMissed(k, s) && !Loses(k, s, a)
  {
    hide Firsts, Batch, Due, Advance, IsAnswer;
    match a
    case Append(x) =>
      var t := Step(k, s, a);
      if r :| Misses(k, s, r) {
        assert Misses(k, t, r);
      }
      if Loses(k, s, a) {
        assert Misses(k, t, x);
      }
      assert forall r :: Misses(k, t, r) ==> Misses(k, s, r) || r == x;
    case Poll(records) => PollMissesIff(k, s, records);
    case Fail =>
  }

  lemma PollMissesIff(k: Task, s: State, records: seq<Record>)
    requires Inv(k, s) && Legal(k, s, Poll(records))
    ensures NothingMissed(k, Step(k, s, Poll(records))) <==> NothingMissed(k, s) && !Loses(k, s, Poll(records))
  {
    hide Firsts, Batch, Due, Advance, IsAnswer;
    var t := Step(k, s, Poll(records));
    var due := PollStep(k, s, records);
    hide Step;
    if r :| Misses(k, s, r) {
      assert r !in due;
      assert Misses(k, t, r);
    }
    if Loses(k, s, Poll(records)) {
      var r := due[MAX_EVENTS_PER_POLL];
      assert r in due;
      assert Misses(k, t, r);
    }
    if r :| Misses(k, t, r) && !Misses(k, s, r) {
      var i :| 0 <= i < |due| && due[i] == r;
      assert forall j :: 0 <= j < |Cut(due)| ==> Cut(due)[j] in t.sent;
      assert CutInside(due);
    }
  }

  /** Some action of the run loses an event. */
  ghost predicate SomeLoss(k: Task, s: State, actions: seq<Action>) {
    exists i :: 0 <= i < |actions| && Loses(k, Run(k, s, actions[..i]), actions[i])
  }

  lemma SomeLossByLast(k: Task, s: State, actions: seq<Action>, n: nat)
    requires n + 1 == |actions|
    ensures SomeLoss(k, s, actions) <==> SomeLoss(k, s, actions[..n]) || Loses(k, Run(k, s, actions[..n]), actions[n])
  {
    hide Loses, Run;
    assert forall i :: 0 <= i < n ==> actions[..n][..i] == actions[..i] && actions[..n][i] == actions[i];
    if SomeLoss(k, s, actions) {
      var i :| 0 <= i < |actions| && Loses(k, Run(k, s, actions[..i]), actions[i]);
      if i < n {
        assert Loses(k, Run(k, s, actions[..n][..i]), actions[..n][i]);
      }
    }
    if SomeLoss(k, s, actions[..n]) {
      var i :| 0 <= i < n && Loses(k, Run(k, s, actions[..n][..i]), actions[..n][i]);
      assert Loses(k, Run(k, s, actions[..i]), actions[i]);
    }
  }

  /**
    Over every run, with either query: no event is missed exactly when no action loses
    one, by appending behind the cursor or by cutting a batch where the cursor moves on.
  */
  lemma {:induction false} MissedIff(k: Task, s: State, actions: seq<Action>)
    requires Fresh(k, s) && LegalRun(k, s, actions)
    ensures NothingMissed(k, Run(k, s, actions)) <==> !SomeLoss(k, s, actions)
    decreases |actions|
  {
    hide Legal, Loses, Step, Misses;
    if actions != [] {
      var n := |actions| - 1;
      LegalPrefix(k, s, actions, n);
      MissedIff(k, s, actions[..n]);
      SomeLossByLast(k, s, actions, n);
      FreshInv(k, s);
      RunKeepsInv(k, s, actions[..n]);
      StepMissesIff(k, Run(k, s, actions[..n]), actions[n]);
    } else {
      FreshMissesNothing(k, s);
    }
  }

  lemma FreshMissesNothing(k: Task, s: State)
    requires Fresh(k, s)
    ensures NothingMissed(k, s)
  {
  }

  /** A missed event is never sent later. */
  lemma {:induction false} MissedForGood(k: Task, s: State, actions: seq<Action>, r: Record)
    requires Inv(k, s) && LegalRun(k, s, actions) && Misses(k, s, r)
    ensures Misses(k, Run(k, s, actions), r)
    decreases |actions|
  {
    hide Legal, Step, Misses, Inv;
    if actions != [] {
      var n := |actions| - 1;
      LegalPrefix(k, s, actions, n);
      MissedForGood(k, s, actions[..n], r);
      RunKeepsInv(k, s, actions[..n]);
      StaysMissed(k, Run(k, s, actions[..n]), actions[n], r);
    }
  }

  lemma StaysMissed(k: Task, s: State, a: Action, r: Record)
    requires Inv(k, s) && Legal(k, s, a) && Misses(k, s, r)
    ensures Misses(k, Step(k, s, a), r)
  {
    hide Firsts, Due, IsAnswer;
    if a.Poll? {
      var due := PollStep(k, s, a.records);
      assert r !in due;
    }
  }

  // ----- Logs that are appended in order -----

  /** No event is appended with a stamp older than one in the log. */
  ghost predicate InOrder(k: Task, s: State, actions: seq<Action>) {
    forall i, r :: 0 <= i < |actions| && actions[i].Append? && r in Run(k, s, actions[..i]).log ==>
      r.createdAt <= actions[i].record.createdAt
  }

  ghost predicate StampsDiffer(log: set<Record>) {
    forall x, y :: x in log && y in log && x.createdAt == y.createdAt ==> x == y
  }

  lemma {:induction false} LogGrows(k: Task, s: State, actions: seq<Action>, i: nat)
    requires i <= |actions|
    ensures Run(k, s, actions[..i]).log <= Run(k, s, actions).log
    decreases |actions|
  {
    if i == |actions| {
      assert actions[..i] == actions;
    } else {
      assert actions[..|actions| - 1][..i] == actions[..i];
      LogGrows(k, s, actions[..|actions| - 1], i);
    }
  }

  /** In a log appended in order the inclusive query loses nothing; the strict one needs distinct stamps. */
  lemma InOrderLosesNothing(k: Task, s: State, actions: seq<Action>)
    requires Fresh(k, s) && LegalRun(k, s, actions) && InOrder(k, s, actions)
    requires k.bound == AtOrAfter || StampsDiffer(Run(k, s, actions).log)
    ensures !SomeLoss(k, s, actions)
  {
    hide Inv, Loses, Run, Legal;
    FreshInv(k, s);
    forall i | 0 <= i < |actions|
      ensures !Loses(k, Run(k, s, actions[..i]), actions[i])
    {
      LegalPrefix(k, s, actions, i);
      RunKeepsInv(k, s, actions[..i]);
      LogGrows(k, s, actions, i + 1);
      LastStep(k, s, actions, i);
      InOrderStep(k, Run(k, s, actions[..i]), actions[i]);
    }
  }

  lemma LastStep(k: Task, s: State, actions: seq<Action>, i: nat)
    requires i < |actions|
    ensures Run(k, s, actions[..i + 1]) == Step(k, Run(k, s, actions[..i]), actions[i])
  {
    assert actions[..i + 1][..i] == actions[..i];
  }

  lemma InOrderStep(k: Task, s: State, a: Action)
    requires Inv(k, s) && Legal(k, s, a)
    requires a.Append? ==> forall r :: r in s.log ==> r.createdAt <= a.record.createdAt
    requires k.bound == AtOrAfter || StampsDiffer(Step(k, s, a).log)
    ensures !Loses(k, s, a)
  {
    hide Firsts, IsAnswer, Due, Batch, Advance;
    if a.Poll? {
      var due := PollStep(k, s, a.records);
      assert forall i :: 0 <= i < |due| ==> due[i] in due && due[i] in s.log;
    }
  }

  /** Over every run in order, ties or not, the inclusive query has sent all that lies before the cursor's second. */
  lemma NothingIsLost(k: Task, s: State, actions: seq<Action>)
    requires Fresh(k, s) && LegalRun(k, s, actions) && InOrder(k, s, actions) && k.bound == AtOrAfter
    ensures var u := Run(k, s, actions);
            && Ascending(Firsts(u.sent))
            && (forall r :: r in u.log && Wanted(k, r) && r.createdAt < u.cursor ==> r in u.sent)
            && (forall r :: r in u.sent ==> r in u.log && Wanted(k, r) && r.createdAt <= u.cursor)
  {
    hide LegalRun, InOrder, Run, SomeLoss, Firsts;
    var u := Run(k, s, actions);
    InOrderLosesNothing(k, s, actions);
    MissedIff(k, s, actions);
    FreshInv(k, s);
    RunKeepsInv(k, s, actions);
    forall r | r in u.log && Wanted(k, r) && r.createdAt < u.cursor
      ensures r in u.sent
    {
      assert !Misses(k, u, r);
    }
  }

  /**
    Corollary for distinct stamps.  With either query the events sent, each counted
    once, are exactly the wanted ones up to the cursor, in the order of the log.
  */
  lemma DistinctStampsAreExact(k: Task, s: State, actions: seq<Action>)
    requires Fresh(k, s) && LegalRun(k, s, actions) && InOrder(k, s, actions)
    requires StampsDiffer(Run(k, s, actions).log)
    ensures var u := Run(k, s, actions);
            && Ascending(Firsts(u.sent))
            && (u.sent != [] ==>
                  forall r :: r in u.sent <==> r in u.log && Wanted(k, r) && r.createdAt <= u.cursor)
            && (u.sent == [] ==> u.cursor == k.start)
  {
    hide LegalRun, InOrder, Run, SomeLoss, Firsts;
    var u := Run(k, s, actions);
    InOrderLosesNothing(k, s, actions);
    MissedIff(k, s, actions);
    FreshInv(k, s);
    RunKeepsInv(k, s, actions);
    forall r | r in u.log && Wanted(k, r) && r.createdAt <= u.cursor && u.sent != []
      ensures r in u.sent
    {
      assert !Misses(k, u, r);
    }
  }

  /** Over every run the stream of a project sends that project's events and no others. */
  lemma OnlyItsProject(k: Task, s: State, actions: seq<Action>, name: string)
    requires Fresh(k, s) && LegalRun(k, s, actions) && k.scope == Project(name)
    ensures forall r :: r in Run(k, s, actions).sent ==>
              r in Run(k, s, actions).log && r.project == Some(name) && k.start <= r.createdAt
  {
    hide LegalRun, Run, Firsts;
    FreshInv(k, s);
    RunKeepsInv(k, s, actions);
  }

  /**
    Over every run in order the inclusive query has sent each logged event of the stream, of
    its project or of all, from where it started up to the cursor's second.
  */
  lemma AllOfItsProject(k: Task, s: State, actions: seq<Action>, r: Record)
    requires Fresh(k, s) && LegalRun(k, s, actions) && InOrder(k, s, actions) && k.bound == AtOrAfter
    requires var u := Run(k, s, actions); r in u.log && k.start <= r.createdAt < u.cursor
    ensures k.scope == Everything ==> r in Run(k, s, actions).sent
    ensures k.scope.Project? && r.project == Some(k.scope.name) ==> r in Run(k, s, actions).sent
  {
    hide LegalRun, InOrder, Run, Firsts;
    NothingIsLost(k, s, actions);
  }

  /** One poll of either stream, record by record: which events of the answer are due, and that 200 are the limit. */
  lemma BatchWrittenOut(k: Task, s: State, records: seq<Record>)
    requires Inv(k, s) && IsAnswer(k.bound, s.cursor, s.log, records)
    ensures var due := Due(k.scope, records);
            && Batch(k.scope, records) == (if |due| <= 200 then due else due[..200])
            && (forall r :: r in due <==>
                  && r in s.log
                  && (k.scope == Everything || r.project == Some(k.scope.name))
                  && (r.createdAt > s.cursor || (k.bound == AtOrAfter && r.createdAt == s.cursor)))
  {
    hide Scoped, Reverse;
    var due := PollStep(k, s, records);
    assert |due| <= 200 ==> due[..|due|] == due;
  }
}
