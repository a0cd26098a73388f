/**
  The discovery cache (looper-github) and the three list calls that read through it.
  One cache serves the threads of all runners, and it is locked for each lookup and
  for each store but not while `gh` runs in between, so list calls interleave.
  Times are readings of one monotonic clock.
*/
module DiscoveryCache {
  import opened Text
  import opened Wrappers

  type Time = nat

  datatype Slot<T> = Slot(expiresAt: Time, items: seq<T>)

  /** Which of the three maps: open pull requests, review-requested ones, issues. */
  datatype Kind = Prs | ReviewPrs | Issues

  datatype Stores<T> = Stores(
    prs: map<string, Slot<T>>, reviewPrs: map<string, Slot<T>>, issues: map<string, Slot<T>>)

  function Empty<T>(): Stores<T> {
    Stores(map[], map[], map[])
  }

  function MapOf<T>(s: Stores<T>, kind: Kind): map<string, Slot<T>> {
    match kind
    case Prs => s.prs
    case ReviewPrs => s.reviewPrs
    case Issues => s.issues
  }

  function Put<T>(s: Stores<T>, kind: Kind, key: string, slot: Slot<T>): Stores<T> {
    match kind
    case Prs => s.(prs := s.prs[key := slot])
    case ReviewPrs => s.(reviewPrs := s.reviewPrs[key := slot])
    case Issues => s.(issues := s.issues[key := slot])
  }

  function Unexpired<T>(m: map<string, Slot<T>>, key: string, now: Time): Option<seq<T>> {
    if key in m && m[key].expiresAt > now then Some(m[key].items) else None
  }

  // ----- Queries and their keys -----

  /** What the callers pass; the key leaves out the further labels, the limit and the directory. */
  datatype Query =
    | PullRequests(repo: string, labelName: string, author: string, baseRef: string,
                   labels: seq<string>, limit: int, cwd: string)
    | ReviewRequested(repo: string, reviewer: string, limit: int, cwd: string)
    | OpenIssues(repo: string, assignee: string, labelName: string, labels: seq<string>, limit: int, cwd: string)

  function KindOf(q: Query): Kind {
    match q
    case PullRequests(_, _, _, _, _, _, _) => Prs
    case ReviewRequested(_, _, _, _) => ReviewPrs
    case OpenIssues(_, _, _, _, _, _) => Issues
  }

  function KeyOf(q: Query): string {
    match q
    case PullRequests(repo, labelName, author, baseRef, _, _, _) =>
      repo + "|" + labelName + "|" + author + "|" + baseRef
    case ReviewRequested(repo, reviewer, _, _) => "review|" + repo + "|" + reviewer
    case OpenIssues(repo, assignee, labelName, _, _, _) => "issues|" + repo + "|" + assignee + "|" + labelName
  }

  /** The two queries land in the same slot. */
  predicate SameSlot(p: Query, q: Query) {
    KindOf(p) == KindOf(q) && KeyOf(p) == KeyOf(q)
  }

  /** What the key is made of, in order. */
  function KeyFields(q: Query): seq<string> {
    match q
    case PullRequests(repo, labelName, author, baseRef, _, _, _) => [repo, labelName, author, baseRef]
    case ReviewRequested(repo, reviewer, _, _) => [repo, reviewer]
    case OpenIssues(repo, assignee, labelName, _, _, _) => [repo, assignee, labelName]
  }

  /** The two queries agree in everything that the key is made of. */
  predicate SameFields(p: Query, q: Query) {
    KindOf(p) == KindOf(q) && KeyFields(p) == KeyFields(q)
  }

  /** The two queries agree in everything that the key leaves out. */
  predicate SameRest(p: Query, q: Query) {
    && p.limit == q.limit && p.cwd == q.cwd
    && (!p.ReviewRequested? && !q.ReviewRequested? ==> p.labels == q.labels)
  }

  /** No "|" in a field that is followed by another one. */
  ghost predicate NoBars(fields: seq<string>) {
    forall i :: 0 <= i < |fields| - 1 ==> '|' !in fields[i]
  }

  // ----- Fields joined by bars -----

  function Joined(fields: seq<string>): string
    requires fields != []
  {
    if |fields| == 1 then fields[0] else fields[0] + "|" + Joined(fields[1..])
  }

  /** What a key starts with. */
  function KeyPrefix(kind: Kind): string {
    match kind
    case Prs => ""
    case ReviewPrs => "review|"
    case Issues => "issues|"
  }

  lemma KeyIsJoined(q: Query)
    ensures KeyOf(q) == KeyPrefix(KindOf(q)) + Joined(KeyFields(q))
  {
    var f := KeyFields(q);
    match q
    case PullRequests(_, _, _, _, _, _, _) =>
      JoinThree(f[1..]);
      assert Joined(f) == f[0] + "|" + (f[1] + "|" + (f[2] + "|" + f[3]));
    case ReviewRequested(_, _, _, _) =>
      assert Joined(f) == f[0] + "|" + f[1];
    case OpenIssues(_, _, _, _, _, _) =>
      JoinThree(f);
  }

  lemma JoinThree(f: seq<string>)
    requires |f| == 3
    ensures Joined(f) == f[0] + "|" + (f[1] + "|" + f[2])
  {
    assert f[1..][1..] == [f[2]];
    assert Joined([f[2]]) == f[2];
    assert Joined(f[1..]) == f[1] + "|" + f[2];
  }

  lemma KeysAreJoined(p: Query, q: Query)
    requires KindOf(p) == KindOf(q)
    ensures KeyOf(p) == KeyOf(q) <==> Joined(KeyFields(p)) == Joined(KeyFields(q))
  {
    hide KeyOf, Joined;
    KeyIsJoined(p);
    KeyIsJoined(q);
    var prefix := KeyPrefix(KindOf(p));
    assert (prefix + Joined(KeyFields(p)))[|prefix|..] == Joined(KeyFields(p));
    assert (prefix + Joined(KeyFields(q)))[|prefix|..] == Joined(KeyFields(q));
  }

  lemma {:induction false} JoinedTellsFields(f: seq<string>, g: seq<string>)
    requires |f| == |g| > 0 && NoBars(f) && NoBars(g) && Joined(f) == Joined(g)
    ensures f == g
  {
    if |f| > 1 {
      IndexBehind(f[0], '|', Joined(f[1..]));
      IndexBehind(g[0], '|', Joined(g[1..]));
      assert NoBars(f[1..]) && NoBars(g[1..]);
      JoinedTellsFields(f[1..], g[1..]);
      assert f == [f[0]] + f[1..] && g == [g[0]] + g[1..];
    }
  }

  /** The number of bars in the joined text: one between any two fields, and those inside. */
  lemma {:induction false} CountBars(f: seq<string>)
    requires f != []
    ensures multiset(Joined(f))['|'] >= |f| - 1
    ensures multiset(Joined(f))['|'] == |f| - 1 <==> forall i :: 0 <= i < |f| ==> '|' !in f[i]
  {
    if |f| > 1 {
      CountBars(f[1..]);
      assert multiset("|")['|'] == 1;
      assert forall i :: 1 <= i < |f| ==> f[i] == f[1..][i - 1];
    }
  }

  /** Around a bar inside a field the joined text can be cut differently. */
  lemma {:induction false} CutElsewhere(f: seq<string>, i: nat) returns (g: seq<string>)
    requires i < |f| && |f| > 1 && '|' in f[i]
    ensures |g| == |f| && g != f && Joined(g) == Joined(f)
  {
    var bar :| 0 <= bar < |f[i]| && f[i][bar] == '|';
    var u, v := f[i][..bar], f[i][bar + 1..];
    assert f[i] == u + "|" + v;
    if i == 0 {
      g := [u, v + "|" + f[1]] + f[2..];
      assert g[1..] == [v + "|" + f[1]] + f[2..] && g[1..][1..] == f[2..] && f[1..][1..] == f[2..];
      assert Joined(f[1..]) == f[1] + Joined(f[1..])[|f[1]|..];
      assert Joined(g[1..]) == v + "|" + Joined(f[1..]);
      assert Joined(g) == u + "|" + (v + "|" + Joined(f[1..]));
      assert |g[0]| < |f[0]|;
    } else if |f| == 2 {
      g := [f[0] + "|" + u, v];
      assert g[1..] == [v] && f[1..] == [f[1]];
      assert |g[0]| > |f[0]|;
    } else {
      var rest := CutElsewhere(f[1..], i - 1);
      g := [f[0]] + rest;
      assert g[1..] == rest;
    }
  }

  /** Without "|" inside the fields, queries share a slot exactly if they agree in the fields of the key. */
  lemma KeyTellsFields(p: Query, q: Query)
    requires NoBars(KeyFields(p)) && NoBars(KeyFields(q))
    ensures SameSlot(p, q) <==> SameFields(p, q)
  {
    hide KeyOf, Joined;
    if KindOf(p) == KindOf(q) {
      KeysAreJoined(p, q);
      if Joined(KeyFields(p)) == Joined(KeyFields(q)) {
        JoinedTellsFields(KeyFields(p), KeyFields(q));
      }
    }
  }

  function WithFields(q: Query, f: seq<string>): (r: Query)
    requires |f| == |KeyFields(q)|
    ensures KindOf(r) == KindOf(q) && KeyFields(r) == f
  {
    match q
    case PullRequests(_, _, _, _, labels, limit, cwd) => PullRequests(f[0], f[1], f[2], f[3], labels, limit, cwd)
    case ReviewRequested(_, _, limit, cwd) => ReviewRequested(f[0], f[1], limit, cwd)
    case OpenIssues(_, _, _, labels, limit, cwd) => OpenIssues(f[0], f[1], f[2], labels, limit, cwd)
  }

  /**
    The exact condition for a collision: some query with other key fields shares the slot
    of `p` if and only if some key field of `p`, the last one included, contains "|".
  */
  lemma BarsCollide(p: Query)
    ensures (exists q :: SameSlot(p, q) && !SameFields(p, q)) <==>
            (exists i :: 0 <= i < |KeyFields(p)| && '|' in KeyFields(p)[i])
  {
    hide KeyOf, Joined;
    var f := KeyFields(p);
    if i :| 0 <= i < |f| && '|' in f[i] {
      var g := CutElsewhere(f, i);
      var q := WithFields(p, g);
      KeysAreJoined(p, q);
      assert SameSlot(p, q) && !SameFields(p, q);
    }
    if q :| SameSlot(p, q) && !SameFields(p, q) {
      KeysAreJoined(p, q);
      CountBars(f);
      CountBars(KeyFields(q));
      if forall i :: 0 <= i < |f| ==> '|' !in f[i] {
        JoinedTellsFields(f, KeyFields(q));
      }
    }
  }

  // ----- The cache and the calls through it -----

  /** What a list call leaves behind: `others` is the cache as other callers left it when `gh` returned. */
  function AfterCall<T>(before: Stores<T>, others: Stores<T>, q: Query, ttl: nat, now: Time,
                        gh: Option<seq<T>>, done: Time): Stores<T> {
    if Unexpired(MapOf(before, KindOf(q)), KeyOf(q), now).Some? then before
    else if gh.None? then others
    else Put(others, KindOf(q), KeyOf(q), Slot(done + ttl, gh.value))
  }

  function AnswerOf<T>(before: Stores<T>, q: Query, now: Time, gh: Option<seq<T>>): Option<seq<T>> {
    var cached := Unexpired(MapOf(before, KindOf(q)), KeyOf(q), now);
    if cached.Some? then cached else gh
  }

  class Cache<T> {
    var prs: map<string, Slot<T>>
    var reviewPrs: map<string, Slot<T>>
    var issues: map<string, Slot<T>>

    function State(): Stores<T>
      reads this
    {
      Stores(prs, reviewPrs, issues)
    }

    constructor ()
      ensures State() == Empty()
    {
      prs, reviewPrs, issues := map[], map[], map[];
    }

    method GetPrs(key: string, now: Time) returns (r: Option<seq<T>>)
      ensures r == Unexpired(prs, key, now)
    {
      if key !in prs {
        return None;
      }
      var slot := prs[key];
      return if slot.expiresAt > now then Some(slot.items) else None;
    }

    method SetPrs(key: string, items: seq<T>, ttl: nat, now: Time)
      modifies this
      ensures State() == Put(old(State()), Prs, key, Slot(now + ttl, items))
    {
      prs := prs[key := Slot(now + ttl, items)];
    }

    method GetReviewPrs(key: string, now: Time) returns (r: Option<seq<T>>)
      ensures r == Unexpired(reviewPrs, key, now)
    {
      if key !in reviewPrs {
        return None;
      }
      var slot := reviewPrs[key];
      return if slot.expiresAt > now then Some(slot.items) else None;
    }

    method SetReviewPrs(key: string, items: seq<T>, ttl: nat, now: Time)
      modifies this
      ensures State() == Put(old(State()), ReviewPrs, key, Slot(now + ttl, items))
    {
      reviewPrs := reviewPrs[key := Slot(now + ttl, items)];
    }

    method GetIssues(key: string, now: Time) returns (r: Option<seq<T>>)
      ensures r == Unexpired(issues, key, now)
    {
      if key !in issues {
        return None;
      }
      var slot := issues[key];
      return if slot.expiresAt > now then Some(slot.items) else None;
    }

    method SetIssues(key: string, items: seq<T>, ttl: nat, now: Time)
      modifies this
      ensures State() == Put(old(State()), Issues, key, Slot(now + ttl, items))
    {
      issues := issues[key := Slot(now + ttl, items)];
    }

    /** While `gh` runs the cache is not locked, and other callers store what they fetched. */
    method Interfere(others: Stores<T>)
      modifies this
      ensures State() == others
    {
      prs, reviewPrs, issues := others.prs, others.reviewPrs, others.issues;
    }

    /**
      `gh` is what the command line tool would answer, asked on a miss only; `others` is
      how other callers leave the cache meanwhile.
    */
    method ListOpenPullRequests(q: Query, ttl: nat, now: Time, others: Stores<T>, gh: Option<seq<T>>, done: Time)
      returns (answer: Option<seq<T>>)
      requires q.PullRequests?
      modifies this
      ensures answer == AnswerOf(old(State()), q, now, gh)
      ensures State() == AfterCall(old(State()), others, q, ttl, now, gh, done)
    {
      var key := KeyOf(q);
      answer := GetPrs(key, now);
      if answer.None? {
        Interfere(others);
        answer := gh;
        if gh.Some? {
          SetPrs(key, gh.value, ttl, done);
        }
      }
    }

    method ListReviewRequestedPullRequests(q: Query, ttl: nat, now: Time, others: Stores<T>,
                                           gh: Option<seq<T>>, done: Time)
      returns (answer: Option<seq<T>>)
      requires q.ReviewRequested?
      modifies this
      ensures answer == AnswerOf(old(State()), q, now, gh)
      ensures State() == AfterCall(old(State()), others, q, ttl, now, gh, done)
    {
      var key := KeyOf(q);
      answer := GetReviewPrs(key, now);
      if answer.None? {
        Interfere(others);
        answer := gh;
        if gh.Some? {
          SetReviewPrs(key, gh.value, ttl, done);
        }
      }
    }

    method ListOpenIssues(q: Query, ttl: nat, now: Time, others: Stores<T>, gh: Option<seq<T>>, done: Time)
      returns (answer: Option<seq<T>>)
      requires q.OpenIssues?
      modifies this
      ensures answer == AnswerOf(old(State()), q, now, gh)
      ensures State() == AfterCall(old(State()), others, q, ttl, now, gh, done)
    {
      var key := KeyOf(q);
      answer := GetIssues(key, now);
      if answer.None? {
        Interfere(others);
        answer := gh;
        if gh.Some? {
          SetIssues(key, gh.value, ttl, done);
        }
      }
    }
  }

  // ----- The cache against its history -----

  datatype SetCall<T> = SetCall(kind: Kind, key: string, items: seq<T>, ttl: nat, at: Time)

  function Replay<T>(sets: seq<SetCall<T>>): Stores<T> {
    if sets == [] then Stores(map[], map[], map[])
    else
      var c := sets[|sets| - 1];
      Put(Replay(sets[..|sets| - 1]), c.kind, c.key, Slot(c.at + c.ttl, c.items))
  }

  /** The latest set of that key in that map. */
  ghost predicate IsLatest<T>(sets: seq<SetCall<T>>, kind: Kind, key: string, i: nat) {
    && i < |sets| && sets[i].kind == kind && sets[i].key == key
    && forall j :: i < j < |sets| ==> !(sets[j].kind == kind && sets[j].key == key)
  }

  /**
    A get answers exactly when the latest set of that key in that same map stored its
    items for longer than until now; sets of other keys and of the other maps do not
    matter, and neither does the time to live that the getter passes.
  */
  lemma GetIsLatestSet<T>(sets: seq<SetCall<T>>, kind: Kind, key: string, now: Time)
    ensures match Unexpired(MapOf(Replay(sets), kind), key, now)
            case Some(items) =>
              exists i: nat :: IsLatest(sets, kind, key, i) && sets[i].items == items && sets[i].at + sets[i].ttl > now
            case None => forall i: nat :: IsLatest(sets, kind, key, i) ==> sets[i].at + sets[i].ttl <= now
  {
    SlotIsLatestSet(sets, kind, key);
  }

  lemma LatestWithoutLast<T>(sets: seq<SetCall<T>>, kind: Kind, key: string, n: nat, i: nat)
    requires n + 1 == |sets| && !(sets[n].kind == kind && sets[n].key == key)
    ensures IsLatest(sets, kind, key, i) <==> IsLatest(sets[..n], kind, key, i)
  {
    if IsLatest(sets[..n], kind, key, i) {
      forall j | i < j < |sets|
        ensures !(sets[j].kind == kind && sets[j].key == key)
      {
        if j < n {
          assert sets[..n][j] == sets[j];
        }
      }
    }
  }

  lemma {:induction false} SlotIsLatestSet<T>(sets: seq<SetCall<T>>, kind: Kind, key: string)
    ensures var m := MapOf(Replay(sets), kind);
            && (key in m ==> exists i: nat :: IsLatest(sets, kind, key, i))
            && forall i: nat :: IsLatest(sets, kind, key, i) ==>
                 key in m && m[key] == Slot(sets[i].at + sets[i].ttl, sets[i].items)
    decreases |sets|
  {
    if sets != [] {
      var n := |sets| - 1;
      if sets[n].kind == kind && sets[n].key == key {
        assert IsLatest(sets, kind, key, n);
      } else {
        SlotIsLatestSet(sets[..n], kind, key);
        assert MapOf(Replay(sets), kind) == MapOf(Replay(sets[..n]), kind) ||
               (sets[n].kind == kind && sets[n].key != key);
        forall i: nat
          ensures IsLatest(sets, kind, key, i) <==> IsLatest(sets[..n], kind, key, i)
        {
          LatestWithoutLast(sets, kind, key, n, i);
        }
      }
    }
  }

  // ----- Interleaved list calls -----

  /** A list call with its time to live; calls are numbered, and one thread may make many. */
  datatype Call = Call(query: Query, ttl: nat)

  datatype Phase<T> = Ready | Missed | Fetched(items: seq<T>) | Failed | Stored | Hit(items: seq<T>)

  datatype State<T> = State(stores: Stores<T>, phases: seq<Phase<T>>)

  /** A call looks its key up; on a miss it asks `gh`, and stores what `gh` answered. */
  datatype Step<T> =
    | Lookup(call: nat, now: Time)
    | Fetch(call: nat, answer: Option<seq<T>>)
    | Store(call: nat, now: Time)

  predicate Enabled<T>(calls: seq<Call>, s: State<T>, step: Step<T>) {
    && step.call < |calls| == |s.phases|
    && match step
       case Lookup(c, _) => s.phases[c].Ready?
       case Fetch(c, _) => s.phases[c].Missed?
       case Store(c, _) => s.phases[c].Fetched?
  }

  function Exec<T>(calls: seq<Call>, s: State<T>, step: Step<T>): State<T>
    requires Enabled(calls, s, step)
  {
    var call := calls[step.call];
    match step
    case Lookup(c, now) =>
      (match Unexpired(MapOf(s.stores, KindOf(call.query)), KeyOf(call.query), now)
       case Some(items) => s.(phases := s.phases[c := Hit(items)])
       case None => s.(phases := s.phases[c := Missed]))
    case Fetch(c, answer) =>
      s.(phases := s.phases[c := if answer.Some? then Fetched(answer.value) else Failed])
    case Store(c, now) =>
      State(Put(s.stores, KindOf(call.query), KeyOf(call.query), Slot(now + call.ttl, s.phases[c].items)),
            s.phases[c := Stored])
  }

  ghost predicate Legal<T>(calls: seq<Call>, steps: seq<Step<T>>)
    decreases |steps|, 0
  {
    steps == [] ||
    (var n := |steps| - 1; Legal(calls, steps[..n]) && Enabled(calls, Run(calls, steps[..n]), steps[n]))
  }

  ghost function Run<T>(calls: seq<Call>, steps: seq<Step<T>>): (s: State<T>)
    requires Legal(calls, steps)
    ensures |s.phases| == |calls|
    decreases |steps|, 1
  {
    if steps == [] then State(Empty(), seq(|calls|, _ => Ready))
    else Exec(calls, Run(calls, steps[..|steps| - 1]), steps[|steps| - 1])
  }

  /** A list call of the class is its steps: `s` is the cache at its lookup, `t` when `gh` has returned. */
  lemma CallIsItsSteps<T>(calls: seq<Call>, s: State<T>, t: State<T>, c: nat, now: Time, gh: Option<seq<T>>, done: Time)
    requires Enabled(calls, s, Lookup(c, now))
    ensures var q, u := calls[c].query, Exec(calls, s, Lookup(c, now));
            var answer := AnswerOf(s.stores, q, now, gh);
            var after := AfterCall(s.stores, t.stores, q, calls[c].ttl, now, gh, done);
            && (u.phases[c].Hit? ==> answer == Some(u.phases[c].items) && after == u.stores)
            && (u.phases[c].Missed? && Enabled(calls, t, Fetch(c, gh)) ==>
                  var v := Exec(calls, t, Fetch(c, gh));
                  && answer == (if v.phases[c].Fetched? then Some(v.phases[c].items) else None)
                  && after == if gh.Some? then Exec(calls, v, Store(c, done)).stores else v.stores)
            && (u.phases[c].Hit? || u.phases[c].Missed?)
  {
    hide KeyOf, KindOf, MapOf, Put;
    assert Unexpired(MapOf(s.stores, KindOf(calls[c].query)), KeyOf(calls[c].query), now).Some? <==>
           Exec(calls, s, Lookup(c, now)).phases[c].Hit?;
  }

  lemma {:induction false} LegalPrefix<T>(calls: seq<Call>, steps: seq<Step<T>>, i: nat)
    requires Legal(calls, steps) && i <= |steps|
    ensures Legal(calls, steps[..i])
    decreases |steps|
  {
    if i == |steps| {
      assert steps[..i] == steps;
    } else {
      assert steps[..|steps| - 1][..i] == steps[..i];
      LegalPrefix(calls, steps[..|steps| - 1], i);
    }
  }

  /** The state before step `i`. */
  ghost function At<T>(calls: seq<Call>, steps: seq<Step<T>>, i: nat): (s: State<T>)
    requires Legal(calls, steps) && i <= |steps|
    ensures |s.phases| == |calls|
  {
    LegalPrefix(calls, steps, i);
    Run(calls, steps[..i])
  }

  lemma AtStep<T>(calls: seq<Call>, steps: seq<Step<T>>, i: nat)
    requires Legal(calls, steps) && i < |steps|
    ensures Enabled(calls, At(calls, steps, i), steps[i])
    ensures At(calls, steps, i + 1) == Exec(calls, At(calls, steps, i), steps[i])
  {
    LegalPrefix(calls, steps, i + 1);
    assert steps[..i + 1][..i] == steps[..i];
  }

  // ----- Where an answer comes from -----

  /** The step stores into the slot of the query. */
  predicate StoresTo<T>(calls: seq<Call>, step: Step<T>, q: Query) {
    step.Store? && step.call < |calls| && SameSlot(calls[step.call].query, q)
  }

  /** The step fetches a list for the slot of the query. */
  predicate FetchesFor<T>(calls: seq<Call>, step: Step<T>, q: Query) {
    step.Fetch? && step.answer.Some? && step.call < |calls| && SameSlot(calls[step.call].query, q)
  }

  /** Call `call` fetched at step `fetch` and stored at step `store`. */
  datatype Origin = Origin(call: nat, fetch: nat, store: nat)

  /** What the slot of `q` holds before step `i` was fetched and then stored by `o`, the last to store there. */
  ghost predicate IsOrigin<T>(calls: seq<Call>, steps: seq<Step<T>>, i: nat, q: Query, items: seq<T>, o: Origin) {
    && o.fetch < o.store < i <= |steps| && o.call < |calls| && SameSlot(calls[o.call].query, q)
    && steps[o.fetch] == Fetch(o.call, Some(items))
    && steps[o.store].Store? && steps[o.store].call == o.call
    && forall w :: o.store < w < i ==> !StoresTo(calls, steps[w], q)
  }

  lemma {:induction false} FetchedBefore<T>(calls: seq<Call>, steps: seq<Step<T>>, i: nat, c: nat) returns (f: nat)
    requires Legal(calls, steps) && i <= |steps| && c < |calls| && At(calls, steps, i).phases[c].Fetched?
    ensures f < i && steps[f] == Fetch(c, Some(At(calls, steps, i).phases[c].items))
  {
    hide Legal, At;
    f := 0;
    if i == 0 {
      StartsReady(calls, steps);
    } else {
      AtStep(calls, steps, i - 1);
      if steps[i - 1].call == c {
        f := i - 1;
      } else {
        f := FetchedBefore(calls, steps, i - 1, c);
      }
    }
  }

  lemma StartsReady<T>(calls: seq<Call>, steps: seq<Step<T>>)
    requires Legal(calls, steps)
    ensures At(calls, steps, 0).stores == Empty()
    ensures forall c :: 0 <= c < |calls| ==> At(calls, steps, 0).phases[c].Ready?
  {
  }

  /** A slot holds what its last store put there, until that store's time plus its time to live. */
  lemma {:induction false} SlotOrigin<T>(calls: seq<Call>, steps: seq<Step<T>>, i: nat, q: Query) returns (o: Origin)
    requires Legal(calls, steps) && i <= |steps|
    ensures var m := MapOf(At(calls, steps, i).stores, KindOf(q));
            if KeyOf(q) in m
            then IsOrigin(calls, steps, i, q, m[KeyOf(q)].items, o)
                 && m[KeyOf(q)].expiresAt == steps[o.store].now + calls[o.call].ttl
            else forall w :: 0 <= w < i ==> !StoresTo(calls, steps[w], q)
  {
    hide Legal, At, KeyOf, KindOf;
    o := Origin(0, 0, 0);
    if i == 0 {
      StartsReady(calls, steps);
    } else {
      var s, step := At(calls, steps, i - 1), steps[i - 1];
      AtStep(calls, steps, i - 1);
      if StoresTo(calls, step, q) {
        var f := FetchedBefore(calls, steps, i - 1, step.call);
        o := Origin(step.call, f, i - 1);
        assert IsOrigin(calls, steps, i, q, s.phases[step.call].items, o);
      } else {
        o := SlotOrigin(calls, steps, i - 1, q);
        SlotKept(calls, s, step, q);
        if KeyOf(q) in MapOf(s.stores, KindOf(q)) {
          assert IsOrigin(calls, steps, i, q, MapOf(s.stores, KindOf(q))[KeyOf(q)].items, o);
        }
      }
    }
  }

  lemma SlotKept<T>(calls: seq<Call>, s: State<T>, step: Step<T>, q: Query)
    requires Enabled(calls, s, step) && !StoresTo(calls, step, q)
    ensures var m, m' := MapOf(s.stores, KindOf(q)), MapOf(Exec(calls, s, step).stores, KindOf(q));
            (KeyOf(q) in m' <==> KeyOf(q) in m) && (KeyOf(q) in m ==> m'[KeyOf(q)] == m[KeyOf(q)])
  {
    hide KeyOf, KindOf;
  }

  /** The query of the call that takes step `i`. */
  function QueryAt<T>(calls: seq<Call>, steps: seq<Step<T>>, i: nat): Query
    requires i < |steps| && steps[i].call < |calls|
  {
    calls[steps[i].call].query
  }

  /** Step `i` is a lookup, and it is answered from the cache with these items. */
  ghost predicate Answers<T>(calls: seq<Call>, steps: seq<Step<T>>, i: nat, items: seq<T>)
    requires Legal(calls, steps) && i < |steps|
  {
    && steps[i].Lookup? && steps[i].call < |calls|
    && At(calls, steps, i + 1).phases[steps[i].call] == Hit(items)
  }

  /**
    Over every interleaving: a lookup is answered exactly if the last store into the slot
    of its query has not expired, and then with what the storing call fetched.
  */
  lemma AnswersAreFresh<T>(calls: seq<Call>, steps: seq<Step<T>>, i: nat) returns (o: Origin)
    requires Legal(calls, steps) && i < |steps| && steps[i].Lookup?
    ensures steps[i].call < |calls|
    ensures forall items :: Answers(calls, steps, i, items) ==>
              && IsOrigin(calls, steps, i, QueryAt(calls, steps, i), items, o)
              && steps[o.store].now + calls[o.call].ttl > steps[i].now
    ensures (forall items :: !Answers(calls, steps, i, items)) ==>
              || (forall w :: 0 <= w < i ==> !StoresTo(calls, steps[w], QueryAt(calls, steps, i)))
              || exists items :: IsOrigin(calls, steps, i, QueryAt(calls, steps, i), items, o)
                                 && steps[o.store].now + calls[o.call].ttl <= steps[i].now
  {
    hide Legal, At, KeyOf, KindOf, IsOrigin;
    AtStep(calls, steps, i);
    var q := QueryAt(calls, steps, i);
    o := SlotOrigin(calls, steps, i, q);
    var m := MapOf(At(calls, steps, i).stores, KindOf(q));
    match Unexpired(m, KeyOf(q), steps[i].now)
    case Some(items) =>
      assert Answers(calls, steps, i, items);
    case None =>
  }

  // ----- When an answer is the newest one -----

  /** How far a call has come. */
  function Rank<T>(p: Phase<T>): nat {
    match p
    case Ready => 0
    case Missed => 1
    case Fetched(_) => 2
    case Failed => 3
    case Stored => 3
    case Hit(_) => 3
  }

  lemma {:induction false} RankGrows<T>(calls: seq<Call>, steps: seq<Step<T>>, i: nat, j: nat, c: nat)
    requires Legal(calls, steps) && i <= j <= |steps| && c < |calls|
    ensures Rank(At(calls, steps, i).phases[c]) <= Rank(At(calls, steps, j).phases[c])
    ensures i < j && steps[i].call == c ==> Rank(At(calls, steps, i).phases[c]) < Rank(At(calls, steps, j).phases[c])
    decreases j
  {
    hide Legal, At;
    if i < j {
      AtStep(calls, steps, j - 1);
      RankGrows(calls, steps, i, j - 1, c);
    }
  }

  /** No call fetches twice or stores twice. */
  lemma OncePerCall<T>(calls: seq<Call>, steps: seq<Step<T>>, i: nat, j: nat)
    requires Legal(calls, steps) && i < |steps| && j < |steps| && steps[i].call == steps[j].call
    requires (steps[i].Fetch? && steps[j].Fetch?) || (steps[i].Store? && steps[j].Store?)
    ensures i == j
  {
    hide Legal, At;
    AtStep(calls, steps, i);
    AtStep(calls, steps, j);
    if i < j {
      RankGrows(calls, steps, i, j, steps[i].call);
    } else if j < i {
      RankGrows(calls, steps, j, i, steps[i].call);
    }
  }

  /** Step `n` is the last fetch for the slot of `q` before step `i`. */
  ghost predicate NewestFetch<T>(calls: seq<Call>, steps: seq<Step<T>>, i: nat, q: Query, n: nat) {
    && n < i <= |steps| && FetchesFor(calls, steps[n], q)
    && forall f :: n < f < i ==> !FetchesFor(calls, steps[f], q)
  }

  /** The call that fetched at step `n` has stored before step `i`, and nobody has stored into that slot since. */
  ghost predicate StoredLast<T>(calls: seq<Call>, steps: seq<Step<T>>, i: nat, q: Query, n: nat) {
    n < i <= |steps| &&
    exists w :: n < w < i && steps[w].Store? && steps[w].call == steps[n].call
                && forall v :: w < v < i ==> !StoresTo(calls, steps[v], q)
  }

  /**
    What a slot answers with is the newest list fetched for it if and only if the call
    that fetched that one has stored it and no call with an older list stored after it.
  */
  lemma NewestIff<T>(calls: seq<Call>, steps: seq<Step<T>>, i: nat, q: Query, items: seq<T>, o: Origin, n: nat)
    requires Legal(calls, steps) && IsOrigin(calls, steps, i, q, items, o) && NewestFetch(calls, steps, i, q, n)
    ensures o.fetch == n <==> StoredLast(calls, steps, i, q, n)
  {
    hide Legal, SameSlot;
    if StoredLast(calls, steps, i, q, n) {
      var w :| n < w < i && steps[w].Store? && steps[w].call == steps[n].call
               && forall v :: w < v < i ==> !StoresTo(calls, steps[v], q);
      assert StoresTo(calls, steps[w], q) && StoresTo(calls, steps[o.store], q);
      assert w == o.store;
      OncePerCall(calls, steps, o.fetch, n);
    }
  }

  /** Calls for one slot do not overlap: between a fetch and its store no other call fetches or stores there. */
  ghost predicate Serial<T>(calls: seq<Call>, steps: seq<Step<T>>, i: nat, q: Query)
    requires i <= |steps|
  {
    forall f :: 0 <= f < i && FetchesFor(calls, steps[f], q) ==>
      exists w :: f < w < i && StoresTo(calls, steps[w], q) && steps[w].call == steps[f].call
                  && forall v :: f < v < w ==> !FetchesFor(calls, steps[v], q)
  }

  /** Without overlap a slot always answers with the newest list fetched for it. */
  lemma SerialAnswersAreNewest<T>(
    calls: seq<Call>, steps: seq<Step<T>>, i: nat, q: Query, items: seq<T>, o: Origin, n: nat)
    requires Legal(calls, steps) && IsOrigin(calls, steps, i, q, items, o) && NewestFetch(calls, steps, i, q, n)
    requires Serial(calls, steps, i, q)
    ensures o.fetch == n
  {
    hide Legal, SameSlot;
    assert FetchesFor(calls, steps[o.fetch], q);
    var w :| o.fetch < w < i && StoresTo(calls, steps[w], q) && steps[w].call == steps[o.fetch].call
             && forall v :: o.fetch < v < w ==> !FetchesFor(calls, steps[v], q);
    OncePerCall(calls, steps, w, o.store);
    var x :| n < x < i && StoresTo(calls, steps[x], q) && steps[x].call == steps[n].call
             && forall v :: n < v < x ==> !FetchesFor(calls, steps[v], q);
    assert o.fetch < n ==> o.store < n;
  }

  // ----- Concrete runs -----

  /** The clock readings of lookups and stores never go back. */
  ghost predicate Timely<T>(steps: seq<Step<T>>) {
    forall i, j :: 0 <= i < j < |steps| && !steps[i].Fetch? && !steps[j].Fetch? ==> steps[i].now <= steps[j].now
  }

  lemma Extend<T>(calls: seq<Call>, steps: seq<Step<T>>, step: Step<T>)
    requires Legal(calls, steps) && Enabled(calls, Run(calls, steps), step)
    ensures Legal(calls, steps + [step])
    ensures Run(calls, steps + [step]) == Exec(calls, Run(calls, steps), step)
  {
    assert (steps + [step])[..|steps|] == steps;
  }

  lemma StepMisses<T>(calls: seq<Call>, steps: seq<Step<T>>, c: nat, now: Time)
    requires Legal(calls, steps) && c < |calls| && Run(calls, steps).phases[c].Ready?
    requires Run(calls, steps).stores == Empty()
    ensures var longer := steps + [Lookup(c, now)];
            Legal(calls, longer) && Run(calls, longer) == State(Empty(), Run(calls, steps).phases[c := Missed])
  {
    hide Legal, KeyOf;
    Extend(calls, steps, Lookup(c, now));
  }

  lemma StepFetches<T>(calls: seq<Call>, steps: seq<Step<T>>, c: nat, items: seq<T>)
    requires Legal(calls, steps) && c < |calls| && Run(calls, steps).phases[c].Missed?
    ensures var s, longer := Run(calls, steps), steps + [Fetch(c, Some(items))];
            Legal(calls, longer) && Run(calls, longer) == State(s.stores, s.phases[c := Fetched(items)])
  {
    hide Legal, KeyOf;
    Extend(calls, steps, Fetch(c, Some(items)));
  }

  lemma StepStores<T>(calls: seq<Call>, steps: seq<Step<T>>, c: nat, now: Time)
    requires Legal(calls, steps) && c < |calls| && Run(calls, steps).phases[c].Fetched?
    ensures var s, longer, q := Run(calls, steps), steps + [Store(c, now)], calls[c].query;
            && Legal(calls, longer)
            && Run(calls, longer) ==
               State(Put(s.stores, KindOf(q), KeyOf(q), Slot(now + calls[c].ttl, s.phases[c].items)),
                     s.phases[c := Stored])
  {
    hide Legal, KeyOf;
    Extend(calls, steps, Store(c, now));
  }

  lemma StepHits<T>(calls: seq<Call>, steps: seq<Step<T>>, c: nat, now: Time)
    requires Legal(calls, steps) && c < |calls| && Run(calls, steps).phases[c].Ready?
    requires var q := calls[c].query; Unexpired(MapOf(Run(calls, steps).stores, KindOf(q)), KeyOf(q), now).Some?
    ensures var s, longer, q := Run(calls, steps), steps + [Lookup(c, now)], calls[c].query;
            && Legal(calls, longer)
            && Answers(calls, longer, |steps|, Unexpired(MapOf(s.stores, KindOf(q)), KeyOf(q), now).value)
  {
    hide Legal, KeyOf;
    Extend(calls, steps, Lookup(c, now));
    assert (steps + [Lookup(c, now)])[..|steps| + 1] == steps + [Lookup(c, now)];
  }

  /** Three different calls in one slot, of which the first one's list lives for some time. */
  predicate Three(calls: seq<Call>, a: nat, b: nat, c: nat) {
    && a < |calls| && b < |calls| && c < |calls| && a != b && b != c && a != c && calls[a].ttl > 0
    && SameSlot(calls[a].query, calls[b].query) && SameSlot(calls[a].query, calls[c].query)
  }

  /**
    An overlap that answers with an old list: the first call fetches `x`, the second one
    the newer `y` and stores it, then the first one stores `x`, and a third is answered `x`.
  */
  lemma StaleAnswer<T>(calls: seq<Call>, a: nat, b: nat, c: nat, x: seq<T>, y: seq<T>, now: Time)
    returns (steps: seq<Step<T>>)
    requires Three(calls, a, b, c)
    ensures steps == [Lookup(a, now), Fetch(a, Some(x)), Lookup(b, now), Fetch(b, Some(y)),
                      Store(b, now), Store(a, now), Lookup(c, now)]
    ensures Legal(calls, steps) && Timely(steps) && Answers(calls, steps, 6, x)
    ensures IsOrigin(calls, steps, 6, calls[c].query, x, Origin(a, 1, 5))
    ensures NewestFetch(calls, steps, 6, calls[c].query, 3)
  {
    hide Legal, Run, Exec, KeyOf, KindOf;
    var none: seq<Step<T>> := [];
    StartOfRun<T>(calls);
    StepMisses(calls, none, a, now);
    StepFetches(calls, none + [Lookup(a, now)], a, x);
    var two := none + [Lookup(a, now)] + [Fetch(a, Some(x))];
    StepMisses(calls, two, b, now);
    StepFetches(calls, two + [Lookup(b, now)], b, y);
    var four := two + [Lookup(b, now)] + [Fetch(b, Some(y))];
    StepStores(calls, four, b, now);
    StepStores(calls, four + [Store(b, now)], a, now);
    var six := four + [Store(b, now)] + [Store(a, now)];
    StepHits(calls, six, c, now);
    steps := six + [Lookup(c, now)];
  }

  lemma AnswersLive<T>(calls: seq<Call>, steps: seq<Step<T>>, i: nat, items: seq<T>, o: Origin)
    requires Legal(calls, steps) && Timely(steps) && i < |steps| && Answers(calls, steps, i, items)
    requires IsOrigin(calls, steps, i, QueryAt(calls, steps, i), items, o)
    ensures calls[o.call].ttl > 0
  {
    hide Legal, At, SameSlot;
    var last := AnswersAreFresh(calls, steps, i);
    assert IsOrigin(calls, steps, i, QueryAt(calls, steps, i), items, last);
    assert StoresTo(calls, steps[o.store], QueryAt(calls, steps, i));
    assert StoresTo(calls, steps[last.store], QueryAt(calls, steps, i));
    assert last.store == o.store;
  }

  /** In every interleaving of these calls every answer is the newest list fetched for its slot. */
  ghost predicate NewestAnswers<T(!new)>(calls: seq<Call>) {
    forall steps: seq<Step<T>>, i: nat, items: seq<T>, o: Origin, n: nat ::
      Legal(calls, steps) && Timely(steps) && i < |steps| && Answers(calls, steps, i, items)
      && IsOrigin(calls, steps, i, QueryAt(calls, steps, i), items, o)
      && NewestFetch(calls, steps, i, QueryAt(calls, steps, i), n) ==>
        o.fetch == n
  }

  /**
    All answers are surely the newest lists fetched if and only if no slot is asked for by
    three calls: with two the one that is answered is not the one that fetched later.
  */
  lemma NewestAnswersIff<T(!new)>(calls: seq<Call>)
    ensures NewestAnswers<T>(calls) <==> forall a: nat, b: nat, c: nat :: !Three(calls, a, b, c)
  {
    hide KeyOf, Legal, At, Run, Three, SameSlot;
    if a: nat, b: nat, c: nat :| Three(calls, a, b, c) {
      ThreeAreInRange(calls, a, b, c);
      var steps := StaleAnswer<T>(calls, a, b, c, [], [], 0);
      assert QueryAt(calls, steps, 6) == calls[c].query;
      assert !NewestAnswers<T>(calls);
    }
    if forall a: nat, b: nat, c: nat :: !Three(calls, a, b, c) {
      forall steps: seq<Step<T>>, i: nat, items: seq<T>, o: Origin, n: nat |
        Legal(calls, steps) && Timely(steps) && i < |steps| && Answers(calls, steps, i, items)
        && IsOrigin(calls, steps, i, QueryAt(calls, steps, i), items, o)
        && NewestFetch(calls, steps, i, QueryAt(calls, steps, i), n)
        ensures o.fetch == n
      {
        OldAnswerNeedsThree(calls, steps, i, items, o, n);
      }
    }
  }

  lemma ThreeAreInRange(calls: seq<Call>, a: nat, b: nat, c: nat)
    requires Three(calls, a, b, c)
    ensures a < |calls| && b < |calls| && c < |calls|
  {
  }

  /** The call that stored, the one that fetched later and the one that is answered are three. */
  lemma OldAnswerNeedsThree<T>(calls: seq<Call>, steps: seq<Step<T>>, i: nat, items: seq<T>, o: Origin, n: nat)
    requires Legal(calls, steps) && Timely(steps) && i < |steps| && Answers(calls, steps, i, items)
    requires IsOrigin(calls, steps, i, QueryAt(calls, steps, i), items, o)
    requires NewestFetch(calls, steps, i, QueryAt(calls, steps, i), n)
    ensures o.fetch == n || Three(calls, o.call, steps[n].call, steps[i].call)
  {
    hide KeyOf, Legal, At, Timely, KindOf;
    AnswersLive(calls, steps, i, items, o);
    if o.call == steps[n].call {
      OncePerCall(calls, steps, o.fetch, n);
    }
    LookupComesFirst(calls, steps, o.fetch, i);
    LookupComesFirst(calls, steps, n, i);
  }

  /** The call of a lookup has not fetched before. */
  lemma LookupComesFirst<T>(calls: seq<Call>, steps: seq<Step<T>>, f: nat, i: nat)
    requires Legal(calls, steps) && f < i < |steps| && steps[i].Lookup?
    ensures steps[f].call != steps[i].call
  {
    hide Legal, At;
    AtStep(calls, steps, f);
    AtStep(calls, steps, i);
    if steps[f].call == steps[i].call {
      RankGrows(calls, steps, f, i, steps[i].call);
    }
  }

  lemma StartOfRun<T>(calls: seq<Call>)
    ensures Legal<T>(calls, []) && Run<T>(calls, []) == State(Empty(), seq(|calls|, _ => Ready))
  {
  }

  // ----- Whose list an answer is -----

  /**
    Without "|" inside the fields an answer was fetched for a query with the same key
    fields, and for the very same query if and only if the rest agrees as well.
  */
  lemma AnswersFitTheKey<T>(calls: seq<Call>, steps: seq<Step<T>>, i: nat, q: Query, items: seq<T>, o: Origin)
    requires IsOrigin(calls, steps, i, q, items, o)
    requires NoBars(KeyFields(q)) && NoBars(KeyFields(calls[o.call].query))
    ensures SameFields(calls[o.call].query, q)
    ensures calls[o.call].query == q <==> SameRest(calls[o.call].query, q)
  {
    hide KeyOf, NoBars;
    KeyTellsFields(calls[o.call].query, q);
  }

  /** In every interleaving of these calls every answer was fetched for its own query. */
  ghost predicate OwnAnswers<T(!new)>(calls: seq<Call>) {
    forall steps: seq<Step<T>>, i: nat, items: seq<T>, o: Origin ::
      Legal(calls, steps) && Timely(steps) && i < |steps| && Answers(calls, steps, i, items)
      && IsOrigin(calls, steps, i, QueryAt(calls, steps, i), items, o) ==>
        calls[o.call].query == QueryAt(calls, steps, i)
  }

  /** Two different queries in one slot, of which the first one's list lives for some time. */
  predicate Clash(calls: seq<Call>, a: nat, b: nat) {
    && a < |calls| && b < |calls| && calls[a].query != calls[b].query && calls[a].ttl > 0
    && SameSlot(calls[a].query, calls[b].query)
  }

  lemma OtherQueryIsAnswered<T>(calls: seq<Call>, a: nat, b: nat) returns (steps: seq<Step<T>>, o: Origin)
    requires Clash(calls, a, b)
    ensures Legal(calls, steps) && Timely(steps) && |steps| == 4 && steps[3].call == b
    ensures Answers(calls, steps, 3, []) && IsOrigin(calls, steps, 3, QueryAt(calls, steps, 3), [], o) && o.call == a
  {
    hide Legal, Run, Exec, KeyOf;
    var none: seq<Step<T>> := [];
    StartOfRun<T>(calls);
    StepMisses(calls, none, a, 0);
    StepFetches(calls, none + [Lookup(a, 0)], a, []);
    StepStores(calls, none + [Lookup(a, 0)] + [Fetch(a, Some([]))], a, 0);
    var three := none + [Lookup(a, 0)] + [Fetch(a, Some([]))] + [Store(a, 0)];
    StepHits(calls, three, b, 0);
    steps, o := three + [Lookup(b, 0)], Origin(a, 1, 2);
  }

  /** All answers are surely fetched for their own queries if and only if no two different queries share a slot. */
  lemma OwnAnswersIff<T(!new)>(calls: seq<Call>)
    ensures OwnAnswers<T>(calls) <==> forall a: nat, b: nat :: !Clash(calls, a, b)
  {
    hide KeyOf, Legal, At, Run;
    if a: nat, b: nat :| Clash(calls, a, b) {
      var steps, o := OtherQueryIsAnswered<T>(calls, a, b);
      assert !OwnAnswers<T>(calls);
    }
    if forall a: nat, b: nat :: !Clash(calls, a, b) {
      forall steps: seq<Step<T>>, i: nat, items: seq<T>, o: Origin |
        Legal(calls, steps) && Timely(steps) && i < |steps| && Answers(calls, steps, i, items)
        && IsOrigin(calls, steps, i, QueryAt(calls, steps, i), items, o)
        ensures calls[o.call].query == QueryAt(calls, steps, i)
      {
        AnswersLive(calls, steps, i, items, o);
        assert !Clash(calls, o.call, steps[i].call);
      }
    }
  }
}
