/**
  `resolve_symlinks` (looper-git): a depth-limited recursion around a loop over
  path components.  `Resolve` is what it computes, `ResolveSymlinks` is the loop,
  and the lemmas compare the result with the kernel's own pathname walk.
*/
module SymlinkResolver {
  import opened Wrappers
  import opened FileSystem

  const MAX_SYMLINK_DEPTH: nat := 255

  datatype Error = DepthExceeded

  type Resolution = Result<Path, Error>

  /** `Path::components`: "." segments disappear, ".." segments stay. */
  function Components(path: Path): (comps: Path)
    ensures NoDots(comps)
  {
    if path == [] then []
    else if path[0] == Dot then Components(path[1..])
    else [path[0]] + Components(path[1..])
  }

  ghost predicate NoDots(path: Path) {
    forall k :: 0 <= k < |path| ==> path[k] != Dot
  }

  /** `Path::parent` of a path that ends in a name; trailing "." segments go as well. */
  function Parent(path: Path): Path
    requires path != []
  {
    TrimDots(path[..|path| - 1])
  }

  function TrimDots(path: Path): Path {
    if path != [] && path[|path| - 1] == Dot then TrimDots(path[..|path| - 1]) else path
  }

  /** `dir.join(target)`: an absolute target replaces the directory. */
  function Join(dir: Path, target: Target): Path {
    if target.absolute then target.segs else dir + target.segs
  }

  function Resolve(fs: FS, path: Path, depth: nat): Resolution
    decreases if depth > MAX_SYMLINK_DEPTH then 0 else MAX_SYMLINK_DEPTH + 1 - depth, |Components(path)| + 1
  {
    if depth > MAX_SYMLINK_DEPTH then Err(DepthExceeded)
    else
      match LinkTarget(fs, path)
      case Some(target) => Resolve(fs, Join(Parent(path), target), depth + 1)
      case None => ResolveRest(fs, [], Components(path), depth)
  }

  /** The component loop: `result` is what has been resolved so far. */
  function ResolveRest(fs: FS, result: Path, comps: Path, depth: nat): Resolution
    requires depth <= MAX_SYMLINK_DEPTH
    decreases MAX_SYMLINK_DEPTH + 1 - depth, |comps|
  {
    if comps == [] then Ok(result)
    else
      var candidate := result + [comps[0]];
      match LinkTarget(fs, candidate)
      case None => ResolveRest(fs, candidate, comps[1..], depth)
      case Some(target) =>
        match Resolve(fs, Join(result, target), depth + 1)
        case Ok(resolved) => ResolveRest(fs, resolved, comps[1..], depth)
        case Err(e) => Err(e)
  }

  method ResolveSymlinks(fs: FS, path: Path, depth: nat) returns (r: Resolution)
    ensures r == Resolve(fs, path, depth)
    decreases if depth > MAX_SYMLINK_DEPTH then 0 else MAX_SYMLINK_DEPTH + 1 - depth
  {
    hide LinkTarget, Components, Parent, Join;
    if depth > MAX_SYMLINK_DEPTH {
      return Err(DepthExceeded);
    }
    var link := LinkTarget(fs, path);
    if link.Some? {
      r := ResolveSymlinks(fs, Join(Parent(path), link.value), depth + 1);
      return;
    }
    var comps := Components(path);
    var result: Path := [];
    for i := 0 to |comps|
      invariant ResolveRest(fs, result, comps[i..], depth) == Resolve(fs, path, depth)
    {
      var candidate := result + [comps[i]];
      var target := LinkTarget(fs, candidate);
      if target.Some? {
        r := ResolveSymlinks(fs, Join(result, target.value), depth + 1);
        if r.Err? {
          return;
        }
        result := r.value;
      } else {
        result := candidate;
      }
      assert comps[i..][1..] == comps[i + 1..];
    }
    return Ok(result);
  }

  // ----- What a resolved path looks like -----

  /** No prefix of the path, the path itself included, is a link. */
  ghost predicate LinkFree(fs: FS, path: Path) {
    forall k :: 0 <= k <= |path| ==> LinkTarget(fs, path[..k]).None?
  }

  lemma LinkFreeExtend(fs: FS, path: Path, c: Seg)
    requires LinkFree(fs, path) && LinkTarget(fs, path + [c]).None?
    ensures LinkFree(fs, path + [c])
  {
    hide LinkTarget;
    forall k | 0 <= k <= |path + [c]|
      ensures LinkTarget(fs, (path + [c])[..k]).None?
    {
      if k <= |path| {
        assert (path + [c])[..k] == path[..k];
      } else {
        assert (path + [c])[..k] == path + [c];
      }
    }
  }

  /** The kernel walks a link-free path without spending any of its link budget. */
  lemma {:induction false} LinkFreeWalk(fs: FS, path: Path, budget: nat)
    requires LinkFree(fs, path)
    ensures match Walk(fs, fs.root, path, 0)
            case Found(n, left) => left == 0 && Walk(fs, fs.root, path, budget) == Found(n, budget)
            case Missing => Walk(fs, fs.root, path, budget) == Missing
            case TooManyLinks => false
    decreases |path|
  {
    if path != [] {
      var init, c := path[..|path| - 1], path[|path| - 1];
      assert path == init + [c];
      forall k | 0 <= k <= |init|
        ensures LinkTarget(fs, init[..k]).None?
      {
        assert init[..k] == path[..k];
      }
      LinkFreeWalk(fs, init, budget);
      LinkFreeWalk(fs, init, fs.linkLimit);
      WalkConcat(fs, fs.root, init, [c], 0);
      WalkConcat(fs, fs.root, init, [c], budget);
      assert path[..|path|] == path;
    }
  }

  /** On success no prefix of the result is a link, and only names and ".." remain. */
  lemma {:induction false} ResolvedIsLinkFree(fs: FS, path: Path, depth: nat)
    requires Resolve(fs, path, depth).Ok?
    ensures LinkFree(fs, Resolve(fs, path, depth).value)
    ensures NoDots(Resolve(fs, path, depth).value)
    decreases MAX_SYMLINK_DEPTH + 1 - depth, |Components(path)| + 1
  {
    hide LinkTarget;
    match LinkTarget(fs, path)
    case Some(target) => ResolvedIsLinkFree(fs, Join(Parent(path), target), depth + 1);
    case None => RestIsLinkFree(fs, [], Components(path), depth);
  }

  lemma {:induction false} RestIsLinkFree(fs: FS, result: Path, comps: Path, depth: nat)
    requires depth <= MAX_SYMLINK_DEPTH
    requires LinkFree(fs, result) && NoDots(result) && NoDots(comps)
    requires ResolveRest(fs, result, comps, depth).Ok?
    ensures LinkFree(fs, ResolveRest(fs, result, comps, depth).value)
    ensures NoDots(ResolveRest(fs, result, comps, depth).value)
    decreases MAX_SYMLINK_DEPTH + 1 - depth, |comps|
  {
    hide LinkTarget;
    if comps != [] {
      var candidate := result + [comps[0]];
      match LinkTarget(fs, candidate)
      case None =>
        LinkFreeExtend(fs, result, comps[0]);
        RestIsLinkFree(fs, candidate, comps[1..], depth);
      case Some(target) =>
        ResolvedIsLinkFree(fs, Join(result, target), depth + 1);
        RestIsLinkFree(fs, Resolve(fs, Join(result, target), depth + 1).value, comps[1..], depth);
    }
  }

  lemma {:induction false} ComponentsOfDotFree(path: Path)
    requires NoDots(path)
    ensures Components(path) == path
  {
    if path != [] {
      ComponentsOfDotFree(path[1..]);
      assert path == [path[0]] + path[1..];
    }
  }

  lemma {:induction false} RestKeepsLinkFree(fs: FS, path: Path, i: nat, depth: nat)
    requires depth <= MAX_SYMLINK_DEPTH && i <= |path| && LinkFree(fs, path)
    ensures ResolveRest(fs, path[..i], path[i..], depth) == Ok(path)
    decreases |path| - i
  {
    hide LinkTarget;
    if i < |path| {
      assert path[..i] + [path[i]] == path[..i + 1];
      assert path[i..][1..] == path[i + 1..];
      RestKeepsLinkFree(fs, path, i + 1, depth);
    } else {
      assert path[..i] == path;
    }
  }

  /** Resolving a resolved path again, at any permitted depth, returns it unchanged. */
  lemma ResolveIsIdempotent(fs: FS, path: Path, depth: nat, again: nat)
    requires Resolve(fs, path, depth).Ok? && again <= MAX_SYMLINK_DEPTH
    ensures Resolve(fs, Resolve(fs, path, depth).value, again) == Resolve(fs, path, depth)
  {
    hide LinkTarget;
    var r := Resolve(fs, path, depth).value;
    ResolvedIsLinkFree(fs, path, depth);
    ComponentsOfDotFree(r);
    assert r[..|r|] == r && r[..0] == [] && r[0..] == r;
    RestKeepsLinkFree(fs, r, 0, again);
  }

  // ----- The kernel's link step -----

  /** A directory reached before trailing "." segments is also reached without them. */
  lemma {:induction false} TrimDotsWalk(fs: FS, path: Path, budget: nat)
    requires Walk(fs, fs.root, path, budget).Found?
    ensures Walk(fs, fs.root, TrimDots(path), budget) == Walk(fs, fs.root, path, budget)
    decreases |path|
  {
    if path != [] && path[|path| - 1] == Dot {
      var init := path[..|path| - 1];
      assert path == init + [Dot];
      WalkConcat(fs, fs.root, init, [Dot], budget);
      TrimDotsWalk(fs, init, budget);
    }
  }

  /** The number of links on the way along a directory path that lstat has walked. */
  function LinksIn(fs: FS, dir: Path): (used: nat) {
    match Walk(fs, fs.root, dir, fs.linkLimit)
    case Found(_, left) => if left <= fs.linkLimit then fs.linkLimit - left else 0
    case Missing => 0
    case TooManyLinks => 0
  }

  lemma DirWalk(fs: FS, dir: Path, trimmed: Path, budget: nat)
    requires Walk(fs, fs.root, dir, fs.linkLimit).Found?
    requires trimmed == dir || trimmed == TrimDots(dir)
    ensures var w := if budget < LinksIn(fs, dir) then TooManyLinks
                     else Found(Walk(fs, fs.root, dir, fs.linkLimit).ino, budget - LinksIn(fs, dir));
            Walk(fs, fs.root, dir, budget) == w && Walk(fs, fs.root, trimmed, budget) == w
  {
    WalkUses(fs, fs.root, dir, fs.linkLimit, budget);
    TrimDotsWalk(fs, dir, fs.linkLimit);
    WalkUses(fs, fs.root, TrimDots(dir), fs.linkLimit, budget);
  }

  /** At its last segment the walk of `dir/x` follows the link, if any of the budget is left. */
  lemma LinkStep(fs: FS, dir: Path, x: Seg, budget: nat)
    requires LinkTarget(fs, dir + [x]).Some?
    ensures var t := LinkTarget(fs, dir + [x]).value;
            Walk(fs, fs.root, dir, fs.linkLimit).Found? &&
            var from := if t.absolute then fs.root else Walk(fs, fs.root, dir, fs.linkLimit).ino;
            Walk(fs, fs.root, dir + [x], budget) ==
            if budget <= LinksIn(fs, dir) then TooManyLinks
            else Walk(fs, from, t.segs, budget - LinksIn(fs, dir) - 1)
  {
    var path := dir + [x];
    assert path[..|path| - 1] == dir;
    var t := LinkTarget(fs, path).value;
    DirWalk(fs, dir, dir, budget);
    WalkConcat(fs, fs.root, dir, [x], budget);
    assert t.segs + [x][1..] == t.segs;
  }

  /**
    One link step.  If `x` in `dir` is a link, walking `dir/x` is walking the joined
    target with one link less; an absolute target also saves the links in `dir`.
  */
  lemma LinkWalk(fs: FS, dir: Path, x: Seg, trimmed: Path, budget: nat)
    requires LinkTarget(fs, dir + [x]).Some?
    requires trimmed == dir || trimmed == TrimDots(dir)
    ensures var t := LinkTarget(fs, dir + [x]).value;
            var saved := if t.absolute then LinksIn(fs, dir) else 0;
            Walk(fs, fs.root, dir + [x], budget) ==
            if budget <= saved then TooManyLinks
            else Walk(fs, fs.root, Join(trimmed, t), budget - 1 - saved)
  {
    hide LinkTarget, Walk, LinksIn, TrimDots;
    var t := LinkTarget(fs, dir + [x]).value;
    LinkStep(fs, dir, x, budget);
    if budget > 0 && !t.absolute {
      DirWalk(fs, dir, trimmed, budget - 1);
      WalkConcat(fs, fs.root, trimmed, t.segs, budget - 1);
    }
  }

  // ----- The same file system without "." -----

  /** `fs` with every "." removed from its link targets. */
  function Clean(fs: FS): FS {
    fs.(node := (i: Ino) => CleanNode(fs.node(i)))
  }

  function CleanNode(node: Node): Node {
    match node
    case Link(t) => Link(CleanTarget(t))
    case Dir(_, _) => node
    case File => node
  }

  function CleanTarget(t: Target): Target {
    Target(t.absolute, Components(t.segs))
  }

  /** The kernel's walk arrives at something other than a directory with only "." left to do. */
  predicate StopsOnDots(fs: FS, at: Ino, segs: Path, budget: nat)
    decreases budget, |segs|
  {
    segs != [] &&
    match Enter(fs, at, segs[0], budget)
    case Halt(_) => !fs.node(at).Dir? && Components(segs) == []
    case Go(next, pushed, left) => StopsOnDots(fs, next, pushed + segs[1..], left)
  }

  lemma {:induction false} ComponentsConcat(a: Path, b: Path)
    ensures Components(a + b) == Components(a) + Components(b)
  {
    if a == [] {
      assert a + b == b;
    } else {
      assert (a + b)[1..] == a[1..] + b;
      ComponentsConcat(a[1..], b);
    }
  }

  lemma {:induction false} ComponentsOfTrimmed(path: Path)
    ensures Components(TrimDots(path)) == Components(path)
  {
    if path != [] && path[|path| - 1] == Dot {
      var init := path[..|path| - 1];
      ComponentsOfTrimmed(init);
      assert path == init + [Dot];
      ComponentsConcat(init, [Dot]);
      assert Components([Dot]) == [];
    }
  }

  /** Without "." the walk is the same, except that it succeeds where the other stops on a ".". */
  lemma {:induction false} CleanWalk(fs: FS, at: Ino, segs: Path, budget: nat)
    ensures var w := Walk(Clean(fs), at, Components(segs), budget);
            if StopsOnDots(fs, at, segs, budget)
            then Walk(fs, at, segs, budget).Missing? && w.Found? && !fs.node(w.ino).Dir?
            else w == Walk(fs, at, segs, budget)
    decreases budget, |segs|
  {
    if segs != [] {
      var m := Enter(fs, at, segs[0], budget);
      match m
      case Halt(_) => CleanHalt(fs, at, segs, budget);
      case Go(next, pushed, left) =>
        CleanWalk(fs, next, pushed + segs[1..], left);
        CleanGo(fs, at, segs, budget);
    }
  }

  lemma CleanHalt(fs: FS, at: Ino, segs: Path, budget: nat)
    requires segs != [] && Enter(fs, at, segs[0], budget).Halt?
    ensures var w := Walk(Clean(fs), at, Components(segs), budget);
            if !fs.node(at).Dir? && Components(segs) == [] then w == Found(at, budget)
            else w == Walk(fs, at, segs, budget)
  {
    if !fs.node(at).Dir? {
      assert !Clean(fs).node(at).Dir?;
    }
  }

  lemma CleanGo(fs: FS, at: Ino, segs: Path, budget: nat)
    requires segs != [] && Enter(fs, at, segs[0], budget).Go?
    ensures var m := Enter(fs, at, segs[0], budget);
            Walk(Clean(fs), at, Components(segs), budget) ==
            Walk(Clean(fs), m.at, Components(m.pushed + segs[1..]), m.budget)
  {
    var m := Enter(fs, at, segs[0], budget);
    ComponentsConcat(m.pushed, segs[1..]);
    if segs[0] == Dot {
      assert [] + Components(segs[1..]) == Components(segs[1..]);
    } else {
      assert Components(segs)[1..] == Components(segs[1..]);
    }
  }

  /** lstat and readlink find the same links, with the cleaned target. */
  lemma LinkInClean(fs: FS, dir: Path, x: Seg)
    ensures LinkTarget(Clean(fs), Components(dir) + [x]) ==
            match LinkTarget(fs, dir + [x])
            case Some(t) => Some(CleanTarget(t))
            case None => None
  {
    hide Walk, StopsOnDots;
    CleanWalk(fs, fs.root, dir, fs.linkLimit);
    assert (dir + [x])[..|dir|] == dir;
    assert (Components(dir) + [x])[..|Components(dir)|] == Components(dir);
  }

  lemma LinkFreeInClean(fs: FS, path: Path)
    requires LinkFree(fs, path) && NoDots(path)
    ensures LinkFree(Clean(fs), path)
  {
    hide LinkTarget;
    forall k | 0 <= k <= |path|
      ensures LinkTarget(Clean(fs), path[..k]).None?
    {
      if k == 0 {
        NoLinkAtRoot(Clean(fs));
      } else {
        assert path[..k] == path[..k - 1] + [path[k - 1]];
        ComponentsOfDotFree(path[..k - 1]);
        LinkInClean(fs, path[..k - 1], path[k - 1]);
      }
    }
  }

  lemma NoLinkAtRoot(fs: FS)
    ensures LinkTarget(fs, []).None?
  {
  }

  ghost predicate NoDotTargets(fs: FS) {
    forall i: Ino :: fs.node(i).Link? ==> NoDots(fs.node(i).target.segs)
  }

  lemma {:induction false} NoStopWithoutDots(fs: FS, at: Ino, segs: Path, budget: nat)
    requires NoDots(segs) && (budget == 0 || NoDotTargets(fs))
    ensures !StopsOnDots(fs, at, segs, budget)
    decreases budget, |segs|
  {
    if segs != [] {
      var m := Enter(fs, at, segs[0], budget);
      if m.Go? {
        NoStopWithoutDots(fs, m.at, m.pushed + segs[1..], m.budget);
      }
    }
  }

  /** A resolved path leads to the same end in both, with any budget. */
  lemma ResolvedWalkInClean(fs: FS, path: Path)
    requires NoDots(path)
    ensures Walk(Clean(fs), fs.root, path, 0) == Walk(fs, fs.root, path, 0)
  {
    NoStopWithoutDots(fs, fs.root, path, 0);
    CleanWalk(fs, fs.root, path, 0);
    ComponentsOfDotFree(path);
  }

  // ----- Resolution simulates the walk without "." -----

  /** Both found the same inode, or both found nothing. */
  ghost predicate Same(w: Outcome, v: Outcome) {
    match w
    case Found(n, _) => v.Found? && v.ino == n
    case Missing => v.Missing?
    case TooManyLinks => false
  }

  /** The link step at the head of `resolve_symlinks`, where the directory is `Path::parent`. */
  lemma HeadLink(fs: FS, path: Path, budget: nat) returns (saved: nat)
    requires LinkTarget(fs, path).Some?
    ensures saved == if LinkTarget(fs, path).value.absolute
                     then LinksIn(Clean(fs), Components(path[..|path| - 1])) else 0
    ensures Walk(Clean(fs), fs.root, Components(path), budget) ==
            if budget <= saved then TooManyLinks
            else Walk(Clean(fs), fs.root, Components(Join(Parent(path), LinkTarget(fs, path).value)), budget - 1 - saved)
  {
    hide LinkTarget, Walk, LinksIn, Clean;
    var dir, x, t := path[..|path| - 1], path[|path| - 1], LinkTarget(fs, path).value;
    assert path == dir + [x];
    ComponentsConcat(dir, [x]);
    assert Components([x]) == [x] by {
      assert [x][1..] == [];
    }
    LinkInClean(fs, dir, x);
    LinkWalk(Clean(fs), Components(dir), x, Components(dir), budget);
    ComponentsOfTrimmed(dir);
    ComponentsConcat(Parent(path), t.segs);
    assert Components(Join(Parent(path), t)) == Join(Components(dir), CleanTarget(t));
    CleanKeepsRoot(fs);
    saved := if t.absolute then LinksIn(Clean(fs), Components(dir)) else 0;
  }

  lemma CleanKeepsRoot(fs: FS)
    ensures Clean(fs).root == fs.root && Clean(fs).linkLimit == fs.linkLimit
  {
  }

  /** The link step in the component loop: nothing is saved behind a link-free prefix. */
  lemma CandidateLink(fs: FS, result: Path, x: Seg, budget: nat)
    requires LinkFree(fs, result) && NoDots(result) && LinkTarget(fs, result + [x]).Some?
    ensures Walk(Clean(fs), fs.root, result + [x], budget) ==
            if budget == 0 then TooManyLinks
            else Walk(Clean(fs), fs.root, Components(Join(result, LinkTarget(fs, result + [x]).value)), budget - 1)
  {
    hide LinkTarget, Walk, Clean;
    var t := LinkTarget(fs, result + [x]).value;
    LinkFreeInClean(fs, result);
    LinkFreeWalk(Clean(fs), result, Clean(fs).linkLimit);
    ComponentsOfDotFree(result);
    LinkInClean(fs, result, x);
    LinkWalk(Clean(fs), result, x, result, budget);
    ComponentsConcat(result, t.segs);
    CleanKeepsRoot(fs);
  }

  /** Some budget suffices for the walk without ".", and it ends where the resolved path ends. */
  lemma {:induction false} SimulatesClean(fs: FS, path: Path, depth: nat) returns (budget: nat)
    requires Resolve(fs, path, depth).Ok?
    ensures Same(Walk(Clean(fs), fs.root, Components(path), budget),
                 Walk(Clean(fs), fs.root, Resolve(fs, path, depth).value, 0))
    decreases MAX_SYMLINK_DEPTH + 1 - depth, |Components(path)| + 1
  {
    hide LinkTarget, Walk, Clean;
    match LinkTarget(fs, path)
    case None =>
      budget := RestSimulates(fs, [], Components(path), depth);
      assert [] + Components(path) == Components(path);
    case Some(t) =>
      var inner := SimulatesClean(fs, Join(Parent(path), t), depth + 1);
      var saved := HeadLink(fs, path, 0);
      budget := inner + 1 + saved;
      var _ := HeadLink(fs, path, budget);
  }

  /** The link case of the loop: budgets for the target and for the rest make a budget for both. */
  lemma RestBehindLink(fs: FS, result: Path, x: Seg, rest: Path, t: Target, resolved: Path, inner: nat, outer: nat)
    returns (budget: nat)
    requires LinkFree(fs, result) && NoDots(result) && LinkTarget(fs, result + [x]) == Some(t)
    requires LinkFree(fs, resolved) && NoDots(resolved)
    requires Same(Walk(Clean(fs), fs.root, Components(Join(result, t)), inner), Walk(Clean(fs), fs.root, resolved, 0))
    requires !Walk(Clean(fs), fs.root, resolved + rest, outer).TooManyLinks?
    ensures Same(Walk(Clean(fs), fs.root, result + [x] + rest, budget),
                 Walk(Clean(fs), fs.root, resolved + rest, outer))
  {
    hide LinkTarget, Walk, Clean, LinkFree, NoDots, Join;
    CandidateLink(fs, result, x, inner + 1);
    budget := Splice(fs, result + [x], resolved, rest, inner + 1, outer);
  }

  lemma {:induction false} RestSimulates(fs: FS, result: Path, comps: Path, depth: nat) returns (budget: nat)
    requires depth <= MAX_SYMLINK_DEPTH && LinkFree(fs, result) && NoDots(result) && NoDots(comps)
    requires ResolveRest(fs, result, comps, depth).Ok?
    ensures Same(Walk(Clean(fs), fs.root, result + comps, budget),
                 Walk(Clean(fs), fs.root, ResolveRest(fs, result, comps, depth).value, 0))
    decreases MAX_SYMLINK_DEPTH + 1 - depth, |comps|
  {
    hide LinkTarget, Walk, Clean;
    if comps == [] {
      assert result + comps == result;
      LinkFreeInClean(fs, result);
      CleanKeepsRoot(fs);
      LinkFreeWalk(Clean(fs), result, 0);
      budget := 0;
    } else {
      var candidate, rest := result + [comps[0]], comps[1..];
      assert result + comps == candidate + rest;
      match LinkTarget(fs, candidate)
      case None =>
        LinkFreeExtend(fs, result, comps[0]);
        budget := RestSimulates(fs, candidate, rest, depth);
      case Some(t) =>
        var inner := SimulatesClean(fs, Join(result, t), depth + 1);
        ResolvedIsLinkFree(fs, Join(result, t), depth + 1);
        var resolved := Resolve(fs, Join(result, t), depth + 1).value;
        var outer := RestSimulates(fs, resolved, rest, depth);
        budget := RestBehindLink(fs, result, comps[0], rest, t, resolved, inner, outer);
    }
  }

  /** The same end for a head and for its resolution stays the same end with the rest behind them. */
  lemma Splice(fs: FS, head: Path, resolved: Path, rest: Path, inner: nat, outer: nat) returns (budget: nat)
    requires LinkFree(fs, resolved) && NoDots(resolved)
    requires Same(Walk(Clean(fs), fs.root, head, inner), Walk(Clean(fs), fs.root, resolved, 0))
    requires !Walk(Clean(fs), fs.root, resolved + rest, outer).TooManyLinks?
    ensures Same(Walk(Clean(fs), fs.root, head + rest, budget), Walk(Clean(fs), fs.root, resolved + rest, outer))
  {
    hide LinkTarget, Walk, Clean;
    budget := inner + outer;
    var cl := Clean(fs);
    LinkFreeInClean(fs, resolved);
    CleanKeepsRoot(fs);
    WalkConcat(cl, fs.root, head, rest, budget);
    WalkConcat(cl, fs.root, resolved, rest, outer);
    LinkFreeWalk(cl, resolved, outer);
    WalkUses(cl, fs.root, head, inner, budget);
    var h := Walk(cl, fs.root, head, inner);
    if h.Found? {
      WalkUses(cl, h.ino, rest, outer, h.left + outer);
    }
  }

  // ----- What the result means -----

  /**
    The walk `w` of the given path against the walk `v` of the resolved one: same
    inode when there is one.  When the given path names nothing, the resolved one
    may only name a non-directory.
  */
  ghost predicate Agree(fs: FS, w: Outcome, v: Outcome) {
    match w
    case Found(n, _) => v.Found? && v.ino == n
    case Missing => v.Missing? || (v.Found? && !fs.node(v.ino).Dir?)
    case TooManyLinks => false
  }

  /** Some budget suffices for the walk of the given path, and the two walks agree. */
  lemma ResolveSimulates(fs: FS, path: Path, depth: nat) returns (budget: nat)
    requires Resolve(fs, path, depth).Ok?
    ensures Agree(fs, Walk(fs, fs.root, path, budget), Walk(fs, fs.root, Resolve(fs, path, depth).value, 0))
    ensures Same(Walk(fs, fs.root, path, budget), Walk(fs, fs.root, Resolve(fs, path, depth).value, 0)) <==>
            !StopsOnDots(fs, fs.root, path, budget)
  {
    hide LinkTarget, Walk, Clean, Resolve, StopsOnDots;
    budget := SimulatesClean(fs, path, depth);
    ResolvedIsLinkFree(fs, path, depth);
    ResolvedWalkInClean(fs, Resolve(fs, path, depth).value);
    CleanWalk(fs, fs.root, path, budget);
  }

  /** The inode a walk ends at, with enough budget. */
  lemma DenotesAt(fs: FS, path: Path, budget: nat, n: Ino)
    requires !Walk(fs, fs.root, path, budget).TooManyLinks?
    ensures Denotes(fs, path, n) <==>
            Walk(fs, fs.root, path, budget).Found? && Walk(fs, fs.root, path, budget).ino == n
  {
    hide Walk;
    var w := Walk(fs, fs.root, path, budget);
    if w.Found? && w.ino == n {
      assert w == Found(n, w.left);
    }
    if Denotes(fs, path, n) {
      var b: nat, left: nat :| Walk(fs, fs.root, path, b) == Found(n, left);
      WalkUses(fs, fs.root, path, b, b + budget);
      WalkUses(fs, fs.root, path, budget, b + budget);
    }
  }

  /**
    Main result.  If resolution succeeds, the inode named by the path is named by
    the result, the kernel reaches it from the result without following a single
    link, and the two name the same directories.
  */
  lemma ResolvePreservesMeaning(fs: FS, path: Path, depth: nat, n: Ino)
    requires Resolve(fs, path, depth).Ok?
    ensures var r := Resolve(fs, path, depth).value;
            && (Denotes(fs, path, n) ==> Walk(fs, fs.root, r, 0) == Found(n, 0) && Denotes(fs, r, n))
            && (fs.node(n).Dir? ==> (Denotes(fs, path, n) <==> Denotes(fs, r, n)))
  {
    hide LinkTarget, Walk, Resolve, Denotes, StopsOnDots;
    var r := Resolve(fs, path, depth).value;
    var budget := ResolveSimulates(fs, path, depth);
    ResolvedIsLinkFree(fs, path, depth);
    LinkFreeWalk(fs, r, 0);
    DenotesAt(fs, path, budget, n);
    DenotesAt(fs, r, 0, n);
  }

  /** What the result names is what the path names once "." is dropped everywhere, link targets included. */
  lemma ResultIgnoresDots(fs: FS, path: Path, depth: nat, n: Ino)
    requires Resolve(fs, path, depth).Ok?
    ensures Denotes(fs, Resolve(fs, path, depth).value, n) <==> Denotes(Clean(fs), Components(path), n)
  {
    hide LinkTarget, Walk, Resolve, Denotes, Clean;
    var r := Resolve(fs, path, depth).value;
    var budget := SimulatesClean(fs, path, depth);
    ResolvedIsLinkFree(fs, path, depth);
    ResolvedWalkInClean(fs, r);
    LinkFreeWalk(fs, r, 0);
    CleanKeepsRoot(fs);
    DenotesAt(fs, r, 0, n);
    DenotesAt(Clean(fs), Components(path), budget, n);
  }

  /** Stopping on a "." does not depend on the budget. */
  lemma StopsAlike(fs: FS, path: Path, budget: nat, other: nat)
    requires !Walk(fs, fs.root, path, budget).TooManyLinks?
    requires StopsOnDots(fs, fs.root, path, other)
    ensures StopsOnDots(fs, fs.root, path, budget)
  {
    hide Walk, StopsOnDots, Clean;
    CleanKeepsRoot(fs);
    CleanWalk(fs, fs.root, path, budget);
    CleanWalk(fs, fs.root, path, other);
    WalkUses(fs, fs.root, path, other, other + budget);
    WalkUses(fs, fs.root, path, budget, other + budget);
    WalkUses(Clean(fs), fs.root, Components(path), other, other + budget);
    WalkUses(Clean(fs), fs.root, Components(path), budget, other + budget);
  }

  /**
    The exact condition.  Path and result name the same inodes, files and missing ones
    included, if and only if the kernel's walk of the path never stops on a "." behind
    something other than a directory.
  */
  lemma MeaningKeptIff(fs: FS, path: Path, depth: nat)
    requires Resolve(fs, path, depth).Ok?
    ensures var r := Resolve(fs, path, depth).value;
            (forall n: Ino :: Denotes(fs, path, n) <==> Denotes(fs, r, n)) <==>
            (forall budget: nat :: !StopsOnDots(fs, fs.root, path, budget))
  {
    hide LinkTarget, Walk, Resolve, Denotes, StopsOnDots, Clean;
    var r := Resolve(fs, path, depth).value;
    var budget := ResolveSimulates(fs, path, depth);
    ResolvedIsLinkFree(fs, path, depth);
    LinkFreeWalk(fs, r, 0);
    var w, v := Walk(fs, fs.root, path, budget), Walk(fs, fs.root, r, 0);
    forall n: Ino
      ensures Denotes(fs, path, n) <==> w.Found? && w.ino == n
      ensures Denotes(fs, r, n) <==> v.Found? && v.ino == n
    {
      DenotesAt(fs, path, budget, n);
      DenotesAt(fs, r, 0, n);
    }
    if StopsOnDots(fs, fs.root, path, budget) {
      assert v.Found? && w.Missing?;
      assert Denotes(fs, r, v.ino) && !Denotes(fs, path, v.ino);
    } else {
      forall b: nat
        ensures !StopsOnDots(fs, fs.root, path, b)
      {
        if StopsOnDots(fs, fs.root, path, b) {
          StopsAlike(fs, path, budget, b);
        }
      }
    }
  }

  /** Without a "." in the path or in a link target the two name the same inodes. */
  lemma DotFreeKeepsMeaning(fs: FS, path: Path, depth: nat, n: Ino)
    requires Resolve(fs, path, depth).Ok? && NoDots(path) && NoDotTargets(fs)
    ensures Denotes(fs, path, n) <==> Denotes(fs, Resolve(fs, path, depth).value, n)
  {
    hide Resolve, Denotes;
    forall budget: nat
      ensures !StopsOnDots(fs, fs.root, path, budget)
    {
      NoStopWithoutDots(fs, fs.root, path, budget);
    }
    MeaningKeptIff(fs, path, depth);
  }

  /** Behind a plain file a trailing slash no longer makes the path invalid. */
  lemma TrailingSlashIsForgotten(fs: FS, x: string, depth: nat)
    requires fs.node(fs.root).Dir? && x in fs.node(fs.root).entries && depth <= MAX_SYMLINK_DEPTH
    requires fs.node(fs.node(fs.root).entries[x]).File?
    ensures var path := [Name(x), Dot];
            && Resolve(fs, path, depth) == Ok([Name(x)])
            && Denotes(fs, [Name(x)], fs.node(fs.root).entries[x])
            && (forall b: nat :: Walk(fs, fs.root, path, b) == Missing)
            && forall n :: !Denotes(fs, path, n)
  {
    var path := [Name(x), Dot];
    var n := fs.node(fs.root).entries[x];
    assert path[1..] == [Dot] && [Name(x)][..0] == [];
    assert Components([Dot]) == [];
    assert Components(path) == [Name(x)];
    assert [] + [Name(x)] == [Name(x)];
    assert ResolveRest(fs, [Name(x)], [Name(x)][1..], depth) == Ok([Name(x)]);
    assert Walk(fs, fs.root, [Name(x)], 0) == Found(n, 0);
    forall b: nat
      ensures Walk(fs, fs.root, path, b) == Missing
    {
      assert Walk(fs, n, [Dot], b) == Missing;
    }
  }

  /** The same for a slash at the end of a link's target: the link dangles, but its path is resolved to the file. */
  lemma SlashInTargetIsForgotten(fs: FS, l: string, x: string)
    requires fs.node(fs.root).Dir? && l in fs.node(fs.root).entries && x in fs.node(fs.root).entries
    requires fs.node(fs.node(fs.root).entries[l]) == Link(Target(false, [Name(x), Dot]))
    requires fs.node(fs.node(fs.root).entries[x]).File?
    ensures Resolve(fs, [Name(l)], 0) == Ok([Name(x)])
    ensures Denotes(fs, [Name(x)], fs.node(fs.root).entries[x])
    ensures forall n :: !Denotes(fs, [Name(l)], n)
  {
    var target, n := [Name(x), Dot], fs.node(fs.root).entries[x];
    assert [Name(l)][..0] == [] && LinkTarget(fs, [Name(l)]) == Some(Target(false, target));
    assert Join(Parent([Name(l)]), Target(false, target)) == [] + target == target;
    TrailingSlashIsForgotten(fs, x, 1);
    assert Walk(fs, fs.root, [Name(x)], 0) == Found(n, 0);
    forall b: nat
      ensures !Walk(fs, fs.root, [Name(l)], b).Found?
    {
      if b > 0 {
        assert target + [Name(l)][1..] == target;
        assert Walk(fs, fs.root, target, b - 1) == Missing;
      }
    }
  }

  // ----- When resolution succeeds -----

  /**
    Every path whose walk ends within 255 links, found or missing, is resolved;
    a kernel that stops earlier than that never sees a path refused.
  */
  lemma ResolveSucceeds(fs: FS, path: Path, depth: nat, budget: nat)
    requires !Walk(fs, fs.root, path, budget).TooManyLinks?
    requires depth + budget <= 255
    ensures Resolve(fs, path, depth).Ok?
  {
    hide LinkTarget, Walk, Clean, Resolve;
    CleanWalk(fs, fs.root, path, budget);
    SucceedsInClean(fs, path, depth, budget);
  }

  lemma {:induction false} SucceedsInClean(fs: FS, path: Path, depth: nat, budget: nat)
    requires !Walk(Clean(fs), fs.root, Components(path), budget).TooManyLinks?
    requires depth + budget <= MAX_SYMLINK_DEPTH
    ensures Resolve(fs, path, depth).Ok?
    decreases MAX_SYMLINK_DEPTH + 1 - depth, |Components(path)| + 1
  {
    hide LinkTarget, Walk, Clean;
    match LinkTarget(fs, path)
    case None =>
      assert [] + Components(path) == Components(path);
      RestSucceeds(fs, [], Components(path), depth, budget);
    case Some(t) =>
      var saved := HeadLink(fs, path, budget);
      SucceedsInClean(fs, Join(Parent(path), t), depth + 1, budget - 1 - saved);
  }

  lemma {:induction false} RestSucceeds(fs: FS, result: Path, comps: Path, depth: nat, budget: nat)
    requires depth + budget <= MAX_SYMLINK_DEPTH && LinkFree(fs, result) && NoDots(result) && NoDots(comps)
    requires !Walk(Clean(fs), fs.root, result + comps, budget).TooManyLinks?
    ensures ResolveRest(fs, result, comps, depth).Ok?
    decreases MAX_SYMLINK_DEPTH + 1 - depth, |comps|
  {
    hide LinkTarget, Walk, Clean;
    if comps != [] {
      var candidate, rest := result + [comps[0]], comps[1..];
      assert result + comps == candidate + rest;
      match LinkTarget(fs, candidate)
      case None =>
        LinkFreeExtend(fs, result, comps[0]);
        RestSucceeds(fs, candidate, rest, depth, budget);
      case Some(t) =>
        CandidateLink(fs, result, comps[0], budget);
        WalkConcat(Clean(fs), fs.root, candidate, rest, budget);
        var joined := Join(result, t);
        SucceedsInClean(fs, joined, depth + 1, budget - 1);
        var resolved := Resolve(fs, joined, depth + 1).value;
        ResolvedIsLinkFree(fs, joined, depth + 1);
        var left := LeftBehind(fs, joined, depth + 1, rest, budget - 1);
        RestSucceeds(fs, resolved, rest, depth, left);
    }
  }

  /** What the walk of a resolved head leaves of the budget suffices for the rest. */
  lemma LeftBehind(fs: FS, head: Path, depth: nat, rest: Path, budget: nat) returns (left: nat)
    requires Resolve(fs, head, depth).Ok?
    requires match Walk(Clean(fs), fs.root, Components(head), budget)
             case Found(m, rem) => !Walk(Clean(fs), m, rest, rem).TooManyLinks?
             case Missing => true
             case TooManyLinks => false
    ensures left <= budget
    ensures !Walk(Clean(fs), fs.root, Resolve(fs, head, depth).value + rest, left).TooManyLinks?
  {
    hide LinkTarget, Walk, Clean, Resolve;
    var cl, resolved := Clean(fs), Resolve(fs, head, depth).value;
    var inner := SimulatesClean(fs, head, depth);
    CleanKeepsRoot(fs);
    WalkUses(cl, fs.root, Components(head), inner, inner + budget);
    WalkUses(cl, fs.root, Components(head), budget, inner + budget);
    var h := Walk(cl, fs.root, Components(head), budget);
    left := if h.Found? then h.left else 0;
    ResolvedIsLinkFree(fs, head, depth);
    LinkFreeInClean(fs, resolved);
    LinkFreeWalk(cl, resolved, left);
    WalkConcat(cl, fs.root, resolved, rest, left);
  }

  /** Links in the root directory, each to the next name; the last name is no link. */
  ghost predicate LinkChain(fs: FS, names: seq<string>) {
    && names != [] && fs.node(fs.root).Dir?
    && forall k :: 0 <= k < |names| ==>
         && names[k] in fs.node(fs.root).entries
         && var node := fs.node(fs.node(fs.root).entries[names[k]]);
            if k < |names| - 1 then node == Link(Target(false, [Name(names[k + 1])])) else !node.Link?
  }

  lemma ChainTarget(fs: FS, names: seq<string>, k: nat)
    requires LinkChain(fs, names) && k < |names|
    ensures LinkTarget(fs, [Name(names[k])]) ==
            if k < |names| - 1 then Some(Target(false, [Name(names[k + 1])])) else None
  {
    assert [Name(names[k])][..0] == [];
  }

  /** Behind `k` links of the chain the depth is `k`. */
  lemma {:induction false} ChainFrom(fs: FS, names: seq<string>, k: nat)
    requires LinkChain(fs, names) && k < |names|
    ensures Resolve(fs, [Name(names[k])], k) ==
            if |names| <= 256 then Ok([Name(names[|names| - 1])]) else Err(DepthExceeded)
    decreases |names| - k
  {
    hide LinkTarget;
    var path := [Name(names[k])];
    if k <= 255 {
      ChainTarget(fs, names, k);
      if k < |names| - 1 {
        assert Join(Parent(path), Target(false, [Name(names[k + 1])])) == [Name(names[k + 1])];
        ChainFrom(fs, names, k + 1);
      } else {
        ComponentsOfDotFree(path);
        assert [] + [path[0]] == path && path[1..] == [];
        assert ResolveRest(fs, path, path[1..], k) == Ok(path);
      }
    }
  }

  /** The depth limit to the link: a chain of links is resolved to its end if and only if it has at most 255. */
  lemma ChainIsResolvedIff(fs: FS, names: seq<string>)
    requires LinkChain(fs, names)
    ensures Resolve(fs, [Name(names[0])], 0) ==
            if |names| - 1 <= 255 then Ok([Name(names[|names| - 1])]) else Err(DepthExceeded)
  {
    ChainFrom(fs, names, 0);
  }

  /** A path caught in a link cycle is always refused, never resolved to something else. */
  lemma CyclesAreRefused(fs: FS, path: Path, depth: nat)
    ensures Cyclic(fs, path) ==> Resolve(fs, path, depth) == Err(DepthExceeded)
  {
    match Resolve(fs, path, depth)
    case Ok(_) =>
      var budget := ResolveSimulates(fs, path, depth);
      assert !Walk(fs, fs.root, path, budget).TooManyLinks?;
    case Err(e) =>
      assert e.DepthExceeded?;
  }
}
