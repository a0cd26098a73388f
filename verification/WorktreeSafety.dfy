/**
  `validate_worktree_path` and `assert_writable_branch` (looper-git).  The "under
  the root" test compares rendered strings, so it is modelled on strings, and the
  lemmas say which component paths that textual test lets through.
*/
module WorktreeSafety {
  import opened Wrappers
  import opened FileSystem
  import opened SymlinkResolver
  import opened DirectoryTree

  // ----- Rendering -----

  function SegText(seg: Seg): string {
    match seg
    case Dot => "."
    case DotDot => ".."
    case Name(x) => x
  }

  /** `PathBuf::to_string_lossy` of an absolute path. */
  function Render(path: Path): string {
    if path == [] then "/" else RenderSegs(path)
  }

  function RenderSegs(path: Path): string {
    if path == [] then "" else "/" + SegText(path[0]) + RenderSegs(path[1..])
  }

  /** A directory entry's name: not empty, no slash, and neither "." nor "..". */
  predicate GoodSeg(seg: Seg) {
    seg.Name? ==> seg.text != "" && '/' !in seg.text && seg.text != "." && seg.text != ".."
  }

  ghost predicate GoodPath(path: Path) {
    forall k :: 0 <= k < |path| ==> GoodSeg(path[k])
  }

  ghost predicate GoodFS(fs: FS) {
    forall i :: fs.node(i).Link? ==> GoodPath(fs.node(i).target.segs)
  }

  // ----- The checks -----

  datatype SafetyError =
    | EmptyPath | SameAsRepo | EmptyRoot | SameAsRoot | NotUnderRoot | TooDeep

  datatype Verdict = Safe | Unsafe(reason: SafetyError)

  /** `path`, `repoPath` and `root` are given as they are written: absolute or relative. */
  datatype SafetyCheckInput = SafetyCheckInput(path: Target, repoPath: Option<Target>, root: Option<Target>)

  predicate IsEmpty(path: Target) {
    !path.absolute && path.segs == []
  }

  function Canonicalize(fs: FS, cwd: Path, path: Target): Resolution {
    Resolve(fs, Join(cwd, path), 0)
  }

  function CheckRepo(fs: FS, cwd: Path, path: Target, repo: Target): Verdict {
    match (Canonicalize(fs, cwd, repo), Canonicalize(fs, cwd, path))
    case (Err(_), _) => Unsafe(TooDeep)
    case (_, Err(_)) => Unsafe(TooDeep)
    case (Ok(r), Ok(p)) => if Render(p) == Render(r) then Unsafe(SameAsRepo) else Safe
  }

  function CheckRoot(fs: FS, cwd: Path, path: Target, root: Target): Verdict {
    if IsEmpty(root) then Unsafe(EmptyRoot)
    else
      match (Canonicalize(fs, cwd, root), Canonicalize(fs, cwd, path))
      case (Err(_), _) => Unsafe(TooDeep)
      case (_, Err(_)) => Unsafe(TooDeep)
      case (Ok(r), Ok(p)) =>
        if Render(p) == Render(r) then Unsafe(SameAsRoot)
        else if !(Render(r) <= Render(p)) then Unsafe(NotUnderRoot)
        else Safe
  }

  function ValidateWorktreePath(fs: FS, cwd: Path, input: SafetyCheckInput): Verdict {
    if IsEmpty(input.path) then Unsafe(EmptyPath)
    else
      var repo := if input.repoPath.Some? then CheckRepo(fs, cwd, input.path, input.repoPath.value) else Safe;
      if repo.Unsafe? || input.root.None? then repo
      else CheckRoot(fs, cwd, input.path, input.root.value)
  }

  // ----- What the textual test means -----

  /** The last component of `root` is a proper textual prefix of the component beside it. */
  predicate SiblingExtension(root: Path, path: Path) {
    && 0 < |root| <= |path|
    && path[..|root| - 1] == root[..|root| - 1]
    && SegText(root[|root| - 1]) < SegText(path[|root| - 1])
  }

  lemma RenderSegsIsDelimited(path: Path)
    ensures path == [] <==> RenderSegs(path) == ""
    ensures path != [] ==> RenderSegs(path)[0] == '/'
  {
  }

  lemma SegTextInjective(a: Seg, b: Seg)
    requires GoodSeg(a) && GoodSeg(b) && SegText(a) == SegText(b)
    ensures a == b
  {
  }

  lemma SegTextGood(a: Seg)
    requires GoodSeg(a)
    ensures SegText(a) != "" && '/' !in SegText(a)
  {
  }

  function FirstSlash(u: string): (k: nat)
    ensures k <= |u|
  {
    if u == "" || u[0] == '/' then 0 else 1 + FirstSlash(u[1..])
  }

  lemma {:induction false} FirstSlashAfter(s: string, a: string)
    requires '/' !in s && (a != "" ==> a[0] == '/')
    ensures FirstSlash(s + a) == |s|
  {
    if s != "" {
      assert (s + a)[1..] == s[1..] + a;
      FirstSlashAfter(s[1..], a);
    } else {
      assert s + a == a;
    }
  }

  lemma {:induction false} FirstSlashOfPrefix(u: string, w: string)
    requires u <= w
    ensures FirstSlash(u) <= FirstSlash(w)
    ensures FirstSlash(u) < |u| ==> FirstSlash(u) == FirstSlash(w)
  {
    if u != "" {
      FirstSlashOfPrefix(u[1..], w[1..]);
    }
  }

  /** One component: slash-free texts followed by nothing or by a slash. */
  lemma OneComponent(s: string, a: string, t: string, b: string)
    requires '/' !in s && '/' !in t
    requires a != "" ==> a[0] == '/'
    requires b != "" ==> b[0] == '/'
    ensures s + a <= t + b <==> (s == t && a <= b) || (a == "" && s <= t)
  {
    if s == t && a <= b {
      assert t + b == (s + a) + b[|a|..];
    }
    if a == "" && s <= t {
      assert s + a == s;
      assert t + b == s + (t[|s|..] + b);
    }
    if s + a <= t + b {
      FirstSlashAfter(s, a);
      FirstSlashAfter(t, b);
      FirstSlashOfPrefix(s + a, t + b);
      assert forall k :: 0 <= k < |s| ==> s[k] == (s + a)[k] == (t + b)[k] == t[k];
      if a != "" {
        assert forall k :: 0 <= k < |a| ==> a[k] == (s + a)[|s| + k] == (t + b)[|t| + k] == b[k];
      }
    }
  }

  /** The textual prefix test, component by component. */
  lemma {:induction false} RenderedPrefix(root: Path, path: Path)
    requires GoodPath(root) && GoodPath(path)
    ensures RenderSegs(root) <= RenderSegs(path) <==> root <= path || SiblingExtension(root, path)
    decreases |root|
  {
    RenderSegsIsDelimited(root);
    RenderSegsIsDelimited(path);
    if root != [] && path != [] {
      var s, t := SegText(root[0]), SegText(path[0]);
      var root', path' := root[1..], path[1..];
      SegTextGood(root[0]);
      SegTextGood(path[0]);
      RenderSegsIsDelimited(root');
      RenderSegsIsDelimited(path');
      OneComponent(s, RenderSegs(root'), t, RenderSegs(path'));
      assert RenderSegs(root) == ['/'] + (s + RenderSegs(root'));
      assert RenderSegs(path) == ['/'] + (t + RenderSegs(path'));
      PrefixBehindSlash(s + RenderSegs(root'), t + RenderSegs(path'));
      RenderedPrefix(root', path');
      if s == t {
        SegTextInjective(root[0], path[0]);
      }
      PrefixByHead(root, path);
      SiblingByHead(root, path);
    }
  }

  lemma PrefixBehindSlash(a: string, b: string)
    ensures ['/'] + a <= ['/'] + b <==> a <= b
  {
    assert (['/'] + a)[1..] == a && (['/'] + b)[1..] == b;
    if a <= b {
      assert ['/'] + b == (['/'] + a) + b[|a|..];
    }
    if ['/'] + a <= ['/'] + b {
      assert forall k :: 0 <= k < |a| ==> a[k] == (['/'] + a)[k + 1] == (['/'] + b)[k + 1] == b[k];
    }
  }

  lemma PrefixByHead(root: Path, path: Path)
    requires root != [] && path != []
    ensures root <= path <==> root[0] == path[0] && root[1..] <= path[1..]
  {
    assert root == [root[0]] + root[1..] && path == [path[0]] + path[1..];
  }

  lemma SiblingByHead(root: Path, path: Path)
    requires root != [] && path != []
    ensures SiblingExtension(root, path) <==>
            if |root| == 1 then SegText(root[0]) < SegText(path[0])
            else root[0] == path[0] && SiblingExtension(root[1..], path[1..])
  {
    if 1 < |root| <= |path| {
      var n := |root| - 1;
      assert root[..n] == [root[0]] + root[1..][..n - 1];
      assert path[..n] == [path[0]] + path[1..][..n - 1];
    }
  }

  lemma RenderInjective(a: Path, b: Path)
    requires GoodPath(a) && GoodPath(b) && Render(a) == Render(b)
    ensures a == b
  {
    if a != [] {
      LongerThanSlash(a);
    }
    if b != [] {
      LongerThanSlash(b);
    }
    if a != [] && b != [] {
      RenderedPrefix(a, b);
      RenderedPrefix(b, a);
    }
  }

  lemma LongerThanSlash(path: Path)
    requires GoodPath(path) && path != []
    ensures |Render(path)| > 1
  {
    SegTextGood(path[0]);
  }

  /**
    The test accepts exactly: everything under the root directory itself, the
    proper descendants of any other root, and the paths at or below a sibling whose
    name merely starts with the root's own name.
  */
  lemma TextualTest(root: Path, path: Path)
    requires GoodPath(root) && GoodPath(path) && root != path
    ensures Render(root) <= Render(path) <==> root <= path || SiblingExtension(root, path)
    ensures Render(root) != Render(path)
  {
    if Render(root) == Render(path) {
      RenderInjective(root, path);
    }
    RenderSegsIsDelimited(path);
    if root != [] {
      LongerThanSlash(root);
      if path != [] {
        RenderedPrefix(root, path);
      }
    }
  }

  // ----- Names stay well formed during resolution -----

  lemma {:induction false} ResolveKeepsGood(fs: FS, path: Path, depth: nat)
    requires GoodFS(fs) && GoodPath(path) && Resolve(fs, path, depth).Ok?
    ensures GoodPath(Resolve(fs, path, depth).value)
    decreases MAX_SYMLINK_DEPTH + 1 - depth, |Components(path)| + 1
  {
    hide LinkTarget;
    ComponentsKeepGood(path);
    match LinkTarget(fs, path)
    case Some(t) =>
      TargetIsGood(fs, path);
      TrimKeepsGood(path[..|path| - 1]);
      ResolveKeepsGood(fs, Join(Parent(path), t), depth + 1);
    case None => RestKeepsGood(fs, [], Components(path), depth);
  }

  lemma {:induction false} RestKeepsGood(fs: FS, result: Path, comps: Path, depth: nat)
    requires GoodFS(fs) && GoodPath(result) && GoodPath(comps) && depth <= MAX_SYMLINK_DEPTH
    requires ResolveRest(fs, result, comps, depth).Ok?
    ensures GoodPath(ResolveRest(fs, result, comps, depth).value)
    decreases MAX_SYMLINK_DEPTH + 1 - depth, |comps|
  {
    hide LinkTarget;
    if comps != [] {
      var candidate := result + [comps[0]];
      match LinkTarget(fs, candidate)
      case None => RestKeepsGood(fs, candidate, comps[1..], depth);
      case Some(t) =>
        TargetIsGood(fs, candidate);
        ResolveKeepsGood(fs, Join(result, t), depth + 1);
        RestKeepsGood(fs, Resolve(fs, Join(result, t), depth + 1).value, comps[1..], depth);
    }
  }

  lemma TargetIsGood(fs: FS, path: Path)
    requires GoodFS(fs) && LinkTarget(fs, path).Some?
    ensures GoodPath(LinkTarget(fs, path).value.segs)
  {
  }

  lemma {:induction false} ComponentsKeepGood(path: Path)
    requires GoodPath(path)
    ensures GoodPath(Components(path))
  {
    if path != [] {
      ComponentsKeepGood(path[1..]);
    }
  }

  lemma {:induction false} TrimKeepsGood(path: Path)
    requires GoodPath(path)
    ensures GoodPath(TrimDots(path))
  {
    if path != [] && path[|path| - 1] == Dot {
      TrimKeepsGood(path[..|path| - 1]);
    }
  }

  // ----- Main results -----

  ghost predicate GoodInput(fs: FS, cwd: Path, input: SafetyCheckInput) {
    && GoodFS(fs) && GoodPath(cwd) && GoodPath(input.path.segs)
    && (input.repoPath.Some? ==> GoodPath(input.repoPath.value.segs))
    && (input.root.Some? ==> GoodPath(input.root.value.segs))
  }

  ghost predicate ResolveApart(fs: FS, cwd: Path, a: Target, b: Target) {
    var p, q := Canonicalize(fs, cwd, a), Canonicalize(fs, cwd, b);
    p.Ok? && q.Ok? && p.value != q.value
  }

  lemma RenderedApart(fs: FS, cwd: Path, a: Target, b: Target)
    requires GoodFS(fs) && GoodPath(cwd) && GoodPath(a.segs) && GoodPath(b.segs)
    requires Canonicalize(fs, cwd, a).Ok? && Canonicalize(fs, cwd, b).Ok?
    ensures var p, q := Canonicalize(fs, cwd, a).value, Canonicalize(fs, cwd, b).value;
            && (Render(p) == Render(q) <==> p == q)
            && (p != q ==> (Render(q) <= Render(p) <==> q <= p || SiblingExtension(q, p)))
  {
    hide Resolve;
    ResolveKeepsGood(fs, Join(cwd, a), 0);
    ResolveKeepsGood(fs, Join(cwd, b), 0);
    var p, q := Canonicalize(fs, cwd, a).value, Canonicalize(fs, cwd, b).value;
    if p != q {
      TextualTest(q, p);
    }
  }

  /**
    A path is accepted exactly when it is not empty; resolves to something other than
    the repository, if one is given; and, if a root is given, that is not empty and
    the path resolves to a descendant of it, or to something at or below a sibling
    with an extended name.
  */
  lemma AcceptedExactly(fs: FS, cwd: Path, input: SafetyCheckInput)
    requires GoodInput(fs, cwd, input)
    ensures ValidateWorktreePath(fs, cwd, input) == Safe <==>
            && input.path != Target(false, [])
            && (input.repoPath.Some? ==> ResolveApart(fs, cwd, input.path, input.repoPath.value))
            && (input.root.Some? ==>
                  && input.root.value != Target(false, [])
                  && ResolveApart(fs, cwd, input.path, input.root.value)
                  && var p := Canonicalize(fs, cwd, input.path).value;
                     var r := Canonicalize(fs, cwd, input.root.value).value;
                     r <= p || SiblingExtension(r, p))
  {
    hide Canonicalize, Render, GoodFS, GoodPath, SiblingExtension;
    if input.repoPath.Some? && Canonicalize(fs, cwd, input.path).Ok? && Canonicalize(fs, cwd, input.repoPath.value).Ok? {
      RenderedApart(fs, cwd, input.path, input.repoPath.value);
    }
    if input.root.Some? && Canonicalize(fs, cwd, input.path).Ok? && Canonicalize(fs, cwd, input.root.value).Ok? {
      RenderedApart(fs, cwd, input.path, input.root.value);
    }
  }

  /** Every path whose walk ends within 255 links is resolved, links or not. */
  lemma WalkableResolves(fs: FS, cwd: Path, path: Target)
    requires !Walk(fs, fs.root, Join(cwd, path), 255).TooManyLinks?
    ensures Canonicalize(fs, cwd, path).Ok?
  {
    hide Resolve, Walk;
    ResolveSucceeds(fs, Join(cwd, path), 0, 255);
  }

  /**
    The verdict on every input whose paths can be walked within 255 links: never that they
    are too deep, and otherwise the first of the five complaints that applies.
  */
  lemma VerdictWithinLimits(fs: FS, cwd: Path, input: SafetyCheckInput)
    requires GoodInput(fs, cwd, input)
    requires !Walk(fs, fs.root, Join(cwd, input.path), 255).TooManyLinks?
    requires input.repoPath.Some? ==> !Walk(fs, fs.root, Join(cwd, input.repoPath.value), 255).TooManyLinks?
    requires input.root.Some? ==> !Walk(fs, fs.root, Join(cwd, input.root.value), 255).TooManyLinks?
    ensures Canonicalize(fs, cwd, input.path).Ok?
    ensures input.repoPath.Some? ==> Canonicalize(fs, cwd, input.repoPath.value).Ok?
    ensures input.root.Some? ==> Canonicalize(fs, cwd, input.root.value).Ok?
    ensures var p := Canonicalize(fs, cwd, input.path).value;
            ValidateWorktreePath(fs, cwd, input) ==
            if input.path == Target(false, []) then Unsafe(EmptyPath)
            else if input.repoPath.Some? && p == Canonicalize(fs, cwd, input.repoPath.value).value then Unsafe(SameAsRepo)
            else if input.root.None? then Safe
            else if input.root.value == Target(false, []) then Unsafe(EmptyRoot)
            else
              var r := Canonicalize(fs, cwd, input.root.value).value;
              if p == r then Unsafe(SameAsRoot)
              else if r <= p || SiblingExtension(r, p) then Safe
              else Unsafe(NotUnderRoot)
  {
    hide Canonicalize, Walk, Render, GoodFS, GoodPath, SiblingExtension;
    WalkableResolves(fs, cwd, input.path);
    if input.repoPath.Some? {
      WalkableResolves(fs, cwd, input.repoPath.value);
      RenderedApart(fs, cwd, input.path, input.repoPath.value);
    }
    if input.root.Some? {
      WalkableResolves(fs, cwd, input.root.value);
      RenderedApart(fs, cwd, input.path, input.root.value);
    }
  }

  /**
    The guarantee the check is for.  If the accepted path extends the resolved root
    by names only, the inode it names lies in the tree below the root's inode; the
    two ways out are a sibling with an extended name and a ".." left in the tail.
  */
  lemma AcceptedLiesBelowRoot(fs: FS, cwd: Path, input: SafetyCheckInput, n: Ino)
    requires GoodInput(fs, cwd, input) && input.root.Some?
    ensures ValidateWorktreePath(fs, cwd, input) == Safe && Denotes(fs, Join(cwd, input.path), n) ==>
              && Canonicalize(fs, cwd, input.path).Ok? && Canonicalize(fs, cwd, input.root.value).Ok?
              && LiesBelow(fs, Canonicalize(fs, cwd, input.path).value, Canonicalize(fs, cwd, input.root.value).value, n)
  {
    hide Resolve, Walk, Render, SiblingExtension, LiesBelow, ValidateWorktreePath;
    if ValidateWorktreePath(fs, cwd, input) == Safe && Denotes(fs, Join(cwd, input.path), n) {
      AcceptedExactly(fs, cwd, input);
      ResolvePreservesMeaning(fs, Join(cwd, input.path), 0, n);
      ResolvedIsLinkFree(fs, Join(cwd, input.path), 0);
      ResolvedIsLinkFree(fs, Join(cwd, input.root.value), 0);
      DescendantLiesBelow(fs, Canonicalize(fs, cwd, input.path).value, Canonicalize(fs, cwd, input.root.value).value, n);
    }
  }

  /** In the tree below the root, or one of the two ways out. */
  ghost predicate LiesBelow(fs: FS, p: Path, r: Path, n: Ino) {
    || SiblingExtension(r, p)
    || (r < p && DotDot in p[|r|..])
    || (r < p && NamesOnly(p[|r|..]) && exists m :: Denotes(fs, r, m) && Below(fs, m, Texts(p[|r|..]), n))
  }

  lemma DescendantLiesBelow(fs: FS, p: Path, r: Path, n: Ino)
    requires LinkFree(fs, r) && NoDots(p) && Walk(fs, fs.root, p, 0) == Found(n, 0)
    requires r < p || SiblingExtension(r, p)
    ensures LiesBelow(fs, p, r, n)
  {
    if r < p && DotDot !in p[|r|..] {
      var tail := p[|r|..];
      assert p == r + tail;
      LinkFreeWalk(fs, r, 0);
      WalkConcat(fs, fs.root, r, tail, 0);
      var m := Walk(fs, fs.root, r, 0).ino;
      forall k | 0 <= k < |tail|
        ensures tail[k].Name?
      {
        assert tail[k] == p[|r| + k] && tail[k] in tail;
      }
      NamesDescend(fs, m, tail, n, 0);
      assert Denotes(fs, r, m);
    }
  }

  /** The inode a resolved path leads to without links is the one that the given path names. */
  lemma ResolvedWalk(fs: FS, cwd: Path, path: Target, n: Ino)
    requires Canonicalize(fs, cwd, path).Ok? && Denotes(fs, Join(cwd, path), n)
    ensures NoDots(Canonicalize(fs, cwd, path).value)
    ensures Walk(fs, fs.root, Canonicalize(fs, cwd, path).value, 0) == Found(n, 0)
  {
    hide Resolve, Walk;
    ResolvePreservesMeaning(fs, Join(cwd, path), 0, n);
    ResolvedIsLinkFree(fs, Join(cwd, path), 0);
  }

  /**
    The exact condition behind the root check.  An accepted directory lies in the root's
    tree if and only if its resolved path, with ".." taken out, goes on from the root's;
    and it is the root itself if and only if the two are equal.
  */
  lemma AcceptedInTreeIff(fs: FS, cwd: Path, input: SafetyCheckInput, m: Ino, n: Ino)
    requires GoodInput(fs, cwd, input) && DirTree(fs) && input.root.Some?
    requires ValidateWorktreePath(fs, cwd, input) == Safe
    requires Denotes(fs, Join(cwd, input.path), n) && fs.node(n).Dir?
    requires Denotes(fs, Join(cwd, input.root.value), m)
    ensures Canonicalize(fs, cwd, input.path).Ok? && Canonicalize(fs, cwd, input.root.value).Ok?
    ensures var p, r := Canonicalize(fs, cwd, input.path).value, Canonicalize(fs, cwd, input.root.value).value;
            && ((exists names :: Below(fs, m, names, n)) <==> Normal(r) <= Normal(p))
            && (m == n <==> Normal(r) == Normal(p))
  {
    hide ValidateWorktreePath, Canonicalize, Walk, Denotes, DirTree, GoodInput, SiblingExtension, NoDots;
    AcceptedExactly(fs, cwd, input);
    ResolvedWalk(fs, cwd, input.path, n);
    ResolvedWalk(fs, cwd, input.root.value, m);
    var p, r := Canonicalize(fs, cwd, input.path).value, Canonicalize(fs, cwd, input.root.value).value;
    InTreeIff(fs, r, m, p, n);
    SameDirIff(fs, r, m, p, n);
  }

  /** The exact condition behind the repository check: which accepted directory is the repository all the same. */
  lemma AcceptedIsRepoIff(fs: FS, cwd: Path, input: SafetyCheckInput, m: Ino, n: Ino)
    requires GoodInput(fs, cwd, input) && DirTree(fs) && input.repoPath.Some?
    requires ValidateWorktreePath(fs, cwd, input) == Safe
    requires Denotes(fs, Join(cwd, input.path), n) && fs.node(n).Dir?
    requires Denotes(fs, Join(cwd, input.repoPath.value), m)
    ensures Canonicalize(fs, cwd, input.path).Ok? && Canonicalize(fs, cwd, input.repoPath.value).Ok?
    ensures m == n <==> Normal(Canonicalize(fs, cwd, input.repoPath.value).value)
                        == Normal(Canonicalize(fs, cwd, input.path).value)
  {
    hide ValidateWorktreePath, Canonicalize, Walk, Denotes, DirTree, GoodInput, SiblingExtension, NoDots;
    AcceptedExactly(fs, cwd, input);
    ResolvedWalk(fs, cwd, input.path, n);
    ResolvedWalk(fs, cwd, input.repoPath.value, m);
    SameDirIff(fs, Canonicalize(fs, cwd, input.repoPath.value).value, m, Canonicalize(fs, cwd, input.path).value, n);
  }

  /** The walk of the path ends at `n`, within 255 links, and the resolved path keeps no "..". */
  ghost predicate LeadsPlainlyTo(fs: FS, cwd: Path, path: Target, n: Ino) {
    && Walk(fs, fs.root, Join(cwd, path), 255).Found? && Walk(fs, fs.root, Join(cwd, path), 255).ino == n
    && (Canonicalize(fs, cwd, path).Ok? ==> NamesOnly(Canonicalize(fs, cwd, path).value))
  }

  lemma PlainlyResolved(fs: FS, cwd: Path, path: Target, n: Ino)
    requires LeadsPlainlyTo(fs, cwd, path, n)
    ensures !Walk(fs, fs.root, Join(cwd, path), 255).TooManyLinks? && Canonicalize(fs, cwd, path).Ok?
    ensures NamesOnly(Canonicalize(fs, cwd, path).value) && NoDots(Canonicalize(fs, cwd, path).value)
    ensures Walk(fs, fs.root, Canonicalize(fs, cwd, path).value, 0) == Found(n, 0)
  {
    hide Canonicalize;
    WalkableResolves(fs, cwd, path);
    assert Walk(fs, fs.root, Join(cwd, path), 255) == Found(n, Walk(fs, fs.root, Join(cwd, path), 255).left);
    ResolvedWalk(fs, cwd, path, n);
  }

  /**
    When no resolved path keeps a "..", the checks judge right in both directions, extended
    siblings apart: a directory that is reached within 255 links is accepted if and only if
    it is neither the repository nor the root and lies in the root's tree.
  */
  lemma PlainPathsAreJudgedRight(fs: FS, cwd: Path, path: Target, repo: Target, root: Target, n: Ino, k: Ino, m: Ino)
    requires GoodInput(fs, cwd, SafetyCheckInput(path, Some(repo), Some(root))) && DirTree(fs)
    requires path != Target(false, []) && root != Target(false, []) && fs.node(n).Dir?
    requires LeadsPlainlyTo(fs, cwd, path, n) && LeadsPlainlyTo(fs, cwd, repo, k) && LeadsPlainlyTo(fs, cwd, root, m)
    ensures Canonicalize(fs, cwd, path).Ok? && Canonicalize(fs, cwd, root).Ok?
    ensures ValidateWorktreePath(fs, cwd, SafetyCheckInput(path, Some(repo), Some(root))) == Safe <==>
            && n != k && n != m
            && ((exists names :: Below(fs, m, names, n))
                || SiblingExtension(Canonicalize(fs, cwd, root).value, Canonicalize(fs, cwd, path).value))
  {
    hide ValidateWorktreePath, Canonicalize, Walk, DirTree, GoodInput, SiblingExtension, NoDots, NamesOnly;
    hide LeadsPlainlyTo;
    PlainlyResolved(fs, cwd, path, n);
    PlainlyResolved(fs, cwd, repo, k);
    PlainlyResolved(fs, cwd, root, m);
    VerdictWithinLimits(fs, cwd, SafetyCheckInput(path, Some(repo), Some(root)));
    var p, q, r := Canonicalize(fs, cwd, path).value, Canonicalize(fs, cwd, repo).value, Canonicalize(fs, cwd, root).value;
    InTreeIff(fs, r, m, p, n);
    SameDirIff(fs, r, m, p, n);
    SameDirIff(fs, q, k, p, n);
  }

  lemma VerdictAgainstRoot(fs: FS, cwd: Path, path: Target, root: Target, p: Path, r: Path)
    requires !IsEmpty(path) && !IsEmpty(root)
    requires Canonicalize(fs, cwd, path) == Ok(p) && Canonicalize(fs, cwd, root) == Ok(r)
    ensures ValidateWorktreePath(fs, cwd, SafetyCheckInput(path, None, Some(root))) ==
            if Render(p) == Render(r) then Unsafe(SameAsRoot)
            else if Render(r) <= Render(p) then Safe
            else Unsafe(NotUnderRoot)
  {
  }

  /** The first way out is real: next to a root "x" the path "x-old" is accepted, link or no link elsewhere. */
  lemma SiblingIsAccepted(fs: FS, x: string, suffix: string)
    requires suffix != ""
    requires LinkTarget(fs, [Name(x)]).None? && LinkTarget(fs, [Name(x + suffix)]).None?
    ensures var input := SafetyCheckInput(Target(true, [Name(x + suffix)]), None, Some(Target(true, [Name(x)])));
            ValidateWorktreePath(fs, [], input) == Safe
  {
    OneNameResolves(fs, x);
    OneNameResolves(fs, x + suffix);
    RenderOne(x);
    RenderOne(x + suffix);
    assert "/" + (x + suffix) == ("/" + x) + suffix;
    VerdictAgainstRoot(fs, [], Target(true, [Name(x + suffix)]), Target(true, [Name(x)]),
                       [Name(x + suffix)], [Name(x)]);
  }

  /** The second way out is real: ".." after the root is kept when the root is no link. */
  lemma DotDotIsAccepted(fs: FS, x: string, y: string)
    requires LinkTarget(fs, [Name(x)]).None? && LinkTarget(fs, [Name(x), DotDot, Name(y)]).None?
    ensures var input := SafetyCheckInput(Target(true, [Name(x), DotDot, Name(y)]), None, Some(Target(true, [Name(x)])));
            ValidateWorktreePath(fs, [], input) == Safe
  {
    OneNameResolves(fs, x);
    var path := [Name(x), DotDot, Name(y)];
    assert path[..0] == [] && path[..1] == [Name(x)] && path[..2] == [Name(x), DotDot] && path[..3] == path;
    assert LinkFree(fs, path);
    ComponentsOfDotFree(path);
    assert path[0..] == path;
    RestKeepsLinkFree(fs, path, 0, 0);
    RenderOne(x);
    assert path[1..] == [DotDot, Name(y)];
    assert Render(path) == ("/" + x) + RenderSegs(path[1..]);
    VerdictAgainstRoot(fs, [], Target(true, path), Target(true, [Name(x)]), path, [Name(x)]);
  }

  /** Two empty directories side by side: inode 1 under the name `x`, inode 2 under the name `y`. */
  function SideBySide(x: string, y: string): FS {
    FS((i: Ino) => if i == 0 then Dir(map[x := 1, y := 2], 0) else Dir(map[], 0), 0, 40)
  }

  /** Either way leads outside: the accepted path names a directory that is not in the tree below the root's. */
  lemma AcceptedOutsideTheRoot(x: string, y: string)
    requires x != y
    ensures var fs := SideBySide(x, y);
            var root, around := Target(true, [Name(x)]), Target(true, [Name(x), DotDot, Name(y)]);
            && ValidateWorktreePath(fs, [], SafetyCheckInput(around, None, Some(root))) == Safe
            && Denotes(fs, root.segs, 1) && Denotes(fs, around.segs, 2)
            && forall names :: !Below(fs, 1, names, 2)
    ensures |x| < |y| && y[..|x|] == x ==>
              var fs := SideBySide(x, y);
              var root, sibling := Target(true, [Name(x)]), Target(true, [Name(y)]);
              && ValidateWorktreePath(fs, [], SafetyCheckInput(sibling, None, Some(root))) == Safe
              && Denotes(fs, sibling.segs, 2)
  {
    var fs := SideBySide(x, y);
    WalkSideBySide(x, y);
    DotDotIsAccepted(fs, x, y);
    if |x| < |y| && y[..|x|] == x {
      assert x + y[|x|..] == y;
      SiblingIsAccepted(fs, x, y[|x|..]);
    }
  }

  lemma WalkSideBySide(x: string, y: string)
    requires x != y
    ensures var fs := SideBySide(x, y);
            && Walk(fs, 0, [Name(x)], 0) == Found(1, 0)
            && Walk(fs, 0, [Name(y)], 0) == Found(2, 0)
            && Walk(fs, 0, [Name(x), DotDot, Name(y)], 0) == Found(2, 0)
            && (forall path :: LinkTarget(fs, path).None?)
  {
    var fs := SideBySide(x, y);
    assert [] + [DotDot, Name(y)] == [Name(x), DotDot, Name(y)][1..];
    assert [] + [Name(y)] == [DotDot, Name(y)][1..];
    assert Walk(fs, 0, [Name(y)], 0) == Found(2, 0);
    assert Walk(fs, 1, [DotDot, Name(y)], 0) == Found(2, 0);
  }

  /** The directory that the checks are to keep apart is accepted itself when it is written with "..". */
  lemma RepositoryIsAccepted(fs: FS, x: string, y: string)
    requires fs.node(fs.root).Dir? && x in fs.node(fs.root).entries
    requires var a := fs.node(fs.root).entries[x];
             && fs.node(a).Dir? && y in fs.node(a).entries
             && var b := fs.node(a).entries[y]; fs.node(b).Dir? && fs.node(b).up == a
    ensures var a := fs.node(fs.root).entries[x];
            var path, dir := Target(true, [Name(x), Name(y), DotDot]), Target(true, [Name(x)]);
            && ValidateWorktreePath(fs, [], SafetyCheckInput(path, Some(dir), None)) == Safe
            && ValidateWorktreePath(fs, [], SafetyCheckInput(path, None, Some(dir))) == Safe
            && Denotes(fs, path.segs, a) && Denotes(fs, dir.segs, a)
  {
    var path, a := [Name(x), Name(y), DotDot], fs.node(fs.root).entries[x];
    WalkDownAndUp(fs, x, y);
    hide Walk;
    assert path[..0] == [] && path[..1] == [Name(x)] && path[..2] == [Name(x), Name(y)] && path[..3] == path;
    assert LinkFree(fs, path);
    ComponentsOfDotFree(path);
    assert path[0..] == path;
    RestKeepsLinkFree(fs, path, 0, 0);
    OneNameResolves(fs, x);
    hide Resolve, LinkTarget;
    RenderOne(x);
    assert path[1..] == [Name(y), DotDot];
    assert Render(path) == ("/" + x) + RenderSegs(path[1..]);
    assert RenderSegs(path[1..]) != "";
    VerdictAgainstRoot(fs, [], Target(true, path), Target(true, [Name(x)]), path, [Name(x)]);
    assert Render(path) != Render([Name(x)]);
  }

  lemma WalkDownAndUp(fs: FS, x: string, y: string)
    requires fs.node(fs.root).Dir? && x in fs.node(fs.root).entries
    requires var a := fs.node(fs.root).entries[x];
             && fs.node(a).Dir? && y in fs.node(a).entries
             && var b := fs.node(a).entries[y]; fs.node(b).Dir? && fs.node(b).up == a
    ensures var a := fs.node(fs.root).entries[x];
            var path := [Name(x), Name(y), DotDot];
            && Walk(fs, fs.root, [Name(x)], 0) == Found(a, 0) && Walk(fs, fs.root, path, 0) == Found(a, 0)
            && LinkTarget(fs, []).None? && LinkTarget(fs, [Name(x)]).None?
            && LinkTarget(fs, [Name(x), Name(y)]).None? && LinkTarget(fs, path).None?
  {
    var a := fs.node(fs.root).entries[x];
    var b := fs.node(a).entries[y];
    assert [] + [DotDot] == [Name(y), DotDot][1..];
    assert [] + [Name(y), DotDot] == [Name(x), Name(y), DotDot][1..];
    assert Walk(fs, b, [DotDot], 0) == Found(a, 0);
    assert Walk(fs, a, [Name(y), DotDot], 0) == Found(a, 0);
    assert [Name(x)][..0] == [] && [Name(x), Name(y)][..1] == [Name(x)];
    assert Walk(fs, fs.root, [Name(x)], fs.linkLimit) == Found(a, fs.linkLimit);
  }

  lemma RenderOne(x: string)
    ensures Render([Name(x)]) == "/" + x
  {
    var path := [Name(x)];
    assert path[1..] == [];
    assert Render(path) == "/" + x + RenderSegs(path[1..]) == "/" + x;
  }

  lemma OneNameResolves(fs: FS, x: string)
    requires LinkTarget(fs, [Name(x)]).None?
    ensures Resolve(fs, [Name(x)], 0) == Ok([Name(x)])
  {
    var path := [Name(x)];
    assert path[..0] == [] && path[..1] == path && path[0..] == path;
    assert LinkFree(fs, path);
    ComponentsOfDotFree(path);
    RestKeepsLinkFree(fs, path, 0, 0);
  }
}
