/**
  A file system as the kernel sees it: inodes, directory entries and symbolic
  links, together with the pathname walk that the resolver is compared with.

  A path is the list of its `/`-separated segments.  `Dot` stands for "." and for
  the empty segment that a doubled or trailing slash leaves behind; both keep the
  walk where it is but demand a directory.  Only absolute paths are walked from
  the root; a relative link target is walked from the directory of its link.
*/
module FileSystem {
  import opened Wrappers

  type Ino = nat

  datatype Seg = Dot | DotDot | Name(text: string)

  type Path = seq<Seg>

  datatype Target = Target(absolute: bool, segs: Path)

  datatype Node = Dir(entries: map<string, Ino>, up: Ino) | File | Link(target: Target)

  /** `linkLimit` is how many links the kernel follows before it answers ELOOP. */
  datatype FS = FS(node: Ino -> Node, root: Ino, linkLimit: nat)

  /** `left` is what remains of the link budget. */
  datatype Outcome = Found(ino: Ino, left: nat) | Missing | TooManyLinks

  /** One segment of the walk: either on to an inode, with a link's target still to be walked, or done. */
  datatype Move = Go(at: Ino, pushed: Path, budget: nat) | Halt(outcome: Outcome)

  function Enter(fs: FS, at: Ino, seg: Seg, budget: nat): (m: Move)
    ensures m.Go? ==> m.budget < budget || (m.budget == budget && m.pushed == [])
    ensures m.Halt? ==> !m.outcome.Found?
  {
    match fs.node(at)
    case File => Halt(Missing)
    case Link(_) => Halt(Missing)
    case Dir(entries, up) =>
      match seg
      case Dot => Go(at, [], budget)
      case DotDot => Go(up, [], budget)
      case Name(x) =>
        if x !in entries then Halt(Missing)
        else if !fs.node(entries[x]).Link? then Go(entries[x], [], budget)
        else if budget == 0 then Halt(TooManyLinks)
        else
          var t := fs.node(entries[x]).target;
          Go(if t.absolute then fs.root else at, t.segs, budget - 1)
  }

  /** Walks `segs` from inode `at`, following at most `budget` links. */
  function Walk(fs: FS, at: Ino, segs: Path, budget: nat): Outcome
    decreases budget, |segs|
  {
    if segs == [] then Found(at, budget)
    else
      match Enter(fs, at, segs[0], budget)
      case Halt(o) => o
      case Go(next, pushed, left) => Walk(fs, next, pushed + segs[1..], left)
  }

  /** The path names this inode, however many links have to be followed. */
  ghost predicate Denotes(fs: FS, path: Path, n: Ino) {
    exists budget: nat, left: nat :: Walk(fs, fs.root, path, budget) == Found(n, left)
  }

  /** The walk never ends: every budget runs out. */
  ghost predicate Cyclic(fs: FS, path: Path) {
    forall budget: nat :: Walk(fs, fs.root, path, budget) == TooManyLinks
  }

  /** lstat and readlink: the target, if the last segment of the path is itself a link. */
  function LinkTarget(fs: FS, path: Path): (target: Option<Target>)
    ensures target.Some? ==> path != [] && path[|path| - 1].Name?
  {
    if path == [] || !path[|path| - 1].Name? then None
    else
      match Walk(fs, fs.root, path[..|path| - 1], fs.linkLimit)
      case Missing => None
      case TooManyLinks => None
      case Found(m, _) =>
        match fs.node(m)
        case File => None
        case Link(_) => None
        case Dir(entries, _) =>
          var x := path[|path| - 1].text;
          if x !in entries then None
          else
            match fs.node(entries[x])
            case Link(t) => Some(t)
            case Dir(_, _) => None
            case File => None
  }

  /** Walking a concatenation is walking its parts one after the other. */
  lemma {:induction false} WalkConcat(fs: FS, at: Ino, a: Path, b: Path, budget: nat)
    ensures Walk(fs, at, a + b, budget) ==
            match Walk(fs, at, a, budget)
            case Found(m, left) => Walk(fs, m, b, left)
            case Missing => Missing
            case TooManyLinks => TooManyLinks
    decreases budget, |a|
  {
    if a == [] {
      assert a + b == b;
    } else {
      assert (a + b)[1..] == a[1..] + b;
      var m := Enter(fs, at, a[0], budget);
      if m.Go? {
        assert m.pushed + (a[1..] + b) == (m.pushed + a[1..]) + b;
        WalkConcat(fs, m.at, m.pushed + a[1..], b, m.budget);
      }
    }
  }

  /**
    A walk uses a fixed number of links.  With a budget of at least that number it
    reaches the same inode, with less it runs out.
  */
  lemma {:induction false} WalkUses(fs: FS, at: Ino, segs: Path, budget: nat, other: nat)
    ensures match Walk(fs, at, segs, budget)
            case Found(n, left) =>
              && left <= budget
              && (other >= budget - left ==> Walk(fs, at, segs, other) == Found(n, other - (budget - left)))
              && (other < budget - left ==> Walk(fs, at, segs, other) == TooManyLinks)
            case Missing => other >= budget ==> Walk(fs, at, segs, other) == Missing
            case TooManyLinks => other <= budget ==> Walk(fs, at, segs, other) == TooManyLinks
    decreases budget, |segs|
  {
    if segs != [] {
      var m, m' := Enter(fs, at, segs[0], budget), Enter(fs, at, segs[0], other);
      if m.Go? {
        WalkUses(fs, m.at, m.pushed + segs[1..], m.budget, if m'.Go? then m'.budget else 0);
      }
    }
  }
}
