/**
  Where a path leads in the tree of directories.  In an ordinary file system every
  directory but the root has one parent and one name there, so the lexical normal form
  of a path without links decides whether one directory lies in the tree of another.
*/
module DirectoryTree {
  import opened FileSystem
  import opened SymlinkResolver

  /** ".." leads to the directory that holds the entry, and no directory has two names. */
  ghost predicate DirTree(fs: FS) {
    && fs.node(fs.root).Dir? && fs.node(fs.root).up == fs.root
    && forall i: Ino, x :: fs.node(i).Dir? && x in fs.node(i).entries && fs.node(fs.node(i).entries[x]).Dir? ==>
         && fs.node(i).entries[x] != fs.root
         && fs.node(fs.node(i).entries[x]).up == i
         && forall y :: y in fs.node(i).entries && fs.node(i).entries[y] == fs.node(i).entries[x] ==> y == x
  }

  ghost predicate NamesOnly(path: Path) {
    forall k :: 0 <= k < |path| ==> path[k].Name?
  }

  /** The path with "." dropped and every ".." resolved against the name before it, if there is one. */
  function Normal(path: Path): (normal: Path)
    ensures NamesOnly(normal)
    ensures NamesOnly(path) ==> normal == path
    decreases |path|
  {
    if path == [] then []
    else
      var n := |path| - 1;
      var before := Normal(path[..n]);
      match path[n]
      case Dot => before
      case DotDot => if before == [] then [] else before[..|before| - 1]
      case Name(_) => before + [path[n]]
  }

  /** `n` is `m` or lies in the directory tree below it; no "..", no link is taken. */
  ghost predicate Below(fs: FS, m: Ino, names: seq<string>, n: Ino)
    decreases |names|
  {
    if names == [] then m == n
    else
      && fs.node(m).Dir? && names[0] in fs.node(m).entries
      && Below(fs, fs.node(m).entries[names[0]], names[1..], n)
  }

  function Texts(path: Path): (names: seq<string>)
    requires NamesOnly(path)
    ensures |names| == |path|
  {
    if path == [] then [] else [path[0].text] + Texts(path[1..])
  }

  function NamePath(names: seq<string>): (path: Path)
    ensures |path| == |names| && NamesOnly(path)
  {
    if names == [] then [] else [Name(names[0])] + NamePath(names[1..])
  }

  lemma {:induction false} NamesDescend(fs: FS, m: Ino, tail: Path, n: Ino, left: nat)
    requires NamesOnly(tail) && Walk(fs, m, tail, 0) == Found(n, left)
    ensures Below(fs, m, Texts(tail), n)
    decreases |tail|
  {
    if tail != [] {
      var entries := fs.node(m).entries;
      assert [] + tail[1..] == tail[1..];
      NamesDescend(fs, entries[tail[0].text], tail[1..], n, left);
    }
  }

  /** Descending to a directory is walking the names. */
  lemma {:induction false} BelowIsWalk(fs: FS, m: Ino, names: seq<string>, n: Ino)
    requires Below(fs, m, names, n) && fs.node(n).Dir?
    ensures Walk(fs, m, NamePath(names), 0) == Found(n, 0)
    decreases |names|
  {
    if names != [] {
      var path := NamePath(names);
      assert [] + path[1..] == NamePath(names[1..]);
      BelowIsWalk(fs, fs.node(m).entries[names[0]], names[1..], n);
    }
  }

  /** The last step of a walk along a name. */
  lemma NameStep(fs: FS, init: Path, x: string, n: Ino)
    requires DirTree(fs) && Walk(fs, fs.root, init + [Name(x)], 0) == Found(n, 0)
    ensures var w := Walk(fs, fs.root, init, 0);
            && w.Found? && w.left == 0 && fs.node(w.ino).Dir?
            && x in fs.node(w.ino).entries && fs.node(w.ino).entries[x] == n
            && (fs.node(n).Dir? ==> n != fs.root && fs.node(n).up == w.ino)
  {
    WalkConcat(fs, fs.root, init, [Name(x)], 0);
    WalkUses(fs, fs.root, init, 0, 0);
  }

  /** A walk without "." and without links and the walk of the normal form reach the same inode. */
  lemma {:induction false} NormalWalk(fs: FS, path: Path, n: Ino)
    requires DirTree(fs) && NoDots(path) && Walk(fs, fs.root, path, 0) == Found(n, 0)
    ensures Walk(fs, fs.root, Normal(path), 0) == Found(n, 0)
    decreases |path|
  {
    hide DirTree;
    if path != [] {
      var k := |path| - 1;
      var init, last := path[..k], path[k];
      assert path == init + [last];
      WalkConcat(fs, fs.root, init, [last], 0);
      WalkUses(fs, fs.root, init, 0, 0);
      var m := Walk(fs, fs.root, init, 0).ino;
      NormalWalk(fs, init, m);
      WalkConcat(fs, fs.root, Normal(init), [last], 0);
      if last == DotDot {
        NormalUp(fs, Normal(init), m);
      }
    }
  }

  /** ".." from the directory at the end of a path of names leads to the end of the path without the last name. */
  lemma NormalUp(fs: FS, path: Path, m: Ino)
    requires DirTree(fs) && NamesOnly(path) && Walk(fs, fs.root, path, 0) == Found(m, 0) && fs.node(m).Dir?
    ensures Walk(fs, fs.root, if path == [] then [] else path[..|path| - 1], 0) == Found(fs.node(m).up, 0)
  {
    if path != [] {
      var k := |path| - 1;
      assert path == path[..k] + [Name(path[k].text)];
      NameStep(fs, path[..k], path[k].text, m);
    }
  }

  /** A directory has one path of names. */
  lemma {:induction false} OnePathPerDir(fs: FS, a: Path, b: Path, n: Ino)
    requires DirTree(fs) && NamesOnly(a) && NamesOnly(b) && fs.node(n).Dir?
    requires Walk(fs, fs.root, a, 0) == Found(n, 0) && Walk(fs, fs.root, b, 0) == Found(n, 0)
    ensures a == b
    decreases |a|
  {
    if a != [] {
      var k := |a| - 1;
      assert a == a[..k] + [Name(a[k].text)];
      NameStep(fs, a[..k], a[k].text, n);
    }
    if b != [] {
      var k := |b| - 1;
      assert b == b[..k] + [Name(b[k].text)];
      NameStep(fs, b[..k], b[k].text, n);
    }
    if a != [] && b != [] {
      OnePathPerDir(fs, a[..|a| - 1], b[..|b| - 1], fs.node(n).up);
    }
  }

  /** One directory lies in the tree of another exactly if its normal path goes on from the other's. */
  lemma InTreeIff(fs: FS, r: Path, m: Ino, p: Path, n: Ino)
    requires DirTree(fs) && NoDots(r) && NoDots(p) && fs.node(n).Dir?
    requires Walk(fs, fs.root, r, 0) == Found(m, 0) && Walk(fs, fs.root, p, 0) == Found(n, 0)
    ensures (exists names :: Below(fs, m, names, n)) <==> Normal(r) <= Normal(p)
  {
    hide DirTree, Walk, Normal, Below;
    var a, b := Normal(r), Normal(p);
    NormalWalk(fs, r, m);
    NormalWalk(fs, p, n);
    if names :| Below(fs, m, names, n) {
      BelowIsWalk(fs, m, names, n);
      WalkConcat(fs, fs.root, a, NamePath(names), 0);
      OnePathPerDir(fs, a + NamePath(names), b, n);
    }
    if a <= b {
      var tail := b[|a|..];
      assert b == a + tail;
      WalkConcat(fs, fs.root, a, tail, 0);
      NamesDescend(fs, m, tail, n, 0);
      assert Below(fs, m, Texts(tail), n);
    }
  }

  /** Two paths name one directory exactly if their normal forms are equal. */
  lemma SameDirIff(fs: FS, r: Path, m: Ino, p: Path, n: Ino)
    requires DirTree(fs) && NoDots(r) && NoDots(p) && fs.node(n).Dir?
    requires Walk(fs, fs.root, r, 0) == Found(m, 0) && Walk(fs, fs.root, p, 0) == Found(n, 0)
    ensures m == n <==> Normal(r) == Normal(p)
  {
    hide DirTree, Walk, Normal;
    NormalWalk(fs, r, m);
    NormalWalk(fs, p, n);
    if m == n {
      OnePathPerDir(fs, Normal(r), Normal(p), n);
    }
  }
}
