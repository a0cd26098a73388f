/**
  Trees of JSON values and the two editors that work on them in place: dotted-path
  set and unset (looper-cli) and the recursive merge (looper-e2e).
*/
module ConfigTree {
  import opened Wrappers

  datatype Json =
    | Null
    | Bool(b: bool)
    | Number(n: int)
    | Str(s: string)
    | Array(items: seq<Json>)
    | Object(fields: map<string, Json>)

  const EMPTY: Json := Object(map[])

  type Path = seq<string>

  /** `NotFound`: a key is missing on the way.  `NotATable`: something on the way is no object. */
  datatype PathError = NotFound | NotATable(at: Json)

  // ----- Dotted keys -----

  /** `key.split('.')`; there is always at least one part. */
  function Split(key: string): (parts: Path)
    ensures parts != []
  {
    if key == "" then [""]
    else
      var rest := Split(key[1..]);
      if key[0] == '.' then [""] + rest
      else [[key[0]] + rest[0]] + rest[1..]
  }

  function Dotted(parts: Path): string
    requires parts != []
  {
    if |parts| == 1 then parts[0] else parts[0] + "." + Dotted(parts[1..])
  }

  lemma {:induction false} SplitOfDotted(parts: Path)
    requires parts != [] && forall p :: p in parts ==> '.' !in p
    ensures Split(Dotted(parts)) == parts
    decreases |parts|
  {
    if |parts| == 1 {
      SplitWord(parts[0]);
    } else {
      SplitOfDotted(parts[1..]);
      SplitBehindWord(parts[0], Dotted(parts[1..]));
      assert parts == [parts[0]] + parts[1..];
    }
  }

  lemma {:induction false} SplitWord(word: string)
    requires '.' !in word
    ensures Split(word) == [word]
  {
    if word != "" {
      SplitWord(word[1..]);
      assert word[0] in word && [word[0]] + word[1..] == word;
    }
  }

  lemma {:induction false} SplitBehindWord(word: string, rest: string)
    requires '.' !in word
    ensures Split(word + "." + rest) == [word] + Split(rest)
  {
    var key := word + "." + rest;
    if word == "" {
      assert key[1..] == rest;
      assert key[0] == '.';
    } else {
      assert key[1..] == word[1..] + "." + rest;
      assert key[0] == word[0] && word[0] in word;
      SplitBehindWord(word[1..], rest);
      assert Split(key[1..])[0] == word[1..] && Split(key[1..])[1..] == Split(rest);
      assert [word[0]] + word[1..] == word;
    }
  }

  // ----- Reading -----

  /** The traversal of `get`. */
  function Get(root: Json, path: Path): Result<Json, PathError> {
    if path == [] then Ok(root)
    else
      match root
      case Object(fields) => if path[0] in fields then Get(fields[path[0]], path[1..]) else Err(NotFound)
      case _ => Err(NotATable(root))
  }

  // ----- Set and unset, as functions on the tree -----

  function SetAt(root: Json, path: Path, val: Json): Result<Json, PathError>
    requires path != []
    decreases |path|
  {
    match root
    case Object(fields) =>
      if |path| == 1 then Ok(Object(fields[path[0] := val]))
      else
        var child := if path[0] in fields then fields[path[0]] else EMPTY;
        (match SetAt(child, path[1..], val)
         case Ok(c) => Ok(Object(fields[path[0] := c]))
         case Err(e) => Err(e))
    case _ => Err(NotATable(root))
  }

  function UnsetAt(root: Json, path: Path): Result<Json, PathError>
    requires path != []
    decreases |path|
  {
    match root
    case Object(fields) =>
      if |path| == 1 then Ok(Object(fields - {path[0]}))
      else if path[0] !in fields then Err(NotFound)
      else
        (match UnsetAt(fields[path[0]], path[1..])
         case Ok(c) => Ok(Object(fields[path[0] := c]))
         case Err(e) => Err(e))
    case _ => Err(NotATable(root))
  }

  // ----- The editors in place -----

  /** The tree with the subtree at `path` exchanged: what writing through a `&mut` cursor does. */
  function Graft(root: Json, path: Path, sub: Json): Json
    decreases |path|
  {
    if path == [] then sub
    else
      match root
      case Object(fields) =>
        if path[0] in fields then Object(fields[path[0] := Graft(fields[path[0]], path[1..], sub)]) else root
      case _ => root
  }

  function Regraft(root: Json, path: Path, sub: Result<Json, PathError>): Result<Json, PathError> {
    match sub
    case Ok(s) => Ok(Graft(root, path, s))
    case Err(e) => Err(e)
  }

  class Document {
    var root: Json

    constructor (root: Json)
      ensures this.root == root
    {
      this.root := root;
    }

    /**
      `set_nested`.  Missing tables are written on the way down, before it is known
      that the end can be reached; a failure nevertheless leaves the tree as it was.
    */
    method SetNested(path: Path, val: Json) returns (r: Result<(), PathError>)
      requires path != []
      modifies this
      ensures match SetAt(old(root), path, val)
              case Ok(tree) => r == Ok(()) && root == tree
              case Err(e) => r == Err(e) && root == old(root)
    {
      var current := root;
      var i := 0;
      while i < |path| - 1
        invariant 0 <= i < |path| && Get(root, path[..i]) == Ok(current)
        invariant SetAt(root, path, val) == SetAt(old(root), path, val)
        invariant root == old(root) || current == EMPTY
      {
        SetAtCursor(root, path, i, val);
        if !current.Object? {
          return Err(NotATable(current));
        }
        GetSnoc(root, path, i);
        if path[i] !in current.fields {
          ghost var was := root;
          var created := Object(current.fields[path[i] := EMPTY]);
          root := Graft(root, path[..i], created);
          GetGraft(was, path[..i], created);
          GetSnoc(root, path, i);
          SetAtCursor(root, path, i, val);
          CreatingTable(was, path, i, val);
          current := EMPTY;
        } else {
          current := current.fields[path[i]];
        }
        i := i + 1;
      }
      SetAtCursor(root, path, i, val);
      assert path[i..] == [path[i]];
      if !current.Object? {
        return Err(NotATable(current));
      }
      root := Graft(root, path[..i], Object(current.fields[path[i] := val]));
      return Ok(());
    }

    /** `remove_nested`: nothing is written before the last key. */
    method RemoveNested(path: Path) returns (r: Result<(), PathError>)
      requires path != []
      modifies this
      ensures match UnsetAt(old(root), path)
              case Ok(tree) => r == Ok(()) && root == tree
              case Err(e) => r == Err(e) && root == old(root)
    {
      var current := root;
      for i := 0 to |path| - 1
        invariant root == old(root) && Get(root, path[..i]) == Ok(current)
      {
        UnsetAtCursor(root, path, i);
        if !current.Object? {
          return Err(NotATable(current));
        }
        if path[i] !in current.fields {
          return Err(NotFound);
        }
        GetSnoc(root, path, i);
        current := current.fields[path[i]];
      }
      var i := |path| - 1;
      UnsetAtCursor(root, path, i);
      assert path[i..] == [path[i]];
      if !current.Object? {
        return Err(NotATable(current));
      }
      root := Graft(root, path[..i], Object(current.fields - {path[i]}));
      return Ok(());
    }
  }

  // ----- Cursors -----

  lemma {:induction false} GetConcat(root: Json, p: Path, q: Path)
    ensures Get(root, p + q) ==
            match Get(root, p)
            case Ok(sub) => Get(sub, q)
            case Err(e) => Err(e)
    decreases |p|
  {
    if p == [] {
      assert p + q == q;
    } else {
      assert (p + q)[1..] == p[1..] + q;
      if root.Object? && p[0] in root.fields {
        GetConcat(root.fields[p[0]], p[1..], q);
      }
    }
  }

  lemma GetSnoc(root: Json, path: Path, i: nat)
    requires i < |path|
    ensures Get(root, path[..i + 1]) ==
            match Get(root, path[..i])
            case Ok(sub) => Get(sub, [path[i]])
            case Err(e) => Err(e)
    ensures forall sub: Json ::
              sub.Object? && path[i] in sub.fields ==> Get(sub, [path[i]]) == Ok(sub.fields[path[i]])
  {
    assert path[..i + 1] == path[..i] + [path[i]];
    GetConcat(root, path[..i], [path[i]]);
    forall sub: Json | sub.Object? && path[i] in sub.fields
      ensures Get(sub, [path[i]]) == Ok(sub.fields[path[i]])
    {
      assert Get(sub.fields[path[i]], [path[i]][1..]) == Ok(sub.fields[path[i]]);
    }
  }

  lemma {:induction false} GetGraft(root: Json, path: Path, sub: Json)
    requires Get(root, path).Ok?
    ensures Get(Graft(root, path, sub), path) == Ok(sub)
    decreases |path|
  {
    if path != [] {
      GetGraft(root.fields[path[0]], path[1..], sub);
    }
  }

  lemma {:induction false} GraftTwice(root: Json, path: Path, sub: Json, sub': Json)
    requires Get(root, path).Ok?
    ensures Graft(Graft(root, path, sub), path, sub') == Graft(root, path, sub')
    decreases |path|
  {
    if path != [] {
      GraftTwice(root.fields[path[0]], path[1..], sub, sub');
      var k, f := path[0], root.fields;
      var a, b := Graft(f[k], path[1..], sub), Graft(f[k], path[1..], sub');
      assert f[k := a][k := b] == f[k := b];
    }
  }

  /** Setting below a cursor and writing the result back is setting from the root. */
  lemma {:induction false} SetAtCursor(root: Json, path: Path, i: nat, val: Json)
    requires i < |path| && Get(root, path[..i]).Ok?
    ensures SetAt(root, path, val) == Regraft(root, path[..i], SetAt(Get(root, path[..i]).value, path[i..], val))
    decreases i
  {
    if i == 0 {
      assert path[0..] == path;
    } else {
      assert path[..i][0] == path[0] && path[..i][1..] == path[1..][..i - 1];
      assert path[1..][i - 1..] == path[i..];
      SetAtCursor(root.fields[path[0]], path[1..], i - 1, val);
    }
  }

  lemma {:induction false} UnsetAtCursor(root: Json, path: Path, i: nat)
    requires i < |path| && Get(root, path[..i]).Ok?
    ensures UnsetAt(root, path) == Regraft(root, path[..i], UnsetAt(Get(root, path[..i]).value, path[i..]))
    decreases i
  {
    if i == 0 {
      assert path[0..] == path;
    } else {
      assert path[..i][0] == path[0] && path[..i][1..] == path[1..][..i - 1];
      assert path[1..][i - 1..] == path[i..];
      UnsetAtCursor(root.fields[path[0]], path[1..], i - 1);
    }
  }

  /** An empty table written for a missing intermediate key does not change the outcome of the set. */
  lemma CreatingTable(root: Json, path: Path, i: nat, val: Json)
    requires i + 1 < |path| && Get(root, path[..i]).Ok? && Get(root, path[..i]).value.Object?
    requires path[i] !in Get(root, path[..i]).value.fields
    ensures var fields := Get(root, path[..i]).value.fields;
            SetAt(Graft(root, path[..i], Object(fields[path[i] := EMPTY])), path, val) == SetAt(root, path, val)
  {
    var here := Get(root, path[..i]).value;
    var created := Object(here.fields[path[i] := EMPTY]);
    var root' := Graft(root, path[..i], created);
    GetGraft(root, path[..i], created);
    SetAtCursor(root, path, i, val);
    SetAtCursor(root', path, i, val);
    var tail := path[i..];
    assert tail[0] == path[i] && |tail| > 1;
    var inner := SetAt(EMPTY, tail[1..], val);
    if inner.Ok? {
      assert here.fields[tail[0] := EMPTY][tail[0] := inner.value] == here.fields[tail[0] := inner.value];
      GraftTwice(root, path[..i], created, Object(here.fields[tail[0] := inner.value]));
    }
  }

  // ----- Laws of set and unset -----

  /** The paths part ways at some key: neither is a prefix of the other. */
  predicate Diverge(p: Path, q: Path) {
    !(p <= q) && !(q <= p)
  }

  lemma DivergeBehind(p: Path, q: Path)
    requires Diverge(p, q) && p[0] == q[0]
    ensures Diverge(p[1..], q[1..])
  {
    assert p == [p[0]] + p[1..] && q == [q[0]] + q[1..];
  }

  /** After a set, what is found at or below the key is the value itself. */
  lemma {:induction false} SetThenGet(root: Json, p: Path, val: Json, below: Path)
    requires p != [] && SetAt(root, p, val).Ok?
    ensures Get(SetAt(root, p, val).value, p + below) == Get(val, below)
    decreases |p|
  {
    assert (p + below)[1..] == p[1..] + below;
    if |p| == 1 {
      assert p[1..] + below == below;
    } else {
      SetThenGet(if p[0] in root.fields then root.fields[p[0]] else EMPTY, p[1..], val, below);
    }
  }

  /** A set changes no lookup, successful or not, on any path that parts from the key. */
  lemma {:induction false} SetFrame(root: Json, p: Path, val: Json, q: Path)
    requires p != [] && SetAt(root, p, val).Ok? && Diverge(p, q)
    ensures Get(SetAt(root, p, val).value, q) == Get(root, q)
    decreases |p|
  {
    if p[0] == q[0] {
      DivergeBehind(p, q);
      SetFrame(if p[0] in root.fields then root.fields[p[0]] else EMPTY, p[1..], val, q[1..]);
      if p[0] !in root.fields {
        assert q[1..] != [];
      }
    }
  }

  /** A set succeeds exactly when every value found strictly above the key is a table. */
  lemma {:induction false} SetSucceedsIff(root: Json, p: Path, val: Json)
    requires p != []
    ensures SetAt(root, p, val).Ok? <==>
            forall i :: 0 <= i < |p| ==> Get(root, p[..i]).Ok? ==> Get(root, p[..i]).value.Object?
    decreases |p|
  {
    assert p[..0] == [];
    if root.Object? {
      forall i | 1 <= i < |p|
        ensures Get(root, p[..i]) == if p[0] in root.fields then Get(root.fields[p[0]], p[1..][..i - 1]) else Err(NotFound)
      {
        assert p[..i][1..] == p[1..][..i - 1];
      }
      if |p| > 1 {
        var child := if p[0] in root.fields then root.fields[p[0]] else EMPTY;
        SetSucceedsIff(child, p[1..], val);
        if p[0] !in root.fields {
          forall i | 0 <= i < |p[1..]| && Get(EMPTY, p[1..][..i]).Ok?
            ensures Get(EMPTY, p[1..][..i]).value.Object?
          {
          }
        } else if forall i :: 0 <= i < |p| ==> Get(root, p[..i]).Ok? ==> Get(root, p[..i]).value.Object? {
          forall i | 0 <= i < |p[1..]| && Get(child, p[1..][..i]).Ok?
            ensures Get(child, p[1..][..i]).value.Object?
          {
            assert Get(root, p[..i + 1]) == Get(child, p[1..][..i]);
          }
        }
      }
    } else {
      assert Get(root, p[..0]) == Ok(root);
    }
  }

  function Then(first: Result<Json, PathError>, path: Path, val: Json): Result<Json, PathError>
    requires path != []
  {
    match first
    case Ok(t) => SetAt(t, path, val)
    case Err(e) => Err(e)
  }

  /** What a set puts under the first key of its path. */
  function Child(f: map<string, Json>, p: Path, v: Json): Result<Json, PathError>
    requires p != []
  {
    if |p| == 1 then Ok(v) else SetAt(if p[0] in f then f[p[0]] else EMPTY, p[1..], v)
  }

  /** A set that fails names the first value above the key that is no table. */
  lemma {:induction false} SetFailsAt(root: Json, p: Path, val: Json) returns (i: nat)
    requires p != [] && SetAt(root, p, val).Err?
    ensures i < |p| && Get(root, p[..i]).Ok? && !Get(root, p[..i]).value.Object?
    ensures SetAt(root, p, val).error == NotATable(Get(root, p[..i]).value)
    decreases |p|
  {
    if root.Object? {
      var child := if p[0] in root.fields then root.fields[p[0]] else EMPTY;
      var j := SetFailsAt(child, p[1..], val);
      i := j + 1;
      assert p[..i][1..] == p[1..][..j];
    } else {
      i := 0;
      assert p[..0] == [];
    }
  }

  lemma SetThroughChild(f: map<string, Json>, p: Path, v: Json)
    requires p != []
    ensures SetAt(Object(f), p, v) ==
            match Child(f, p, v)
            case Ok(c) => Ok(Object(f[p[0] := c]))
            case Err(e) => Err(e)
  {
  }

  ghost predicate SameOutcome(a: Result<Json, PathError>, b: Result<Json, PathError>) {
    a == b || (a.Err? && b.Err?)
  }

  /** Sets on keys that part ways commute: both orders fail, or both give the same tree. */
  lemma {:induction false} SetsCommute(root: Json, p: Path, v: Json, q: Path, w: Json)
    requires Diverge(p, q)
    ensures SameOutcome(Then(SetAt(root, p, v), q, w), Then(SetAt(root, q, w), p, v))
    decreases |p|
  {
    if root.Object? {
      var f := root.fields;
      if p[0] == q[0] {
        DivergeBehind(p, q);
        SetsCommute(if p[0] in f then f[p[0]] else EMPTY, p[1..], v, q[1..], w);
        CommuteUnderOneKey(f, p, v, q, w);
      } else {
        CommuteUnderTwoKeys(f, p, v, q, w);
      }
    }
  }

  lemma CommuteUnderOneKey(f: map<string, Json>, p: Path, v: Json, q: Path, w: Json)
    requires |p| > 1 && |q| > 1 && p[0] == q[0]
    requires var c := if p[0] in f then f[p[0]] else EMPTY;
             SameOutcome(Then(SetAt(c, p[1..], v), q[1..], w), Then(SetAt(c, q[1..], w), p[1..], v))
    ensures SameOutcome(Then(SetAt(Object(f), p, v), q, w), Then(SetAt(Object(f), q, w), p, v))
  {
    hide SetAt;
    var k := p[0];
    var c := if k in f then f[k] else EMPTY;
    var a, b := SetAt(c, p[1..], v), SetAt(c, q[1..], w);
    SetThroughChild(f, p, v);
    SetThroughChild(f, q, w);
    if a.Ok? {
      SetThroughChild(f[k := a.value], q, w);
      OverwriteKey(f, k, a.value, SetAt(a.value, q[1..], w));
    }
    if b.Ok? {
      SetThroughChild(f[k := b.value], p, v);
      OverwriteKey(f, k, b.value, SetAt(b.value, p[1..], v));
    }
  }

  lemma CommuteUnderTwoKeys(f: map<string, Json>, p: Path, v: Json, q: Path, w: Json)
    requires p != [] && q != [] && p[0] != q[0]
    ensures SameOutcome(Then(SetAt(Object(f), p, v), q, w), Then(SetAt(Object(f), q, w), p, v))
  {
    hide SetAt;
    var k, l := p[0], q[0];
    var a, b := Child(f, p, v), Child(f, q, w);
    SetThroughChild(f, p, v);
    SetThroughChild(f, q, w);
    if a.Ok? {
      SetThroughChild(f[k := a.value], q, w);
      assert Child(f[k := a.value], q, w) == b;
    }
    if b.Ok? {
      SetThroughChild(f[l := b.value], p, v);
      assert Child(f[l := b.value], p, v) == a;
    }
    if a.Ok? && b.Ok? {
      assert f[k := a.value][l := b.value] == f[l := b.value][k := a.value];
    }
  }

  lemma OverwriteKey(f: map<string, Json>, k: string, a: Json, r: Result<Json, PathError>)
    ensures r.Ok? ==> f[k := a][k := r.value] == f[k := r.value]
  {
  }

  /** After an unset nothing is found at the key or below it. */
  lemma {:induction false} UnsetThenGet(root: Json, p: Path, below: Path)
    requires p != [] && UnsetAt(root, p).Ok?
    ensures Get(UnsetAt(root, p).value, p + below) == Err(NotFound)
    decreases |p|
  {
    assert (p + below)[1..] == p[1..] + below;
    if |p| > 1 {
      UnsetThenGet(root.fields[p[0]], p[1..], below);
    }
  }

  /** An unset changes no lookup on any path that parts from the key. */
  lemma {:induction false} UnsetFrame(root: Json, p: Path, q: Path)
    requires p != [] && UnsetAt(root, p).Ok? && Diverge(p, q)
    ensures Get(UnsetAt(root, p).value, q) == Get(root, q)
    decreases |p|
  {
    if p[0] == q[0] {
      DivergeBehind(p, q);
      UnsetFrame(root.fields[p[0]], p[1..], q[1..]);
    }
  }

  /** An unset succeeds exactly when the parent is there and is a table; the key itself may be missing. */
  lemma {:induction false} UnsetSucceedsIff(root: Json, p: Path)
    requires p != []
    ensures UnsetAt(root, p).Ok? <==>
            var parent := Get(root, p[..|p| - 1]); parent.Ok? && parent.value.Object?
    ensures UnsetAt(root, p).Err? ==>
              var parent := Get(root, p[..|p| - 1]);
              UnsetAt(root, p).error == if parent.Err? then parent.error else NotATable(parent.value)
    decreases |p|
  {
    if |p| > 1 {
      assert p[..|p| - 1][1..] == p[1..][..|p[1..]| - 1];
      if root.Object? && p[0] in root.fields {
        UnsetSucceedsIff(root.fields[p[0]], p[1..]);
      }
    }
  }

  /** Unset undoes set: the tree is what unsetting the original would have given. */
  lemma {:induction false} UnsetUndoesSet(root: Json, p: Path, val: Json)
    requires p != [] && UnsetAt(root, p).Ok?
    ensures SetAt(root, p, val).Ok?
    ensures UnsetAt(SetAt(root, p, val).value, p) == UnsetAt(root, p)
    ensures Get(root, p).Err? ==> UnsetAt(SetAt(root, p, val).value, p) == Ok(root)
    decreases |p|
  {
    var f, k := root.fields, p[0];
    if |p| == 1 {
      assert f[k := val] - {k} == f - {k};
      if k in f {
        assert Get(f[k], p[1..]).Ok?;
      } else {
        assert f - {k} == f;
      }
    } else {
      UnsetUndoesSet(f[k], p[1..], val);
      OverwriteKey(f, k, SetAt(f[k], p[1..], val).value, UnsetAt(f[k], p[1..]));
      assert f[k := f[k]] == f;
    }
  }

  /**
    Where unset could not have succeeded before the set, the set has created the tables on
    the way, and they stay: what is left is what setting an empty table as the parent gives.
  */
  lemma {:induction false} UnsetLeavesTheTables(root: Json, p: Path, val: Json)
    requires p != [] && SetAt(root, p, val).Ok? && UnsetAt(root, p).Err?
    ensures |p| > 1
    ensures UnsetAt(SetAt(root, p, val).value, p) == SetAt(root, p[..|p| - 1], EMPTY)
    decreases |p|
  {
    var f, k := root.fields, p[0];
    var child := if k in f then f[k] else EMPTY;
    var parent := p[..|p| - 1];
    if |p| == 2 && k !in f {
      assert SetAt(EMPTY, p[1..], val) == Ok(Object(map[p[1] := val]));
      assert map[p[1] := val] - {p[1]} == map[];
      OverwriteKey(f, k, Object(map[p[1] := val]), Ok(EMPTY));
    } else {
      UnsetLeavesTheTables(child, p[1..], val);
      assert parent[1..] == p[1..][..|p[1..]| - 1];
      OverwriteKey(f, k, SetAt(child, p[1..], val).value, UnsetAt(SetAt(child, p[1..], val).value, p[1..]));
    }
  }

  // ----- Recursive merge -----

  /** `deep_merge`: objects are merged key by key, anything else is overwritten by the source. */
  function Merge(dst: Json, src: Json): Json
    decreases src
  {
    if dst.Object? && src.Object? then
      Object(map k | k in dst.fields.Keys + src.fields.Keys ::
               if k !in src.fields then dst.fields[k]
               else if k !in dst.fields then src.fields[k]
               else Merge(dst.fields[k], src.fields[k]))
    else src
  }

  method DeepMerge(dst: Json, src: Json) returns (merged: Json)
    ensures merged == Merge(dst, src)
    decreases src
  {
    if dst.Object? && src.Object? {
      var fields := dst.fields;
      var todo := src.fields.Keys;
      while todo != {}
        invariant todo <= src.fields.Keys
        invariant fields.Keys == dst.fields.Keys + (src.fields.Keys - todo)
        invariant forall k :: k in fields && (k in todo || k !in src.fields) ==> k in dst.fields && fields[k] == dst.fields[k]
        invariant forall k :: k in src.fields && k !in todo ==>
                    fields[k] == if k in dst.fields then Merge(dst.fields[k], src.fields[k]) else src.fields[k]
        decreases todo
      {
        var key :| key in todo;
        if key in fields {
          var sub := DeepMerge(fields[key], src.fields[key]);
          fields := fields[key := sub];
        } else {
          fields := fields[key := src.fields[key]];
        }
        todo := todo - {key};
      }
      merged := Object(fields);
      assert fields == Merge(dst, src).fields;
    } else {
      merged := src;
    }
  }

  /**
    Every lookup in the merged tree.  Where the source has a value, that value, merged
    over the destination's if there is one; where the source is blocked by a
    non-table, the same obstacle; where a key is missing in the source, what the
    destination has there, and nothing if it has nothing.
  */
  lemma {:induction false} MergedLookup(dst: Json, src: Json, p: Path)
    ensures match Get(src, p)
            case Ok(x) =>
              Get(Merge(dst, src), p) == Ok(if Get(dst, p).Ok? then Merge(Get(dst, p).value, x) else x)
            case Err(NotATable(at)) => Get(Merge(dst, src), p) == Err(NotATable(at))
            case Err(NotFound) =>
              if Get(dst, p).Ok? then Get(Merge(dst, src), p) == Get(dst, p) else Get(Merge(dst, src), p).Err?
    decreases |p|
  {
    if p != [] && dst.Object? && src.Object? && p[0] in dst.fields && p[0] in src.fields {
      MergedLookup(dst.fields[p[0]], src.fields[p[0]], p[1..]);
    }
  }

  /** Every non-table of the source appears at its path. */
  lemma LeavesOfSourceWin(dst: Json, src: Json, p: Path)
    requires Get(src, p).Ok? && !Get(src, p).value.Object?
    ensures Get(Merge(dst, src), p) == Get(src, p)
  {
    MergedLookup(dst, src, p);
  }

  /** Merging the same source a second time changes nothing. */
  lemma {:induction false} MergeAbsorbs(dst: Json, src: Json)
    ensures Merge(Merge(dst, src), src) == Merge(dst, src)
    decreases src
  {
    if src.Object? {
      var once := Merge(dst, src);
      var twice := Merge(once, src);
      forall k | k in src.fields
        ensures k in once.fields && twice.fields[k] == once.fields[k]
      {
        if dst.Object? && k in dst.fields {
          MergeAbsorbs(dst.fields[k], src.fields[k]);
        } else {
          MergeOntoItself(src.fields[k]);
        }
      }
      assert twice.fields == once.fields;
    }
  }

  lemma {:induction false} MergeOntoItself(src: Json)
    ensures Merge(src, src) == src
    decreases src
  {
    if src.Object? {
      forall k | k in src.fields
        ensures Merge(src.fields[k], src.fields[k]) == src.fields[k]
      {
        MergeOntoItself(src.fields[k]);
      }
      assert Merge(src, src).fields == src.fields;
    }
  }
}
