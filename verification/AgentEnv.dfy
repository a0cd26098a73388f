/**
  The environment of an agent process (looper-agent): `build_command_env` layers maps
  and prints them as a sorted list of "key=value" entries, and the executor splits
  every entry at its first "=" again.
*/
module AgentEnv {
  import opened Wrappers
  import opened Text

  type Env = map<string, string>

  const UNSAFE_GIT_ENV_KEYS: seq<string> := [
    "OLDPWD", "GIT_ALTERNATE_OBJECT_DIRECTORIES", "GIT_CONFIG", "GIT_CONFIG_PARAMETERS", "GIT_CONFIG_COUNT",
    "GIT_OBJECT_DIRECTORY", "GIT_DIR", "GIT_WORK_TREE", "GIT_IMPLICIT_WORK_TREE", "GIT_GRAFT_FILE",
    "GIT_COMMON_DIR", "GIT_INDEX_FILE", "GIT_NO_REPLACE_OBJECTS", "GIT_REPLACE_REF_BASE", "GIT_PREFIX",
    "GIT_SHALLOW_FILE"]

  const COMPLETION_MARKER: string := "__LOOPER_RESULT__="

  // ----- Layers -----

  function Overlay(process: Env, sources: seq<Env>): Env {
    if sources == [] then process
    else Overlay(process, sources[..|sources| - 1]) + sources[|sources| - 1]
  }

  function Unsafe(): set<string> {
    set k | k in UNSAFE_GIT_ENV_KEYS
  }

  function Layered(process: Env, sources: seq<Env>, workingDirectory: string, prompt: string): Env {
    (Overlay(process, sources) - Unsafe())
      ["PWD" := workingDirectory]["LOOPER_PROMPT" := prompt]["LOOPER_COMPLETION_MARKER" := COMPLETION_MARKER]
  }

  /** The value of the last source that has the key. */
  function LastSource(sources: seq<Env>, key: string): Option<string> {
    if sources == [] then None
    else if key in sources[|sources| - 1] then Some(sources[|sources| - 1][key])
    else LastSource(sources[..|sources| - 1], key)
  }

  function Lookup(env: Env, key: string): Option<string> {
    if key in env then Some(env[key]) else None
  }

  lemma {:induction false} OverlayLookup(process: Env, sources: seq<Env>, key: string)
    ensures Lookup(Overlay(process, sources), key) ==
            if LastSource(sources, key).Some? then LastSource(sources, key) else Lookup(process, key)
    decreases |sources|
  {
    if sources != [] {
      OverlayLookup(process, sources[..|sources| - 1], key);
    }
  }

  /**
    What the child sees under each key: the three fixed values; nothing for the unsafe
    keys; otherwise the last source that has the key, and else the process's own value.
  */
  lemma LayeredLookup(process: Env, sources: seq<Env>, workingDirectory: string, prompt: string, key: string)
    ensures Lookup(Layered(process, sources, workingDirectory, prompt), key) ==
            if key == "PWD" then Some(workingDirectory)
            else if key == "LOOPER_PROMPT" then Some(prompt)
            else if key == "LOOPER_COMPLETION_MARKER" then Some("__LOOPER_RESULT__=")
            else if key in ["OLDPWD", "GIT_DIR", "GIT_WORK_TREE", "GIT_IMPLICIT_WORK_TREE", "GIT_COMMON_DIR", "GIT_PREFIX",
                            "GIT_INDEX_FILE", "GIT_OBJECT_DIRECTORY", "GIT_ALTERNATE_OBJECT_DIRECTORIES",
                            "GIT_CONFIG", "GIT_CONFIG_PARAMETERS", "GIT_CONFIG_COUNT", "GIT_GRAFT_FILE",
                            "GIT_SHALLOW_FILE", "GIT_NO_REPLACE_OBJECTS", "GIT_REPLACE_REF_BASE"] then None
            else if LastSource(sources, key).Some? then LastSource(sources, key)
            else Lookup(process, key)
  {
    OverlayLookup(process, sources, key);
    assert "PWD"[0] == 'P' && "LOOPER_PROMPT"[7] == 'P' && "LOOPER_COMPLETION_MARKER"[7] == 'C';
  }

  // ----- Entries -----

  function Entry(key: string, value: string): string {
    key + ['='] + value
  }

  /** `splitn(2, '=')`: key and value; a missing value counts as empty. */
  function SplitEntry(entry: string): (string, string) {
    var k := IndexOf(entry, '=');
    if k == |entry| then (entry, "") else (entry[..k], entry[k + 1..])
  }

  /** `Command::envs`: a later entry replaces an earlier one with the same key. */
  function Rebuild(entries: seq<string>): Env {
    if entries == [] then map[]
    else
      var (key, value) := SplitEntry(entries[|entries| - 1]);
      Rebuild(entries[..|entries| - 1])[key := value]
  }

  // ----- Sorting -----

  /** The order of `String`: byte by byte in UTF-8, which is the order of the code points. */
  predicate Below(a: string, b: string) {
    a == "" || (b != "" && (a[0] < b[0] || (a[0] == b[0] && Below(a[1..], b[1..]))))
  }

  lemma {:induction false} BelowTotal(a: string, b: string)
    ensures Below(a, b) || Below(b, a)
  {
    if a != "" && b != "" && a[0] == b[0] {
      BelowTotal(a[1..], b[1..]);
    }
  }

  lemma {:induction false} BelowTransitive(a: string, b: string, c: string)
    requires Below(a, b) && Below(b, c)
    ensures Below(a, c)
  {
    if a != "" && a[0] == b[0] == c[0] {
      BelowTransitive(a[1..], b[1..], c[1..]);
    }
  }

  /** The order written out: a prefix comes first, otherwise the first difference decides. */
  lemma {:induction false} BelowIff(a: string, b: string)
    ensures Below(a, b) <==>
            a <= b || exists k :: 0 <= k < |a| && k < |b| && a[..k] == b[..k] && a[k] < b[k]
  {
    if a != "" && b != "" && a[0] == b[0] {
      BelowIff(a[1..], b[1..]);
      assert a[1..] <= b[1..] <==> a <= b;
      if k :| 0 <= k < |a[1..]| && k < |b[1..]| && a[1..][..k] == b[1..][..k] && a[1..][k] < b[1..][k] {
        assert a[..k + 1] == [a[0]] + a[1..][..k] && b[..k + 1] == [b[0]] + b[1..][..k];
        assert a[k + 1] < b[k + 1];
      }
      if k :| 0 <= k < |a| && k < |b| && a[..k] == b[..k] && a[k] < b[k] {
        assert k > 0;
        assert a[1..][..k - 1] == a[..k][1..] && b[1..][..k - 1] == b[..k][1..];
        assert a[1..][k - 1] < b[1..][k - 1];
      }
    } else if a != "" && b != "" {
      assert a[..0] == b[..0];
      if k :| 0 <= k < |a| && k < |b| && a[..k] == b[..k] && a[k] < b[k] {
        assert k > 0 ==> a[..k][0] == b[..k][0];
      }
    }
  }

  ghost predicate Sorted(s: seq<string>) {
    forall i, j :: 0 <= i < j < |s| ==> Below(s[i], s[j])
  }

  function Insert(s: seq<string>, e: string): seq<string> {
    if s == [] then [e]
    else if Below(e, s[0]) then [e] + s
    else [s[0]] + Insert(s[1..], e)
  }

  lemma {:induction false} InsertSorted(s: seq<string>, e: string)
    requires Sorted(s)
    ensures Sorted(Insert(s, e)) && multiset(Insert(s, e)) == multiset(s) + multiset{e}
  {
    if s == [] {
    } else if Below(e, s[0]) {
      forall j | 0 < j < |s|
        ensures Below(e, s[j])
      {
        BelowTransitive(e, s[0], s[j]);
      }
    } else {
      BelowTotal(e, s[0]);
      var rest := Insert(s[1..], e);
      InsertSorted(s[1..], e);
      assert s == [s[0]] + s[1..];
      forall j | 0 <= j < |rest|
        ensures Below(s[0], rest[j])
      {
        assert rest[j] in multiset(rest);
        assert rest[j] == e || rest[j] in s[1..];
      }
    }
  }

  // ----- The builder -----

  /** The list holds the entries of the map, one for each key of `order`. */
  ghost predicate Lists(entries: seq<string>, env: Env, order: seq<string>) {
    && (forall k :: k in order <==> k in env)
    && (forall i, j :: 0 <= i < j < |order| ==> order[i] != order[j])
    && multiset(entries) == multiset(EntriesFor(env, order))
  }

  ghost function EntriesFor(env: Env, order: seq<string>): (entries: seq<string>)
    requires forall k :: k in order ==> k in env
    ensures |entries| == |order|
    ensures forall i :: 0 <= i < |order| ==> entries[i] == Entry(order[i], env[order[i]])
  {
    seq(|order|, i requires 0 <= i < |order| => Entry(order[i], env[order[i]]))
  }

  method BuildCommandEnv(process: Env, workingDirectory: string, prompt: string, sources: seq<Env>)
    returns (result: seq<string>, ghost order: seq<string>)
    ensures Sorted(result)
    ensures Lists(result, Layered(process, sources, workingDirectory, prompt), order)
  {
    hide Below;
    var env := process;
    for i := 0 to |sources|
      invariant env == Overlay(process, sources[..i])
    {
      assert sources[..i + 1][..i] == sources[..i];
      env := env + sources[i];
    }
    assert sources[..|sources|] == sources;
    env := WithoutKeys(env, UNSAFE_GIT_ENV_KEYS);
    env := env["PWD" := workingDirectory]["LOOPER_PROMPT" := prompt]["LOOPER_COMPLETION_MARKER" := COMPLETION_MARKER];
    assert env == Layered(process, sources, workingDirectory, prompt);
    result, order := PrintSorted(env);
  }

  method WithoutKeys(env: Env, keys: seq<string>) returns (r: Env)
    ensures r == env - (set k | k in keys)
  {
    r := env;
    for i := 0 to |keys|
      invariant r == env - (set k | k in keys[..i])
    {
      assert keys[..i + 1] == keys[..i] + [keys[i]];
      r := r - {keys[i]};
    }
    assert keys[..|keys|] == keys;
  }

  method PrintSorted(env: Env) returns (result: seq<string>, ghost order: seq<string>)
    ensures Sorted(result) && Lists(result, env, order)
  {
    hide Below;
    result, order := [], [];
    var todo := env.Keys;
    while todo != {}
      invariant todo <= env.Keys
      invariant forall k :: k in order <==> k in env && k !in todo
      invariant forall i, j :: 0 <= i < j < |order| ==> order[i] != order[j]
      invariant Sorted(result) && multiset(result) == multiset(EntriesFor(env, order))
      decreases todo
    {
      var key :| key in todo;
      InsertSorted(result, Entry(key, env[key]));
      assert EntriesFor(env, order + [key]) == EntriesFor(env, order) + [Entry(key, env[key])];
      result := Insert(result, Entry(key, env[key]));
      order := order + [key];
      todo := todo - {key};
    }
  }

  // ----- Round trip -----

  lemma SplitOfEntry(key: string, value: string)
    requires '=' !in key
    ensures SplitEntry(Entry(key, value)) == (key, value)
  {
    IndexBehind(key, '=', value);
  }

  /** An entry is split at its first "=", whatever follows; without one the value is empty. */
  lemma SplitsAtFirst(key: string, value: string)
    requires '=' !in key
    ensures SplitEntry(key + "=" + value) == (key, value)
    ensures SplitEntry(key) == (key, "")
  {
    IndexBehind(key, '=', value);
  }

  lemma {:induction false} RebuiltKeys(entries: seq<string>, key: string)
    ensures '=' in key ==> key !in Rebuild(entries)
    ensures key in Rebuild(entries) ==> exists e :: e in entries && SplitEntry(e) == (key, Rebuild(entries)[key])
    ensures key !in Rebuild(entries) ==> forall e :: e in entries ==> SplitEntry(e).0 != key
    decreases |entries|
  {
    if entries != [] {
      var n := |entries| - 1;
      RebuiltKeys(entries[..n], key);
      assert entries == entries[..n] + [entries[n]];
      assert entries[n] in entries;
    }
  }

  lemma ListMembers(entries: seq<string>, env: Env, order: seq<string>)
    requires Lists(entries, env, order)
    ensures forall k :: k in env ==> Entry(k, env[k]) in entries
    ensures forall e :: e in entries ==> exists k :: k in env && e == Entry(k, env[k])
  {
    var listed := EntriesFor(env, order);
    forall k | k in env
      ensures Entry(k, env[k]) in entries
    {
      var i :| 0 <= i < |order| && order[i] == k;
      assert listed[i] in multiset(listed);
      assert listed[i] in multiset(entries);
    }
    forall e | e in entries
      ensures exists k :: k in env && e == Entry(k, env[k])
    {
      assert e in multiset(entries);
      assert e in multiset(listed);
      var i :| 0 <= i < |listed| && listed[i] == e;
      assert order[i] in env;
    }
  }

  /**
    Main result.  Splitting the entries of the list at their first "=" rebuilds the
    layered map exactly when no key of it contains a "=".
  */
  lemma RebuildIffPlainKeys(entries: seq<string>, env: Env, order: seq<string>)
    requires Lists(entries, env, order)
    ensures Rebuild(entries) == env <==> forall k :: k in env ==> '=' !in k
  {
    hide SplitEntry, Entry, IndexOf;
    ListMembers(entries, env, order);
    if k :| k in env && '=' in k {
      RebuiltKeys(entries, k);
    } else {
      forall k | k in env
        ensures k in Rebuild(entries) && Rebuild(entries)[k] == env[k]
      {
        SplitOfEntry(k, env[k]);
        RebuiltKeys(entries, k);
        var e :| e in entries && SplitEntry(e) == (k, Rebuild(entries)[k]);
        var j :| j in env && e == Entry(j, env[j]);
        SplitOfEntry(j, env[j]);
      }
      forall k | k in Rebuild(entries)
        ensures k in env
      {
        RebuiltKeys(entries, k);
        var e :| e in entries && SplitEntry(e) == (k, Rebuild(entries)[k]);
        var j :| j in env && e == Entry(j, env[j]);
        SplitOfEntry(j, env[j]);
      }
    }
  }
}
