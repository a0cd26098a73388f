/** The parser of `git worktree list --porcelain` (looper-git) and the printer that it undoes. */
module WorktreeList {
  import opened Wrappers
  import opened Text

  datatype Entry = Entry(path: string, branch: Option<string>, headSha: Option<string>, bare: bool)

  const BLANK := Entry("", None, None, false)

  /** `parsing` is what the loop carries: the entries so far, the current one, and whether it has begun. */
  datatype Parsing = Parsing(entries: seq<Entry>, current: Entry, inEntry: bool)

  const START := Parsing([], BLANK, false)

  function BranchName(branchRef: string): string {
    match StripPrefix(branchRef, "refs/heads/")
    case Some(name) => name
    case None =>
      match StripPrefix(branchRef, "refs/remotes/")
      case Some(name) => name
      case None => branchRef
  }

  function Attribute(e: Entry, line: string): Entry {
    if "worktree " <= line then e.(path := line[9..])
    else if "branch " <= line then e.(branch := Some(BranchName(line[7..])))
    else if "HEAD " <= line then e.(headSha := Some(line[5..]))
    else if line == "bare" then e.(bare := true)
    else e
  }

  function ParseLine(p: Parsing, raw: string): Parsing {
    var line := Trim(raw);
    if line == "" then
      if p.inEntry then Parsing(p.entries + [p.current], BLANK, false) else p
    else Parsing(p.entries, Attribute(p.current, line), true)
  }

  function ParseLines(p: Parsing, lines: seq<string>): Parsing
    decreases |lines|
  {
    if lines == [] then p else ParseLine(ParseLines(p, lines[..|lines| - 1]), lines[|lines| - 1])
  }

  function Finish(p: Parsing): seq<Entry> {
    if p.inEntry then p.entries + [p.current] else p.entries
  }

  function Parse(output: string): seq<Entry> {
    Finish(ParseLines(START, Lines(output)))
  }

  method ParseWorktreeList(output: string) returns (entries: seq<Entry>)
    ensures entries == Parse(output)
  {
    var lines := Lines(output);
    var current, inEntry := BLANK, false;
    entries := [];
    for i := 0 to |lines|
      invariant Parsing(entries, current, inEntry) == ParseLines(START, lines[..i])
    {
      assert lines[..i + 1][..i] == lines[..i];
      var line := Trim(lines[i]);
      if line == "" {
        if inEntry {
          entries := entries + [current];
          current := BLANK;
          inEntry := false;
        }
      } else {
        inEntry := true;
        if "worktree " <= line {
          current := current.(path := line[9..]);
        } else if "branch " <= line {
          current := current.(branch := Some(BranchName(line[7..])));
        } else if "HEAD " <= line {
          current := current.(headSha := Some(line[5..]));
        } else if line == "bare" {
          current := current.(bare := true);
        }
      }
    }
    assert lines[..|lines|] == lines;
    if inEntry {
      entries := entries + [current];
    }
  }

  // ----- Printing -----

  /** The lines git prints for one entry, without the blank line that ends it. */
  function EntryLines(e: Entry): seq<string> {
    ["worktree " + e.path] +
    (if e.bare then ["bare"] else []) +
    (if e.headSha.Some? then ["HEAD " + e.headSha.value] else []) +
    (if e.branch.Some? then ["branch refs/heads/" + e.branch.value] else ["detached"])
  }

  /** Every entry is followed by a blank line; git ends the last one like the others. */
  function ListLines(entries: seq<Entry>): seq<string> {
    if entries == [] then []
    else ListLines(entries[..|entries| - 1]) + EntryLines(entries[|entries| - 1]) + [""]
  }

  function Print(entries: seq<Entry>): string {
    Unlines(ListLines(entries))
  }

  /** The same text with the final blank line missing. */
  function PrintTight(entries: seq<Entry>): string
    requires entries != []
  {
    Unlines(ListLines(entries[..|entries| - 1]) + EntryLines(entries[|entries| - 1]))
  }

  predicate EndsClean(s: string) {
    s != "" ==> !IsWhitespace(s[|s| - 1])
  }

  /** Field texts without line breaks and trailing white space; a commit name is not empty. */
  predicate Printable(e: Entry) {
    && '\n' !in e.path && EndsClean(e.path)
    && (e.branch.Some? ==> '\n' !in e.branch.value && EndsClean(e.branch.value))
    && (e.headSha.Some? ==> '\n' !in e.headSha.value && EndsClean(e.headSha.value) && e.headSha.value != "")
  }

  // ----- Round trip -----

  lemma {:induction false} ParseConcat(p: Parsing, a: seq<string>, b: seq<string>)
    ensures ParseLines(p, a + b) == ParseLines(ParseLines(p, a), b)
    decreases |b|
  {
    if b == [] {
      assert a + b == a;
    } else {
      var n := |b| - 1;
      assert (a + b)[..|a + b| - 1] == a + b[..n];
      ParseConcat(p, a, b[..n]);
    }
  }

  lemma ParseOne(p: Parsing, line: string)
    ensures ParseLines(p, [line]) == ParseLine(p, line)
  {
    assert [line][..0] == [];
    assert ParseLines(p, [line][..0]) == p;
  }

  /** A keyword followed by a clean, non-empty text is not touched by trimming. */
  lemma KeywordLine(p: Parsing, keyword: string, text: string)
    requires keyword != "" && !IsWhitespace(keyword[0]) && text != "" && EndsClean(text)
    ensures ParseLine(p, keyword + text) == Parsing(p.entries, Attribute(p.current, keyword + text), true)
  {
    TrimOfTrimmed(keyword + text);
  }

  lemma PathLine(p: Parsing, path: string)
    requires EndsClean(path) && p.current.path == ""
    ensures ParseLine(p, "worktree " + path) == Parsing(p.entries, p.current.(path := path), true)
  {
    var line := "worktree " + path;
    if path == "" {
      assert line == "worktree ";
      assert "worktree "[..8] == "worktree";
      assert TrimEnd("worktree ") == TrimEnd("worktree");
      TrimOfTrimmed("worktree");
      assert Trim(line) == "worktree";
      assert Attribute(p.current, "worktree") == p.current;
    } else {
      KeywordLine(p, "worktree ", path);
      assert line[9..] == path;
    }
  }

  lemma BareLine(p: Parsing)
    ensures ParseLine(p, "bare") == Parsing(p.entries, p.current.(bare := true), true)
    ensures ParseLine(p, "detached") == Parsing(p.entries, p.current, true)
  {
    TrimOfTrimmed("bare");
    TrimOfTrimmed("detached");
  }

  lemma ShaLine(p: Parsing, sha: string)
    requires EndsClean(sha) && sha != ""
    ensures ParseLine(p, "HEAD " + sha) == Parsing(p.entries, p.current.(headSha := Some(sha)), true)
  {
    KeywordLine(p, "HEAD ", sha);
    var line := "HEAD " + sha;
    assert line[0] == 'H' && line[5..] == sha;
  }

  lemma BranchLine(p: Parsing, branch: string)
    requires EndsClean(branch)
    ensures ParseLine(p, "branch refs/heads/" + branch) == Parsing(p.entries, p.current.(branch := Some(branch)), true)
  {
    var line := "branch refs/heads/" + branch;
    TrimOfTrimmed(line);
    assert line[0] == 'b';
    assert line[7..] == "refs/heads/" + branch;
    StripOfConcat("refs/heads/", branch);
  }

  /** Only the two ref prefixes are dropped from a branch line, each at most once. */
  lemma BranchNames(name: string)
    ensures BranchName("refs/heads/" + name) == name
    ensures BranchName("refs/remotes/" + name) == name
    ensures !("refs/heads/" <= name) && !("refs/remotes/" <= name) ==> BranchName(name) == name
  {
    StripOfConcat("refs/heads/", name);
    StripOfConcat("refs/remotes/", name);
    assert ("refs/remotes/" + name)[5] == 'r' && "refs/heads/"[5] == 'h';
  }

  /** Any other line of an entry, such as "detached", "locked" or "prunable", says nothing about its fields. */
  lemma OtherLines(p: Parsing, line: string)
    requires line != "" && EndsClean(line) && !IsWhitespace(line[0]) && line != "bare"
    requires !("worktree " <= line) && !("branch " <= line) && !("HEAD " <= line)
    ensures ParseLine(p, line) == Parsing(p.entries, p.current, true)
  {
    TrimOfTrimmed(line);
  }

  lemma EntryParsed(entries: seq<Entry>, e: Entry)
    requires Printable(e)
    ensures ParseLines(Parsing(entries, BLANK, false), EntryLines(e)) == Parsing(entries, e, true)
  {
    hide ParseLine;
    var p0 := Parsing(entries, BLANK, false);
    var bare: seq<string> := if e.bare then ["bare"] else [];
    var head := if e.headSha.Some? then ["HEAD " + e.headSha.value] else [];
    var branch := if e.branch.Some? then ["branch refs/heads/" + e.branch.value] else ["detached"];
    PathLine(p0, e.path);
    ParseOne(p0, "worktree " + e.path);
    var p1 := Parsing(entries, BLANK.(path := e.path), true);
    BareLine(p1);
    ParseOne(p1, "bare");
    var p2 := Parsing(entries, p1.current.(bare := e.bare), true);
    assert ParseLines(p1, bare) == p2;
    if e.headSha.Some? {
      ShaLine(p2, e.headSha.value);
      ParseOne(p2, head[0]);
    }
    var p3 := Parsing(entries, p2.current.(headSha := e.headSha), true);
    assert ParseLines(p2, head) == p3;
    BareLine(p3);
    if e.branch.Some? {
      BranchLine(p3, e.branch.value);
    }
    ParseOne(p3, branch[0]);
    assert ParseLines(p3, branch) == Parsing(entries, e, true);
    var first := ["worktree " + e.path];
    ParseConcat(p0, first, bare);
    ParseConcat(p0, first + bare, head);
    ParseConcat(p0, first + bare + head, branch);
  }

  lemma BlankLine(p: Parsing)
    requires p.inEntry
    ensures ParseLines(p, [""]) == Parsing(p.entries + [p.current], BLANK, false)
  {
    ParseOne(p, "");
    assert Trim("") == "";
  }

  lemma {:induction false} ListParsed(entries: seq<Entry>)
    requires forall e :: e in entries ==> Printable(e)
    ensures ParseLines(START, ListLines(entries)) == Parsing(entries, BLANK, false)
    decreases |entries|
  {
    hide EntryLines, Printable;
    if entries != [] {
      var n := |entries| - 1;
      var before, e := entries[..n], entries[n];
      ListParsed(before);
      EntryParsed(before, e);
      ParseConcat(START, ListLines(before), EntryLines(e));
      ParseConcat(START, ListLines(before) + EntryLines(e), [""]);
      BlankLine(Parsing(before, e, true));
      assert entries == before + [e];
    }
  }

  lemma PlainText(s: string)
    requires '\n' !in s && EndsClean(s)
    ensures PlainLine(s)
  {
  }

  lemma EntryLinesPlain(e: Entry)
    requires Printable(e)
    ensures PlainLines(EntryLines(e))
  {
    var path := "worktree " + e.path;
    if e.path == "" {
      assert path == "worktree ";
    }
    assert PlainLine(path);
    if e.headSha.Some? {
      PlainText("HEAD " + e.headSha.value);
    }
    if e.branch.Some? {
      PlainText("branch refs/heads/" + e.branch.value);
    }
  }

  lemma {:induction false} ListLinesPlain(entries: seq<Entry>)
    requires forall e :: e in entries ==> Printable(e)
    ensures PlainLines(ListLines(entries))
    decreases |entries|
  {
    assert PlainLine("");
    hide EntryLines, Printable, PlainLine;
    if entries != [] {
      var n := |entries| - 1;
      ListLinesPlain(entries[..n]);
      EntryLinesPlain(entries[n]);
      PlainConcat(ListLines(entries[..n]), EntryLines(entries[n]));
      PlainConcat(ListLines(entries[..n]) + EntryLines(entries[n]), [""]);
    }
  }

  /** Main result: parsing undoes printing, for every list of printable entries. */
  lemma ParseOfPrint(entries: seq<Entry>)
    requires forall e :: e in entries ==> Printable(e)
    ensures Parse(Print(entries)) == entries
  {
    hide ParseLines, ListLines, Lines, Unlines, PlainLine, Printable;
    ListLinesPlain(entries);
    LinesOfUnlines(ListLines(entries));
    ListParsed(entries);
  }

  /** And it does so too when the final blank line is missing. */
  lemma ParseOfPrintTight(entries: seq<Entry>)
    requires entries != [] && forall e :: e in entries ==> Printable(e)
    ensures Parse(PrintTight(entries)) == entries
  {
    hide EntryLines, Printable, ParseLines, ListLines, Lines, PlainLine, Unlines;
    var n := |entries| - 1;
    var before, e := entries[..n], entries[n];
    ListLinesPlain(before);
    EntryLinesPlain(e);
    PlainConcat(ListLines(before), EntryLines(e));
    LinesOfUnlines(ListLines(before) + EntryLines(e));
    ListParsed(before);
    EntryParsed(before, e);
    ParseConcat(START, ListLines(before), EntryLines(e));
    assert ParseLines(START, ListLines(before) + EntryLines(e)) == Parsing(before, e, true);
    assert entries == before + [e];
  }
}
