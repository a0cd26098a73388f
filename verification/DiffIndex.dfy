/**
  The unified-diff index (diffanchor): a line parser that collects, per hunk, a range
  of new-side lines, and a validator that looks an anchor up in those ranges.
*/
module DiffIndex {
  import opened Wrappers
  import opened Text

  datatype Side = Left | Right

  datatype Range = Range(path: string, side: Side, start: int, end: int, excerpt: string, heading: string)

  // ----- Headers -----

  /** The prefixes "a/", "b/", "i/" and "w/" are dropped from a header path. */
  function StripSide(path: string): string {
    if "a/" <= path || "b/" <= path || "i/" <= path || "w/" <= path then path[2..] else path
  }

  function PathFromHeader(line: string, prefix: string): Option<string> {
    if !(prefix <= line) then None
    else
      var path := Trim(line[|prefix|..]);
      if path == "" || path == "/dev/null" then None else Some(StripSide(path))
  }

  datatype HunkHeader = HunkHeader(oldStart: int, newStart: int, heading: string)

  /** The number before the first comma, behind a sign. */
  function StartOf(part: string, sign: string): Option<int> {
    if sign <= part then
      var coords := part[|sign|..];
      ParseI64(coords[..IndexOf(coords, ',')])
    else None
  }

  function ParseHunkHeader(raw: string): Option<HunkHeader> {
    var line := Trim(raw);
    if !("@@" <= line) then None
    else
      var rest := TrimStart(line[2..]);
      match Find(rest, "@@")
      case None => None
      case Some(k) =>
        var parts := Words(Trim(rest[..k]));
        if |parts| < 2 then None
        else
          match (StartOf(parts[0], "-"), StartOf(parts[1], "+"))
          case (Some(o), Some(n)) => Some(HunkHeader(o, n, Trim(rest[k + 2..])))
          case (None, _) => None
          case (_, None) => None
  }

  // ----- The parser -----

  const EXCERPT_LIMIT: nat := 1024

  function Utf8Len(s: string): nat {
    if s == "" then 0
    else
      var c := s[|s| - 1];
      Utf8Len(s[..|s| - 1]) + if c < '\U{0080}' then 1 else if c < '\U{0800}' then 2 else if c < '\U{10000}' then 3 else 4
  }

  /** `hunks` are the ranges of the current file, two per hunk: right and left. */
  datatype Parser = Parser(ranges: seq<Range>, path: string, hunks: seq<Range>)

  const START := Parser([], "", [])

  predicate StartsWith(line: string, c: char) {
    line != "" && line[0] == c
  }

  function ExtendExcerpt(excerpt: string, line: string): string {
    if "--- " <= line || "+++ " <= line || "diff " <= line || "index " <= line || Utf8Len(excerpt) >= EXCERPT_LIMIT
    then excerpt
    else excerpt + (if excerpt == "" then "" else "\n") + line
  }

  /** A hunk header closes the last range if that is still open, and opens a pair. */
  function OpenHunk(p: Parser, h: HunkHeader): Parser {
    var n := |p.hunks|;
    var closed := if n > 0 && p.hunks[n - 1].end == 0 then p.hunks[n - 1 := p.hunks[n - 1].(end := h.newStart)]
                  else p.hunks;
    p.(hunks := closed + [Range(p.path, Right, h.newStart, h.newStart, "", h.heading),
                          Range(p.path, Left, h.oldStart, h.oldStart, "", h.heading)])
  }

  /** Any other line counts towards the first pair of the current file. */
  function CountLine(p: Parser, line: string): Parser {
    if |p.hunks| < 2 then p
    else
      var right, left := p.hunks[0], p.hunks[1];
      var right' := right.(end := if StartsWith(line, ' ') || StartsWith(line, '+') then right.end + 1 else right.end,
                           excerpt := ExtendExcerpt(right.excerpt, line));
      var left' := left.(end := if StartsWith(line, ' ') || StartsWith(line, '-') then left.end + 1 else left.end);
      p.(hunks := p.hunks[0 := right'][1 := left'])
  }

  function ParseLine(p: Parser, line: string): Parser {
    if PathFromHeader(line, "--- ").Some? then p
    else
      match PathFromHeader(line, "+++ ")
      case Some(path) => Parser(p.ranges + p.hunks, path, [])
      case None =>
        match ParseHunkHeader(line)
        case Some(h) => OpenHunk(p, h)
        case None => CountLine(p, line)
  }

  function ParseLines(p: Parser, lines: seq<string>): Parser
    decreases |lines|
  {
    if lines == [] then p else ParseLine(ParseLines(p, lines[..|lines| - 1]), lines[|lines| - 1])
  }

  function RightOnly(ranges: seq<Range>): seq<Range> {
    if ranges == [] then []
    else RightOnly(ranges[..|ranges| - 1]) +
         if ranges[|ranges| - 1].side == Right then [ranges[|ranges| - 1]] else []
  }

  function Parse(diff: string): seq<Range> {
    var p := ParseLines(START, Lines(diff));
    RightOnly(p.ranges + p.hunks)
  }

  method ParseDiff(diff: string) returns (index: seq<Range>)
    ensures index == Parse(diff)
  {
    hide PathFromHeader, ParseHunkHeader, ExtendExcerpt, Lines;
    var lines := Lines(diff);
    var ranges: seq<Range>, path, hunks: seq<Range> := [], "", [];
    for i := 0 to |lines|
      invariant Parser(ranges, path, hunks) == ParseLines(START, lines[..i])
    {
      assert lines[..i + 1][..i] == lines[..i];
      var line := lines[i];
      if PathFromHeader(line, "--- ").Some? {
        continue;
      }
      var newPath := PathFromHeader(line, "+++ ");
      if newPath.Some? {
        path := newPath.value;
        ranges, hunks := ranges + hunks, [];
        continue;
      }
      var header := ParseHunkHeader(line);
      if header.Some? {
        var h := header.value;
        if |hunks| > 0 && hunks[|hunks| - 1].end == 0 {
          hunks := hunks[|hunks| - 1 := hunks[|hunks| - 1].(end := h.newStart)];
        }
        hunks := hunks + [Range(path, Right, h.newStart, h.newStart, "", h.heading),
                          Range(path, Left, h.oldStart, h.oldStart, "", h.heading)];
        continue;
      }
      if |hunks| >= 2 {
        var right, left := hunks[0], hunks[1];
        if StartsWith(line, ' ') || StartsWith(line, '-') {
          left := left.(end := left.end + 1);
        }
        if StartsWith(line, ' ') || StartsWith(line, '+') {
          right := right.(end := right.end + 1);
        }
        right := right.(excerpt := ExtendExcerpt(right.excerpt, line));
        hunks := hunks[0 := right][1 := left];
      }
    }
    assert lines[..|lines|] == lines;
    ranges := ranges + hunks;
    index := [];
    for i := 0 to |ranges|
      invariant index == RightOnly(ranges[..i])
    {
      assert ranges[..i + 1][..i] == ranges[..i];
      if ranges[i].side == Right {
        index := index + [ranges[i]];
      }
    }
    assert ranges[..|ranges|] == ranges;
  }

  // ----- Validation -----

  datatype Anchor = Anchor(path: string, line: int, startLine: Option<int>)

  datatype Verdict =
    | Valid(range: Range, qualityFlagged: bool)
    | PathNotFound
    | LineOutside(closest: Range)

  predicate EndsWith(s: string, suffix: string) {
    |suffix| <= |s| && s[|s| - |suffix|..] == suffix
  }

  /** The same path, or a suffix of it. */
  predicate PathMatches(path: string, a: Anchor) {
    path == a.path || EndsWith(path, a.path)
  }

  predicate Matches(r: Range, a: Anchor) {
    PathMatches(r.path, a)
  }

  predicate Contains(r: Range, a: Anchor) {
    r.start <= a.line <= r.end
  }

  function Distance(r: Range, a: Anchor): nat {
    if a.line >= r.start then a.line - r.start else r.start - a.line
  }

  /** Some range of the index admits the anchor. */
  ghost predicate Accepts(index: seq<Range>, a: Anchor) {
    exists j :: 0 <= j < |index| && Matches(index[j], a) && Contains(index[j], a)
  }

  /** The first matching range that contains the line. */
  ghost predicate FirstContaining(index: seq<Range>, a: Anchor, k: nat) {
    && k < |index| && Matches(index[k], a) && Contains(index[k], a)
    && forall j :: 0 <= j < k ==> !(Matches(index[j], a) && Contains(index[j], a))
  }

  /** The first of the matching ranges whose start is nearest to the line. */
  ghost predicate FirstClosest(index: seq<Range>, a: Anchor, k: nat) {
    && k < |index| && Matches(index[k], a)
    && (forall j :: 0 <= j < |index| && Matches(index[j], a) ==> Distance(index[k], a) <= Distance(index[j], a))
    && forall j :: 0 <= j < k && Matches(index[j], a) ==> Distance(index[k], a) < Distance(index[j], a)
  }

  /** The path is the suffix, or has it at its end. */
  lemma MatchesIff(path: string, a: Anchor)
    ensures PathMatches(path, a) <==> exists u: string :: path == u + a.path
  {
    if EndsWith(path, a.path) {
      assert path == path[..|path| - |a.path|] + a.path;
    }
    if path == a.path {
      assert path == "" + a.path;
    }
  }

  lemma AllMatchesIff(index: seq<Range>, a: Anchor)
    ensures forall j :: 0 <= j < |index| ==> (Matches(index[j], a) <==> exists u: string :: index[j].path == u + a.path)
  {
    hide PathMatches;
    forall j | 0 <= j < |index|
      ensures Matches(index[j], a) <==> exists u: string :: index[j].path == u + a.path
    {
      MatchesIff(index[j].path, a);
    }
  }

  function Abs(n: int): nat {
    if n < 0 then -n else n
  }

  /**
    Left and right anchors are looked up alike, so the side is not an input.  A range is
    looked at if the anchor's path is the end of its path; of those the first that contains
    the line counts, and if there is none the first whose start is nearest to the line.
  */
  method Validate(index: seq<Range>, a: Anchor) returns (v: Verdict)
    ensures v.PathNotFound? <==> forall j :: 0 <= j < |index| ==> !exists u: string :: index[j].path == u + a.path
    ensures v.Valid? <==>
              exists j :: 0 <= j < |index| && (exists u: string :: index[j].path == u + a.path)
                          && index[j].start <= a.line <= index[j].end
    ensures v.Valid? <==> Accepts(index, a)
    ensures v.Valid? ==>
              && v.qualityFlagged == (a.startLine.Some? && a.startLine.value != v.range.start)
              && exists k: nat :: k < |index| && v.range == index[k] && FirstContaining(index, a, k)
    ensures v.Valid? ==>
              && (exists u: string :: v.range.path == u + a.path) && v.range.start <= a.line <= v.range.end
    ensures v.LineOutside? ==>
              exists k: nat :: k < |index| && v.closest == index[k] && FirstClosest(index, a, k)
    ensures v.LineOutside? ==>
              && (exists u: string :: v.closest.path == u + a.path)
              && forall j :: 0 <= j < |index| && (exists u: string :: index[j].path == u + a.path) ==>
                   Abs(a.line - v.closest.start) <= Abs(a.line - index[j].start)
  {
    hide PathMatches;
    AllMatchesIff(index, a);
    var best: Option<nat> := None;
    var k := 0;
    while k < |index|
      invariant 0 <= k <= |index|
      invariant forall j :: 0 <= j < k ==> !(Matches(index[j], a) && Contains(index[j], a))
      invariant best.None? ==> forall j :: 0 <= j < k ==> !Matches(index[j], a)
      invariant best.Some? ==> best.value < k && FirstClosest(index[..k], a, best.value)
    {
      assert forall j :: 0 <= j < k ==> index[..k][j] == index[j] && index[..k + 1][j] == index[j];
      if Matches(index[k], a) {
        if Contains(index[k], a) {
          assert FirstContaining(index, a, k);
          return Valid(index[k], a.startLine.Some? && a.startLine.value != index[k].start);
        }
        if best.None? || Distance(index[k], a) < Distance(index[best.value], a) {
          best := Some(k);
        }
      }
      k := k + 1;
    }
    assert index[..k] == index;
    if best.None? {
      return PathNotFound;
    }
    return LineOutside(index[best.value]);
  }

  // ----- Rendering -----

  /** `body` are the lines of the hunk with their leading mark. */
  datatype Hunk = Hunk(oldStart: nat, newStart: nat, heading: string, body: seq<string>)

  /** A file of a unified diff; `preamble` are git's lines before the two file headers. */
  datatype FileDiff = FileDiff(preamble: seq<string>, path: string, hunks: seq<Hunk>)

  function OldCount(body: seq<string>): nat {
    if body == [] then 0
    else
      var line := body[|body| - 1];
      OldCount(body[..|body| - 1]) + if " " <= line || "-" <= line then 1 else 0
  }

  function NewCount(body: seq<string>): nat {
    if body == [] then 0
    else
      var line := body[|body| - 1];
      NewCount(body[..|body| - 1]) + if " " <= line || "+" <= line then 1 else 0
  }

  /** A range in a hunk header; a count of one is left out. */
  function RangeText(start: nat, count: nat): string {
    Decimal(start) + if count == 1 then "" else "," + Decimal(count)
  }

  function HunkLine(h: Hunk): string {
    "@@ -" + RangeText(h.oldStart, OldCount(h.body)) + " +" + RangeText(h.newStart, NewCount(h.body)) + " @@" +
    if h.heading == "" then "" else " " + h.heading
  }

  function HunkLines(hunks: seq<Hunk>): seq<string> {
    if hunks == [] then []
    else
      var last := hunks[|hunks| - 1];
      HunkLines(hunks[..|hunks| - 1]) + ([HunkLine(last)] + last.body)
  }

  function FileLines(f: FileDiff): seq<string> {
    f.preamble + ["--- a/" + f.path, "+++ b/" + f.path] + HunkLines(f.hunks)
  }

  function DiffLines(files: seq<FileDiff>): seq<string> {
    if files == [] then [] else DiffLines(files[..|files| - 1]) + FileLines(files[|files| - 1])
  }

  function Render(files: seq<FileDiff>): string {
    Unlines(DiffLines(files))
  }

  /** Neither a file header nor a hunk header to the parser. */
  predicate NoHeader(line: string) {
    && PathFromHeader(line, "--- ").None?
    && PathFromHeader(line, "+++ ").None?
    && ParseHunkHeader(line).None?
  }

  /** A line the parser passes over between files: no header, and no mark. */
  predicate Neutral(line: string) {
    NoHeader(line) && !(" " <= line) && !("+" <= line) && !("-" <= line)
  }

  ghost predicate RenderableHunk(h: Hunk) {
    && (forall line :: line in h.body ==> NoHeader(line) && PlainLine(line))
    && '\n' !in h.heading && Trimmed(h.heading)
    && h.oldStart <= I64_MAX && h.newStart <= I64_MAX
  }

  ghost predicate RenderableHunks(hunks: seq<Hunk>) {
    forall h :: h in hunks ==> RenderableHunk(h)
  }

  ghost predicate Renderable(f: FileDiff) {
    && (forall line :: line in f.preamble ==> Neutral(line) && PlainLine(line))
    && '\n' !in f.path && (f.path != "" ==> !IsWhitespace(f.path[|f.path| - 1]))
    && RenderableHunks(f.hunks)
  }

  /** What the index keeps of a range, without the excerpt. */
  datatype Summary = Summary(path: string, start: int, end: int, heading: string)

  function SummaryOf(r: Range): Summary {
    Summary(r.path, r.start, r.end, r.heading)
  }

  function Summaries(ranges: seq<Range>): seq<Summary> {
    if ranges == [] then []
    else
      var r := ranges[|ranges| - 1];
      Summaries(ranges[..|ranges| - 1]) + if r.side == Right then [SummaryOf(r)] else []
  }

  /** The new-side lines of all the hunks. */
  function NewTotal(hunks: seq<Hunk>): nat {
    if hunks == [] then 0 else NewTotal(hunks[..|hunks| - 1]) + NewCount(hunks[|hunks| - 1].body)
  }

  /** Where the range of hunk `k` ends: the lines of all hunks of the file count towards the first one. */
  function EndOf(hunks: seq<Hunk>, k: nat): int
    requires k < |hunks|
  {
    if k == 0 then hunks[0].newStart + NewTotal(hunks) else hunks[k].newStart
  }

  /** The ranges of a file, one per hunk. */
  function Expected(f: FileDiff): (e: seq<Summary>)
    ensures |e| == |f.hunks|
  {
    seq(|f.hunks|, k requires 0 <= k < |f.hunks| =>
      Summary(f.path, f.hunks[k].newStart, EndOf(f.hunks, k), f.hunks[k].heading))
  }

  function ExpectedAll(files: seq<FileDiff>): seq<Summary> {
    if files == [] then [] else ExpectedAll(files[..|files| - 1]) + Expected(files[|files| - 1])
  }

  // ----- Which lines are headers -----

  /** The lines that start a hunk or a file: a body may hold every other line. */
  lemma WhatIsNoHeader(line: string)
    ensures PathFromHeader(line, "--- ").None? <==> !("--- " <= line) || Trim(line[4..]) in ["", "/dev/null"]
    ensures PathFromHeader(line, "+++ ").None? <==> !("+++ " <= line) || Trim(line[4..]) in ["", "/dev/null"]
    ensures ParseHunkHeader(line).Some? ==> "@@" <= Trim(line)
    ensures !("--- " <= line) && !("+++ " <= line) && !("@@" <= Trim(line)) ==> NoHeader(line)
  {
  }

  /** Marked lines of a body are taken for headers only in these cases. */
  lemma MarkedLines(text: string)
    ensures !("-- " <= text) ==> NoHeader("-" + text)
    ensures !("++ " <= text) ==> NoHeader("+" + text)
    ensures !("@@" <= Trim(text)) ==> NoHeader(" " + text)
  {
    assert ("-" + text)[1..] == text && ("+" + text)[1..] == text && (" " + text)[1..] == text;
    assert ("-" + text)[0] == '-' && ("+" + text)[0] == '+' && (" " + text)[0] == ' ';
    FirstCharStays("-" + text);
    FirstCharStays("+" + text);
    assert TrimStart(" " + text) == TrimStart(text);
    WhatIsNoHeader("-" + text);
    WhatIsNoHeader("+" + text);
    WhatIsNoHeader(" " + text);
  }

  lemma FirstCharStays(s: string)
    requires s != "" && !IsWhitespace(s[0])
    ensures Trim(s) != "" && Trim(s)[0] == s[0]
  {
    EndTrimmed(s);
  }

  lemma {:induction false} EndTrimmed(s: string)
    requires s != "" && !IsWhitespace(s[0])
    ensures TrimEnd(s) != "" && TrimEnd(s)[0] == s[0]
    decreases |s|
  {
    if IsWhitespace(s[|s| - 1]) {
      EndTrimmed(s[..|s| - 1]);
    }
  }

  // ----- The rendered headers are recognised -----

  /** Behind any of the four side prefixes, or none, the path of a file header is recovered. */
  lemma HeaderPath(prefix: string, side: string, path: string)
    requires prefix != "" && side in ["a/", "b/", "i/", "w/", ""]
    requires path != "" && Trimmed(path) && path != "/dev/null"
    requires side == "" ==> StripSide(path) == path
    ensures PathFromHeader(prefix + (side + path), prefix) == Some(path)
  {
    StripOfConcat(prefix, side + path);
    TrimOfTrimmed(side + path);
    assert side == "" ==> side + path == path;
    assert side != "" ==> (side + path)[2..] == path && (side + path)[..2] == side;
  }

  lemma OldHeader(f: FileDiff)
    requires Renderable(f)
    ensures PathFromHeader("--- a/" + f.path, "--- ").Some?
  {
    var line := "--- a/" + f.path;
    assert line[4..] == "a/" + f.path;
    TrimOfTrimmed("a/" + f.path);
  }

  lemma NewHeader(f: FileDiff)
    requires Renderable(f)
    ensures PathFromHeader("+++ b/" + f.path, "--- ").None?
    ensures PathFromHeader("+++ b/" + f.path, "+++ ") == Some(f.path)
  {
    var line := "+++ b/" + f.path;
    var path := "b/" + f.path;
    assert line[0] == '+';
    assert line[4..] == path;
    TrimOfTrimmed(path);
    assert path[0] == 'b' && path[2..] == f.path;
  }

  /** Digits and commas: neither white space nor '@'. */
  lemma RangeTextChars(start: nat, count: nat)
    ensures RangeText(start, count) != "" && NoWhitespace(RangeText(start, count)) && '@' !in RangeText(start, count)
  {
    var s := RangeText(start, count);
    forall k | 0 <= k < |s|
      ensures IsDigit(s[k]) || s[k] == ','
    {
    }
  }

  lemma StartOfRange(start: nat, count: nat, sign: char)
    requires start <= I64_MAX
    ensures StartOf([sign] + RangeText(start, count), [sign]) == Some(start)
  {
    var coords := RangeText(start, count);
    assert ([sign] + coords)[1..] == coords;
    ParseOfDecimal(start);
    assert ',' !in Decimal(start);
    if count == 1 {
      assert coords == Decimal(start);
      IndexBehind(Decimal(start), ',', "");
      assert coords[..|coords|] == coords;
    } else {
      assert coords == Decimal(start) + [','] + Decimal(count);
      IndexBehind(Decimal(start), ',', Decimal(count));
    }
  }

  lemma HeadingTrimmed(heading: string)
    requires Trimmed(heading)
    ensures Trim(if heading == "" then "" else " " + heading) == heading
  {
    if heading != "" {
      assert (" " + heading)[1..] == heading;
      TrimOfTrimmed(heading);
    }
  }

  lemma CoordsParsed(oldText: string, newText: string)
    requires NoWhitespace(oldText) && newText != "" && NoWhitespace(newText)
    ensures var coords := ("-" + oldText) + " " + ("+" + newText);
            Words(Trim(coords + " ")) == ["-" + oldText, "+" + newText]
  {
    var coords := ("-" + oldText) + " " + ("+" + newText);
    assert (coords + " ")[0] == '-';
    assert (coords + " ")[..|coords|] == coords;
    assert coords[|coords| - 1] == newText[|newText| - 1];
    assert TrimStart(coords + " ") == coords + " ";
    assert TrimEnd(coords + " ") == TrimEnd(coords) == coords;
    WordsOfTwo("-" + oldText, "+" + newText);
  }

  lemma HunkLineTrimmed(rest: string, tail: string, before: string)
    requires rest == before + ("@@" + tail) && before != "" && before[0] == '-'
    requires tail != "" ==> !IsWhitespace(tail[|tail| - 1])
    ensures var line := "@@" + (" " + rest);
            Trim(line) == line && line[2..] == " " + rest && TrimStart(line[2..]) == rest
  {
    var line := "@@" + (" " + rest);
    assert line[|line| - 1] == ("@@" + tail)[|tail| + 1];
    assert line[0] == '@';
    TrimOfTrimmed(line);
    assert line[2..] == " " + rest && (" " + rest)[1..] == rest;
    assert rest[0] == '-';
  }

  lemma HunkHeaderParsed(h: Hunk)
    requires RenderableHunk(h)
    ensures ParseHunkHeader(HunkLine(h)) == Some(HunkHeader(h.oldStart, h.newStart, h.heading))
  {
    hide TrimStart, TrimEnd, Trim, Words, Find, StartOf, RangeText, NoWhitespace;
    var line := HunkLine(h);
    var oldText, newText := RangeText(h.oldStart, OldCount(h.body)), RangeText(h.newStart, NewCount(h.body));
    RangeTextChars(h.oldStart, OldCount(h.body));
    RangeTextChars(h.newStart, NewCount(h.body));
    var tail := if h.heading == "" then "" else " " + h.heading;
    var before := ("-" + oldText) + " " + ("+" + newText) + " ";
    var rest := before + ("@@" + tail);
    assert line == "@@" + (" " + rest);
    HunkLineTrimmed(rest, tail, before);
    assert '@' !in before;
    FindBehind(before, "@@", tail);
    assert rest[..|before|] == before;
    assert rest[|before| + 2..] == tail;
    CoordsParsed(oldText, newText);
    HeadingTrimmed(h.heading);
    assert "-" + oldText == ['-'] + oldText && "+" + newText == ['+'] + newText;
    StartOfRange(h.oldStart, OldCount(h.body), '-');
    StartOfRange(h.newStart, NewCount(h.body), '+');
  }

  // ----- Lines, one after the other -----

  lemma {:induction false} ParseConcat(p: Parser, a: seq<string>, b: seq<string>)
    ensures ParseLines(p, a + b) == ParseLines(ParseLines(p, a), b)
    decreases |b|
  {
    hide ParseLine;
    if b == [] {
      assert a + b == a;
    } else {
      var n := |b| - 1;
      assert (a + b)[..|a + b| - 1] == a + b[..n];
      ParseConcat(p, a, b[..n]);
    }
  }

  lemma ParseSnoc(p: Parser, lines: seq<string>, line: string)
    ensures ParseLines(p, lines + [line]) == ParseLine(ParseLines(p, lines), line)
  {
    assert (lines + [line])[..|lines|] == lines;
  }

  lemma {:induction false} SummariesConcat(a: seq<Range>, b: seq<Range>)
    ensures Summaries(a + b) == Summaries(a) + Summaries(b)
    decreases |b|
  {
    if b == [] {
      assert a + b == a;
    } else {
      var n := |b| - 1;
      assert (a + b)[..|a + b| - 1] == a + b[..n];
      SummariesConcat(a, b[..n]);
    }
  }

  lemma {:induction false} ExcerptsDoNotShow(a: seq<Range>, k: nat, excerpt: string)
    requires k < |a|
    ensures Summaries(a[k := a[k].(excerpt := excerpt)]) == Summaries(a)
    decreases |a|
  {
    var n := |a| - 1;
    var b := a[k := a[k].(excerpt := excerpt)];
    if k < n {
      assert b[..n] == a[..n][k := a[..n][k].(excerpt := excerpt)];
      ExcerptsDoNotShow(a[..n], k, excerpt);
    } else {
      assert b[..n] == a[..n];
    }
  }

  function Everything(p: Parser): seq<Range> {
    p.ranges + p.hunks
  }

  lemma NeutralLine(p: Parser, line: string)
    requires Neutral(line)
    ensures Summaries(Everything(ParseLine(p, line))) == Summaries(Everything(p))
  {
    hide PathFromHeader, ParseHunkHeader, ExtendExcerpt;
    if |p.hunks| >= 2 {
      var right, left := p.hunks[0], p.hunks[1];
      var hunks := p.hunks[0 := right.(excerpt := ExtendExcerpt(right.excerpt, line))];
      assert CountLine(p, line).hunks == hunks[1 := left];
      assert hunks[1 := left] == hunks;
      ExcerptsDoNotShow(p.hunks, 0, ExtendExcerpt(right.excerpt, line));
      SummariesConcat(p.ranges, p.hunks);
      SummariesConcat(p.ranges, hunks);
    }
  }

  lemma {:induction false} PreamblePassedOver(p: Parser, lines: seq<string>)
    requires forall line :: line in lines ==> Neutral(line)
    ensures Summaries(Everything(ParseLines(p, lines))) == Summaries(Everything(p))
    decreases |lines|
  {
    hide ParseLine, Summaries, Neutral;
    if lines != [] {
      var n := |lines| - 1;
      PreamblePassedOver(p, lines[..n]);
      NeutralLine(ParseLines(p, lines[..n]), lines[n]);
    }
  }

  /**
    The ranges of a file whose hunks `hunks` have been seen, two per hunk: `total` new-side
    lines have counted towards the first one, none towards the others.
  */
  ghost predicate Holds(path: string, hunks: seq<Hunk>, total: nat, ranges: seq<Range>) {
    && |ranges| == 2 * |hunks|
    && forall k :: 0 <= k < |hunks| ==>
         && ranges[2 * k].side == Right && ranges[2 * k + 1].side == Left
         && ranges[2 * k].path == path && ranges[2 * k].heading == hunks[k].heading
         && ranges[2 * k].start == hunks[k].newStart
         && ranges[2 * k].end == hunks[k].newStart + (if k == 0 then total else 0)
  }

  lemma OpenHolds(p: Parser, hunks: seq<Hunk>, total: nat, h: Hunk)
    requires Holds(p.path, hunks, total, p.hunks) && (hunks == [] ==> total == 0)
    ensures var q := OpenHunk(p, HunkHeader(h.oldStart, h.newStart, h.heading));
            q.ranges == p.ranges && q.path == p.path && Holds(p.path, hunks + [h], total, q.hunks)
  {
  }

  lemma CountHolds(p: Parser, hunks: seq<Hunk>, total: nat, line: string)
    requires Holds(p.path, hunks, total, p.hunks) && hunks != []
    ensures var q := CountLine(p, line);
            var more := if " " <= line || "+" <= line then 1 else 0;
            q.ranges == p.ranges && q.path == p.path && Holds(p.path, hunks, total + more, q.hunks)
  {
    hide ExtendExcerpt;
  }

  lemma {:induction false} BodyCounted(p: Parser, hunks: seq<Hunk>, total: nat, body: seq<string>)
    requires Holds(p.path, hunks, total, p.hunks) && hunks != []
    requires forall line :: line in body ==> NoHeader(line)
    ensures var q := ParseLines(p, body);
            q.ranges == p.ranges && q.path == p.path && Holds(p.path, hunks, total + NewCount(body), q.hunks)
    decreases |body|
  {
    hide PathFromHeader, ParseHunkHeader, CountLine, Holds;
    if body != [] {
      var n := |body| - 1;
      BodyCounted(p, hunks, total, body[..n]);
      assert NoHeader(body[n]);
      CountHolds(ParseLines(p, body[..n]), hunks, total + NewCount(body[..n]), body[n]);
    }
  }

  lemma OldHeaderLine(p: Parser, f: FileDiff)
    requires Renderable(f)
    ensures ParseLine(p, "--- a/" + f.path) == p
  {
    hide PathFromHeader, ParseHunkHeader;
    OldHeader(f);
  }

  lemma NewHeaderLine(p: Parser, f: FileDiff)
    requires Renderable(f)
    ensures ParseLine(p, "+++ b/" + f.path) == Parser(Everything(p), f.path, [])
  {
    hide PathFromHeader, ParseHunkHeader;
    NewHeader(f);
  }

  lemma HunkHeaderLine(p: Parser, h: Hunk)
    requires RenderableHunk(h)
    ensures ParseLine(p, HunkLine(h)) == OpenHunk(p, HunkHeader(h.oldStart, h.newStart, h.heading))
  {
    hide PathFromHeader, ParseHunkHeader, HunkLine, OpenHunk;
    HunkHeaderParsed(h);
    HunkLineIsNoFileHeader(h);
  }

  lemma HunkLineIsNoFileHeader(h: Hunk)
    ensures PathFromHeader(HunkLine(h), "--- ").None? && PathFromHeader(HunkLine(h), "+++ ").None?
  {
    assert HunkLine(h)[0] == '@';
  }

  /** The two file headers start a file without hunks. */
  lemma HeadersParsed(p: Parser, f: FileDiff)
    requires Renderable(f)
    ensures ParseLines(p, ["--- a/" + f.path, "+++ b/" + f.path]) == Parser(Everything(p), f.path, [])
  {
    hide ParseLine, ParseLines, Renderable;
    var a, b := "--- a/" + f.path, "+++ b/" + f.path;
    OldHeaderLine(p, f);
    NewHeaderLine(p, f);
    OneLine(p, a);
    ParseSnoc(p, [a], b);
    assert [a] + [b] == [a, b];
  }

  lemma OneLine(p: Parser, line: string)
    ensures ParseLines(p, [line]) == ParseLine(p, line)
  {
    hide ParseLine;
    assert [line][..0] == [] && ParseLines(p, []) == p;
  }

  /** One more hunk behind those already seen. */
  lemma HunkParsed(p: Parser, hunks: seq<Hunk>, total: nat, h: Hunk)
    requires Holds(p.path, hunks, total, p.hunks) && (hunks == [] ==> total == 0) && RenderableHunk(h)
    ensures var q := ParseLines(p, [HunkLine(h)] + h.body);
            && q.ranges == p.ranges && q.path == p.path
            && Holds(p.path, hunks + [h], total + NewCount(h.body), q.hunks)
  {
    hide ParseLine, ParseLines, HunkLine, OpenHunk, Holds, RenderableHunk, NewCount;
    OpenHolds(p, hunks, total, h);
    HunkHeaderLine(p, h);
    OneLine(p, HunkLine(h));
    HunkBodyCounted(ParseLine(p, HunkLine(h)), hunks + [h], total, h);
    ParseConcat(p, [HunkLine(h)], h.body);
  }

  lemma LastHunk(hunks: seq<Hunk>) returns (before: seq<Hunk>, last: Hunk)
    requires hunks != []
    ensures hunks == before + [last] && |before| < |hunks|
    ensures HunkLines(hunks) == HunkLines(before) + ([HunkLine(last)] + last.body)
    ensures NewTotal(hunks) == NewTotal(before) + NewCount(last.body)
    ensures RenderableHunks(hunks) ==> RenderableHunks(before) && RenderableHunk(last)
  {
    hide HunkLine, NewCount, RenderableHunk;
    before, last := hunks[..|hunks| - 1], hunks[|hunks| - 1];
    assert forall h :: h in before ==> h in hunks;
  }

  lemma NoHunks(p: Parser)
    requires p.hunks == []
    ensures ParseLines(p, HunkLines([])) == p && NewTotal([]) == 0 && Holds(p.path, [], 0, p.hunks)
  {
  }

  lemma {:induction false} HunksParsed(p: Parser, hunks: seq<Hunk>)
    requires p.hunks == [] && RenderableHunks(hunks)
    ensures var q := ParseLines(p, HunkLines(hunks));
            q.ranges == p.ranges && q.path == p.path && Holds(p.path, hunks, NewTotal(hunks), q.hunks)
    decreases |hunks|
  {
    hide ParseLines, Holds, HunkLine, HunkLines, NewTotal, RenderableHunk, RenderableHunks, NewCount;
    NoHunks(p);
    if hunks != [] {
      var before, last := LastHunk(hunks);
      HunksParsed(p, before);
      HunkParsed(ParseLines(p, HunkLines(before)), before, NewTotal(before), last);
      ParseConcat(p, HunkLines(before), [HunkLine(last)] + last.body);
    }
  }

  lemma HunkBodyCounted(p: Parser, hunks: seq<Hunk>, total: nat, h: Hunk)
    requires Holds(p.path, hunks, total, p.hunks) && hunks != [] && RenderableHunk(h)
    ensures var q := ParseLines(p, h.body);
            q.ranges == p.ranges && q.path == p.path && Holds(p.path, hunks, total + NewCount(h.body), q.hunks)
  {
    hide Holds, NoHeader, ParseLines, NewCount;
    BodyCounted(p, hunks, total, h.body);
  }

  lemma FileParsed(p: Parser, f: FileDiff)
    requires Renderable(f)
    ensures Summaries(Everything(ParseLines(p, FileLines(f)))) == Summaries(Everything(p)) + Expected(f)
  {
    hide HunkLines, NoHeader, Neutral, ParseLines, Summaries, Expected, PlainLine, Holds, RenderableHunk;
    var headers := ["--- a/" + f.path, "+++ b/" + f.path];
    PreamblePassedOver(p, f.preamble);
    var q := ParseLines(p, f.preamble);
    ParseConcat(p, f.preamble, headers);
    HeadersParsed(q, f);
    ParseConcat(p, f.preamble + headers, HunkLines(f.hunks));
    var r := ParseLines(q, headers);
    HunksParsed(r, f.hunks);
    var t := ParseLines(r, HunkLines(f.hunks));
    SummariesConcat(t.ranges, t.hunks);
    HeldSummaries(f, t.hunks);
  }

  lemma HeldSummaries(f: FileDiff, ranges: seq<Range>)
    requires Holds(f.path, f.hunks, NewTotal(f.hunks), ranges)
    ensures Summaries(ranges) == Expected(f)
  {
    hide Summaries, NewTotal;
    PairSummaries(ranges, Expected(f));
  }

  /** Of pairs of a right and a left range the right ones are kept. */
  lemma {:induction false} PairSummaries(pairs: seq<Range>, kept: seq<Summary>)
    requires |pairs| == 2 * |kept|
    requires forall k :: 0 <= k < |kept| ==>
               && pairs[2 * k].side == Right && pairs[2 * k + 1].side == Left
               && SummaryOf(pairs[2 * k]) == kept[k]
    ensures Summaries(pairs) == kept
    decreases |kept|
  {
    if kept != [] {
      var n := |kept| - 1;
      PairSummaries(pairs[..2 * n], kept[..n]);
      var odd := pairs[..2 * n + 1];
      assert odd == pairs[..|pairs| - 1] && odd[..2 * n] == pairs[..2 * n];
      assert pairs[2 * n + 1].side == Left && pairs[2 * n].side == Right;
      assert Summaries(odd) == kept[..n] + [kept[n]];
    }
  }

  lemma {:induction false} FilesParsed(files: seq<FileDiff>)
    requires forall f :: f in files ==> Renderable(f)
    ensures Summaries(Everything(ParseLines(START, DiffLines(files)))) == ExpectedAll(files)
    decreases |files|
  {
    hide ParseLine, Renderable, FileLines, Summaries;
    if files == [] {
      NoSummaries();
      assert Everything(ParseLines(START, DiffLines(files))) == [];
    } else {
      var n := |files| - 1;
      FilesParsed(files[..n]);
      ParseConcat(START, DiffLines(files[..n]), FileLines(files[n]));
      FileParsed(ParseLines(START, DiffLines(files[..n])), files[n]);
    }
  }

  lemma NoSummaries()
    ensures Summaries([]) == []
  {
  }

  lemma {:induction false} SummariesOfRight(ranges: seq<Range>)
    ensures var right := RightOnly(ranges);
            && Summaries(right) == Summaries(ranges)
            && |Summaries(right)| == |right|
            && forall k :: 0 <= k < |right| ==>
                 && right[k].side == Right
                 && Summaries(right)[k] == SummaryOf(right[k])
    decreases |ranges|
  {
    if ranges != [] {
      var n := |ranges| - 1;
      SummariesOfRight(ranges[..n]);
      var before := RightOnly(ranges[..n]);
      if ranges[n].side == Right {
        var right := RightOnly(ranges);
        assert right == before + [ranges[n]];
        assert right[..|right| - 1] == before;
        var last := SummaryOf(ranges[n]);
        assert Summaries(right) == Summaries(before) + [last];
        assert Summaries(ranges) == Summaries(ranges[..n]) + [last];
      } else {
        assert RightOnly(ranges) == before + [] == before;
      }
    }
  }

  // ----- Excerpts -----

  /** The lines that belong in an excerpt. */
  function Kept(lines: seq<string>): seq<string> {
    if lines == [] then []
    else
      var line := lines[|lines| - 1];
      Kept(lines[..|lines| - 1]) +
      if "--- " <= line || "+++ " <= line || "diff " <= line || "index " <= line then [] else [line]
  }

  function JoinedLines(lines: seq<string>): string {
    if lines == [] then ""
    else if |lines| == 1 then lines[0]
    else JoinedLines(lines[..|lines| - 1]) + "\n" + lines[|lines| - 1]
  }

  /** Bytes in UTF-8: one for each character below 128, then two, three or four. */
  lemma Utf8LenIs(s: string, c: char)
    ensures Utf8Len("") == 0
    ensures Utf8Len(s + [c]) == Utf8Len(s) + if c as int < 128 then 1 else if c as int < 2048 then 2
                                             else if c as int < 65536 then 3 else 4
  {
    assert (s + [c])[..|s|] == s;
    assert c < '\U{0080}' <==> c as int < 128;
    assert c < '\U{0800}' <==> c as int < 2048;
    assert c < '\U{10000}' <==> c as int < 65536;
  }

  lemma JoinedMore(lines: seq<string>, line: string)
    requires forall l :: l in lines ==> l != ""
    ensures JoinedLines(lines + [line]) == if lines == [] then line else JoinedLines(lines) + "\n" + line
    ensures JoinedLines(lines) == "" <==> lines == []
  {
    assert (lines + [line])[..|lines|] == lines;
    if |lines| == 1 {
      assert lines[0] in lines;
    }
  }

  /**
    The excerpt of a file's first range: the kept lines that follow its header, joined, and
    no line more once they have come to 1024 bytes.
  */
  lemma {:induction false} ExcerptOfLines(p: Parser, lines: seq<string>) returns (n: nat)
    requires |p.hunks| >= 2 && p.hunks[0].excerpt == ""
    requires forall line :: line in lines ==> NoHeader(line) && line != ""
    ensures n <= |Kept(lines)| && |ParseLines(p, lines).hunks| == |p.hunks|
    ensures ParseLines(p, lines).hunks[0].excerpt == JoinedLines(Kept(lines)[..n])
    ensures n == |Kept(lines)| || Utf8Len(JoinedLines(Kept(lines)[..n])) >= 1024
    ensures n > 0 ==> Utf8Len(JoinedLines(Kept(lines)[..n - 1])) < 1024
    decreases |lines|
  {
    hide PathFromHeader, ParseHunkHeader, Utf8Len, JoinedLines;
    n := 0;
    if lines == [] {
      NothingJoined();
    } else {
      var k := |lines| - 1;
      n := ExcerptOfLines(p, lines[..k]);
      assert NoHeader(lines[k]);
      n := ExcerptOfNext(ParseLines(p, lines[..k]), lines, k, n);
    }
  }

  lemma NothingJoined()
    ensures JoinedLines([]) == "" && JoinedLines([][..0]) == ""
  {
  }

  lemma {:induction false} KeptLines(lines: seq<string>)
    ensures forall line :: line in Kept(lines) ==> line in lines
    decreases |lines|
  {
    if lines != [] {
      KeptLines(lines[..|lines| - 1]);
    }
  }

  lemma KeptNotEmpty(lines: seq<string>, k: nat, n: nat)
    requires k <= |lines| && n <= |Kept(lines[..k])| && forall line :: line in lines ==> line != ""
    ensures forall line :: line in Kept(lines[..k])[..n] ==> line != ""
  {
    hide Kept;
    var kept := Kept(lines[..k]);
    KeptLines(lines[..k]);
    forall line | line in kept[..n]
      ensures line != ""
    {
      assert line in kept;
      assert line in lines[..k];
      assert line in lines;
    }
  }

  /** One more line, behind `n` lines of the excerpt. */
  lemma ExcerptOfNext(p: Parser, lines: seq<string>, k: nat, n: nat) returns (m: nat)
    requires |lines| == k + 1 && |p.hunks| >= 2 && n <= |Kept(lines[..k])|
    requires forall line :: line in lines ==> line != ""
    requires p.hunks[0].excerpt == JoinedLines(Kept(lines[..k])[..n])
    requires n == |Kept(lines[..k])| || Utf8Len(JoinedLines(Kept(lines[..k])[..n])) >= 1024
    requires n > 0 ==> Utf8Len(JoinedLines(Kept(lines[..k])[..n - 1])) < 1024
    ensures m <= |Kept(lines)|
    ensures CountLine(p, lines[k]).hunks[0].excerpt == JoinedLines(Kept(lines)[..m])
    ensures m == |Kept(lines)| || Utf8Len(JoinedLines(Kept(lines)[..m])) >= 1024
    ensures m > 0 ==> Utf8Len(JoinedLines(Kept(lines)[..m - 1])) < 1024
  {
    hide Utf8Len, JoinedLines;
    var before, all, line := Kept(lines[..k]), Kept(lines), lines[k];
    KeptNotEmpty(lines, k, n);
    assert all[..n] == before[..n] && (n > 0 ==> all[..n - 1] == before[..n - 1]);
    JoinedMore(before[..n], line);
    if |all| > |before| && n == |before| && Utf8Len(p.hunks[0].excerpt) < 1024 {
      m := n + 1;
      assert before[..n] == before && all[..m] == before + [line] && all[..m - 1] == before;
    } else {
      m := n;
    }
  }

  // ----- Plain text -----

  lemma PlainFile(f: FileDiff)
    requires Renderable(f)
    ensures PlainLines(FileLines(f))
  {
    hide NoHeader, Neutral, PlainLine, HunkLines, RenderableHunk;
    FileHeadersArePlain(f);
    PlainHunks(f.hunks);
    var headers := ["--- a/" + f.path, "+++ b/" + f.path];
    assert forall k :: 0 <= k < |f.preamble| ==> f.preamble[k] in f.preamble;
    assert PlainLines(f.preamble) && PlainLines(headers);
    hide PlainLines, Renderable;
    PlainConcat(f.preamble, headers);
    PlainConcat(f.preamble + headers, HunkLines(f.hunks));
  }

  lemma {:induction false} PlainHunks(hunks: seq<Hunk>)
    requires RenderableHunks(hunks)
    ensures PlainLines(HunkLines(hunks))
    decreases |hunks|
  {
    hide HunkLine, RenderableHunk, RenderableHunks, PlainLine;
    if hunks != [] {
      hide HunkLines, PlainLines;
      var before, last := LastHunk(hunks);
      PlainHunks(before);
      PlainHunk(last);
      PlainConcat(HunkLines(before), [HunkLine(last)] + last.body);
    }
  }

  lemma PlainHunk(h: Hunk)
    requires RenderableHunk(h)
    ensures PlainLines([HunkLine(h)] + h.body)
  {
    hide HunkLine, PlainLine, NoHeader;
    HunkLineIsPlain(h);
    assert forall k :: 0 <= k < |h.body| ==> h.body[k] in h.body;
    assert PlainLines([HunkLine(h)]) && PlainLines(h.body);
    PlainConcat([HunkLine(h)], h.body);
  }

  lemma FileHeadersArePlain(f: FileDiff)
    requires Renderable(f)
    ensures PlainLine("--- a/" + f.path) && PlainLine("+++ b/" + f.path)
  {
    hide NoHeader, Neutral;
  }

  lemma HunkLineIsPlain(h: Hunk)
    requires RenderableHunk(h)
    ensures PlainLine(HunkLine(h))
  {
    hide RangeText, NoHeader, Neutral;
    RangeTextChars(h.oldStart, OldCount(h.body));
    RangeTextChars(h.newStart, NewCount(h.body));
    var oldText, newText := RangeText(h.oldStart, OldCount(h.body)), RangeText(h.newStart, NewCount(h.body));
    NoLineBreak(oldText);
    NoLineBreak(newText);
    var line := HunkLine(h);
    assert '\n' !in line;
    assert line[|line| - 1] == if h.heading == "" then '@' else h.heading[|h.heading| - 1];
  }

  lemma NoLineBreak(s: string)
    requires NoWhitespace(s)
    ensures '\n' !in s
  {
  }

  lemma {:induction false} PlainDiff(files: seq<FileDiff>)
    requires forall f :: f in files ==> Renderable(f)
    ensures PlainLines(DiffLines(files))
    decreases |files|
  {
    hide Renderable, FileLines;
    if files != [] {
      var n := |files| - 1;
      PlainDiff(files[..n]);
      PlainFile(files[n]);
    }
  }

  // ----- Main results -----

  /**
    Round trip: of every rendered diff the parser recovers each path, new start and
    heading in order.  The range of a file's first hunk ends at its start plus the
    new-side lines of all hunks of the file; every later range is a single line.
  */
  lemma ParseOfRender(files: seq<FileDiff>)
    requires forall f :: f in files ==> Renderable(f)
    ensures Summaries(Parse(Render(files))) == ExpectedAll(files)
    ensures |Parse(Render(files))| == |ExpectedAll(files)|
  {
    hide Renderable, ParseLines, DiffLines;
    PlainDiff(files);
    LinesOfUnlines(DiffLines(files));
    FilesParsed(files);
    var p := ParseLines(START, DiffLines(files));
    SummariesOfRight(Everything(p));
  }

  lemma {:induction false} ExpectedMembers(files: seq<FileDiff>, e: Summary)
    ensures e in ExpectedAll(files) <==>
            exists i, k :: 0 <= i < |files| && 0 <= k < |files[i].hunks| && e == Expected(files[i])[k]
    decreases |files|
  {
    hide Expected;
    if files != [] {
      var n := |files| - 1;
      ExpectedMembers(files[..n], e);
      assert forall i :: 0 <= i < n ==> files[..n][i] == files[i];
      if i, k :| 0 <= i < |files| && 0 <= k < |files[i].hunks| && e == Expected(files[i])[k] {
        assert i == n ==> Expected(files[n])[k] in Expected(files[n]);
      }
    }
  }

  predicate Admits(e: Summary, a: Anchor) {
    PathMatches(e.path, a) && e.start <= a.line <= e.end
  }

  lemma AcceptsBySummary(ranges: seq<Range>, a: Anchor)
    ensures Accepts(RightOnly(ranges), a) <==> exists e :: e in Summaries(RightOnly(ranges)) && Admits(e, a)
  {
    hide PathMatches, RightOnly;
    var index := RightOnly(ranges);
    SummariesOfRight(ranges);
    if Accepts(index, a) {
      var j :| 0 <= j < |index| && Matches(index[j], a) && Contains(index[j], a);
      assert Summaries(index)[j] in Summaries(index) && Admits(Summaries(index)[j], a);
    }
    if e :| e in Summaries(index) && Admits(e, a) {
      var j :| 0 <= j < |Summaries(index)| && Summaries(index)[j] == e;
      assert Matches(index[j], a) && Contains(index[j], a);
    }
  }

  /** The line is in the range that the index keeps of hunk `k`. */
  predicate InRange(hunks: seq<Hunk>, k: nat, line: int)
    requires k < |hunks|
  {
    hunks[k].newStart <= line <= EndOf(hunks, k)
  }

  lemma AcceptedByName(files: seq<FileDiff>, a: Anchor)
    requires forall f :: f in files ==> Renderable(f)
    ensures Accepts(Parse(Render(files)), a) <==>
            exists i, k :: 0 <= i < |files| && 0 <= k < |files[i].hunks|
                           && PathMatches(files[i].path, a) && InRange(files[i].hunks, k, a.line)
  {
    hide Renderable, ParseLines, Lines, Render, Accepts, PathMatches, EndOf;
    var p := ParseLines(START, Lines(Render(files)));
    ParseOfRender(files);
    AcceptsBySummary(p.ranges + p.hunks, a);
    var all := ExpectedAll(files);
    if e :| e in all && Admits(e, a) {
      ExpectedMembers(files, e);
      var i, k :| 0 <= i < |files| && 0 <= k < |files[i].hunks| && e == Expected(files[i])[k];
      assert PathMatches(files[i].path, a) && InRange(files[i].hunks, k, a.line);
    }
    if i, k :| 0 <= i < |files| && 0 <= k < |files[i].hunks|
               && PathMatches(files[i].path, a) && InRange(files[i].hunks, k, a.line) {
      ExpectedMembers(files, Expected(files[i])[k]);
      assert Admits(Expected(files[i])[k], a);
    }
  }

  /**
    What the validator accepts against the index of a rendered diff: in a matching file
    the lines from the start of the first hunk on, as many as all its hunks have new-side
    lines and one more, and of every later hunk the first line only.
  */
  lemma AcceptedLines(files: seq<FileDiff>, a: Anchor)
    requires forall f :: f in files ==> Renderable(f)
    ensures Accepts(Parse(Render(files)), a) <==>
            exists i, k :: 0 <= i < |files| && 0 <= k < |files[i].hunks|
                           && (exists u: string :: files[i].path == u + a.path)
                           && files[i].hunks[k].newStart <= a.line
                           && a.line <= files[i].hunks[k].newStart + if k == 0 then NewTotal(files[i].hunks) else 0
  {
    hide Renderable, ParseLines, Lines, Render, Accepts, PathMatches, NewTotal;
    AcceptedByName(files, a);
    forall i | 0 <= i < |files|
      ensures PathMatches(files[i].path, a) <==> exists u: string :: files[i].path == u + a.path
    {
      MatchesIff(files[i].path, a);
    }
    if i, k :| 0 <= i < |files| && 0 <= k < |files[i].hunks|
               && PathMatches(files[i].path, a) && InRange(files[i].hunks, k, a.line) {
      assert files[i].hunks[k].newStart <= a.line;
    }
    if i, k :| 0 <= i < |files| && 0 <= k < |files[i].hunks|
               && (exists u: string :: files[i].path == u + a.path) && files[i].hunks[k].newStart <= a.line
               && a.line <= files[i].hunks[k].newStart + if k == 0 then NewTotal(files[i].hunks) else 0 {
      assert PathMatches(files[i].path, a) && InRange(files[i].hunks, k, a.line);
    }
  }

  /** The line numbers that the hunk covers on its new side. */
  predicate OnNewSide(h: Hunk, line: int) {
    h.newStart <= line < h.newStart + NewCount(h.body)
  }

  lemma {:induction false} FirstCounts(hunks: seq<Hunk>)
    requires hunks != []
    ensures NewCount(hunks[0].body) <= NewTotal(hunks)
    decreases |hunks|
  {
    if |hunks| > 1 {
      FirstCounts(hunks[..|hunks| - 1]);
    } else {
      assert NewTotal(hunks[..0]) == 0;
    }
  }

  /**
    Every new-side line of a file's first hunk is accepted under its own path, and so is
    the line behind the last hunk's worth, which need not be in the diff.
  */
  lemma NewSideIsAccepted(files: seq<FileDiff>, i: nat, a: Anchor)
    requires i < |files| && forall f :: f in files ==> Renderable(f)
    requires files[i].hunks != [] && a.path == files[i].path
    requires OnNewSide(files[i].hunks[0], a.line) || a.line == files[i].hunks[0].newStart + NewTotal(files[i].hunks)
    ensures Accepts(Parse(Render(files)), a)
  {
    hide Renderable, Parse, Render, Accepts, NewTotal, NewCount;
    AcceptedByName(files, a);
    FirstCounts(files[i].hunks);
    assert InRange(files[i].hunks, 0, a.line);
  }

  /** The hunks of a file follow each other without overlap on the new side. */
  predicate Ordered(hunks: seq<Hunk>) {
    forall j, k :: 0 <= j < k < |hunks| ==> hunks[j].newStart + NewCount(hunks[j].body) <= hunks[k].newStart
  }

  /**
    The exact condition for the new-side lines of a file to be accepted: those of the first
    hunk always; of a later hunk its first line, and the others only as far as the range
    of the first hunk reaches by counting the lines of all hunks.
  */
  lemma NewSideAcceptedIff(files: seq<FileDiff>, i: nat, k: nat, a: Anchor)
    requires i < |files| && forall f :: f in files ==> Renderable(f)
    requires k < |files[i].hunks| && Ordered(files[i].hunks) && OnNewSide(files[i].hunks[k], a.line)
    requires a.path == files[i].path
    requires forall j, u: string :: 0 <= j < |files| && j != i ==> files[j].path != u + a.path
    ensures var hunks := files[i].hunks;
            Accepts(Parse(Render(files)), a) <==>
            k == 0 || a.line == hunks[k].newStart || a.line <= hunks[0].newStart + NewTotal(hunks)
  {
    hide Renderable, Parse, Render, Accepts, NewTotal, NewCount;
    var hunks := files[i].hunks;
    AcceptedByName(files, a);
    FirstCounts(hunks);
    forall j | 0 <= j < |files|
      ensures PathMatches(files[j].path, a) <==> exists u: string :: files[j].path == u + a.path
    {
      MatchesIff(files[j].path, a);
    }
    if k == 0 || a.line <= hunks[0].newStart + NewTotal(hunks) {
      assert PathMatches(files[i].path, a) && InRange(files[i].hunks, 0, a.line);
    } else if a.line == hunks[k].newStart {
      assert PathMatches(files[i].path, a) && InRange(files[i].hunks, k, a.line);
    } else {
      forall j | 0 <= j < |hunks|
        ensures !InRange(hunks, j, a.line)
      {
      }
    }
  }
}
