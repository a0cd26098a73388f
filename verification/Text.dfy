/** The string operations of the Rust standard library that the line parsers use. */
module Text {
  import opened Wrappers

  // ----- Lines -----

  /** The index of the first `c`, or the length of the text. */
  function IndexOf(s: string, c: char): (k: nat)
    ensures k <= |s| && c !in s[..k]
    ensures k < |s| ==> s[k] == c
  {
    if s == "" || s[0] == c then 0
    else
      var k := IndexOf(s[1..], c) + 1;
      assert s[..k] == [s[0]] + s[1..][..k - 1];
      k
  }

  lemma {:induction false} IndexBehind(word: string, c: char, rest: string)
    requires c !in word
    ensures IndexOf(word + [c] + rest, c) == |word|
    ensures IndexOf(word, c) == |word|
    ensures (word + [c] + rest)[..|word|] == word
    ensures (word + [c] + rest)[|word| + 1..] == rest
  {
    var s := word + [c] + rest;
    if word != "" {
      assert word[0] in word;
      assert s[1..] == word[1..] + [c] + rest;
      IndexBehind(word[1..], c, rest);
    }
  }

  function StripCr(line: string): string {
    if line != "" && line[|line| - 1] == '\r' then line[..|line| - 1] else line
  }

  /** `str::lines`: an ending "\n" or "\r\n" belongs to its line and is dropped with it. */
  function Lines(s: string): seq<string>
    decreases |s|
  {
    if s == "" then []
    else
      var k := IndexOf(s, '\n');
      if k == |s| then [s] else [StripCr(s[..k])] + Lines(s[k + 1..])
  }

  function Unlines(lines: seq<string>): string {
    if lines == [] then "" else lines[0] + ['\n'] + Unlines(lines[1..])
  }

  /** A line that survives being printed and read back. */
  predicate PlainLine(line: string) {
    '\n' !in line && StripCr(line) == line
  }

  ghost predicate PlainLines(lines: seq<string>) {
    forall k :: 0 <= k < |lines| ==> PlainLine(lines[k])
  }

  lemma PlainConcat(a: seq<string>, b: seq<string>)
    requires PlainLines(a) && PlainLines(b)
    ensures PlainLines(a + b)
  {
  }

  lemma {:induction false} LinesOfUnlines(lines: seq<string>)
    requires PlainLines(lines)
    ensures Lines(Unlines(lines)) == lines
  {
    if lines != [] {
      LinesOfUnlines(lines[1..]);
      IndexBehind(lines[0], '\n', Unlines(lines[1..]));
      assert lines == [lines[0]] + lines[1..];
    }
  }

  /** A line that ends in "\r\n" is read without both; a last line without an end is read as it is. */
  lemma LinesOfOne(line: string, rest: string)
    requires '\n' !in line
    ensures Lines(line + "\r\n" + rest) == [line] + Lines(rest)
    ensures Lines(line) == if line == "" then [] else [line]
  {
    assert line + "\r\n" + rest == (line + "\r") + ['\n'] + rest;
    IndexBehind(line + "\r", '\n', rest);
    assert StripCr(line + "\r") == line;
    IndexBehind(line, '\n', "");
  }

  // ----- White space -----

  /** The characters with the Unicode property White_Space. */
  predicate IsWhitespace(c: char) {
    || '\t' <= c <= '\r' || c == ' ' || c == '\U{0085}' || c == '\U{00A0}' || c == '\U{1680}'
    || '\U{2000}' <= c <= '\U{200A}' || c == '\U{2028}' || c == '\U{2029}' || c == '\U{202F}'
    || c == '\U{205F}' || c == '\U{3000}'
  }

  /** By code point. */
  lemma WhitespaceIs(c: char)
    ensures IsWhitespace(c) <==>
            c as int in {9, 10, 11, 12, 13, 32, 133, 160, 5760, 8192, 8193, 8194, 8195, 8196, 8197, 8198, 8199, 8200,
                         8201, 8202, 8232, 8233, 8239, 8287, 12288}
  {
    assert IsWhitespace(c) <==>
      || 9 <= c as int <= 13 || c as int == 32 || c as int == 133 || c as int == 160 || c as int == 5760
      || 8192 <= c as int <= 8202 || c as int == 8232 || c as int == 8233 || c as int == 8239
      || c as int == 8287 || c as int == 12288;
  }

  function TrimStart(s: string): string {
    if s != "" && IsWhitespace(s[0]) then TrimStart(s[1..]) else s
  }

  function TrimEnd(s: string): string {
    if s != "" && IsWhitespace(s[|s| - 1]) then TrimEnd(s[..|s| - 1]) else s
  }

  function Trim(s: string): string {
    TrimEnd(TrimStart(s))
  }

  /** No white space at either end. */
  predicate Trimmed(s: string) {
    s != "" ==> !IsWhitespace(s[0]) && !IsWhitespace(s[|s| - 1])
  }

  predicate NoWhitespace(s: string) {
    forall k :: 0 <= k < |s| ==> !IsWhitespace(s[k])
  }

  lemma TrimOfTrimmed(s: string)
    requires Trimmed(s)
    ensures Trim(s) == s && TrimStart(s) == s && TrimEnd(s) == s
  {
  }

  /** `split_whitespace`. */
  function Words(s: string): seq<string>
    decreases |s|
  {
    if s == "" then []
    else if IsWhitespace(s[0]) then Words(s[1..])
    else
      var k := WordLength(s);
      [s[..k]] + Words(s[k..])
  }

  function WordLength(s: string): (k: nat)
    ensures k <= |s|
    ensures s != "" && !IsWhitespace(s[0]) ==> k > 0
  {
    if s == "" || IsWhitespace(s[0]) then 0 else 1 + WordLength(s[1..])
  }

  lemma {:induction false} WordLengthBefore(word: string, rest: string)
    requires NoWhitespace(word) && (rest != "" ==> IsWhitespace(rest[0]))
    ensures WordLength(word + rest) == |word|
  {
    if word == "" {
      assert word + rest == rest;
    } else {
      assert (word + rest)[1..] == word[1..] + rest;
      WordLengthBefore(word[1..], rest);
    }
  }

  lemma WordsOfTwo(a: string, b: string)
    requires a != "" && b != "" && NoWhitespace(a) && NoWhitespace(b)
    ensures Words(a + " " + b) == [a, b]
  {
    var s := a + " " + b;
    assert s == a + (" " + b);
    WordLengthBefore(a, " " + b);
    assert s[..|a|] == a && s[|a|..] == " " + b;
    assert (" " + b)[1..] == b;
    WordLengthBefore(b, "");
    assert b + "" == b;
    assert b[..|b|] == b && b[|b|..] == "";
    assert Words(b) == [b];
    assert Words(" " + b) == Words(b);
  }

  // ----- Prefixes and searching -----

  function StripPrefix(s: string, prefix: string): Option<string> {
    if prefix <= s then Some(s[|prefix|..]) else None
  }

  lemma StripOfConcat(prefix: string, rest: string)
    ensures StripPrefix(prefix + rest, prefix) == Some(rest)
  {
    assert (prefix + rest)[|prefix|..] == rest;
  }

  /** `str::find`: the first place where the pattern occurs. */
  function Find(s: string, pattern: string): (k: Option<nat>)
    ensures k.Some? ==> k.value <= |s| && pattern <= s[k.value..]
  {
    if pattern <= s then Some(0)
    else if s == "" then None
    else
      match Find(s[1..], pattern)
      case Some(k) => assert s[1..][k..] == s[k + 1..]; Some(k + 1)
      case None => None
  }

  lemma {:induction false} FindBehind(before: string, pattern: string, after: string)
    requires pattern != "" && pattern[0] !in before
    ensures Find(before + (pattern + after), pattern) == Some(|before|)
  {
    var s := before + (pattern + after);
    if before == "" {
      assert s == pattern + after;
    } else {
      assert before[0] in before && s[0] == before[0];
      assert s[1..] == before[1..] + (pattern + after);
      FindBehind(before[1..], pattern, after);
    }
  }

  // ----- Numbers -----

  const I64_MAX: int := 0x7FFF_FFFF_FFFF_FFFF

  predicate IsDigit(c: char) {
    '0' <= c <= '9'
  }

  function ParseDigits(s: string): Option<nat> {
    if s == "" || !IsDigit(s[|s| - 1]) then None
    else
      var d := (s[|s| - 1] as int) - ('0' as int);
      if |s| == 1 then Some(d)
      else
        match ParseDigits(s[..|s| - 1])
        case Some(n) => Some(10 * n + d)
        case None => None
  }

  /** `parse::<i64>`: an optional sign, digits, and no overflow. */
  function ParseI64(s: string): Option<int> {
    var negative := s != "" && s[0] == '-';
    var digits := if s != "" && (s[0] == '-' || s[0] == '+') then s[1..] else s;
    match ParseDigits(digits)
    case None => None
    case Some(n) =>
      var value := if negative then 0 - (n as int) else n as int;
      if -I64_MAX - 1 <= value <= I64_MAX then Some(value) else None
  }

  function DigitChar(d: nat): char
    requires d < 10
  {
    ('0' as int + d) as char
  }

  function Decimal(n: nat): (s: string)
    ensures s != "" && forall k :: 0 <= k < |s| ==> IsDigit(s[k])
  {
    if n < 10 then [DigitChar(n)] else Decimal(n / 10) + [DigitChar(n % 10)]
  }

  lemma {:induction false} DigitsOfDecimal(n: nat)
    ensures ParseDigits(Decimal(n)) == Some(n)
  {
    var s := Decimal(n);
    if n >= 10 {
      DigitsOfDecimal(n / 10);
      assert s[..|s| - 1] == Decimal(n / 10);
    }
  }

  /** Numbers are read with an optional sign, as far as 64 bits reach. */
  lemma ParseOfDecimal(n: nat)
    ensures ParseI64(Decimal(n)) == if n <= 9223372036854775807 then Some(n) else None
    ensures ParseI64("+" + Decimal(n)) == if n <= 9223372036854775807 then Some(n) else None
    ensures ParseI64("-" + Decimal(n)) == if n <= 9223372036854775808 then Some(-(n as int)) else None
  {
    var s := Decimal(n);
    DigitsOfDecimal(n);
    assert IsDigit(s[0]);
    assert ("+" + s)[1..] == s && ("-" + s)[1..] == s;
  }
}
