/**
 The walk that finds a workflow's trigger block. `OnBlock` accepts exactly the language of the
 pattern it replaced (`NoneMissed`, `FoundIsFirst`), and its inner walks never overlap: together they
 take no more steps than the text has lines.
 */
module OnBlock {
  import opened Wrappers

  /** What `str.isspace` holds of one character. */
  predicate IsSpace(c: char) {
    var n := c as int;
    9 <= n <= 13 || 28 <= n <= 32 || n == 0x85 || n == 0xA0 || n == 0x1680 || 0x2000 <= n <= 0x200A
    || n == 0x2028 || n == 0x2029 || n == 0x202F || n == 0x205F || n == 0x3000
  }

  predicate NoBreak(line: string) {
    forall k :: 0 <= k < |line| ==> line[k] != '\n'
  }

  predicate Blank(line: string) {
    forall k :: 0 <= k < |line| ==> IsSpace(line[k])
  }

  /** A line the block may hold: indented by two spaces, or blank. */
  predicate IsBody(line: string) {
    (|line| >= 2 && line[0] == ' ' && line[1] == ' ') || Blank(line)
  }

  predicate IsClosing(line: string) {
    |line| > 0 && !IsSpace(line[0])
  }

  /** `text.split("\n")`. */
  function Lines(text: string): (r: seq<string>)
    ensures |r| >= 1
  {
    if text == "" then [""]
    else
      var rest := Lines(text[1..]);
      if text[0] == '\n' then [""] + rest else [[text[0]] + rest[0]] + rest[1..]
  }

  /** Lines, each with its newline. */
  function Terminated(lines: seq<string>): string {
    if lines == [] then "" else lines[0] + "\n" + Terminated(lines[1..])
  }

  function Text(lines: seq<string>): string
    requires |lines| >= 1
  {
    Terminated(lines[..|lines| - 1]) + lines[|lines| - 1]
  }

  predicate NoBreaks(lines: seq<string>) {
    forall k :: 0 <= k < |lines| ==> NoBreak(lines[k])
  }

  lemma {:induction false} TextOfRest(first: string, rest: seq<string>)
    requires |rest| >= 1
    ensures Text([first] + rest) == first + "\n" + Text(rest)
  {
    var all := [first] + rest;
    assert all[..|all| - 1] == [first] + rest[..|rest| - 1];
    assert ([first] + rest[..|rest| - 1])[1..] == rest[..|rest| - 1];
  }

  lemma TextOfGrown(c: char, rest: seq<string>)
    requires |rest| >= 1
    ensures Text([[c] + rest[0]] + rest[1..]) == [c] + Text(rest)
  {
    hide Text;
    if |rest| == 1 {
      TextOfOne([c] + rest[0]);
      TextOfOne(rest[0]);
      assert [[c] + rest[0]] + rest[1..] == [[c] + rest[0]] && rest == [rest[0]];
    } else {
      assert [rest[0]] + rest[1..] == rest;
      TextOfRest(rest[0], rest[1..]);
      TextOfRest([c] + rest[0], rest[1..]);
    }
  }

  lemma TextOfOne(line: string)
    ensures Text([line]) == line
  {
    assert [line][..0] == [];
  }

  /** Splitting loses nothing. */
  lemma {:induction false} TextOfLines(text: string)
    ensures Text(Lines(text)) == text && NoBreaks(Lines(text))
  {
    hide Text;
    if text == "" {
      TextOfOne("");
    } else {
      var rest := Lines(text[1..]);
      TextOfLines(text[1..]);
      if text[0] == '\n' {
        TextOfRest("", rest);
      } else {
        TextOfGrown(text[0], rest);
      }
    }
  }

  /** And there is only one way to split. */
  lemma {:induction false} LinesOfText(lines: seq<string>)
    requires |lines| >= 1 && NoBreaks(lines)
    ensures Lines(Text(lines)) == lines
    decreases |lines|, |lines[0]|
  {
    var first := lines[0];
    var text := Text(lines);
    if |lines| > 1 {
      assert lines == [first] + lines[1..];
      TextOfRest(first, lines[1..]);
    }
    if first == "" {
      if |lines| > 1 {
        LinesOfText(lines[1..]);
        assert text[1..] == Text(lines[1..]);
      }
    } else {
      var shorter := [first[1..]] + lines[1..];
      if |lines| > 1 {
        TextOfRest(first[1..], lines[1..]);
      }
      assert text[0] == first[0] && text[1..] == Text(shorter);
      assert NoBreaks(shorter) by {
        assert forall k :: 0 <= k < |first[1..]| ==> first[1..][k] == first[k + 1];
      }
      LinesOfText(shorter);
      assert first[0] != '\n';
      assert Lines(text) == [[first[0]] + shorter[0]] + shorter[1..];
      assert shorter[1..] == lines[1..] && [first[0]] + first[1..] == first;
    }
  }

  lemma {:induction false} TerminatedOfConcat(a: seq<string>, b: seq<string>)
    ensures Terminated(a + b) == Terminated(a) + Terminated(b)
  {
    if a == [] {
      assert a + b == b;
    } else {
      TerminatedOfConcat(a[1..], b);
      assert (a + b)[1..] == a[1..] + b;
    }
  }

  lemma TerminatedAround(before: seq<string>, body: seq<string>)
    ensures Terminated(before + ["on:"] + body) == Terminated(before) + "on:\n" + Terminated(body)
  {
    TerminatedOfConcat(before + ["on:"], body);
    TerminatedOfConcat(before, ["on:"]);
    assert Terminated(["on:"]) == "on:\n";
  }

  /** Lines `start + 1 .. end` are a block: under an `on:` line, at least one, closed by line `end`. */
  predicate IsBlock(lines: seq<string>, start: nat, end: nat) {
    && start + 1 < end < |lines|
    && lines[start] == "on:"
    && (forall k :: start < k < end ==> IsBody(lines[k]))
    && IsClosing(lines[end])
  }

  /** A match of the pattern in the text: `on:` alone on a line, at least one body line, and then a line
      whose first character is not whitespace. */
  predicate Match(text: string, before: seq<string>, body: seq<string>, rest: string) {
    && text == Terminated(before) + "on:\n" + Terminated(body) + rest
    && NoBreaks(before) && NoBreaks(body)
    && |body| >= 1 && (forall k :: 0 <= k < |body| ==> IsBody(body[k]))
    && |rest| > 0 && !IsSpace(rest[0])
  }

  // The text's lines from `end` on.
  lemma TextCutAt(lines: seq<string>, at: nat)
    requires at < |lines|
    ensures Text(lines) == Terminated(lines[..at]) + Text(lines[at..])
  {
    var last := |lines| - 1;
    TerminatedOfConcat(lines[..at], lines[at..last]);
    assert lines[..at] + lines[at..last] == lines[..last];
    assert lines[at..][..|lines| - at - 1] == lines[at..last];
  }

  // A line that starts with no whitespace starts the text of the lines from it.
  lemma FirstOfText(lines: seq<string>)
    requires |lines| >= 1 && |lines[0]| > 0
    ensures |Text(lines)| > 0 && Text(lines)[0] == lines[0][0]
  {
    if |lines| > 1 {
      assert lines == [lines[0]] + lines[1..];
      TextOfRest(lines[0], lines[1..]);
    }
  }

  lemma BlockText(lines: seq<string>, start: nat, end: nat)
    requires IsBlock(lines, start, end)
    ensures Text(lines)
         == Terminated(lines[..start]) + "on:\n" + Terminated(lines[start + 1..end]) + Text(lines[end..])
  {
    hide IsBody, IsClosing, Text, Terminated;
    TextCutAt(lines, end);
    TerminatedAround(lines[..start], lines[start + 1..end]);
    assert lines[..start] + ["on:"] + lines[start + 1..end] == lines[..end];
  }

  /** A block among the lines is a match in the text. */
  lemma BlockIsMatch(text: string, start: nat, end: nat)
    requires IsBlock(Lines(text), start, end)
    ensures Match(text, Lines(text)[..start], Lines(text)[start + 1..end], Text(Lines(text)[end..]))
  {
    hide Lines, Text, Terminated;
    var lines := Lines(text);
    TextOfLines(text);
    BlockText(lines, start, end);
    var body := lines[start + 1..end];
    assert forall k :: 0 <= k < |body| ==> body[k] == lines[start + 1 + k];
    FirstOfText(lines[end..]);
  }

  lemma MatchSplits(text: string, before: seq<string>, body: seq<string>, rest: string)
    requires Match(text, before, body, rest)
    ensures Lines(text) == before + ["on:"] + body + Lines(rest)
  {
    hide Lines, Text, Terminated, IsBody;
    var head := before + ["on:"] + body;
    var all := head + Lines(rest);
    TextOfLines(rest);
    TextCutAt(all, |head|);
    assert all[..|head|] == head && all[|head|..] == Lines(rest);
    TerminatedAround(before, body);
    assert NoBreaks(all);
    LinesOfText(all);
  }

  lemma FirstLine(rest: string)
    requires |rest| > 0 && !IsSpace(rest[0])
    ensures IsClosing(Lines(rest)[0])
  {
    assert rest[0] != '\n';
  }

  /** And a match in the text is a block among the lines, at the same place. */
  lemma MatchIsBlock(text: string, before: seq<string>, body: seq<string>, rest: string)
    requires Match(text, before, body, rest)
    ensures IsBlock(Lines(text), |before|, |before| + 1 + |body|)
    ensures Lines(text)[|before| + 1..|before| + 1 + |body|] == body
  {
    MatchSplits(text, before, body, rest);
    FirstLine(rest);
    var lines := Lines(text);
    forall k | |before| < k < |before| + 1 + |body|
      ensures IsBody(lines[k])
    {
      assert lines[k] == body[k - |before| - 1];
    }
  }

  /** The lines of a block end where the first line that is no body line stands, so a block is known by
      its `on:` line. */
  lemma OneEnd(lines: seq<string>, start: nat, end: nat, other: nat)
    requires IsBlock(lines, start, end) && IsBlock(lines, start, other)
    ensures end == other
  {
    ClosingIsNoBody(lines[end]);
    ClosingIsNoBody(lines[other]);
  }

  lemma ClosingIsNoBody(line: string)
    requires IsClosing(line)
    ensures !IsBody(line)
  {
    assert !IsSpace(line[0]);
  }

  // No block starts where the walk ends at once, or at a line that closes nothing.
  lemma NoBlockUnder(lines: seq<string>, start: nat, end: nat, e: nat)
    requires start < end < |lines|
    requires forall k :: start < k < end ==> IsBody(lines[k])
    requires end == |lines| - 1 || !IsBody(lines[end])
    requires end == start + 1 || !IsClosing(lines[end])
    ensures !IsBlock(lines, start, e)
  {
    if IsBlock(lines, start, e) {
      ClosingIsNoBody(lines[e]);
    }
  }

  /** `line.startswith("  ") or not line.strip()`: the strip is empty when nothing but whitespace is
      there. */
  method Walk(lines: seq<string>, start: nat) returns (end: nat)
    requires start + 1 < |lines|
    ensures start < end < |lines|
    ensures forall k :: start < k < end ==> IsBody(lines[k])
    ensures end == |lines| - 1 || !IsBody(lines[end])
  {
    end := start + 1;
    while end < |lines| - 1 && IsBody(lines[end])
      invariant start < end <= |lines| - 1
      invariant forall k :: start < k < end ==> IsBody(lines[k])
    {
      end := end + 1;
    }
  }

  /**
   The block under the first `on:` line that has one, with the lines of it that `Walk` passed over in
   all (`steps`). The walks are disjoint because a line that reads `on:` is no body line: each starts at
   or after the end of the one before.
   */
  method OnBlock(text: string) returns (block: Option<string>, steps: nat)
    ensures block.Some? ==> exists start: nat, end: nat ::
              && IsBlock(Lines(text), start, end)
              && block.value == Terminated(Lines(text)[start + 1..end])
              && forall earlier: nat, e: nat :: earlier < start ==> !IsBlock(Lines(text), earlier, e)
    ensures block.None? ==> forall start: nat, end: nat :: !IsBlock(Lines(text), start, end)
    ensures steps <= |Lines(text)|
  {
    var lines := Lines(text);
    var tail := |lines| - 1;
    var start := 0;
    var reached := 0;
    steps := 0;
    while start < tail
      invariant 0 <= start <= tail
      invariant forall s: nat, e: nat :: s < start ==> !IsBlock(lines, s, e)
      invariant reached <= |lines| && steps <= reached
      invariant forall k :: start <= k < reached && k < tail ==> IsBody(lines[k])
    {
      if lines[start] == "on:" {
        assert !IsSpace(lines[start][0]);
        assert !IsBody(lines[start]);
        assert reached <= start;
        var end := Walk(lines, start);
        steps := steps + (end - (start + 1));
        reached := end;
        if end != start + 1 && IsClosing(lines[end]) {
          assert IsBlock(lines, start, end);
          return Some(Terminated(lines[start + 1..end])), steps;
        }
        forall e: nat
          ensures !IsBlock(lines, start, e)
        {
          NoBlockUnder(lines, start, end, e);
        }
      }
      start := start + 1;
    }
    block := None;
  }

  /** With no block among the lines the pattern matches nowhere. */
  lemma NoneMissed(text: string, before: seq<string>, body: seq<string>, rest: string)
    requires forall start: nat, end: nat :: !IsBlock(Lines(text), start, end)
    ensures !Match(text, before, body, rest)
  {
    if Match(text, before, body, rest) {
      MatchIsBlock(text, before, body, rest);
    }
  }

  /** The block the walk returns is the first match: every match starts no earlier, and one that starts at
      the same line has the same text. */
  lemma FoundIsFirst(text: string, start: nat, end: nat, before: seq<string>, body: seq<string>, rest: string)
    requires IsBlock(Lines(text), start, end)
    requires forall earlier: nat, e: nat :: earlier < start ==> !IsBlock(Lines(text), earlier, e)
    requires Match(text, before, body, rest)
    ensures start <= |before|
    ensures |before| == start ==> Terminated(body) == Terminated(Lines(text)[start + 1..end])
  {
    MatchIsBlock(text, before, body, rest);
    if |before| == start {
      OneEnd(Lines(text), start, end, |before| + 1 + |body|);
    }
  }

  // ------------------------------------------------------------------ the pattern, spelled out

  /** The characters that `\s` matches. */
  const WHITESPACE := {9, 10, 11, 12, 13, 28, 29, 30, 31, 32, 0x85, 0xA0, 0x1680, 0x2000, 0x2001, 0x2002, 0x2003,
                       0x2004, 0x2005, 0x2006, 0x2007, 0x2008, 0x2009, 0x200A, 0x2028, 0x2029, 0x202F, 0x205F, 0x3000}

  /** A line that two spaces start, or one of whitespace only. */
  predicate IsIndentedOrEmpty(line: string) {
    || (|line| >= 2 && line[..2] == "  ")
    || forall k :: 0 <= k < |line| ==> line[k] as int in WHITESPACE
  }

  lemma WhitespaceMeans(c: char)
    ensures IsSpace(c) <==> c as int in WHITESPACE
  {
  }

  lemma LineMeans(line: string)
    ensures IsBody(line) <==> IsIndentedOrEmpty(line)
  {
    hide IsSpace;
    forall k | 0 <= k < |line|
      ensures IsSpace(line[k]) <==> line[k] as int in WHITESPACE
    {
      WhitespaceMeans(line[k]);
    }
    if |line| >= 2 {
      assert line[..2] == [line[0], line[1]];
    }
  }

  /** A match: a line `on:`, one body line at least, and what follows starts with no whitespace. */
  lemma MatchMeans(text: string, before: seq<string>, body: seq<string>, rest: string)
    ensures Match(text, before, body, rest) <==>
              && text == Terminated(before + ["on:"] + body) + rest
              && NoBreaks(before) && NoBreaks(body) && body != []
              && (forall k :: 0 <= k < |body| ==> IsIndentedOrEmpty(body[k]))
              && rest != "" && rest[0] as int !in WHITESPACE
  {
    hide IsBody, IsIndentedOrEmpty, IsSpace, Terminated;
    forall k | 0 <= k < |body|
      ensures IsBody(body[k]) <==> IsIndentedOrEmpty(body[k])
    {
      LineMeans(body[k]);
    }
    if rest != "" {
      WhitespaceMeans(rest[0]);
    }
    TerminatedAround(before, body);
  }
}
