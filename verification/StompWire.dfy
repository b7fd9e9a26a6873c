/**
 Frames on the wire, octet by octet: how one is written (`WriteMeans`), and what one pass of the reader takes off
 a buffer, down to the line ends, the colons and the number in `content-length` (`FrameMeans`).
 */
module StompWire {
  import opened Lists
  import opened StompFrames
  import opened Wrappers

  // ---------------------------------------------------------------------------------- written

  /** Each header on a line of its own, with a colon behind its key. */
  function HeaderText(headers: seq<(Octets, Octets)>): Octets {
    if headers == [] then [] else [10] + headers[0].0 + [58] + headers[0].1 + HeaderText(headers[1..])
  }

  lemma {:induction false} JoinedIs(command: Octets, headers: seq<(Octets, Octets)>)
    ensures JoinLines([command] + HeaderLines(headers)) == command + HeaderText(headers)
    decreases |headers|
  {
    var lines := [command] + HeaderLines(headers);
    assert lines[1..] == HeaderLines(headers);
    if headers == [] {
      assert command + [] == command;
    } else {
      var first := HeaderLine(headers[0]);
      assert HeaderLines(headers) == [first] + HeaderLines(headers[1..]);
      JoinedIs(first, headers[1..]);
      assert command + [10] + (first + HeaderText(headers[1..]))
          == command + ([10] + headers[0].0 + [58] + headers[0].1 + HeaderText(headers[1..]));
    }
  }

  /** A frame as it is written: command, headers, an empty line, the body and a null octet. */
  lemma WriteMeans(sent: Sent)
    ensures Write(sent) == sent.command + HeaderText(sent.headers) + [10, 10] + sent.body + [0]
  {
    JoinedIs(sent.command, sent.headers);
  }

  // ------------------------------------------------------------------------------ a stated length

  /** Octets that `int` passes over at both ends. */
  predicate IsBlanks(s: Octets) {
    forall i :: 0 <= i < |s| ==> s[i] in {9, 10, 11, 12, 13, 28, 29, 30, 31, 32}
  }

  predicate IsNumeric(b: Octet) {
    '0' as int <= b as int <= '9' as int
  }

  /** A digit, or an underscore behind one. */
  predicate IsDigitAt(s: Octets, i: nat)
    requires i < |s|
  {
    IsNumeric(s[i]) || (s[i] as int == '_' as int && i > 0 && IsNumeric(s[i - 1]))
  }

  /** Digits, with single underscores between them. */
  predicate IsRunOfDigits(s: Octets) {
    s != [] && IsNumeric(s[|s| - 1]) && forall i :: 0 <= i < |s| ==> IsDigitAt(s, i)
  }

  /** The number that the digits write, the underscores left out. */
  function NumberOf(s: Octets): nat {
    if s == [] then 0
    else
      var before, last := NumberOf(s[..|s| - 1]), s[|s| - 1] as int;
      if '0' as int <= last <= '9' as int then 10 * before + (last - '0' as int) else before
  }

  /** The number of some digits behind a sign or none. */
  predicate IsSigned(sign: Octets, digits: Octets, n: int) {
    || (sign == [] && n == NumberOf(digits))
    || (sign == Ascii("+") && n == NumberOf(digits))
    || (sign == Ascii("-") && -n == NumberOf(digits))
  }

  /** The text is a number as `int` reads it: blanks at both ends, a sign or none, digits. */
  ghost predicate IsNumeral(text: Octets, n: int) {
    exists lead: Octets, sign: Octets, digits: Octets, trail: Octets ::
      && text == lead + sign + digits + trail && IsBlanks(lead) && IsBlanks(trail)
      && IsRunOfDigits(digits) && IsSigned(sign, digits, n)
  }

  lemma RunIs(s: Octets)
    ensures IsRunOfDigits(s) <==> IsDigitRun(s)
  {
    if IsRunOfDigits(s) {
      assert IsDigitAt(s, 0);
      forall i | 0 <= i < |s|
        ensures IsDigit(s[i]) || s[i] == UNDERSCORE
      {
        assert IsDigitAt(s, i);
      }
      forall i | 0 <= i < |s| - 1
        ensures s[i] != UNDERSCORE || s[i + 1] != UNDERSCORE
      {
        assert IsDigitAt(s, i) && IsDigitAt(s, i + 1);
      }
    }
    if IsDigitRun(s) {
      forall i | 0 <= i < |s|
        ensures IsDigitAt(s, i)
      {
        if i > 0 {
          assert s[i - 1] != UNDERSCORE || s[i - 1 + 1] != UNDERSCORE;
        }
      }
    }
  }

  lemma {:induction false} NumberIs(s: Octets)
    ensures NumberOf(s) == DigitValue(s)
  {
    if s != [] {
      NumberIs(s[..|s| - 1]);
    }
  }

  lemma InFront(b: Octet, lead: Octets, core: Octets, trail: Octets)
    ensures [b] + (lead + core + trail) == [b] + lead + core + trail
  {
  }

  lemma Behind(b: Octet, lead: Octets, core: Octets, trail: Octets)
    ensures lead + core + trail + [b] == lead + core + (trail + [b])
  {
  }

  /** What is left between the blanks. */
  lemma {:induction false} StripIs(s: Octets) returns (lead: Octets, trail: Octets)
    ensures s == lead + StripBlanks(s) + trail && IsBlanks(lead) && IsBlanks(trail)
    decreases |s|
  {
    if s != [] && IsBlank(s[0]) {
      var rest;
      rest, trail := StripIs(s[1..]);
      lead := [s[0]] + rest;
      assert s == [s[0]] + s[1..] && StripBlanks(s) == StripBlanks(s[1..]);
      InFront(s[0], rest, StripBlanks(s), trail);
    } else if s != [] && IsBlank(s[|s| - 1]) {
      var n, rest := |s| - 1, [];
      lead, rest := StripIs(s[..n]);
      trail := rest + [s[n]];
      assert s == s[..n] + [s[n]] && StripBlanks(s) == StripBlanks(s[..n]);
      Behind(s[n], lead, StripBlanks(s), rest);
    } else {
      lead, trail := [], [];
    }
  }

  lemma {:induction false} StripBack(core: Octets, trail: Octets)
    requires core != [] && !IsBlank(core[0]) && !IsBlank(core[|core| - 1]) && IsBlanks(trail)
    ensures StripBlanks(core + trail) == core
    decreases |trail|
  {
    var s := core + trail;
    if trail == [] {
      assert s == core;
    } else {
      var n := |trail| - 1;
      StripBack(core, trail[..n]);
      assert s[..|s| - 1] == core + trail[..n];
      assert s[0] == core[0] && s[|s| - 1] == trail[n];
    }
  }

  lemma {:induction false} StripBoth(lead: Octets, core: Octets, trail: Octets)
    requires core != [] && !IsBlank(core[0]) && !IsBlank(core[|core| - 1]) && IsBlanks(lead) && IsBlanks(trail)
    ensures StripBlanks(lead + core + trail) == core
    decreases |lead|
  {
    var s := lead + core + trail;
    if lead == [] {
      assert s == core + trail;
      StripBack(core, trail);
    } else {
      StripBoth(lead[1..], core, trail);
      assert s[1..] == lead[1..] + core + trail;
      assert s[0] == lead[0];
    }
  }

  lemma SignedRead(sign: Octets, digits: Octets)
    requires IsDigitRun(digits) && (sign == [] || sign == [PLUS] || sign == [MINUS])
    ensures sign + digits != [] && !IsBlank((sign + digits)[0]) && !IsBlank((sign + digits)[|sign + digits| - 1])
    ensures StripBlanks(sign + digits) == sign + digits
    ensures ReadInt(sign + digits) == Some(if sign == [MINUS] then -(DigitValue(digits) as int) else DigitValue(digits))
  {
    var core := sign + digits;
    assert core[|core| - 1] == digits[|digits| - 1];
    if sign != [] {
      assert core[1..] == digits && core[0] == sign[0];
    } else {
      assert core == digits;
    }
  }

  lemma SameStrip(a: Octets, b: Octets)
    requires StripBlanks(a) == StripBlanks(b)
    ensures ReadInt(a) == ReadInt(b)
  {
  }

  lemma NumeralIsRead(text: Octets, lead: Octets, sign: Octets, digits: Octets, trail: Octets, n: int)
    requires text == lead + sign + digits + trail && IsBlanks(lead) && IsBlanks(trail)
    requires IsRunOfDigits(digits) && IsSigned(sign, digits, n)
    ensures ReadInt(text) == Some(n)
  {
    hide IsDigitRun, IsRunOfDigits, DigitValue, NumberOf, StripBlanks, IsBlanks, ReadInt;
    Signs();
    RunIs(digits);
    NumberIs(digits);
    SignedRead(sign, digits);
    assert text == lead + (sign + digits) + trail;
    StripBoth(lead, sign + digits, trail);
    SameStrip(text, sign + digits);
  }

  lemma ReadIsNumeral(text: Octets, n: int)
    requires ReadInt(text) == Some(n)
    ensures IsNumeral(text, n)
  {
    hide IsDigitRun, IsRunOfDigits, DigitValue, NumberOf, StripBlanks, IsBlanks;
    var lead, trail := StripIs(text);
    var t := StripBlanks(text);
    Signs();
    var sign := if t != [] && (t[0] == PLUS || t[0] == MINUS) then t[..1] else [];
    var digits := t[|sign|..];
    RunIs(digits);
    NumberIs(digits);
    assert t == sign + digits;
    assert text == lead + sign + digits + trail;
  }

  /** `int`, on any octets. */
  lemma IntMeans(text: Octets, n: int)
    ensures ReadInt(text) == Some(n) <==> IsNumeral(text, n)
  {
    hide IsRunOfDigits, IsBlanks, IsSigned, ReadInt;
    if IsNumeral(text, n) {
      var lead: Octets, sign: Octets, digits: Octets, trail: Octets :|
        && text == lead + sign + digits + trail && IsBlanks(lead) && IsBlanks(trail)
        && IsRunOfDigits(digits) && IsSigned(sign, digits, n);
      NumeralIsRead(text, lead, sign, digits, trail, n);
    }
    if ReadInt(text) == Some(n) {
      ReadIsNumeral(text, n);
    }
  }

  lemma Signs()
    ensures Ascii("+") == [PLUS] && Ascii("-") == [MINUS]
  {
  }

  // -------------------------------------------------------------------------------------- a head

  /** Lines with a line feed between each two. */
  function Unlines(lines: seq<Octets>): Octets
    requires lines != []
  {
    if |lines| == 1 then lines[0] else lines[0] + [10] + Unlines(lines[1..])
  }

  predicate AreSplit(text: Octets, lines: seq<Octets>) {
    lines != [] && (forall i :: 0 <= i < |lines| ==> 10 !in lines[i]) && text == Unlines(lines)
  }

  lemma {:induction false} LinesAreSplit(s: Octets)
    ensures AreSplit(s, SplitLines(s))
  {
    if s != [] {
      var rest := SplitLines(s[1..]);
      LinesAreSplit(s[1..]);
      assert s == [s[0]] + s[1..];
      if s[0] == LF {
        assert ([[]] + rest)[1..] == rest;
        assert [] + [10] + Unlines(rest) == [10] + Unlines(rest);
      } else if |rest| == 1 {
        assert [[s[0]] + rest[0]] + rest[1..] == [[s[0]] + rest[0]];
      } else {
        var all := [[s[0]] + rest[0]] + rest[1..];
        assert all[1..] == rest[1..];
        assert [s[0]] + (rest[0] + [10] + Unlines(rest[1..])) == [s[0]] + rest[0] + [10] + Unlines(rest[1..]);
      }
    }
  }

  lemma {:induction false} DropIsPicked(s: Octets)
    ensures DropCrs(s) == Filter(s, (b: Octet) => b != 13)
  {
    if s != [] {
      DropIsPicked(s[1..]);
      FilterOfConcat([s[0]], s[1..], (b: Octet) => b != 13);
      assert s == [s[0]] + s[1..];
      FilterOfOne(s[0], (b: Octet) => b != 13);
    }
  }

  lemma FilterOfOne(b: Octet, p: Octet -> bool)
    ensures Filter([b], p) == if p(b) then [b] else []
  {
    assert [b][..0] == [];
  }

  /** The line as key and value: at its first colon, or the whole line and nothing. */
  predicate IsParted(line: Octets, key: Octets, value: Octets) {
    58 !in key && (line == key + [58] + value || (line == key && value == []))
  }

  lemma {:induction false} PartedIs(line: Octets, key: Octets, value: Octets)
    ensures IsParted(line, key, value) <==> Partition(line) == (key, value)
  {
    if 58 in line {
      PartedAtColon(line);
      PartedOnce(line, key, value, Partition(line).0, Partition(line).1);
    } else {
      PartedWhole(line);
      ColonIn(key, value);
    }
  }

  lemma ColonIn(key: Octets, value: Octets)
    ensures 58 in key + [58] + value
  {
    assert (key + [58] + value)[|key|] == 58;
  }

  lemma {:induction false} PartedAtColon(line: Octets)
    requires 58 in line
    ensures var (key, value) := Partition(line);
            58 !in key && line == key + [58] + value
  {
    if line[0] == 58 {
      assert line == [] + [58] + line[1..];
    } else {
      PartedAtColon(line[1..]);
      var (key, value) := Partition(line[1..]);
      assert line == [line[0]] + line[1..];
      assert [line[0]] + (key + [58] + value) == [line[0]] + key + [58] + value;
    }
  }

  lemma {:induction false} PartedWhole(line: Octets)
    requires 58 !in line
    ensures Partition(line) == (line, [])
  {
    if line != [] {
      PartedWhole(line[1..]);
      assert line == [line[0]] + line[1..];
    }
  }

  lemma PartedOnce(line: Octets, key: Octets, value: Octets, k: Octets, v: Octets)
    requires 58 in line && 58 !in k && line == k + [58] + v
    ensures IsParted(line, key, value) <==> key == k && value == v
  {
    if IsParted(line, key, value) {
      assert line[|k|] == 58;
      assert line == key + [58] + value && line[|key|] == 58;
      assert forall i :: 0 <= i < |k| ==> line[i] == k[i] && k[i] in k;
      assert forall i :: 0 <= i < |key| ==> line[i] == key[i] && key[i] in key;
      assert |k| == |key|;
      assert key == line[..|key|] == k;
      assert value == line[|key| + 1..] == v;
    }
  }

  /** No line in front of this one has the key. */
  ghost predicate IsFirst(lines: seq<Octets>, i: nat, key: Octets)
    requires i < |lines|
  {
    forall j, w :: 0 <= j < i ==> !IsParted(lines[j], key, w)
  }

  /** Each key with the value of the first line that has it, and no other key. */
  ghost predicate AreHeaders(lines: seq<Octets>, headers: Headers) {
    && (forall i, k, v :: 0 <= i < |lines| && IsParted(lines[i], k, v) ==>
                            k in headers && (IsFirst(lines, i, k) ==> headers[k] == v))
    && forall k :: k in headers ==> exists i, v :: 0 <= i < |lines| && IsParted(lines[i], k, v)
  }

  lemma {:induction false} KeysHold(lines: seq<Octets>, k: Octets)
    ensures k in HeaderMap(lines) <==> exists i :: 0 <= i < |lines| && Partition(lines[i]).0 == k
  {
    hide Partition;
    if lines != [] {
      var n := |lines| - 1;
      KeysHold(lines[..n], k);
      if i :| 0 <= i < n && Partition(lines[..n][i]).0 == k {
        assert Partition(lines[i]).0 == k;
      }
      if i :| 0 <= i < |lines| && Partition(lines[i]).0 == k {
        assert i < n ==> Partition(lines[..n][i]).0 == k;
      }
    }
  }

  lemma {:induction false} FirstHolds(lines: seq<Octets>, i: nat)
    requires i < |lines| && forall j :: 0 <= j < i ==> Partition(lines[j]).0 != Partition(lines[i]).0
    ensures var (key, value) := Partition(lines[i]); key in HeaderMap(lines) && HeaderMap(lines)[key] == value
  {
    hide Partition;
    var n := |lines| - 1;
    assert forall j :: 0 <= j < n ==> lines[..n][j] == lines[j];
    KeysHold(lines[..n], Partition(lines[i]).0);
    if i < n {
      FirstHolds(lines[..n], i);
    }
  }

  lemma FirstIs(lines: seq<Octets>, i: nat, key: Octets)
    requires i < |lines|
    ensures IsFirst(lines, i, key) <==> forall j :: 0 <= j < i ==> Partition(lines[j]).0 != key
  {
    hide Partition, IsParted;
    forall j, w | 0 <= j < i
      ensures IsParted(lines[j], key, w) <==> Partition(lines[j]) == (key, w)
    {
      PartedIs(lines[j], key, w);
    }
    if IsFirst(lines, i, key) {
      forall j | 0 <= j < i
        ensures Partition(lines[j]).0 != key
      {
        assert !IsParted(lines[j], key, Partition(lines[j]).1);
      }
    }
    if forall j :: 0 <= j < i ==> Partition(lines[j]).0 != key {
      forall j, w | 0 <= j < i
        ensures !IsParted(lines[j], key, w)
      {
        PartedIs(lines[j], key, w);
      }
    }
  }

  lemma HeadersAre(lines: seq<Octets>)
    ensures AreHeaders(lines, HeaderMap(lines))
  {
    hide Partition, IsParted, HeaderMap, IsFirst;
    forall i, k, v | 0 <= i < |lines| && IsParted(lines[i], k, v)
      ensures k in HeaderMap(lines) && (IsFirst(lines, i, k) ==> HeaderMap(lines)[k] == v)
    {
      PartedIs(lines[i], k, v);
      FirstIs(lines, i, k);
      KeysHold(lines, k);
      if IsFirst(lines, i, k) {
        FirstHolds(lines, i);
      }
    }
    forall k | k in HeaderMap(lines)
      ensures exists i, v :: 0 <= i < |lines| && IsParted(lines[i], k, v)
    {
      KeysHold(lines, k);
      var i :| 0 <= i < |lines| && Partition(lines[i]).0 == k;
      PartedIs(lines[i], k, Partition(lines[i]).1);
    }
  }

  // -------------------------------------------------------------------------------------- a frame

  /** The command and the headers of a head: carriage returns are left out, the first line is the command. */
  ghost predicate IsHead(head: Octets, command: Octets, headers: Headers) {
    exists text, lines ::
      && Picks(head, text, (b: Octet) => b != 13) && AreSplit(text, lines)
      && command == lines[0] && AreHeaders(lines[1..], headers)
  }

  lemma HeadMeans(head: Octets)
    ensures IsHead(head, HeadOf(head)[0], HeaderMap(HeadOf(head)[1..]))
  {
    hide Picks, AreSplit, AreHeaders, DropCrs, SplitLines, Filter;
    DropIsPicked(head);
    FilterPicks(head, (b: Octet) => b != 13, (b: Octet) => b != 13);
    LinesAreSplit(DropCrs(head));
    HeadersAre(HeadOf(head)[1..]);
  }

  /** The first empty line of the buffer ends its head here. */
  predicate EndsHead(buffer: Octets, at: nat) {
    && at + 2 <= |buffer| && buffer[at] == 10 && buffer[at + 1] == 10
    && forall i :: 0 <= i < at ==> !(buffer[i] == 10 && buffer[i + 1] == 10)
  }

  /** What the frame's own length header says, or a null octet, ends the body; both are passed over. */
  ghost predicate IsBody(after: Octets, headers: Headers, body: Octets, rest: Octets) {
    var key := Ascii("content-length");
    if key in headers then
      IsNumeral(headers[key], |body|) && |body| < |after| && body == after[..|body|] && rest == after[|body| + 1..]
    else 0 !in body && after == body + [0] + rest
  }

  lemma LengthKey()
    ensures Ascii("content-length") == CONTENT_LENGTH
  {
    var key := Ascii("content-length");
    assert |key| == 14;
    assert key[0] == 99 && key[1] == 111 && key[2] == 110 && key[3] == 116 && key[4] == 101 && key[5] == 110
           && key[6] == 116 && key[7] == 45 && key[8] == 108 && key[9] == 101 && key[10] == 110 && key[11] == 103
           && key[12] == 116 && key[13] == 104;
  }

  lemma LengthMeans(headers: Headers)
    ensures var key := Ascii("content-length");
            match StatedLength(headers)
            case Unstated => key !in headers
            case Stated(n) => key in headers && IsNumeral(headers[key], n)
            case Unreadable => key in headers && forall n: nat :: !IsNumeral(headers[key], n)
  {
    hide ReadInt, IsNumeral;
    LengthKey();
    if CONTENT_LENGTH in headers {
      forall n: int
        ensures ReadInt(headers[CONTENT_LENGTH]) == Some(n) <==> IsNumeral(headers[CONTENT_LENGTH], n)
      {
        IntMeans(headers[CONTENT_LENGTH], n);
      }
    }
  }

  /** One pass of the reader: a frame is taken off the buffer, or none is there yet, for want of an empty line or of
      the body's end, or its length cannot be read. */
  lemma FrameMeans(buffer: Octets)
    ensures match ReadFrame(buffer)
            case Complete(frame, rest) =>
              exists at: nat :: EndsHead(buffer, at) && IsHead(buffer[..at], frame.command, frame.headers)
                           && IsBody(buffer[at + 2..], frame.headers, frame.body, rest)
            case Incomplete =>
              || (forall at: nat :: !EndsHead(buffer, at))
              || exists at: nat, command, headers ::
                   EndsHead(buffer, at) && IsHead(buffer[..at], command, headers) && IsOpen(buffer[at + 2..], headers)
            case BadLength =>
              exists at: nat, command, headers ::
                && EndsHead(buffer, at) && IsHead(buffer[..at], command, headers)
                && Ascii("content-length") in headers
                && forall n: nat :: !IsNumeral(headers[Ascii("content-length")], n)
  {
    hide IsHead, SplitLines, DropCrs, HeaderMap, IsNumeral, StatedLength;
    if FindBlankLine(buffer).Some? {
      var at := FindBlankLine(buffer).value;
      var command, headers := HeadOf(buffer[..at])[0], HeaderMap(HeadOf(buffer[..at])[1..]);
      assert EndsHead(buffer, at);
      HeadMeans(buffer[..at]);
      BodyMeans(buffer, at + 2, command, headers);
      LengthMeans(headers);
    }
  }

  /** The body has not ended. */
  ghost predicate IsOpen(after: Octets, headers: Headers) {
    var key := Ascii("content-length");
    if key in headers then exists n: nat :: IsNumeral(headers[key], n) && |after| <= n else 0 !in after
  }

  lemma BodyMeans(buffer: Octets, at: nat, command: Octets, headers: Headers)
    requires at <= |buffer|
    ensures match ReadBody(buffer, at, command, headers)
            case Complete(frame, rest) =>
              frame.command == command && frame.headers == headers && IsBody(buffer[at..], headers, frame.body, rest)
            case Incomplete => IsOpen(buffer[at..], headers)
            case BadLength => StatedLength(headers) == Unreadable
  {
    hide IsNumeral, StatedLength;
    LengthMeans(headers);
    match StatedLength(headers) {
      case Unreadable =>
      case Stated(n) =>
        if at + n < |buffer| {
          assert buffer[at..][..n] == buffer[at..at + n] && buffer[at..][n + 1..] == buffer[at + n + 1..];
        }
      case Unstated =>
        if FindNul(buffer, at).Some? {
          var end := FindNul(buffer, at).value;
          assert buffer[at..] == buffer[at..end] + [0] + buffer[end + 1..];
        }
    }
  }

  /** The octets that may stand between frames. */
  predicate AreLineEnds(s: Octets) {
    forall i :: 0 <= i < |s| ==> s[i] == 10 || s[i] == 13
  }

  /** Reading passes over line ends, takes one frame off what follows, and goes on with the rest. */
  lemma ParseMeans(gap: Octets, s: Octets)
    requires AreLineEnds(gap) && (s != [] ==> s[0] != 10 && s[0] != 13)
    ensures Parse(gap + s) ==
              if s == [] then Read([], [])
              else
                match ReadFrame(s)
                case BadLength => Refused
                case Incomplete => Read([], s)
                case Complete(frame, rest) => Prepend([frame], Parse(rest))
  {
    hide ReadFrame;
    HeartBeatIsSkipped(gap, s);
    StripTwice(s);
  }
}
