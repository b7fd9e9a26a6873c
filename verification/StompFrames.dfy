/**
 The STOMP 1.2 frame reader of the C2SIM exercise client: reading frames off a byte buffer, writing
 them, and the two laws that tie them together. How the stream was cut into chunks does not show
 in the frames (`ParseOfConcat`), and written frames read back as they were (`RoundTrip`).
 */
module StompFrames {
  import opened Wrappers

  type Octets = seq<Octet>

  const NUL: Octet := 0
  const LF: Octet := 10
  const CR: Octet := 13
  const COLON: Octet := 58
  const PLUS: Octet := 43
  const MINUS: Octet := 45
  const UNDERSCORE: Octet := 95

  /** `content-length`, octet by octet. */
  const CONTENT_LENGTH: Octets := [99, 111, 110, 116, 101, 110, 116, 45, 108, 101, 110, 103, 116, 104]

  type Headers = map<Octets, Octets>
  datatype Frame = Frame(command: Octets, headers: Headers, body: Octets)

  // ----------------------------------------------------------- the built-ins the reader calls

  predicate IsEol(b: Octet) {
    b == LF || b == CR
  }

  /** `lstrip(b"\r\n")`. */
  function StripEols(s: Octets): (r: Octets)
    ensures |r| <= |s|
    ensures r != [] ==> !IsEol(r[0])
  {
    if s != [] && IsEol(s[0]) then StripEols(s[1..]) else s
  }

  /** `find(b"\n\n")`. */
  function FindBlankLine(s: Octets): (r: Option<nat>)
    ensures r.Some? ==> r.value + 1 < |s| && s[r.value] == LF && s[r.value + 1] == LF
    ensures r.Some? ==> forall i :: 0 <= i < r.value ==> s[i] != LF || s[i + 1] != LF
    ensures r.None? ==> forall i :: 0 <= i < |s| - 1 ==> s[i] != LF || s[i + 1] != LF
  {
    if |s| < 2 then None
    else if s[0] == LF && s[1] == LF then Some(0)
    else
      match FindBlankLine(s[1..])
      case None =>
        assert forall i :: 0 < i < |s| - 1 ==> s[i] == s[1..][i - 1] && s[i + 1] == s[1..][i];
        None
      case Some(k) =>
        assert forall i :: 0 < i < k + 1 ==> s[i] == s[1..][i - 1] && s[i + 1] == s[1..][i];
        Some(k + 1)
  }

  /** `find(b"\x00", from)`. */
  function FindNul(s: Octets, from: nat): (r: Option<nat>)
    requires from <= |s|
    ensures r.Some? ==> from <= r.value < |s| && s[r.value] == NUL
    ensures r.Some? ==> forall i :: from <= i < r.value ==> s[i] != NUL
    ensures r.None? ==> forall i :: from <= i < |s| ==> s[i] != NUL
    decreases |s| - from
  {
    if from == |s| then None
    else if s[from] == NUL then Some(from)
    else FindNul(s, from + 1)
  }

  /** `replace("\r", "")`. */
  function DropCrs(s: Octets): Octets {
    if s == [] then [] else if s[0] == CR then DropCrs(s[1..]) else [s[0]] + DropCrs(s[1..])
  }

  /** `split("\n")`: never empty. */
  function SplitLines(s: Octets): (r: seq<Octets>)
    ensures |r| >= 1
  {
    if s == [] then [[]]
    else
      var rest := SplitLines(s[1..]);
      if s[0] == LF then [[]] + rest else [[s[0]] + rest[0]] + rest[1..]
  }

  /** The key and the value of `partition(":")`. */
  function Partition(line: Octets): (Octets, Octets) {
    if line == [] then ([], [])
    else if line[0] == COLON then ([], line[1..])
    else
      var (key, value) := Partition(line[1..]);
      ([line[0]] + key, value)
  }

  /** Python's `int(text)` on octets that decode as ASCII: blanks around it, one sign, digits
      with single underscores between them. */
  function ReadInt(text: Octets): Option<int> {
    var t := StripBlanks(text);
    if t != [] && (t[0] == PLUS || t[0] == MINUS) then
      if !IsDigitRun(t[1..]) then None
      else Some(if t[0] == MINUS then -(DigitValue(t[1..]) as int) else DigitValue(t[1..]))
    else if !IsDigitRun(t) then None
    else Some(DigitValue(t))
  }

  predicate IsBlank(b: Octet) {
    b == 32 || 9 <= b <= 13 || 28 <= b <= 31
  }

  function StripBlanks(s: Octets): Octets {
    if s != [] && IsBlank(s[0]) then StripBlanks(s[1..])
    else if s != [] && IsBlank(s[|s| - 1]) then StripBlanks(s[..|s| - 1])
    else s
  }

  predicate IsDigit(b: Octet) {
    48 <= b <= 57
  }

  predicate IsDigitRun(s: Octets) {
    && s != []
    && IsDigit(s[0])
    && IsDigit(s[|s| - 1])
    && (forall i :: 0 <= i < |s| ==> IsDigit(s[i]) || s[i] == UNDERSCORE)
    && (forall i :: 0 <= i < |s| - 1 ==> s[i] != UNDERSCORE || s[i + 1] != UNDERSCORE)
  }

  function DigitValue(s: Octets): nat {
    if s == [] then 0
    else
      var last := s[|s| - 1];
      var before := DigitValue(s[..|s| - 1]);
      if IsDigit(last) then 10 * before + (last as int - 48) else before
  }

  // ------------------------------------------------------------------------ reading frames

  /** The `headers` dictionary: the first of repeated keys wins (`setdefault`). */
  function HeaderMap(lines: seq<Octets>): Headers {
    if lines == [] then map[]
    else
      var before := HeaderMap(lines[..|lines| - 1]);
      var (key, value) := Partition(lines[|lines| - 1]);
      if key in before then before else before[key := value]
  }

  datatype BodyLength = Unstated | Stated(length: nat) | Unreadable

  /** What the `content-length` header says. `Unreadable` stands for a value on which `int` raises
      and for a negative one. */
  function StatedLength(headers: Headers): BodyLength {
    if CONTENT_LENGTH !in headers then Unstated
    else
      match ReadInt(headers[CONTENT_LENGTH])
      case None => Unreadable
      case Some(n) => if n < 0 then Unreadable else Stated(n)
  }

  datatype Step = Incomplete | Complete(frame: Frame, rest: Octets) | BadLength

  /** The command and the header lines of a frame's head. */
  function HeadOf(head: Octets): seq<Octets> {
    SplitLines(DropCrs(head))
  }

  /** One pass of the reader's loop over a buffer that starts with a frame. */
  function ReadFrame(buffer: Octets): (step: Step)
    ensures step.Complete? ==> |step.rest| < |buffer|
  {
    match FindBlankLine(buffer)
    case None => Incomplete
    case Some(headEnd) =>
      var lines := HeadOf(buffer[..headEnd]);
      ReadBody(buffer, headEnd + 2, lines[0], HeaderMap(lines[1..]))
  }

  function ReadBody(buffer: Octets, bodyStart: nat, command: Octets, headers: Headers): (step: Step)
    requires bodyStart <= |buffer|
    ensures step.Complete? ==> |step.rest| < |buffer|
  {
    match StatedLength(headers)
    case Unreadable => BadLength
    case Stated(length) =>
      if |buffer| < bodyStart + length + 1 then Incomplete
      else Complete(Frame(command, headers, buffer[bodyStart..bodyStart + length]), buffer[bodyStart + length + 1..])
    case Unstated =>
      match FindNul(buffer, bodyStart)
      case None => Incomplete
      case Some(end) => Complete(Frame(command, headers, buffer[bodyStart..end]), buffer[end + 1..])
  }

  datatype Reading = Read(frames: seq<Frame>, rest: Octets) | Refused

  /** Every complete frame of a buffer, and what is left unread. */
  function Parse(buffer: Octets): Reading
    decreases |buffer|
  {
    var stripped := StripEols(buffer);
    if stripped == [] then Read([], [])
    else
      match ReadFrame(stripped)
      case BadLength => Refused
      case Incomplete => Read([], stripped)
      case Complete(frame, rest) => Prepend([frame], Parse(rest))
  }

  function Prepend(frames: seq<Frame>, reading: Reading): Reading {
    match reading
    case Refused => Refused
    case Read(more, rest) => Read(frames + more, rest)
  }

  /** The reader's loop, which cuts each frame off the front of its buffer. */
  method ParseFrames(input: Octets) returns (result: Reading)
    ensures result == Parse(input)
  {
    hide ReadFrame, StripEols;
    var buffer := input;
    var frames: seq<Frame> := [];
    while true
      invariant Parse(input) == Prepend(frames, Parse(buffer))
      decreases |buffer|
    {
      buffer := StripEols(buffer);
      StripTwice(buffer);
      if buffer == [] {
        return Read(frames, []);
      }
      var step := CutFrame(buffer);
      match step {
        case BadLength =>
          return Refused;
        case Incomplete =>
          return Read(frames, buffer);
        case Complete(frame, rest) =>
          PrependTwice(frames, [frame], Parse(rest));
          frames, buffer := frames + [frame], rest;
      }
    }
  }

  /** The body of the loop: the head, and then the body it announces. */
  method CutFrame(buffer: Octets) returns (step: Step)
    ensures step == ReadFrame(buffer)
  {
    hide DropCrs, SplitLines, HeaderMap, StatedLength, ReadInt, FindBlankLine, FindNul;
    var headEnd := FindBlankLine(buffer);
    if headEnd.None? {
      return Incomplete;
    }
    var lines := HeadOf(buffer[..headEnd.value]);
    var headers := HeaderMap(lines[1..]);
    var bodyStart := headEnd.value + 2;
    match StatedLength(headers) {
      case Unreadable =>
        step := BadLength;
      case Stated(length) =>
        if |buffer| < bodyStart + length + 1 {
          return Incomplete;
        }
        step := Complete(Frame(lines[0], headers, buffer[bodyStart..bodyStart + length]),
                         buffer[bodyStart + length + 1..]);
      case Unstated =>
        var terminator := FindNul(buffer, bodyStart);
        if terminator.None? {
          return Incomplete;
        }
        step := Complete(Frame(lines[0], headers, buffer[bodyStart..terminator.value]), buffer[terminator.value + 1..]);
    }
  }

  lemma StripTwice(s: Octets)
    ensures s != [] && !IsEol(s[0]) ==> StripEols(s) == s
    ensures s == [] ==> StripEols(s) == s
  {
  }

  lemma PrependTwice(a: seq<Frame>, b: seq<Frame>, r: Reading)
    ensures Prepend(a, Prepend(b, r)) == Prepend(a + b, r)
  {
    if r.Read? {
      assert a + (b + r.frames) == (a + b) + r.frames;
    }
  }

  // --------------------------------------------------------------- chunking does not matter

  lemma {:induction false} StripOfConcat(a: Octets, b: Octets)
    ensures StripEols(a + b) == if StripEols(a) == [] then StripEols(b) else StripEols(a) + b
  {
    if a == [] {
      assert a + b == b;
    } else if IsEol(a[0]) {
      StripOfConcat(a[1..], b);
      assert (a + b)[1..] == a[1..] + b;
    }
  }

  lemma BlankLineOfConcat(a: Octets, b: Octets)
    requires FindBlankLine(a).Some?
    ensures FindBlankLine(a + b) == FindBlankLine(a)
  {
    BlankLineAt(a + b, FindBlankLine(a).value);
  }

  /** The first blank line is the only position with its two properties. */
  lemma BlankLineAt(s: Octets, k: nat)
    requires k + 1 < |s| && s[k] == LF && s[k + 1] == LF
    requires forall i :: 0 <= i < k ==> s[i] != LF || s[i + 1] != LF
    ensures FindBlankLine(s) == Some(k)
  {
    var found := FindBlankLine(s);
    assert found.Some?;
    assert found.value == k by {
      if found.value < k {
        assert false;
      }
    }
  }

  lemma NulAt(s: Octets, from: nat, k: nat)
    requires from <= k < |s| && s[k] == NUL
    requires forall i :: from <= i < k ==> s[i] != NUL
    ensures FindNul(s, from) == Some(k)
  {
    assert FindNul(s, from).Some?;
  }

  /** A frame that is complete, or refused, stays so whatever follows it. */
  lemma FrameOfConcat(a: Octets, b: Octets)
    ensures ReadFrame(a).Complete? ==>
              ReadFrame(a + b) == Complete(ReadFrame(a).frame, ReadFrame(a).rest + b)
    ensures ReadFrame(a).BadLength? ==> ReadFrame(a + b) == BadLength
  {
    if FindBlankLine(a).Some? {
      BlankLineOfConcat(a, b);
      var headEnd := FindBlankLine(a).value;
      assert (a + b)[..headEnd] == a[..headEnd];
      var lines := HeadOf(a[..headEnd]);
      BodyOfConcat(a, b, headEnd + 2, lines[0], HeaderMap(lines[1..]));
    }
  }

  lemma BodyOfConcat(a: Octets, b: Octets, bodyStart: nat, command: Octets, headers: Headers)
    requires bodyStart <= |a|
    ensures var step := ReadBody(a, bodyStart, command, headers);
            && (step.Complete? ==>
                  ReadBody(a + b, bodyStart, command, headers) == Complete(step.frame, step.rest + b))
            && (step.BadLength? ==> ReadBody(a + b, bodyStart, command, headers) == BadLength)
  {
    match StatedLength(headers) {
      case Unreadable =>
      case Stated(length) =>
        if bodyStart + length + 1 <= |a| {
          assert (a + b)[bodyStart..bodyStart + length] == a[bodyStart..bodyStart + length];
          assert (a + b)[bodyStart + length + 1..] == a[bodyStart + length + 1..] + b;
        }
      case Unstated =>
        if FindNul(a, bodyStart).Some? {
          var end := FindNul(a, bodyStart).value;
          NulAt(a + b, bodyStart, end);
          assert (a + b)[bodyStart..end] == a[bodyStart..end];
          assert (a + b)[end + 1..] == a[end + 1..] + b;
        }
    }
  }

  /** Reading `a`, then reading what it left followed by `b`, is reading `a + b` at once. */
  lemma {:induction false} ParseOfConcat(a: Octets, b: Octets)
    ensures Parse(a + b) == match Parse(a)
                            case Refused => Refused
                            case Read(frames, rest) => Prepend(frames, Parse(rest + b))
    decreases |a|
  {
    StripOfConcat(a, b);
    var s := StripEols(a);
    if s == [] {
      assert [] + b == b;
    } else {
      FrameOfConcat(s, b);
      match ReadFrame(s)
      case BadLength =>
      case Incomplete =>
        StripTwice(s);
        StripOfConcat(s, b);
      case Complete(frame, rest) =>
        ParseOfConcat(rest, b);
        if Parse(rest).Read? {
          PrependTwice([frame], Parse(rest).frames, Parse(Parse(rest).rest + b));
        }
    }
    if Parse(a).Read? && Parse(a).frames == [] && Parse(a + b).Read? {
      assert [] + Parse(a + b).frames == Parse(a + b).frames;
    }
  }

  function Concat(chunks: seq<Octets>): Octets {
    if chunks == [] then [] else chunks[0] + Concat(chunks[1..])
  }

  /** Reading chunk by chunk, keeping the unread remainder between chunks. */
  function Feed(buffer: Octets, chunks: seq<Octets>): Reading
    decreases |chunks|
  {
    if chunks == [] then Read([], buffer)
    else
      match Parse(buffer + chunks[0])
      case Refused => Refused
      case Read(frames, rest) => Prepend(frames, Feed(rest, chunks[1..]))
  }

  /** Any two ways of cutting one stream into (at least one) chunk give the same frames and the
      same remainder. */
  lemma ChunkingIsInvisible(one: seq<Octets>, other: seq<Octets>)
    requires one != [] && other != []
    requires Concat(one) == Concat(other)
    ensures Feed([], one) == Feed([], other)
  {
    FeedIsParse([], one);
    FeedIsParse([], other);
  }

  lemma {:induction false} FeedIsParse(buffer: Octets, chunks: seq<Octets>)
    requires chunks != []
    ensures Feed(buffer, chunks) == Parse(buffer + Concat(chunks))
    decreases |chunks|
  {
    var first := buffer + chunks[0];
    var later := Concat(chunks[1..]);
    assert buffer + Concat(chunks) == first + later;
    ParseOfConcat(first, later);
    if chunks[1..] == [] {
      assert first + later == first;
      if Parse(first).Read? {
        assert Parse(first).frames + [] == Parse(first).frames;
      }
    } else if Parse(first).Read? {
      FeedIsParse(Parse(first).rest, chunks[1..]);
    }
  }

  // ------------------------------------------------------------------------- writing frames

  /** A frame as it is written: the headers in the order of the dictionary, or of the wire. */
  datatype Sent = Sent(command: Octets, headers: seq<(Octets, Octets)>, body: Octets)

  function HeaderLine(header: (Octets, Octets)): Octets {
    header.0 + [COLON] + header.1
  }

  function HeadLines(sent: Sent): seq<Octets> {
    [sent.command] + HeaderLines(sent.headers)
  }

  function HeaderLines(headers: seq<(Octets, Octets)>): seq<Octets> {
    seq(|headers|, i requires 0 <= i < |headers| => HeaderLine(headers[i]))
  }

  function JoinLines(lines: seq<Octets>): Octets
    requires lines != []
  {
    if |lines| == 1 then lines[0] else lines[0] + [LF] + JoinLines(lines[1..])
  }

  /** `stomp_frame`. */
  function Write(sent: Sent): Octets {
    JoinLines(HeadLines(sent)) + [LF, LF] + sent.body + [NUL]
  }

  /** The headers as the reader must report them: of repeated keys, the first. */
  function FirstWins(headers: seq<(Octets, Octets)>): Headers {
    if headers == [] then map[]
    else FirstWins(headers[1..])[headers[0].0 := headers[0].1]
  }

  predicate NoEol(s: Octets) {
    LF !in s && CR !in s
  }

  /** What STOMP 1.2 asks of an unescaped frame. */
  predicate Writable(sent: Sent) {
    && sent.command != []
    && NoEol(sent.command)
    && (forall h :: h in sent.headers ==> NoEol(h.0) && NoEol(h.1) && COLON !in h.0)
    && (match StatedLength(FirstWins(sent.headers))
        case Unreadable => false
        case Stated(length) => length == |sent.body|
        case Unstated => NUL !in sent.body)
  }

  function Received(sent: Sent): Frame {
    Frame(sent.command, FirstWins(sent.headers), sent.body)
  }

  /** Frames with heart-beats (any run of CR and LF) before each and after the last. */
  function Stream(items: seq<(Octets, Sent)>, tail: Octets): Octets {
    if items == [] then tail else items[0].0 + Write(items[0].1) + Stream(items[1..], tail)
  }

  function AllReceived(items: seq<(Octets, Sent)>): seq<Frame> {
    if items == [] then [] else [Received(items[0].1)] + AllReceived(items[1..])
  }

  predicate IsHeartBeat(s: Octets) {
    forall b :: b in s ==> IsEol(b)
  }

  /** Written frames, with any heart-beats between them, read back as exactly those frames, and
      nothing is left unread. */
  lemma {:induction false} RoundTrip(items: seq<(Octets, Sent)>, tail: Octets)
    requires forall item :: item in items ==> IsHeartBeat(item.0) && Writable(item.1)
    requires IsHeartBeat(tail)
    ensures Parse(Stream(items, tail)) == Read(AllReceived(items), [])
  {
    if items == [] {
      HeartBeatIsSkipped(tail, []);
      assert tail + [] == tail;
    } else {
      assert items[0] in items;
      forall item | item in items[1..]
        ensures IsHeartBeat(item.0) && Writable(item.1)
      {
        assert item in items;
      }
      RoundTrip(items[1..], tail);
      FirstOfStream(items[0].0, items[0].1, Stream(items[1..], tail));
    }
  }

  lemma FirstOfStream(gap: Octets, sent: Sent, later: Octets)
    requires IsHeartBeat(gap) && Writable(sent)
    ensures Parse(gap + Write(sent) + later) == Prepend([Received(sent)], Parse(later))
  {
    var written := Write(sent) + later;
    assert gap + Write(sent) + later == gap + written;
    HeartBeatIsSkipped(gap, written);
    WrittenStart(sent);
    StripTwice(written);
    WrittenFrame(sent, later);
  }

  lemma {:induction false} HeartBeatIsSkipped(gap: Octets, s: Octets)
    requires IsHeartBeat(gap)
    ensures StripEols(gap + s) == StripEols(s)
  {
    if gap == [] {
      assert gap + s == s;
    } else {
      assert gap[0] in gap;
      assert forall b :: b in gap[1..] ==> b in gap;
      HeartBeatIsSkipped(gap[1..], s);
      assert (gap + s)[1..] == gap[1..] + s;
    }
  }

  lemma WrittenStart(sent: Sent)
    requires Writable(sent)
    ensures Write(sent) != [] && !IsEol(Write(sent)[0])
  {
    assert HeadLines(sent)[0] == sent.command;
    assert JoinLines(HeadLines(sent))[0] == sent.command[0];
    assert sent.command[0] in sent.command;
  }

  lemma HeadLinesAreLines(sent: Sent)
    requires Writable(sent)
    ensures AreLines(HeadLines(sent))
  {
    forall line | line in HeadLines(sent)
      ensures line != [] && NoEol(line)
    {
      if line != sent.command {
        var i :| 0 <= i < |sent.headers| && line == HeaderLine(sent.headers[i]);
        assert sent.headers[i] in sent.headers;
      }
    }
  }

  /** The reader reads a written frame back and stops exactly at its end. */
  lemma WrittenFrame(sent: Sent, later: Octets)
    requires Writable(sent)
    ensures ReadFrame(Write(sent) + later) == Complete(Received(sent), later)
  {
    hide DropCrs, SplitLines, HeaderMap, FirstWins, StatedLength, ReadBody, ReadInt;
    var lines := HeadLines(sent);
    var head := JoinLines(lines);
    var buffer := Write(sent) + later;
    HeadLinesAreLines(sent);
    JoinedLines(lines);
    JoinedLinesSplit(lines);
    CrFree(head);
    assert HeadOf(head) == lines;
    HeadEndsAt(head, sent.body + [NUL] + later);
    assert buffer == head + [LF, LF] + (sent.body + [NUL] + later);
    assert buffer[..|head|] == head;
    assert lines[1..] == HeaderLines(sent.headers);
    HeadersReadBack(sent.headers);
    WrittenBody(sent, head + [LF, LF], later);
  }

  lemma HeadEndsAt(head: Octets, after: Octets)
    requires head != [] && head[|head| - 1] != LF
    requires forall i :: 0 <= i < |head| - 1 ==> head[i] != LF || head[i + 1] != LF
    ensures FindBlankLine(head + [LF, LF] + after) == Some(|head|)
  {
    var buffer := head + [LF, LF] + after;
    assert forall i :: 0 <= i < |head| ==> buffer[i] == head[i];
    BlankLineAt(buffer, |head|);
  }

  lemma WrittenBody(sent: Sent, before: Octets, later: Octets)
    requires Writable(sent)
    ensures ReadBody(before + (sent.body + [NUL] + later), |before|, sent.command, FirstWins(sent.headers))
         == Complete(Received(sent), later)
  {
    var buffer := before + (sent.body + [NUL] + later);
    var end := |before| + |sent.body|;
    assert buffer[|before|..end] == sent.body;
    assert buffer[end + 1..] == later;
    if StatedLength(FirstWins(sent.headers)).Unstated? {
      assert forall i :: |before| <= i < end ==> buffer[i] == sent.body[i - |before|];
      NulAt(buffer, |before|, end);
    }
  }

  predicate AreLines(lines: seq<Octets>) {
    forall line :: line in lines ==> line != [] && NoEol(line)
  }

  /** Joined lines hold no blank line, and no CR, and end in no LF. */
  lemma {:induction false} JoinedLines(lines: seq<Octets>)
    requires lines != [] && AreLines(lines)
    ensures var head := JoinLines(lines);
            && head != [] && head[0] != LF && head[|head| - 1] != LF
            && CR !in head
            && forall i :: 0 <= i < |head| - 1 ==> head[i] != LF || head[i + 1] != LF
  {
    var line := lines[0];
    assert line in lines;
    assert forall i :: 0 <= i < |line| ==> line[i] in line;
    if |lines| > 1 {
      assert AreLines(lines[1..]) by {
        assert forall l :: l in lines[1..] ==> l in lines;
      }
      JoinedLines(lines[1..]);
      var later := JoinLines(lines[1..]);
      var head := line + [LF] + later;
      assert forall i :: 0 <= i < |line| ==> head[i] == line[i];
      assert forall i :: |line| < i < |head| ==> head[i] == later[i - |line| - 1];
    }
  }

  lemma {:induction false} JoinedLinesSplit(lines: seq<Octets>)
    requires lines != [] && AreLines(lines)
    ensures SplitLines(JoinLines(lines)) == lines
  {
    var line := lines[0];
    assert line in lines;
    if |lines| == 1 {
      SplitOneLine(line);
      assert lines == [line];
    } else {
      assert AreLines(lines[1..]) by {
        assert forall l :: l in lines[1..] ==> l in lines;
      }
      JoinedLinesSplit(lines[1..]);
      SplitFirstLine(line, JoinLines(lines[1..]));
      assert lines == [line] + lines[1..];
    }
  }

  lemma {:induction false} CrFree(s: Octets)
    requires CR !in s
    ensures DropCrs(s) == s
  {
    if s != [] {
      CrFree(s[1..]);
      assert s == [s[0]] + s[1..];
    }
  }

  lemma {:induction false} SplitOneLine(line: Octets)
    requires LF !in line
    ensures SplitLines(line) == [line]
  {
    if line != [] {
      SplitOneLine(line[1..]);
      assert line == [line[0]] + line[1..];
    }
  }

  lemma {:induction false} SplitFirstLine(line: Octets, later: Octets)
    requires LF !in line
    ensures SplitLines(line + [LF] + later) == [line] + SplitLines(later)
  {
    var s := line + [LF] + later;
    if line == [] {
      assert s[1..] == later;
    } else {
      SplitFirstLine(line[1..], later);
      assert s[1..] == line[1..] + [LF] + later;
      assert line == [line[0]] + line[1..];
    }
  }

  /** The header map of written header lines is the first-wins map. */
  lemma {:induction false} HeadersReadBack(headers: seq<(Octets, Octets)>)
    requires forall h :: h in headers ==> COLON !in h.0
    ensures HeaderMap(HeaderLines(headers)) == FirstWins(headers)
  {
    var lines := HeaderLines(headers);
    if headers != [] {
      var n := |headers| - 1;
      var before := headers[..n];
      forall h | h in before
        ensures COLON !in h.0
      {
        assert h in headers;
      }
      HeadersReadBack(before);
      assert lines[..n] == HeaderLines(before);
      assert headers[n] in headers;
      PartitionAt(headers[n].0, headers[n].1);
      FirstWinsOfSnoc(before, headers[n]);
      assert headers == before + [headers[n]];
    }
  }

  lemma {:induction false} PartitionAt(key: Octets, value: Octets)
    requires COLON !in key
    ensures Partition(key + [COLON] + value) == (key, value)
  {
    var line := key + [COLON] + value;
    if key == [] {
      assert line[1..] == value;
    } else {
      PartitionAt(key[1..], value);
      assert line[1..] == key[1..] + [COLON] + value;
      assert key == [key[0]] + key[1..];
    }
  }

  lemma {:induction false} FirstWinsOfSnoc(headers: seq<(Octets, Octets)>, last: (Octets, Octets))
    ensures FirstWins(headers + [last])
         == if last.0 in FirstWins(headers) then FirstWins(headers) else FirstWins(headers)[last.0 := last.1]
  {
    if headers != [] {
      FirstWinsOfSnoc(headers[1..], last);
      assert (headers + [last])[1..] == headers[1..] + [last];
    }
  }

  /** With no key repeated, as in the dictionary `stomp_frame` is given, nothing is lost: every
      header is reported under its own key. */
  lemma {:induction false} DistinctHeadersKept(headers: seq<(Octets, Octets)>, i: nat)
    requires forall j, k :: 0 <= j < k < |headers| ==> headers[j].0 != headers[k].0
    requires i < |headers|
    ensures headers[i].0 in FirstWins(headers) && FirstWins(headers)[headers[i].0] == headers[i].1
  {
    if i > 0 {
      DistinctHeadersKept(headers[1..], i - 1);
      assert headers[i] == headers[1..][i - 1];
    }
  }
}
