/**
 protoc's text format, read back into a message. `Shown` is a message with everything the format
 leaves to the printer kept: either delimiter, the optional colon and separators, adjacent string
 chunks and the spelling of each octet. `TextRoundTrip` says that the text of any of them, laid out
 with any blanks and comments, parses to exactly the message it shows.
 */
module ProtocText {
  import opened Decimals
  import opened ProtocStrings
  import opened ProtocTokens
  import opened Wrappers

  datatype Value =
    | Bytes(octets: Octets)
    | Integer(n: int)
    | Float(lexeme: string)
    | Word(name: string)
    | Message(fields: seq<Field>)
  datatype Field = Field(name: string, value: Value)

  datatype ParseError = BadText | BadString | TextEnds | NoName | NoValue | NoBody

  // ----------------------------------------------------------------------------- the numbers

  predicate IsHexPrefixed(s: string) {
    |s| >= 2 && s[0] == '0' && (s[1] == 'x' || s[1] == 'X')
  }

  predicate AllOf(s: string, p: char -> bool) {
    s != "" && forall c :: c in s ==> p(c)
  }

  /** `_number`: an integer in base 16 or 10, or else a float, kept as its lexeme. */
  function NumberOf(token: string): Value
    requires token != ""
  {
    var signed := token[0] == '-';
    var digits := if signed then token[1..] else token;
    var sign := if signed then -1 else 1;
    var last := token[|token| - 1];
    if IsHexPrefixed(digits) then
      if AllOf(digits[2..], IsHex) then Integer(sign * HexValue(digits[2..])) else Float(token)
    else
      var body := if (last == 'f' || last == 'F') && digits != "" then digits[..|digits| - 1] else digits;
      if AllOf(body, IsDigit) then Integer(sign * DecimalValue(body))
      else Float(if last == 'f' || last == 'F' then token[..|token| - 1] else token)
  }

  // --------------------------------------------------------------- the grammar, on token lists

  predicate IsMark(ts: seq<Token>, c: char) {
    ts != [] && ts[0] == Token(Punct, [c])
  }

  predicate IsName(t: Token) {
    t.kind == Ident || t.kind == Number || t.kind == Bracket
  }

  /** The text between the quotes. */
  function Inner(s: string): string {
    if |s| < 2 then "" else s[1..|s| - 1]
  }

  /** Adjacent strings are one value. */
  function ReadStrings(octets: Octets, ts: seq<Token>): (r: Result<(Value, seq<Token>), ParseError>)
    ensures r.Ok? ==> |r.value.1| <= |ts|
    decreases |ts|
  {
    if ts == [] || ts[0].kind != Quoted then Ok((Bytes(octets), ts))
    else
      match Unescape(Inner(ts[0].text))
      case None => Err(BadString)
      case Some(more) => ReadStrings(octets + more, ts[1..])
  }

  function ReadScalar(ts: seq<Token>): (r: Result<(Value, seq<Token>), ParseError>)
    ensures r.Ok? ==> |r.value.1| < |ts|
  {
    if ts == [] then Err(TextEnds)
    else
      match ts[0].kind
      case Quoted =>
        (match Unescape(Inner(ts[0].text))
         case None => Err(BadString)
         case Some(octets) => ReadStrings(octets, ts[1..]))
      case Number => Ok((if ts[0].text == "" then Float("") else NumberOf(ts[0].text), ts[1..]))
      case Ident => Ok((Word(ts[0].text), ts[1..]))
      case _ => Err(NoValue)
  }

  function AfterMark(ts: seq<Token>, c: char): (r: seq<Token>)
    ensures |r| <= |ts|
  {
    if IsMark(ts, c) then ts[1..] else ts
  }

  function ReadField(ts: seq<Token>): (r: Result<(Field, seq<Token>), ParseError>)
    requires ts != []
    ensures r.Ok? ==> |r.value.1| < |ts|
    decreases |ts|, 0
  {
    if !IsName(ts[0]) then Err(NoName)
    else
      var colon := IsMark(ts[1..], ':');
      var body := AfterMark(ts[1..], ':');
      if IsMark(body, '{') || IsMark(body, '<') then
        match ReadFields(body[1..], Some(if IsMark(body, '{') then '}' else '>'))
        case Err(e) => Err(e)
        case Ok((fields, rest)) => Ok((Field(ts[0].text, Message(fields)), AfterSeparator(rest)))
      else if !colon then Err(NoBody)
      else
        match ReadScalar(body)
        case Err(e) => Err(e)
        case Ok((value, rest)) => Ok((Field(ts[0].text, value), AfterSeparator(rest)))
  }

  function AfterSeparator(ts: seq<Token>): (r: seq<Token>)
    ensures |r| <= |ts|
  {
    if IsMark(ts, ';') || IsMark(ts, ',') then ts[1..] else ts
  }

  /** The fields up to a closing mark, or to the end of the text. */
  function ReadFields(ts: seq<Token>, close: Option<char>): (r: Result<(seq<Field>, seq<Token>), ParseError>)
    ensures r.Ok? ==> |r.value.1| <= |ts|
    decreases |ts|, 1
  {
    if ts == [] then if close.None? then Ok(([], [])) else Err(TextEnds)
    else if close.Some? && IsMark(ts, close.value) then Ok(([], ts[1..]))
    else
      match ReadField(ts)
      case Err(e) => Err(e)
      case Ok((field, rest)) => Before([field], ReadFields(rest, close))
  }

  function Before(fields: seq<Field>, r: Result<(seq<Field>, seq<Token>), ParseError>):
    Result<(seq<Field>, seq<Token>), ParseError>
  {
    match r
    case Err(e) => Err(e)
    case Ok((more, rest)) => Ok((fields + more, rest))
  }

  function ParseOf(text: string): Result<seq<Field>, ParseError> {
    match TokensOf(text)
    case None => Err(BadText)
    case Some(ts) =>
      (match ReadFields(ts, None)
       case Err(e) => Err(e)
       case Ok((fields, _)) => Ok(fields))
  }

  // -------------------------------------------------------------------- the recursive descent

  /** The parser's shared position in its list of tokens. */
  class Reader {
    const tokens: seq<Token>
    var position: nat

    ghost predicate Valid()
      reads this
    {
      position <= |tokens|
    }

    /** The tokens not taken yet. */
    ghost function Left(): seq<Token>
      reads this
      requires Valid()
    {
      tokens[position..]
    }

    constructor (tokens: seq<Token>)
      ensures Valid() && Left() == tokens
    {
      this.tokens := tokens;
      position := 0;
    }

    method Take() returns (t: Token)
      requires Valid() && Left() != []
      modifies this
      ensures Valid() && t == old(Left())[0] && Left() == old(Left())[1..]
      ensures position == old(position) + 1
    {
      t := tokens[position];
      position := position + 1;
    }

    method AtMark(c: char) returns (b: bool)
      requires Valid()
      ensures b == IsMark(Left(), c)
    {
      b := position < |tokens| && tokens[position] == Token(Punct, [c]);
    }

    method Scalar() returns (r: Result<Value, ParseError>)
      requires Valid()
      modifies this
      ensures Valid() && position >= old(position)
      ensures match ReadScalar(old(Left()))
              case Err(e) => r == Err(e)
              case Ok((value, rest)) => r == Ok(value) && Left() == rest
    {
      hide Unescape, NumberOf;
      if position == |tokens| {
        return Err(TextEnds);
      }
      var t := Take();
      match t.kind {
        case Quoted =>
          var first := UnescapeBody(Inner(t.text));
          if first.None? {
            return Err(BadString);
          }
          var octets := first.value;
          while position < |tokens| && tokens[position].kind == Quoted
            invariant Valid() && position > old(position)
            invariant ReadScalar(old(Left())) == ReadStrings(octets, Left())
          {
            var next := Take();
            var more := UnescapeBody(Inner(next.text));
            if more.None? {
              return Err(BadString);
            }
            octets := octets + more.value;
          }
          r := Ok(Bytes(octets));
        case Number =>
          r := Ok(if t.text == "" then Float("") else NumberOf(t.text));
        case Ident =>
          r := Ok(Word(t.text));
        case _ =>
          r := Err(NoValue);
      }
    }

    /** One field, its separator included. */
    method OneField() returns (r: Result<Field, ParseError>)
      requires Valid() && Left() != []
      modifies this
      ensures Valid() && position >= old(position)
      ensures match ReadField(old(Left()))
              case Err(e) => r == Err(e)
              case Ok((field, rest)) => r == Ok(field) && Left() == rest
      decreases |tokens| - position, 0
    {
      hide ReadScalar, ReadFields;
      var name := Take();
      if !IsName(name) {
        return Err(NoName);
      }
      var colon := AtMark(':');
      if colon {
        var _ := Take();
      }
      var brace := AtMark('{');
      var angle := AtMark('<');
      var value;
      if brace || angle {
        var _ := Take();
        var fields := Message(Some(if brace then '}' else '>'));
        if fields.Err? {
          return Err(fields.error);
        }
        value := Value.Message(fields.value);
      } else if colon {
        var scalar := Scalar();
        if scalar.Err? {
          return Err(scalar.error);
        }
        value := scalar.value;
      } else {
        return Err(NoBody);
      }
      var semicolon := AtMark(';');
      var comma := AtMark(',');
      if semicolon || comma {
        var _ := Take();
      }
      r := Ok(Field(name.text, value));
    }

    /** The fields up to the closing mark, which is taken. */
    method Message(close: Option<char>) returns (r: Result<seq<Field>, ParseError>)
      requires Valid()
      modifies this
      ensures Valid() && position >= old(position)
      ensures match ReadFields(old(Left()), close)
              case Err(e) => r == Err(e)
              case Ok((fields, rest)) => r == Ok(fields) && Left() == rest
      decreases |tokens| - position, 1
    {
      hide ReadField;
      var fields: seq<Field> := [];
      BeforeNothing(ReadFields(Left(), close));
      while true
        invariant Valid() && position >= old(position)
        invariant ReadFields(old(Left()), close) == Before(fields, ReadFields(Left(), close))
        decreases |tokens| - position
      {
        if position == |tokens| {
          assert fields + [] == fields;
          return if close.None? then Ok(fields) else Err(TextEnds);
        }
        var closes := false;
        if close.Some? {
          closes := AtMark(close.value);
        }
        if closes {
          var _ := Take();
          assert fields + [] == fields;
          return Ok(fields);
        }
        ghost var here := Left();
        var field := OneField();
        if field.Err? {
          return Err(field.error);
        }
        BeforeTwice(fields, [field.value], ReadFields(Left(), close));
        assert |Left()| < |here|;
        fields := fields + [field.value];
      }
    }
  }

  lemma BeforeNothing(r: Result<(seq<Field>, seq<Token>), ParseError>)
    ensures Before([], r) == r
  {
    if r.Ok? {
      assert [] + r.value.0 == r.value.0;
    }
  }

  lemma BeforeTwice(a: seq<Field>, b: seq<Field>, r: Result<(seq<Field>, seq<Token>), ParseError>)
    ensures Before(a, Before(b, r)) == Before(a + b, r)
  {
    if r.Ok? {
      assert a + (b + r.value.0) == (a + b) + r.value.0;
    }
  }

  /** `parse`. */
  method Parse(text: string) returns (r: Result<seq<Field>, ParseError>)
    ensures r == ParseOf(text)
  {
    hide ReadFields;
    var tokens := Tokens(text);
    if tokens.None? {
      return Err(BadText);
    }
    var reader := new Reader(tokens.value);
    r := reader.Message(None);
  }

  // ------------------------------------------------------------------------ messages as shown

  datatype Chunk = Chunk(quote: char, units: seq<Unit>)
  datatype Body =
    | Strings(chunks: seq<Chunk>)
    | Numeral(lexeme: string)
    | Name(word: string)
    | Block(angle: bool, shown: seq<Shown>)
  datatype Shown = Shown(name: Token, colon: bool, body: Body, separator: string)

  predicate IsChunk(c: Chunk) {
    (c.quote == '"' || c.quote == '\'') && forall u :: u in c.units ==> IsUnit(u, c.quote)
  }

  /** A scalar needs its colon; before a block it may be left out. */
  predicate IsShown(f: Shown) {
    && IsName(f.name) && IsToken(f.name)
    && (f.separator == "" || f.separator == ";" || f.separator == ",")
    && (f.colon || f.body.Block?)
    && IsBody(f.body)
  }

  predicate IsBody(b: Body) {
    match b
    case Strings(chunks) => chunks != [] && forall c :: c in chunks ==> IsChunk(c)
    case Numeral(lexeme) => IsToken(Token(Number, lexeme))
    case Name(word) => IsToken(Token(Ident, word))
    case Block(_, shown) => forall s :: s in shown ==> IsShown(s)
  }

  function Mark(c: char): Token {
    Token(Punct, [c])
  }

  function ChunkToken(c: Chunk): Token {
    Token(Quoted, [c.quote] + UnitsText(c.units) + [c.quote])
  }

  function ChunkTokens(chunks: seq<Chunk>): seq<Token> {
    if chunks == [] then [] else [ChunkToken(chunks[0])] + ChunkTokens(chunks[1..])
  }

  function BodyTokens(b: Body): seq<Token> {
    match b
    case Strings(chunks) => ChunkTokens(chunks)
    case Numeral(lexeme) => [Token(Number, lexeme)]
    case Name(word) => [Token(Ident, word)]
    case Block(angle, shown) => [Mark(if angle then '<' else '{')]
                                 + (FieldsTokens(shown) + [Mark(if angle then '>' else '}')])
  }

  function FieldTokens(f: Shown): seq<Token> {
    [f.name] + ((if f.colon then [Mark(':')] else []) + (BodyTokens(f.body) + SeparatorTokens(f.separator)))
  }

  function SeparatorTokens(separator: string): seq<Token> {
    if separator == "" then [] else [Token(Punct, separator)]
  }

  function FieldsTokens(shown: seq<Shown>): seq<Token> {
    if shown == [] then [] else FieldTokens(shown[0]) + FieldsTokens(shown[1..])
  }

  function ChunksOctets(chunks: seq<Chunk>): Octets {
    if chunks == [] then [] else UnitsOctets(chunks[0].units) + ChunksOctets(chunks[1..])
  }

  /** The message a text shows. */
  function ValueShown(b: Body): Value {
    match b
    case Strings(chunks) => Bytes(ChunksOctets(chunks))
    case Numeral(lexeme) => if lexeme == "" then Float("") else NumberOf(lexeme)
    case Name(word) => Word(word)
    case Block(_, shown) => Message(FieldsShown(shown))
  }

  function FieldsShown(shown: seq<Shown>): seq<Field> {
    if shown == [] then [] else [Field(shown[0].name.text, ValueShown(shown[0].body))] + FieldsShown(shown[1..])
  }

  /** What may come after a field: no further string, no stray separator. */
  predicate EndsField(ts: seq<Token>) {
    ts == [] || (ts[0].kind != Quoted && !IsMark(ts, ';') && !IsMark(ts, ','))
  }

  lemma ChunkRead(c: Chunk)
    requires IsChunk(c)
    ensures Unescape(Inner(ChunkToken(c).text)) == Some(UnitsOctets(c.units))
  {
    UnescapeInverts(c.units, c.quote);
    assert Inner(ChunkToken(c).text) == UnitsText(c.units);
  }

  lemma ChunkTokenIsQuoted(c: Chunk)
    ensures ChunkToken(c).kind == Quoted
  {
  }

  lemma {:induction false} StringsRead(octets: Octets, chunks: seq<Chunk>, rest: seq<Token>)
    requires forall c :: c in chunks ==> IsChunk(c)
    requires rest == [] || rest[0].kind != Quoted
    ensures ReadStrings(octets, ChunkTokens(chunks) + rest) == Ok((Bytes(octets + ChunksOctets(chunks)), rest))
    decreases |chunks|
  {
    hide IsChunk, UnitsText, UnitsOctets, ReadStrings;
    if chunks == [] {
      assert [] + rest == rest && octets + [] == octets;
      StringsEnd(octets, rest);
    } else {
      assert chunks[0] in chunks && forall c :: c in chunks[1..] ==> c in chunks;
      var more := UnitsOctets(chunks[0].units);
      ChunkThenRest(octets, chunks[0], ChunkTokens(chunks[1..]) + rest);
      StringsRead(octets + more, chunks[1..], rest);
      assert ChunkTokens(chunks) + rest == [ChunkToken(chunks[0])] + (ChunkTokens(chunks[1..]) + rest);
      assert octets + (more + ChunksOctets(chunks[1..])) == (octets + more) + ChunksOctets(chunks[1..]);
    }
  }

  lemma StringsEnd(octets: Octets, rest: seq<Token>)
    requires rest == [] || rest[0].kind != Quoted
    ensures ReadStrings(octets, rest) == Ok((Bytes(octets), rest))
  {
  }

  lemma ChunkThenRest(octets: Octets, chunk: Chunk, rest: seq<Token>)
    requires IsChunk(chunk)
    ensures ReadStrings(octets, [ChunkToken(chunk)] + rest) == ReadStrings(octets + UnitsOctets(chunk.units), rest)
  {
    hide Unescape, IsChunk, Inner, UnitsText, UnitsOctets, ChunkToken;
    ChunkRead(chunk);
    ChunkTokenIsQuoted(chunk);
    assert ([ChunkToken(chunk)] + rest)[1..] == rest;
  }

  lemma ScalarRead(b: Body, rest: seq<Token>)
    requires !b.Block? && IsBody(b)
    requires rest == [] || rest[0].kind != Quoted
    ensures ReadScalar(BodyTokens(b) + rest) == Ok((ValueShown(b), rest))
  {
    hide Unescape, IsChunk, NumberOf, Inner, UnitsText, UnitsOctets, ChunkToken, ReadStrings;
    var ts := BodyTokens(b) + rest;
    if b.Strings? {
      var chunks := b.chunks;
      assert chunks[0] in chunks && forall c :: c in chunks[1..] ==> c in chunks;
      ChunkRead(chunks[0]);
      ChunkTokenIsQuoted(chunks[0]);
      StringsRead(UnitsOctets(chunks[0].units), chunks[1..], rest);
      assert ts[1..] == ChunkTokens(chunks[1..]) + rest;
    } else {
      assert ts[1..] == rest;
    }
  }

  /** A shown field is read, and what follows it is left. */
  lemma {:induction false} FieldRead(f: Shown, rest: seq<Token>)
    requires IsShown(f) && EndsField(rest)
    ensures ReadField(FieldTokens(f) + rest) == Ok((Field(f.name.text, ValueShown(f.body)), rest))
    decreases f, 1
  {
    var after := SeparatorTokens(f.separator) + rest;
    SeparatorRead(f.separator, rest);
    FieldHead(f, rest);
    BodyStart(f, after);
    hide ReadScalar, ReadFields, IsToken, NumberOf, FieldTokens, SeparatorTokens, AfterMark, IsMark, AfterSeparator;
    if f.body.Block? {
      BlockRead(f.body, after);
    } else {
      ScalarRead(f.body, after);
    }
  }

  /** The name, the colon if there is one, and then the body. */
  lemma FieldHead(f: Shown, rest: seq<Token>)
    requires IsShown(f)
    ensures var ts := FieldTokens(f) + rest;
            var body := BodyTokens(f.body) + (SeparatorTokens(f.separator) + rest);
            && ts != [] && ts[0] == f.name
            && IsMark(ts[1..], ':') == f.colon
            && AfterMark(ts[1..], ':') == body
  {
    hide IsToken, BodyTokens;
    var ts := FieldTokens(f) + rest;
    var body := BodyTokens(f.body) + (SeparatorTokens(f.separator) + rest);
    BodyStart(f, SeparatorTokens(f.separator) + rest);
    if f.colon {
      assert ts == [f.name] + ([Mark(':')] + body);
      assert ts[1..][1..] == body;
    } else {
      assert ts == [f.name] + body;
    }
  }

  lemma {:induction false} BlockRead(b: Body, after: seq<Token>)
    requires b.Block? && IsBody(b)
    ensures var body := BodyTokens(b) + after;
            && body != []
            && ReadFields(body[1..], Some(if b.angle then '>' else '}')) == Ok((FieldsShown(b.shown), after))
    decreases b, 0
  {
    hide ReadFields, IsShown;
    var close := if b.angle then '>' else '}';
    var body := BodyTokens(b) + after;
    assert body[1..] == FieldsTokens(b.shown) + ([Mark(close)] + after);
    FieldsRead(b.shown, Some(close), [Mark(close)] + after);
    assert ([Mark(close)] + after)[1..] == after;
  }

  lemma SeparatorRead(separator: string, rest: seq<Token>)
    requires (separator == "" || separator == ";" || separator == ",") && EndsField(rest)
    ensures AfterSeparator(SeparatorTokens(separator) + rest) == rest
    ensures SeparatorTokens(separator) + rest == [] || (SeparatorTokens(separator) + rest)[0].kind != Quoted
  {
    if separator == "" {
      assert [] + rest == rest;
    } else {
      assert (SeparatorTokens(separator) + rest)[1..] == rest;
    }
  }

  /** Only a block starts with an opening mark, and no body with a colon. */
  lemma BodyStart(f: Shown, after: seq<Token>)
    requires IsShown(f)
    ensures var body := BodyTokens(f.body) + after;
            && !IsMark(body, ':')
            && (IsMark(body, '{') <==> f.body.Block? && !f.body.angle)
            && (IsMark(body, '<') <==> f.body.Block? && f.body.angle)
  {
    hide IsToken;
    var body := BodyTokens(f.body) + after;
    assert body[0] == BodyTokens(f.body)[0];
  }

  /** Shown fields are read up to the mark that closes them, or to the end of the text. */
  lemma {:induction false} FieldsRead(shown: seq<Shown>, close: Option<char>, rest: seq<Token>)
    requires forall f :: f in shown ==> IsShown(f)
    requires if close.None? then rest == [] else (close.value == '}' || close.value == '>') && IsMark(rest, close.value)
    ensures ReadFields(FieldsTokens(shown) + rest, close)
         == Ok((FieldsShown(shown), if close.None? then [] else rest[1..]))
    decreases shown, 0
  {
    hide ReadField, IsShown, FieldTokens, ValueShown;
    var ts := FieldsTokens(shown) + rest;
    if shown == [] {
      assert ts == rest;
    } else {
      assert shown[0] in shown && forall f :: f in shown[1..] ==> f in shown;
      var later := FieldsTokens(shown[1..]) + rest;
      assert ts == FieldTokens(shown[0]) + later;
      FieldStart(shown[0], later);
      FieldsStart(shown[1..], close, rest);
      FieldRead(shown[0], later);
      FieldsRead(shown[1..], close, rest);
    }
  }

  lemma FieldStart(f: Shown, later: seq<Token>)
    requires IsShown(f)
    ensures var ts := FieldTokens(f) + later; ts != [] && ts[0] == f.name && IsName(f.name)
  {
  }

  lemma FieldsStart(shown: seq<Shown>, close: Option<char>, rest: seq<Token>)
    requires forall f :: f in shown ==> IsShown(f)
    requires if close.None? then rest == [] else (close.value == '}' || close.value == '>') && IsMark(rest, close.value)
    ensures EndsField(FieldsTokens(shown) + rest)
  {
    hide IsShown, FieldTokens;
    if shown == [] {
      assert [] + rest == rest;
    } else {
      assert shown[0] in shown;
      FieldStart(shown[0], FieldsTokens(shown[1..]) + rest);
      assert FieldsTokens(shown) + rest == FieldTokens(shown[0]) + (FieldsTokens(shown[1..]) + rest);
    }
  }

  // --------------------------------------------------------------------------- the round trip

  lemma {:induction false} ShownTokensAreTokens(shown: seq<Shown>)
    requires forall f :: f in shown ==> IsShown(f)
    ensures forall t :: t in FieldsTokens(shown) ==> IsToken(t)
    decreases shown, 0
  {
    hide IsToken, IsShown, FieldTokens;
    if shown != [] {
      assert shown[0] in shown && forall f :: f in shown[1..] ==> f in shown;
      FieldTokensAreTokens(shown[0]);
      ShownTokensAreTokens(shown[1..]);
    }
  }

  lemma {:induction false} FieldTokensAreTokens(f: Shown)
    requires IsShown(f)
    ensures forall t :: t in FieldTokens(f) ==> IsToken(t)
    decreases f, 1
  {
    hide IsToken;
    MarksAreTokens();
    match f.body
    case Strings(chunks) => ChunksAreTokens(chunks);
    case Numeral(_) =>
    case Name(_) =>
    case Block(_, shown) => ShownTokensAreTokens(shown);
  }

  lemma MarksAreTokens()
    ensures forall c :: IsPunct(c) ==> IsToken(Token(Punct, [c]))
  {
  }

  lemma {:induction false} ChunksAreTokens(chunks: seq<Chunk>)
    requires forall c :: c in chunks ==> IsChunk(c)
    ensures forall t :: t in ChunkTokens(chunks) ==> IsToken(t)
  {
    hide IsToken, IsUnit;
    if chunks != [] {
      assert chunks[0] in chunks && forall c :: c in chunks[1..] ==> c in chunks;
      QuotedIsToken(chunks[0].units, chunks[0].quote);
      ChunksAreTokens(chunks[1..]);
    }
  }

  function LayOut(tokens: seq<Token>, gaps: seq<seq<Filler>>): (r: seq<Laid>)
    requires |gaps| == |tokens|
    ensures |r| == |tokens| && forall i :: 0 <= i < |r| ==> r[i] == Laid(gaps[i], tokens[i])
  {
    seq(|tokens|, i requires 0 <= i < |tokens| => Laid(gaps[i], tokens[i]))
  }

  /** Gaps of blanks and comments; only tokens that would run together need one. */
  predicate AreGaps(tokens: seq<Token>, gaps: seq<seq<Filler>>, last: seq<Filler>, ending: string) {
    && |gaps| == |tokens|
    && (forall i :: 0 <= i < |gaps| ==> forall f :: f in gaps[i] ==> IsFiller(f))
    && (forall i :: 0 < i < |gaps| && gaps[i] == [] ==> MayFollow(tokens[i - 1], tokens[i].text))
    && (forall f :: f in last ==> IsFiller(f))
    && (ending == "" || (ending[0] == '#' && '\n' !in ending[1..]))
  }

  /** Parsing what is printed gives back the message, however it was printed. */
  lemma TextRoundTrip(shown: seq<Shown>, gaps: seq<seq<Filler>>, last: seq<Filler>, ending: string)
    requires forall f :: f in shown ==> IsShown(f)
    requires AreGaps(FieldsTokens(shown), gaps, last, ending)
    ensures ParseOf(LayoutText(LayOut(FieldsTokens(shown), gaps), last, ending)) == Ok(FieldsShown(shown))
  {
    hide IsShown, IsToken, MayFollow, IsFiller, TokensOf, ReadFields;
    var tokens := FieldsTokens(shown);
    var items := LayOut(tokens, gaps);
    ShownTokensAreTokens(shown);
    assert IsLayout(items, last, ending);
    TokensOfLayout(items, last, ending);
    assert LaidTokens(items) == tokens;
    FieldsRead(shown, None, []);
    assert tokens + [] == tokens;
  }

  /** The decimal numeral of an integer. */
  function IntegerText(n: int): string {
    if n < 0 then "-" + Decimal(-n) else Decimal(n)
  }

  lemma IntegerReadBack(n: int)
    ensures IsToken(Token(Number, IntegerText(n)))
    ensures NumberOf(IntegerText(n)) == Integer(n)
  {
    var digits := Decimal(if n < 0 then -n else n);
    ValueOfDecimal(if n < 0 then -n else n);
    hide Decimal;
    DigitsAreToken(digits, n < 0);
    DigitsAreInteger(digits, n < 0);
  }

  function Signed(digits: string, negative: bool): string {
    if negative then "-" + digits else digits
  }

  lemma DigitsAreToken(digits: string, negative: bool)
    requires digits != "" && forall i :: 0 <= i < |digits| ==> IsDigit(digits[i])
    ensures IsToken(Token(Number, Signed(digits, negative)))
  {
    var text := Signed(digits, negative);
    var from := if negative then 1 else 0;
    assert forall i :: from <= i < |text| ==> text[i] == digits[i - from];
    DigitsRun(text, from);
    assert !HexAt(text, from);
    assert UnsignedEnd(text, from) == Some(|text|);
  }

  lemma DigitsAreInteger(digits: string, negative: bool)
    requires digits != "" && forall i :: 0 <= i < |digits| ==> IsDigit(digits[i])
    ensures NumberOf(Signed(digits, negative)) == Integer((if negative then -1 else 1) * DecimalValue(digits))
  {
    var text := Signed(digits, negative);
    assert negative ==> text[1..] == digits;
    assert !IsHexPrefixed(digits);
    assert text[|text| - 1] == digits[|digits| - 1];
  }

  lemma {:induction false} DigitsRun(s: string, from: nat)
    requires from <= |s| && forall i :: from <= i < |s| ==> IsDigit(s[i])
    ensures RunEnd(s, from, IsDigit) == |s|
    decreases |s| - from
  {
    if from < |s| {
      DigitsRun(s, from + 1);
    }
  }

  /** What can be printed at all: names and words that are tokens, floats that read back as floats. */
  predicate IsPrintable(v: Value) {
    match v
    case Bytes(_) => true
    case Integer(_) => true
    case Float(lexeme) => IsToken(Token(Number, lexeme)) && NumberOf(lexeme) == Float(lexeme)
    case Word(name) => IsToken(Token(Ident, name))
    case Message(fields) => forall f :: f in fields ==> IsPrintableName(f.name) && IsPrintable(f.value)
  }

  predicate IsPrintableName(name: string) {
    exists kind :: kind in {Ident, Number, Bracket} && IsToken(Token(kind, name))
  }

  /** Every printable message is the message some text shows, so the round trip reaches them all. */
  lemma {:induction false} EveryMessageCanBeShown(fields: seq<Field>) returns (shown: seq<Shown>)
    requires forall f :: f in fields ==> IsPrintableName(f.name) && IsPrintable(f.value)
    ensures forall s :: s in shown ==> IsShown(s)
    ensures FieldsShown(shown) == fields
    decreases fields, 0
  {
    hide IsToken, NumberOf;
    if fields == [] {
      shown := [];
    } else {
      var f := fields[0];
      assert f in fields && forall g :: g in fields[1..] ==> g in fields;
      var kind :| kind in {Ident, Number, Bracket} && IsToken(Token(kind, f.name));
      var body := ValueCanBeShown(f.value);
      var rest := EveryMessageCanBeShown(fields[1..]);
      var first := Shown(Token(kind, f.name), true, body, "");
      shown := [first] + rest;
      assert shown[1..] == rest;
      assert IsShown(first);
    }
  }

  lemma BytesCanBeShown(octets: Octets) returns (b: Body)
    ensures IsBody(b) && ValueShown(b) == Bytes(octets)
  {
    var units := EveryStringCanBeWritten(octets, '"');
    var chunk := Chunk('"', units);
    b := Strings([chunk]);
    assert ChunksOctets([chunk]) == octets + ChunksOctets([chunk][1..]);
    assert octets + [] == octets;
  }

  lemma {:induction false} ValueCanBeShown(v: Value) returns (b: Body)
    requires IsPrintable(v)
    ensures IsBody(b) && ValueShown(b) == v
    decreases v, 1
  {
    match v {
      case Bytes(octets) =>
        b := BytesCanBeShown(octets);
      case Integer(n) =>
        IntegerReadBack(n);
        b := Numeral(IntegerText(n));
      case Float(lexeme) =>
        b := Numeral(lexeme);
      case Word(name) =>
        b := Name(name);
      case Message(fields) =>
        var shown := EveryMessageCanBeShown(fields);
        b := Block(false, shown);
    }
  }
}
