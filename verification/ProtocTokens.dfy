/**
 The tokens of protoc's text format. `TokensOfLayout` says that any tokens, laid out with any blanks
 and comments between them, are read back, provided two that would run together are kept apart.
 */
module ProtocTokens {
  import opened Decimals
  import opened Wrappers

  datatype Kind = Skip | Quoted | Bracket | Punct | Number | Ident
  datatype Token = Token(kind: Kind, text: string)

  predicate IsSpace(c: char) {
    c == ' ' || c == '\t' || c == '\r' || c == '\n' || c == 12 as char || c == 11 as char
  }

  predicate IsHex(c: char) {
    IsDigit(c) || 'a' <= c <= 'f' || 'A' <= c <= 'F'
  }

  predicate IsLetter(c: char) {
    'A' <= c <= 'Z' || 'a' <= c <= 'z' || c == '_'
  }

  predicate IsIdentChar(c: char) {
    IsLetter(c) || IsDigit(c) || c == '.'
  }

  predicate NotLineFeed(c: char) {
    c != '\n'
  }

  predicate IsPunct(c: char) {
    c == '{' || c == '}' || c == '<' || c == '>' || c == ':' || c == ';' || c == ','
  }

  /** The end of the longest run of a class of characters. */
  function RunEnd(s: string, from: nat, p: char -> bool): (e: nat)
    requires from <= |s|
    ensures from <= e <= |s|
    ensures forall k :: from <= k < e ==> p(s[k])
    ensures e < |s| ==> !p(s[e])
    decreases |s| - from
  {
    if from < |s| && p(s[from]) then RunEnd(s, from + 1, p) else from
  }

  /** Past the closing quote of a string on its line; a backslash hides any character but a line feed. */
  function StringEnd(s: string, from: nat, quote: char): (e: Option<nat>)
    requires from <= |s|
    ensures e.Some? ==> from < e.value <= |s|
    decreases |s| - from
  {
    if from == |s| || s[from] == '\n' then None
    else if s[from] == quote then Some(from + 1)
    else if s[from] != '\\' then StringEnd(s, from + 1, quote)
    else if from + 1 < |s| && s[from + 1] != '\n' then StringEnd(s, from + 2, quote)
    else None
  }

  function BracketEnd(s: string, from: nat): (e: Option<nat>)
    requires from <= |s|
    ensures e.Some? ==> from < e.value <= |s|
    decreases |s| - from
  {
    if from == |s| || s[from] == '\n' then None
    else if s[from] == ']' then Some(from + 1)
    else BracketEnd(s, from + 1)
  }

  predicate DigitAt(s: string, i: nat) {
    i < |s| && IsDigit(s[i])
  }

  /** Past an exponent, when there is a whole one. */
  function ExponentEnd(s: string, from: nat): (e: nat)
    requires from <= |s|
    ensures from <= e <= |s|
  {
    if from < |s| && (s[from] == 'e' || s[from] == 'E') then
      var digits := if from + 1 < |s| && (s[from + 1] == '+' || s[from + 1] == '-') then from + 2 else from + 1;
      if DigitAt(s, digits) then RunEnd(s, digits, IsDigit) else from
    else from
  }

  /** Past the exponent and the float suffix of a decimal whose digits end at `from`. */
  function SuffixEnd(s: string, from: nat): (e: nat)
    requires from <= |s|
    ensures from <= e <= |s|
  {
    var e := ExponentEnd(s, from);
    if e < |s| && (s[e] == 'f' || s[e] == 'F') then e + 1 else e
  }

  predicate HexAt(s: string, from: nat) {
    from + 2 < |s| && s[from] == '0' && (s[from + 1] == 'x' || s[from + 1] == 'X') && IsHex(s[from + 2])
  }

  /** Past the longest number without its sign. */
  function UnsignedEnd(s: string, from: nat): (e: Option<nat>)
    requires from <= |s|
    ensures e.Some? ==> from < e.value <= |s|
  {
    if HexAt(s, from) then Some(RunEnd(s, from + 2, IsHex))
    else if DigitAt(s, from) then
      var e := RunEnd(s, from, IsDigit);
      Some(SuffixEnd(s, if e < |s| && s[e] == '.' then RunEnd(s, e + 1, IsDigit) else e))
    else if from < |s| && s[from] == '.' && DigitAt(s, from + 1) then Some(SuffixEnd(s, RunEnd(s, from + 1, IsDigit)))
    else None
  }

  function SignEnd(s: string): nat {
    if s != "" && s[0] == '-' then 1 else 0
  }

  /** A number is not followed by a letter. */
  function NumberEnd(s: string): (e: Option<nat>)
    ensures e.Some? ==> 0 < e.value <= |s|
  {
    match UnsignedEnd(s, SignEnd(s))
    case None => None
    case Some(e) => if e < |s| && IsLetter(s[e]) then None else Some(e)
  }

  function IdentEnd(s: string): (e: Option<nat>)
    ensures e.Some? ==> 0 < e.value <= |s|
  {
    var from := SignEnd(s);
    if from < |s| && IsLetter(s[from]) then Some(RunEnd(s, from, IsIdentChar)) else None
  }

  /** The token at the start of a non-empty text, alternatives tried in order: its kind and end. */
  function First(s: string): (r: Option<(Kind, nat)>)
    requires s != ""
    ensures r.Some? ==> 0 < r.value.1 <= |s|
  {
    if IsSpace(s[0]) then Some((Skip, RunEnd(s, 0, IsSpace)))
    else if s[0] == '#' then Some((Skip, RunEnd(s, 0, NotLineFeed)))
    else if s[0] == '"' || s[0] == '\'' then WithKind(Quoted, StringEnd(s, 1, s[0]))
    else if s[0] == '[' then WithKind(Bracket, BracketEnd(s, 1))
    else if IsPunct(s[0]) then Some((Punct, 1))
    else if NumberEnd(s).Some? then WithKind(Number, NumberEnd(s))
    else WithKind(Ident, IdentEnd(s))
  }

  function WithKind(kind: Kind, end: Option<nat>): Option<(Kind, nat)> {
    match end
    case None => None
    case Some(e) => Some((kind, e))
  }

  /** All tokens of a text, blanks and comments left out; none when some text is no token. */
  function TokensOf(s: string): Option<seq<Token>>
    decreases |s|
  {
    if s == "" then Some([])
    else
      match First(s)
      case None => None
      case Some((kind, end)) =>
        (match TokensOf(s[end..])
         case None => None
         case Some(rest) => Some(if kind == Skip then rest else [Token(kind, s[..end])] + rest))
  }

  function Prepend(tokens: seq<Token>, rest: Option<seq<Token>>): Option<seq<Token>> {
    match rest
    case None => None
    case Some(r) => Some(tokens + r)
  }

  /** `_tokens`: the loop over the positions of the matches. */
  method Tokens(text: string) returns (r: Option<seq<Token>>)
    ensures r == TokensOf(text)
  {
    hide First;
    var position, tokens := 0, [];
    assert text[0..] == text;
    PrependNothing(TokensOf(text));
    while position < |text|
      invariant position <= |text|
      invariant TokensOf(text) == Prepend(tokens, TokensOf(text[position..]))
    {
      var found := First(text[position..]);
      if found.None? {
        return None;
      }
      var (kind, end) := found.value;
      assert text[position..][end..] == text[position + end..];
      if kind != Skip {
        var token := Token(kind, text[position..][..end]);
        PrependTwice(tokens, [token], TokensOf(text[position + end..]));
        tokens := tokens + [token];
      }
      position := position + end;
    }
    assert text[position..] == "";
    assert tokens + [] == tokens;
    r := Some(tokens);
  }

  lemma PrependNothing(r: Option<seq<Token>>)
    ensures Prepend([], r) == r
  {
    if r.Some? {
      assert [] + r.value == r.value;
    }
  }

  lemma PrependTwice(a: seq<Token>, b: seq<Token>, r: Option<seq<Token>>)
    ensures Prepend(a, Prepend(b, r)) == Prepend(a + b, r)
  {
    if r.Some? {
      assert a + (b + r.value) == (a + b) + r.value;
    }
  }

  // -------------------------------------------------------------- a token in front of more text

  /** A token on its own: all of its text, and nothing shorter. */
  predicate IsToken(t: Token) {
    t.text != "" && t.kind != Skip && First(t.text) == Some((t.kind, |t.text|))
  }

  /** What may follow a token directly: a number or an identifier runs on through these characters. */
  predicate MayFollow(t: Token, after: string) {
    t.kind == Number || t.kind == Ident ==> after == "" || !IsIdentChar(after[0])
  }

  lemma {:induction false} RunEndExtends(s: string, after: string, from: nat, p: char -> bool)
    requires from <= |s|
    requires RunEnd(s, from, p) == |s| && after != "" ==> !p(after[0])
    ensures RunEnd(s + after, from, p) == RunEnd(s, from, p)
    decreases |s| - from
  {
    if from < |s| && p(s[from]) {
      RunEndExtends(s, after, from + 1, p);
    }
  }

  lemma {:induction false} StringEndExtends(s: string, after: string, from: nat, quote: char)
    requires from <= |s| && StringEnd(s, from, quote).Some?
    ensures StringEnd(s + after, from, quote) == StringEnd(s, from, quote)
    decreases |s| - from
  {
    if s[from] != quote {
      StringEndExtends(s, after, if s[from] == '\\' then from + 2 else from + 1, quote);
    }
  }

  lemma {:induction false} BracketEndExtends(s: string, after: string, from: nat)
    requires from <= |s| && BracketEnd(s, from).Some?
    ensures BracketEnd(s + after, from) == BracketEnd(s, from)
    decreases |s| - from
  {
    if s[from] != ']' {
      BracketEndExtends(s, after, from + 1);
    }
  }

  lemma ExponentEndExtends(s: string, after: string, from: nat)
    requires from <= |s| && (after == "" || !IsIdentChar(after[0]))
    requires var e := ExponentEnd(s, from); e == |s| || !IsLetter(s[e]) || s[e] == 'f' || s[e] == 'F'
    ensures ExponentEnd(s + after, from) == ExponentEnd(s, from)
  {
    if from < |s| && (s[from] == 'e' || s[from] == 'E') {
      var digits := if from + 1 < |s| && (s[from + 1] == '+' || s[from + 1] == '-') then from + 2 else from + 1;
      if DigitAt(s, digits) {
        RunEndExtends(s, after, digits, IsDigit);
      }
    }
  }

  lemma SuffixEndExtends(s: string, after: string, from: nat)
    requires from <= |s| && (after == "" || !IsIdentChar(after[0]))
    requires SuffixEnd(s, from) == |s|
    ensures SuffixEnd(s + after, from) == |s|
  {
    ExponentEndExtends(s, after, from);
  }

  lemma UnsignedEndExtends(s: string, after: string, from: nat)
    requires from <= |s| && (after == "" || !IsIdentChar(after[0]))
    requires UnsignedEnd(s, from) == Some(|s|)
    ensures UnsignedEnd(s + after, from) == Some(|s|)
  {
    hide RunEnd, SuffixEnd;
    var t := s + after;
    assert forall i :: 0 <= i < |s| ==> t[i] == s[i];
    if HexAt(s, from) {
      RunEndExtends(s, after, from + 2, IsHex);
    } else if DigitAt(s, from) {
      assert !HexAt(t, from);
      RunEndExtends(s, after, from, IsDigit);
      var e := RunEnd(s, from, IsDigit);
      if e < |s| && s[e] == '.' {
        RunEndExtends(s, after, e + 1, IsDigit);
        SuffixEndExtends(s, after, RunEnd(s, e + 1, IsDigit));
      } else {
        SuffixEndExtends(s, after, e);
      }
    } else {
      RunEndExtends(s, after, from + 1, IsDigit);
      SuffixEndExtends(s, after, RunEnd(s, from + 1, IsDigit));
    }
  }

  /** A token is found again in front of any text that may follow it. */
  lemma TokenExtends(t: Token, after: string)
    requires IsToken(t) && MayFollow(t, after)
    ensures First(t.text + after) == Some((t.kind, |t.text|))
  {
    hide RunEnd, StringEnd, BracketEnd, UnsignedEnd;
    var s := t.text;
    assert (s + after)[0] == s[0];
    match t.kind {
      case Skip =>
      case Punct =>
      case Quoted => StringEndExtends(s, after, 1, s[0]);
      case Bracket => BracketEndExtends(s, after, 1);
      case Number => UnsignedEndExtends(s, after, SignEnd(s));
      case Ident =>
        IdentIsNoNumber(s);
        IdentIsNoNumber(s + after);
        RunEndExtends(s, after, SignEnd(s), IsIdentChar);
    }
  }

  lemma IdentIsNoNumber(s: string)
    requires IdentEnd(s).Some?
    ensures NumberEnd(s).None?
  {
  }

  lemma TokenThenRest(t: Token, after: string)
    requires IsToken(t) && MayFollow(t, after)
    ensures TokensOf(t.text + after) == Prepend([t], TokensOf(after))
  {
    hide First;
    TokenExtends(t, after);
    assert (t.text + after)[|t.text|..] == after;
    assert (t.text + after)[..|t.text|] == t.text;
  }

  // ----------------------------------------------------------------------------- the gaps

  /** What stands between tokens: a blank, or a comment with the line feed that ends it. */
  datatype Filler = Blank(c: char) | Comment(body: string)

  predicate IsFiller(f: Filler) {
    match f
    case Blank(c) => IsSpace(c)
    case Comment(body) => '\n' !in body
  }

  function FillerText(f: Filler): string {
    match f
    case Blank(c) => [c]
    case Comment(body) => "#" + body + "\n"
  }

  function GapText(gap: seq<Filler>): string {
    if gap == [] then "" else FillerText(gap[0]) + GapText(gap[1..])
  }

  /** A blank in front changes nothing, even when it joins a run of blanks. */
  lemma BlankSkipped(c: char, s: string)
    requires IsSpace(c)
    ensures TokensOf([c] + s) == TokensOf(s)
  {
    var t := [c] + s;
    var end := RunEnd(t, 0, IsSpace);
    assert First(t) == Some((Skip, end));
    RunEndShift(c, s, 0);
    if s == "" || !IsSpace(s[0]) {
      assert t[end..] == s;
    } else {
      assert First(s) == Some((Skip, end - 1));
      assert t[end..] == s[end - 1..];
    }
  }

  lemma {:induction false} RunEndShift(c: char, s: string, from: nat)
    requires from <= |s|
    ensures RunEnd([c] + s, from + 1, IsSpace) == RunEnd(s, from, IsSpace) + 1
    decreases |s| - from
  {
    if from < |s| && IsSpace(s[from]) {
      RunEndShift(c, s, from + 1);
    }
  }

  lemma CommentSkipped(body: string, s: string)
    requires '\n' !in body && (s == "" || s[0] == '\n')
    ensures TokensOf("#" + body + s) == TokensOf(s)
  {
    var t := "#" + body;
    CommentEnd(t, 0);
    RunEndExtends(t, s, 0, NotLineFeed);
    assert t + s == "#" + body + s;
    assert First(t + s) == Some((Skip, |t|));
    assert (t + s)[|t|..] == s;
  }

  lemma {:induction false} CommentEnd(s: string, from: nat)
    requires from <= |s| && '\n' !in s
    ensures RunEnd(s, from, NotLineFeed) == |s|
    decreases |s| - from
  {
    if from < |s| {
      assert s[from] in s;
      CommentEnd(s, from + 1);
    }
  }

  lemma FillerSkipped(f: Filler, s: string)
    requires IsFiller(f)
    ensures TokensOf(FillerText(f) + s) == TokensOf(s)
  {
    hide TokensOf;
    match f
    case Blank(c) =>
      BlankSkipped(c, s);
    case Comment(body) =>
      BlankSkipped('\n', s);
      CommentSkipped(body, ['\n'] + s);
      assert FillerText(f) + s == "#" + body + (['\n'] + s);
  }

  lemma {:induction false} GapSkipped(gap: seq<Filler>, s: string)
    requires forall f :: f in gap ==> IsFiller(f)
    ensures TokensOf(GapText(gap) + s) == TokensOf(s)
  {
    hide TokensOf, IsFiller, FillerText;
    if gap == [] {
      assert "" + s == s;
    } else {
      assert gap[0] in gap && forall f :: f in gap[1..] ==> f in gap;
      GapSkipped(gap[1..], s);
      FillerSkipped(gap[0], GapText(gap[1..]) + s);
      assert GapText(gap) + s == FillerText(gap[0]) + (GapText(gap[1..]) + s);
    }
  }

  // --------------------------------------------------------------------------- the layout

  /** A token with the gap before it. */
  datatype Laid = Laid(gap: seq<Filler>, token: Token)

  /** The text of a layout: each gap and token, then a last gap and perhaps a comment that the end of
      the text ends. */
  function LayoutText(items: seq<Laid>, last: seq<Filler>, ending: string): string {
    if items == [] then GapText(last) + ending
    else GapText(items[0].gap) + (items[0].token.text + LayoutText(items[1..], last, ending))
  }

  function LaidTokens(items: seq<Laid>): (r: seq<Token>)
    ensures |r| == |items| && forall i :: 0 <= i < |r| ==> r[i] == items[i].token
  {
    seq(|items|, i requires 0 <= i < |items| => items[i].token)
  }

  /** Fillers are fillers, tokens are tokens, and two tokens without a gap may stand side by side. */
  predicate IsLayout(items: seq<Laid>, last: seq<Filler>, ending: string) {
    && (forall i :: 0 <= i < |items| ==> IsToken(items[i].token) && forall f :: f in items[i].gap ==> IsFiller(f))
    && (forall i :: 0 < i < |items| && items[i].gap == [] ==> MayFollow(items[i - 1].token, items[i].token.text))
    && (forall f :: f in last ==> IsFiller(f))
    && (ending == "" || (ending[0] == '#' && '\n' !in ending[1..]))
  }

  lemma FillerStart(gap: seq<Filler>, s: string)
    requires gap != [] && IsFiller(gap[0])
    ensures GapText(gap) + s != "" && !IsIdentChar((GapText(gap) + s)[0])
  {
  }

  lemma LayoutParts(items: seq<Laid>, last: seq<Filler>, ending: string)
    requires IsLayout(items, last, ending)
    ensures if items == [] then
              && (forall f :: f in last ==> IsFiller(f))
              && (ending == "" || (ending[0] == '#' && '\n' !in ending[1..]))
            else
              && IsToken(items[0].token) && (forall f :: f in items[0].gap ==> IsFiller(f))
              && IsLayout(items[1..], last, ending)
  {
    hide IsToken, MayFollow, IsFiller;
  }

  lemma LayoutFollows(items: seq<Laid>, last: seq<Filler>, ending: string)
    requires items != [] && IsLayout(items, last, ending)
    ensures MayFollow(items[0].token, LayoutText(items[1..], last, ending))
  {
    if |items| > 1 {
      var next := items[1];
      var after := next.token.text + LayoutText(items[1..][1..], last, ending);
      assert LayoutText(items[1..], last, ending) == GapText(next.gap) + after;
      if next.gap == [] {
        assert after[0] == next.token.text[0] && "" + after == after;
      } else {
        assert next.gap[0] in next.gap;
        FillerStart(next.gap, after);
      }
    } else if last != [] {
      assert last[0] in last;
      FillerStart(last, ending);
    }
  }

  /** The tokens of a layout are its tokens: gaps leave no trace, and nothing is joined or cut. */
  lemma {:induction false} TokensOfLayout(items: seq<Laid>, last: seq<Filler>, ending: string)
    requires IsLayout(items, last, ending)
    ensures TokensOf(LayoutText(items, last, ending)) == Some(LaidTokens(items))
  {
    hide First, TokensOf, IsToken, MayFollow, IsLayout, IsFiller;
    LayoutParts(items, last, ending);
    if items == [] {
      GapSkipped(last, ending);
      EndingSkipped(ending);
    } else {
      var rest := LayoutText(items[1..], last, ending);
      LayoutFollows(items, last, ending);
      TokensOfLayout(items[1..], last, ending);
      GapSkipped(items[0].gap, items[0].token.text + rest);
      TokenThenRest(items[0].token, rest);
      assert LaidTokens(items) == [items[0].token] + LaidTokens(items[1..]);
    }
  }

  lemma EndingSkipped(ending: string)
    requires ending == "" || (ending[0] == '#' && '\n' !in ending[1..])
    ensures TokensOf(ending) == Some([])
  {
    if ending != "" {
      CommentSkipped(ending[1..], "");
      assert "#" + ending[1..] + "" == ending;
    }
  }
}
