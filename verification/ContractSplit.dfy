/**
 Splitting an interface definition file into code and comments. Every character goes to exactly one
 piece (`PiecesCoverSource`), and taking the comments out is stable: the code half splits into
 itself, with no comment in it (`CodeHasNoComments`).
 */
module ContractSplit {
  import opened Wrappers

  /** A stretch of source: one character or one string literal of code, or one comment, kept without
      its delimiters. */
  datatype Piece =
    | Char(c: char)
    | Literal(text: string)
    | LineComment(body: string)
    | BlockComment(body: string)
  {
    /** The piece as it stands in the source. */
    function Source(): string {
      match this
      case Char(c) => [c]
      case Literal(text) => text
      case LineComment(body) => "//" + body
      case BlockComment(body) => "/*" + body + "*/"
    }

    /** What the code half keeps of it. */
    function Code(): string {
      match this
      case Char(c) => [c]
      case Literal(text) => text
      case LineComment(_) => ""
      case BlockComment(_) => " "
    }

    predicate IsComment() {
      LineComment? || BlockComment?
    }
  }

  /** `find("\n")`, or the end. */
  function LineEnd(s: string, from: nat): (r: nat)
    requires from <= |s|
    ensures from <= r <= |s|
    ensures r < |s| ==> s[r] == '\n'
    decreases |s| - from
  {
    if from == |s| || s[from] == '\n' then from else LineEnd(s, from + 1)
  }

  // The first closing block-comment delimiter at or after `from`.
  function BlockEnd(s: string, from: nat): (r: Option<nat>)
    requires from <= |s|
    ensures r.Some? ==> from <= r.value && r.value + 2 <= |s| && s[r.value] == '*' && s[r.value + 1] == '/'
    decreases |s| - from
  {
    if from + 2 > |s| then None
    else if s[from] == '*' && s[from + 1] == '/' then Some(from)
    else BlockEnd(s, from + 1)
  }

  /** The closing quote of a string literal on its line; a backslash hides the next character. */
  function QuoteEnd(s: string, from: nat, quote: char): (r: Option<nat>)
    ensures r.Some? ==> from <= r.value < |s| && s[r.value] == quote
    decreases if from < |s| then |s| - from else 0
  {
    if from >= |s| then None
    else if s[from] == quote then Some(from)
    else if s[from] == '\n' then None
    else QuoteEnd(s, from + if s[from] == '\\' then 2 else 1, quote)
  }

  predicate IsQuote(c: char) {
    c == '"' || c == '\''
  }

  predicate StartsComment(s: string) {
    |s| >= 2 && s[0] == '/' && (s[1] == '/' || s[1] == '*')
  }

  /** The piece a non-empty source starts with, or none when it starts with a string literal or a
      block comment that is not closed. */
  function FirstPiece(s: string): (r: Option<Piece>)
    requires s != ""
    ensures r.Some? ==> 0 < |r.value.Source()| <= |s| && r.value.Source() == s[..|r.value.Source()|]
  {
    if StartsComment(s) && s[1] == '/' then
      var end := LineEnd(s, 2);
      assert s[..end] == "//" + s[2..end];
      Some(LineComment(s[2..end]))
    else if StartsComment(s) then
      match BlockEnd(s, 2)
      case None => None
      case Some(end) =>
        assert s[..end + 2] == "/*" + s[2..end] + "*/";
        Some(BlockComment(s[2..end]))
    else if IsQuote(s[0]) then
      match QuoteEnd(s, 1, s[0])
      case None => None
      case Some(end) => Some(Literal(s[..end + 1]))
    else Some(Char(s[0]))
  }

  function Pieces(s: string): Option<seq<Piece>>
    decreases |s|
  {
    if s == "" then Some([])
    else
      match FirstPiece(s)
      case None => None
      case Some(piece) =>
        (match Pieces(s[|piece.Source()|..])
         case None => None
         case Some(rest) => Some([piece] + rest))
  }

  function CodeOf(pieces: seq<Piece>): string {
    if pieces == [] then "" else pieces[0].Code() + CodeOf(pieces[1..])
  }

  function SourceOf(pieces: seq<Piece>): string {
    if pieces == [] then "" else pieces[0].Source() + SourceOf(pieces[1..])
  }

  function CommentsOf(pieces: seq<Piece>): seq<string> {
    if pieces == [] then []
    else OwnComment(pieces[0]) + CommentsOf(pieces[1..])
  }

  function OwnComment(piece: Piece): seq<string> {
    if piece.IsComment() then [piece.body] else []
  }

  /** The two halves of a source. */
  function Halves(s: string): Option<(string, seq<string>)> {
    match Pieces(s)
    case None => None
    case Some(pieces) => Some((CodeOf(pieces), CommentsOf(pieces)))
  }

  /** `split`: the cursor loop. The comments are joined by line feeds afterwards. */
  method Split(source: string) returns (r: Option<(string, seq<string>)>)
    ensures r == Halves(source)
  {
    hide Halves, Pieces, Before, FirstPiece;
    var code, comments, at := "", [], 0;
    NothingBefore(source);
    assert source[0..] == source;
    while at < |source|
      invariant at <= |source|
      invariant Halves(source) == Before(code, comments, Halves(source[at..]))
    {
      ghost var here, code0, comments0 := source[at..], code, comments;
      NoPiece(here, code, comments);
      var readable;
      readable, code, comments, at := TakePiece(source, at, code, comments);
      if !readable {
        return None;
      }
      ghost var piece := FirstPiece(here).value;
      OnePiece(here, piece, code0, comments0);
      assert source[at..] == here[|piece.Source()|..];
    }
    assert source[at..] == "";
    NothingLeft(code, comments);
    r := Some((code, comments));
  }

  /** The body of the loop: the piece at the cursor goes to the code or to the comments. */
  method TakePiece(source: string, from: nat, before: string, others: seq<string>)
    returns (readable: bool, code: string, comments: seq<string>, at: nat)
    requires from < |source|
    ensures readable <==> FirstPiece(source[from..]).Some?
    ensures readable ==>
              var piece := FirstPiece(source[from..]).value;
              && code == before + piece.Code() && comments == others + OwnComment(piece)
              && at == from + |piece.Source()| <= |source|
  {
    hide QuoteEnd, LineEnd, BlockEnd;
    var here := source[from..];
    readable, code, comments, at := true, before, others, from;
    if from + 1 < |source| && source[from] == '/' && source[from + 1] == '/' {
      var end := LineEnd(here, 2);
      comments := comments + [here[2..end]];
      at := at + end;
    } else if from + 1 < |source| && source[from] == '/' && source[from + 1] == '*' {
      var end := BlockEnd(here, 2);
      if end.None? {
        return false, code, comments, at;
      }
      comments := comments + [here[2..end.value]];
      code := code + " ";
      at := at + end.value + 2;
    } else if IsQuote(source[from]) {
      var end := QuoteEnd(here, 1, source[from]);
      if end.None? {
        return false, code, comments, at;
      }
      code := code + here[..end.value + 1];
      at := at + end.value + 1;
    } else {
      code := code + [source[from]];
      at := at + 1;
    }
  }

  function Before(code: string, comments: seq<string>, halves: Option<(string, seq<string>)>):
    Option<(string, seq<string>)>
  {
    match halves
    case None => None
    case Some((c, d)) => Some((code + c, comments + d))
  }

  lemma NothingBefore(s: string)
    ensures Before("", [], Halves(s)) == Halves(s)
  {
    if Halves(s).Some? {
      assert "" + Halves(s).value.0 == Halves(s).value.0;
      assert [] + Halves(s).value.1 == Halves(s).value.1;
    }
  }

  lemma NothingLeft(code: string, comments: seq<string>)
    ensures Before(code, comments, Halves("")) == Some((code, comments))
  {
    assert Pieces("") == Some([]);
    assert code + "" == code && comments + [] == comments;
  }

  lemma NoPiece(s: string, code: string, comments: seq<string>)
    requires s != ""
    ensures FirstPiece(s).None? ==> Before(code, comments, Halves(s)) == None
  {
  }

  lemma OnePiece(s: string, piece: Piece, code: string, comments: seq<string>)
    requires s != "" && FirstPiece(s) == Some(piece)
    ensures Before(code, comments, Halves(s))
         == Before(code + piece.Code(), comments + OwnComment(piece), Halves(s[|piece.Source()|..]))
  {
    hide Halves, FirstPiece, OwnComment, Before;
    HalvesOfPiece(s, piece);
    BeforeTwice(code, piece.Code(), comments, OwnComment(piece), Halves(s[|piece.Source()|..]));
  }

  lemma BeforeTwice(code: string, more: string, comments: seq<string>, others: seq<string>,
                    halves: Option<(string, seq<string>)>)
    ensures Before(code, comments, Before(more, others, halves)) == Before(code + more, comments + others, halves)
  {
    if halves.Some? {
      assert code + (more + halves.value.0) == (code + more) + halves.value.0;
      assert comments + (others + halves.value.1) == (comments + others) + halves.value.1;
    }
  }

  lemma HalvesOfPiece(s: string, piece: Piece)
    requires s != "" && FirstPiece(s) == Some(piece)
    ensures Halves(s) == Before(piece.Code(), OwnComment(piece), Halves(s[|piece.Source()|..]))
  {
    hide FirstPiece, OwnComment;
    if Pieces(s[|piece.Source()|..]).Some? {
      var rest := Pieces(s[|piece.Source()|..]).value;
      assert ([piece] + rest)[1..] == rest;
    }
  }

  /** Every character of the source stands in exactly one piece, in order. */
  lemma {:induction false} PiecesCoverSource(s: string)
    requires Pieces(s).Some?
    ensures SourceOf(Pieces(s).value) == s
    decreases |s|
  {
    if s != "" {
      var piece := FirstPiece(s).value;
      PiecesCoverSource(s[|piece.Source()|..]);
    }
  }

  // ------------------------------------------------------------------ comment removal is stable

  /** The pieces the code half consists of. */
  function CodePieces(pieces: seq<Piece>): (r: seq<Piece>)
    ensures forall p :: p in r ==> !p.IsComment()
  {
    if pieces == [] then []
    else
      OwnCode(pieces[0]) + CodePieces(pieces[1..])
  }

  /** Within its closing quote, a string literal does not depend on what follows it. */
  lemma {:induction false} QuoteEndOfPrefix(s: string, from: nat, quote: char, other: string)
    requires QuoteEnd(s, from, quote).Some?
    requires var n := QuoteEnd(s, from, quote).value + 1; n <= |other| && s[..n] == other[..n]
    ensures QuoteEnd(other, from, quote) == QuoteEnd(s, from, quote)
    decreases |s| - from
  {
    var n := QuoteEnd(s, from, quote).value + 1;
    assert s[from] == s[..n][from] == other[from];
    if s[from] != quote {
      QuoteEndOfPrefix(s, from + if s[from] == '\\' then 2 else 1, quote, other);
    }
  }

  lemma LiteralOfPrefix(s: string, after: string)
    requires s != "" && !StartsComment(s) && IsQuote(s[0]) && FirstPiece(s).Some?
    ensures FirstPiece(FirstPiece(s).value.text + after) == FirstPiece(s)
  {
    var text := FirstPiece(s).value.text;
    var other := text + after;
    assert other[..|text|] == text == s[..|text|];
    QuoteEndOfPrefix(s, 1, s[0], other);
    assert other[0] == s[0];
  }

  /** A source that starts no comment and its code half start with the same character. */
  lemma CodeStart(s: string)
    requires s != "" && !StartsComment(s) && Pieces(s).Some?
    ensures var code := CodeOf(Pieces(s).value); code != "" && code[0] == s[0]
  {
    var piece := FirstPiece(s).value;
    assert Pieces(s).value[0] == piece;
  }

  /** A code character stays one in front of the code half of what follows it: a slash is not followed
      by anything that makes it a comment. */
  lemma CharKept(s: string, c: char)
    requires s != "" && FirstPiece(s) == Some(Char(c)) && Pieces(s[1..]).Some?
    ensures FirstPiece([c] + CodeOf(Pieces(s[1..]).value)) == Some(Char(c))
  {
    var rest := s[1..];
    if rest == "" {
      assert CodeOf(Pieces(rest).value) == "";
    } else if c == '/' {
      assert !StartsComment(rest) by {
        assert rest[0] == s[1];
      }
      CodeStart(rest);
    }
  }

  /** Splitting the code half gives exactly the code pieces: no comment, and no two characters that
      a removed comment kept apart become one. */
  lemma {:induction false} CodeHasNoComments(s: string)
    requires Pieces(s).Some?
    ensures Pieces(CodeOf(Pieces(s).value)) == Some(CodePieces(Pieces(s).value))
    decreases |s|
  {
    hide FirstPiece;
    if s != "" {
      var piece := FirstPiece(s).value;
      var rest := s[|piece.Source()|..];
      CodeHasNoComments(rest);
      CodeThen(s, CodeOf(Pieces(rest).value), CodePieces(Pieces(rest).value));
      CodeOfFirst(piece, Pieces(rest).value);
    }
  }

  lemma CodeOfFirst(piece: Piece, rest: seq<Piece>)
    ensures CodeOf([piece] + rest) == piece.Code() + CodeOf(rest)
    ensures CodePieces([piece] + rest) == OwnCode(piece) + CodePieces(rest)
  {
    assert ([piece] + rest)[1..] == rest;
  }

  /** The pieces that a piece's code splits into. */
  function OwnCode(piece: Piece): seq<Piece> {
    match piece
    case LineComment(_) => []
    case BlockComment(_) => [Char(' ')]
    case p => [p]
  }

  // The code of a piece, in front of the code half of what follows, splits off as its own pieces.
  lemma CodeThen(s: string, later: string, laterPieces: seq<Piece>)
    requires s != "" && FirstPiece(s).Some? && Pieces(later) == Some(laterPieces)
    requires Pieces(s[|FirstPiece(s).value.Source()|..]).Some?
    requires later == CodeOf(Pieces(s[|FirstPiece(s).value.Source()|..]).value)
    ensures Pieces(FirstPiece(s).value.Code() + later) == Some(OwnCode(FirstPiece(s).value) + laterPieces)
  {
    hide QuoteEnd, LineEnd, BlockEnd, CodeOf;
    match FirstPiece(s).value {
      case LineComment(_) =>
        assert "" + later == later;
        assert [] + laterPieces == laterPieces;
      case BlockComment(_) =>
        assert (" " + later)[1..] == later;
      case Literal(text) =>
        LiteralOfPrefix(s, later);
        assert (text + later)[|text|..] == later;
      case Char(c) =>
        CharKept(s, c);
        assert ([c] + later)[1..] == later;
    }
  }

  /** Splitting twice is splitting once, and the second time finds no comment. */
  lemma SplitTwice(s: string)
    requires Halves(s).Some?
    ensures Halves(Halves(s).value.0) == Some((Halves(s).value.0, []))
  {
    CodeHasNoComments(s);
    CodeOfCodePieces(Pieces(s).value);
  }

  lemma {:induction false} CodeOfCodePieces(pieces: seq<Piece>)
    ensures CodeOf(CodePieces(pieces)) == CodeOf(pieces)
    ensures CommentsOf(CodePieces(pieces)) == []
  {
    if pieces != [] {
      CodeOfCodePieces(pieces[1..]);
      var later := CodePieces(pieces[1..]);
      match pieces[0]
      case LineComment(_) =>
        assert [] + later == later;
      case BlockComment(_) =>
        assert ([Char(' ')] + later)[1..] == later;
      case p =>
        assert ([p] + later)[1..] == later;
    }
  }
}
