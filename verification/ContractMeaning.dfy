/**
 What is split off, fingerprinted and reported, said of the characters: where comments start and end, which
 stretches of a text are literals, which of these the code holds, and so which values of the comments are
 fingerprinted and found again (`FingerprintMeans`, `FoundEverywhere`).
 */
module ContractMeaning {
  import opened ContractSplit
  import opened ContractLiterals
  import opened Lists
  import opened Wrappers

  // ------------------------------------------------------------------------------ code and comments

  /** What stands between the quotes: a backslash takes the next character with it, and otherwise there is no
      quote of that kind and no line feed. */
  ghost predicate IsQuotedBody(body: string, quote: char)
    decreases |body|
  {
    || body == ""
    || (body[0] == '\\' && |body| >= 2 && IsQuotedBody(body[2..], quote))
    || (body[0] != '\\' && body[0] != '\n' && body[0] != quote && IsQuotedBody(body[1..], quote))
  }

  ghost predicate IsQuoted(text: string) {
    && |text| >= 2 && (text[0] == '"' || text[0] == '\'') && text[|text| - 1] == text[0]
    && IsQuotedBody(text[1..|text| - 1], text[0])
  }

  /** The source, read piece by piece: a line comment runs to the end of its line, a block comment to the first
      closing delimiter, a string literal to its closing quote, and what starts none of them is one character of
      code. The code is what is no comment, with a space for each block comment; the comments are their bodies. */
  ghost predicate Splits(s: string, pieces: seq<Piece>, code: string, comments: seq<string>)
    decreases |pieces|
  {
    if pieces == [] then s == "" && code == "" && comments == []
    else
      match pieces[0]
      case LineComment(body) =>
        && "//" + body <= s && '\n' !in body && (|s| == 2 + |body| || s[2 + |body|] == '\n')
        && comments != [] && comments[0] == body
        && Splits(s[2 + |body|..], pieces[1..], code, comments[1..])
      case BlockComment(body) =>
        && "/*" + body + "*/" <= s && IsFirstClose(s, 2 + |body|)
        && comments != [] && comments[0] == body && code != "" && code[0] == ' '
        && Splits(s[4 + |body|..], pieces[1..], code[1..], comments[1..])
      case Literal(text) =>
        && IsQuoted(text) && text <= s && text <= code
        && Splits(s[|text|..], pieces[1..], code[|text|..], comments)
      case Char(c) =>
        && s != "" && s[0] == c && c != '"' && c != '\'' && !("//" <= s) && !("/*" <= s)
        && code != "" && code[0] == c
        && Splits(s[1..], pieces[1..], code[1..], comments)
  }

  /** No closing delimiter stands between the opening one and this place. */
  predicate IsFirstClose(s: string, at: nat) {
    forall i :: 2 <= i < at && i + 1 < |s| ==> !(s[i] == '*' && s[i + 1] == '/')
  }

  lemma {:induction false} LineEndIs(s: string, from: nat, end: nat)
    requires from <= end <= |s| && (forall i :: from <= i < end ==> s[i] != '\n') && (end == |s| || s[end] == '\n')
    ensures LineEnd(s, from) == end
    decreases end - from
  {
    if from < end {
      LineEndIs(s, from + 1, end);
    }
  }

  lemma {:induction false} LineEndFree(s: string, from: nat)
    requires from <= |s|
    ensures forall i :: from <= i < LineEnd(s, from) ==> s[i] != '\n'
    decreases |s| - from
  {
    if from < |s| && s[from] != '\n' {
      LineEndFree(s, from + 1);
    }
  }

  lemma {:induction false} BlockEndIs(s: string, from: nat, end: nat)
    requires from <= end && end + 2 <= |s| && s[end] == '*' && s[end + 1] == '/'
    requires forall i :: from <= i < end ==> !(s[i] == '*' && s[i + 1] == '/')
    ensures BlockEnd(s, from) == Some(end)
    decreases end - from
  {
    if from < end {
      BlockEndIs(s, from + 1, end);
    }
  }

  lemma {:induction false} BlockEndFree(s: string, from: nat)
    requires from <= |s| && BlockEnd(s, from).Some?
    ensures forall i :: from <= i < BlockEnd(s, from).value ==> !(s[i] == '*' && s[i + 1] == '/')
    decreases |s| - from
  {
    if !(s[from] == '*' && s[from + 1] == '/') {
      BlockEndFree(s, from + 1);
    }
  }

  lemma {:induction false} QuoteEndIs(s: string, from: nat, end: nat, quote: char)
    requires from <= end < |s| && s[end] == quote && (quote == '"' || quote == '\'')
    requires IsQuotedBody(s[from..end], quote)
    ensures QuoteEnd(s, from, quote) == Some(end)
    decreases end - from
  {
    var body := s[from..end];
    if from < end {
      assert body[0] == s[from];
      if s[from] == '\\' {
        assert body[2..] == s[from + 2..end];
        QuoteEndIs(s, from + 2, end, quote);
      } else {
        assert body[1..] == s[from + 1..end];
        QuoteEndIs(s, from + 1, end, quote);
      }
    }
  }

  lemma {:induction false} QuoteEndBody(s: string, from: nat, quote: char)
    requires QuoteEnd(s, from, quote).Some? && (quote == '"' || quote == '\'')
    ensures IsQuotedBody(s[from..QuoteEnd(s, from, quote).value], quote)
    decreases |s| - from
  {
    var end := QuoteEnd(s, from, quote).value;
    var body := s[from..end];
    if from < end {
      assert body[0] == s[from];
      if s[from] == '\\' {
        QuoteEndBody(s, from + 2, quote);
        assert body[2..] == s[from + 2..end];
      } else {
        QuoteEndBody(s, from + 1, quote);
        assert body[1..] == s[from + 1..end];
      }
    }
  }

  /** A source is split in one way, and this is it. */
  lemma {:induction false} SplitIs(s: string, pieces: seq<Piece>, code: string, comments: seq<string>)
    requires Splits(s, pieces, code, comments)
    ensures Halves(s) == Some((code, comments))
    decreases |pieces|
  {
    hide Halves, FirstPiece, IsQuoted;
    if pieces == [] {
      NothingLeft("", []);
      NothingBefore("");
    } else {
      var piece := pieces[0];
      FirstIs(s, pieces, code, comments);
      var n, m, k := |piece.Source()|, |piece.Code()|, |OwnComment(piece)|;
      SplitIs(s[n..], pieces[1..], code[m..], comments[k..]);
      HalvesOfPiece(s, piece);
      assert code == piece.Code() + code[m..] && comments == OwnComment(piece) + comments[k..];
    }
  }

  lemma LineFirst(s: string, body: string)
    requires "//" + body <= s && '\n' !in body && (|s| == 2 + |body| || s[2 + |body|] == '\n')
    ensures FirstPiece(s) == Some(LineComment(body))
  {
    var n := 2 + |body|;
    assert s[..n] == "//" + body;
    assert s[0] == s[..n][0] && s[1] == s[..n][1];
    assert s[2..n] == body;
    assert forall i :: 2 <= i < n ==> s[i] == body[i - 2];
    LineEndIs(s, 2, n);
  }

  lemma BlockFirst(s: string, body: string)
    requires "/*" + body + "*/" <= s && IsFirstClose(s, 2 + |body|)
    ensures FirstPiece(s) == Some(BlockComment(body))
  {
    var n := 2 + |body|;
    assert s[..n + 2] == "/*" + body + "*/";
    assert s[0] == s[..n + 2][0] && s[1] == s[..n + 2][1] && s[n] == s[..n + 2][n] && s[n + 1] == s[..n + 2][n + 1];
    assert s[2..n] == s[..n + 2][2..n] == body;
    BlockEndIs(s, 2, n);
  }

  lemma QuotedFirst(s: string, text: string)
    requires IsQuoted(text) && text <= s
    ensures FirstPiece(s) == Some(Literal(text))
  {
    hide IsQuotedBody;
    var n := |text|;
    assert s[..n] == text;
    assert s[0] == text[0] && s[n - 1] == text[n - 1];
    assert s[1..n - 1] == text[1..n - 1];
    QuoteEndIs(s, 1, n - 1, text[0]);
  }

  lemma CharFirst(s: string)
    requires s != "" && s[0] != '"' && s[0] != '\'' && !("//" <= s) && !("/*" <= s)
    ensures FirstPiece(s) == Some(Char(s[0]))
  {
    hide LineEnd, BlockEnd, QuoteEnd;
  }

  lemma FirstIs(s: string, pieces: seq<Piece>, code: string, comments: seq<string>)
    requires pieces != [] && Splits(s, pieces, code, comments)
    ensures s != "" && FirstPiece(s) == Some(pieces[0])
    ensures pieces[0].Code() <= code && OwnComment(pieces[0]) <= comments
    ensures Splits(s[|pieces[0].Source()|..], pieces[1..], code[|pieces[0].Code()|..],
                   comments[|OwnComment(pieces[0])|..])
  {
    hide FirstPiece, IsQuoted, IsFirstClose;
    match pieces[0] {
      case LineComment(body) => LineFirst(s, body);
      case BlockComment(body) => BlockFirst(s, body);
      case Literal(text) => QuotedFirst(s, text); NotEmptyQuoted(text);
      case Char(c) => CharFirst(s);
    }
  }

  lemma NotEmptyQuoted(text: string)
    requires IsQuoted(text)
    ensures text != ""
  {
  }

  /** Every source that is split is split so. */
  lemma {:induction false} SplitHas(s: string)
    requires Pieces(s).Some?
    ensures Splits(s, Pieces(s).value, CodeOf(Pieces(s).value), CommentsOf(Pieces(s).value))
    decreases |s|
  {
    hide FirstPiece, IsQuoted, IsFirstClose;
    if s != "" {
      var piece := FirstPiece(s).value;
      var rest := s[|piece.Source()|..];
      SplitHas(rest);
      var pieces := Pieces(rest).value;
      assert Pieces(s).value == [piece] + pieces && ([piece] + pieces)[1..] == pieces;
      FirstHas(s);
      PieceSplits(s, piece, pieces, CodeOf(pieces), CommentsOf(pieces));
    }
  }

  /** What a first piece is like. */
  ghost predicate StandsFirst(s: string, piece: Piece) {
    match piece
    case LineComment(body) =>
      "//" + body <= s && '\n' !in body && (|s| == 2 + |body| || s[2 + |body|] == '\n')
    case BlockComment(body) => "/*" + body + "*/" <= s && IsFirstClose(s, 2 + |body|)
    case Literal(text) => IsQuoted(text) && text <= s
    case Char(c) => s != "" && s[0] == c && c != '"' && c != '\'' && !("//" <= s) && !("/*" <= s)
  }

  lemma FirstHas(s: string)
    requires s != "" && FirstPiece(s).Some?
    ensures StandsFirst(s, FirstPiece(s).value)
  {
    hide LineEnd, BlockEnd, QuoteEnd, IsQuotedBody;
    if StartsComment(s) && s[1] == '/' {
      LineEndFree(s, 2);
    } else if StartsComment(s) {
      BlockEndFree(s, 2);
    } else if IsQuote(s[0]) {
      QuoteEndBody(s, 1, s[0]);
      var end := QuoteEnd(s, 1, s[0]).value;
      assert s[..end + 1][1..end] == s[1..end];
    }
  }

  lemma PieceSplits(s: string, piece: Piece, pieces: seq<Piece>, code: string, comments: seq<string>)
    requires StandsFirst(s, piece) && |piece.Source()| <= |s| && Splits(s[|piece.Source()|..], pieces, code, comments)
    ensures Splits(s, [piece] + pieces, piece.Code() + code, OwnComment(piece) + comments)
  {
    hide IsQuoted, IsFirstClose;
    var all := [piece] + pieces;
    assert all[1..] == pieces;
    assert (piece.Code() + code)[|piece.Code()|..] == code;
    assert (OwnComment(piece) + comments)[|OwnComment(piece)|..] == comments;
  }

  /** Exactly the sources that can be read piece by piece are split, into the code and the comments so read. */
  lemma SplitMeans(s: string, code: string, comments: seq<string>)
    ensures Halves(s) == Some((code, comments)) <==> exists pieces :: Splits(s, pieces, code, comments)
    ensures Halves(s) == None <==> forall pieces, c, d :: !Splits(s, pieces, c, d)
  {
    hide Pieces, Splits;
    if Pieces(s).Some? {
      SplitHas(s);
    }
    forall pieces, c, d | Splits(s, pieces, c, d)
      ensures Halves(s) == Some((c, d))
    {
      SplitIs(s, pieces, c, d);
    }
  }

  // ------------------------------------------------------------------------ literals, said of places

  predicate IsWordChar(c: char) {
    c == '_' || 'a' <= c <= 'z' || 'A' <= c <= 'Z' || '0' <= c <= '9'
  }

  predicate Joins(c: char) {
    c == '-' || c == '.' || c == ':' || c == '/'
  }

  predicate JoinedAt(t: string, k: nat, j: nat)
    requires k < j <= |t|
  {
    IsWordChar(t[k]) || (Joins(t[k]) && k + 1 < j && IsWordChar(t[k + 1]))
  }

  predicate AreJoined(t: string, i: nat, j: nat)
    requires j <= |t|
  {
    forall k :: i <= k < j ==> JoinedAt(t, k, j)
  }

  /** A word character that no word character, and no joiner behind one, stands in front of. */
  predicate StartsAt(t: string, i: nat) {
    && i < |t| && IsWordChar(t[i])
    && (i > 0 ==> !IsWordChar(t[i - 1]))
    && (i > 1 && Joins(t[i - 1]) ==> !IsWordChar(t[i - 2]))
  }

  predicate EndsAt(t: string, j: nat) {
    && 0 < j <= |t| && IsWordChar(t[j - 1])
    && (j < |t| ==> !IsWordChar(t[j]))
    && (j + 1 < |t| && Joins(t[j]) ==> !IsWordChar(t[j + 1]))
  }

  /** Word characters, with single joiners between them: as far to both sides as these go. */
  predicate IsLiteralAt(t: string, i: nat, j: nat) {
    i < j <= |t| && StartsAt(t, i) && EndsAt(t, j) && AreJoined(t, i, j)
  }

  /** Equal but for the case of the letters A to Z, of which `lower` has none. */
  predicate IsLowered(s: string, lower: string) {
    && |s| == |lower|
    && forall k :: 0 <= k < |s| ==>
                     lower[k] as int == if 'A' <= s[k] <= 'Z' then s[k] as int + 32 else s[k] as int
  }

  ghost predicate IsLiteralIn(t: string, l: string) {
    exists i: nat, j: nat :: i < j <= |t| && IsLiteralAt(t, i, j) && IsLowered(t[i..j], l)
  }

  /** A stretch of the literal that starts at its start or behind a joiner, and ends at its end or in front of one. */
  ghost predicate IsRunOf(l: string, r: string) {
    exists i: nat, j: nat :: i <= j <= |l| && r == l[i..j] && (i == 0 || Joins(l[i - 1])) && (j == |l| || Joins(l[j]))
  }

  predicate IsTelling(f: string) {
    |f| >= 8 && exists k :: 0 <= k < |f| && f[k] in "0123456789"
  }

  lemma WordsAgree(c: char)
    ensures IsWordChar(c) <==> IsWord(c)
    ensures Joins(c) <==> IsJoiner(c)
  {
  }

  lemma TellingIs(f: string)
    ensures IsTelling(f) <==> Distinctive(f)
  {
    if Distinctive(f) {
      var c :| c in f && '0' <= c <= '9';
      var k :| 0 <= k < |f| && f[k] == c;
    }
    if IsTelling(f) {
      var k :| 0 <= k < |f| && f[k] in "0123456789";
      assert f[k] in f;
    }
  }

  lemma LoweredIs(s: string, lower: string)
    ensures IsLowered(s, lower) <==> Fold(s) == lower
  {
    if IsLowered(s, lower) {
      forall k | 0 <= k < |s|
        ensures Fold(s)[k] == lower[k]
      {
        assert FoldChar(s[k]) as int == lower[k] as int;
      }
    }
  }

  lemma RunIs(l: string, r: string)
    ensures IsRunOf(l, r) <==> r in Runs(l)
  {
    if IsRunOf(l, r) {
      var i: nat, j: nat :| i <= j <= |l| && r == l[i..j] && (i == 0 || Joins(l[i - 1])) && (j == |l| || Joins(l[j]));
      RunAt(l, i, j);
    }
    if r in Runs(l) {
      var i: nat, j: nat :| i <= j <= |l| && StartsPart(l, i) && EndsPart(l, j) && r == l[i..j];
      assert (i == 0 || Joins(l[i - 1])) && (j == |l| || Joins(l[j]));
    }
  }

  /** The literal that the pattern matches from a place is one there, unless it goes on from before. */
  lemma {:induction false} LiteralEndIs(t: string, i: nat, j: nat, p: nat)
    requires IsLiteralAt(t, i, j) && i <= p < j && IsWord(t[p])
    ensures LiteralEnd(t, p) == j
    decreases j - p
  {
    hide LiteralEnd, GoesOn, IsLiteralAt;
    StretchEnds(t, i, j, p);
    var e := WordEnd(t, p);
    EndUnfolds(t, p);
    if e < j {
      LiteralEndIs(t, i, j, e + 1);
    }
  }

  lemma EndUnfolds(t: string, p: nat)
    requires p < |t| && IsWord(t[p])
    ensures LiteralEnd(t, p) == if GoesOn(t, WordEnd(t, p)) then LiteralEnd(t, WordEnd(t, p) + 1) else WordEnd(t, p)
  {
  }

  /** Word characters end inside a literal at one of its joiners, or at its end. */
  lemma StretchEnds(t: string, i: nat, j: nat, p: nat)
    requires IsLiteralAt(t, i, j) && i <= p < j && IsWord(t[p])
    ensures var e := WordEnd(t, p);
            p < e <= j && (e < j <==> GoesOn(t, e)) && (e < j ==> e + 1 < j && IsWord(t[e + 1]))
  {
    hide WordEnd;
    var e := WordEnd(t, p);
    assert e <= j by {
      assert j < |t| ==> !IsWord(t[j]);
    }
    if e < j {
      assert JoinedAt(t, e, j);
    }
  }

  /** A match that no word character and no joined one stands in front of is a literal there. */
  lemma MatchStands(t: string, p: nat)
    requires p < |t| && IsWord(t[p]) && (p > 0 ==> !IsWord(t[p - 1]))
    requires p > 1 && IsJoiner(t[p - 1]) ==> !IsWord(t[p - 2])
    ensures IsLiteralAt(t, p, LiteralEnd(t, p))
  {
    hide LiteralEnd, IsLiteral, AreJoined;
    MatchIsLiteral(t, p);
    var j := LiteralEnd(t, p);
    ShapeOf(t, p, j);
    if j + 1 < |t| {
      WordsAgree(t[j]);
      WordsAgree(t[j + 1]);
    }
  }

  lemma ShapeOf(t: string, i: nat, j: nat)
    requires i < j <= |t| && IsLiteral(t[i..j])
    ensures IsWordChar(t[i]) && IsWordChar(t[j - 1])
    ensures AreJoined(t, i, j)
  {
    var f := t[i..j];
    assert f[0] == t[i] && f[|f| - 1] == t[j - 1];
    forall k | i <= k < j
      ensures JoinedAt(t, k, j)
    {
      assert WordOrJoint(f, k - i);
      assert f[k - i] == t[k];
    }
  }

  /** No literal goes on at `p` from before it. */
  predicate IsFree(t: string, p: nat) {
    && p <= |t|
    && (p > 0 && IsWord(t[p - 1]) ==> !GoesOn(t, p))
    && (p < |t| && IsWord(t[p]) ==>
          (p > 0 ==> !IsWord(t[p - 1])) && (p > 1 && IsJoiner(t[p - 1]) ==> !IsWord(t[p - 2])))
  }

  ghost predicate StandsFrom(t: string, p: nat, l: string) {
    exists i: nat, j: nat :: p <= i < j <= |t| && IsLiteralAt(t, i, j) && l == t[i..j]
  }

  /** What the pattern finds from a place on is exactly the literals that stand from there on. */
  lemma {:induction false} FoundStand(t: string, p: nat, l: string)
    requires p <= |t| && IsFree(t, p)
    ensures l in LiteralsFrom(t, p) <==> StandsFrom(t, p, l)
    decreases |t| - p
  {
    hide IsLiteralAt, IsFree, LiteralEnd;
    if p < |t| {
      if IsWord(t[p]) {
        var e := LiteralEnd(t, p);
        NextFree(t, p);
        FoundStand(t, e, l);
        NextStands(t, p, l);
      } else {
        PassedFree(t, p);
        FoundStand(t, p + 1, l);
        NoneStandsAt(t, p, l);
      }
    } else {
      NoneStandsAtEnd(t, l);
    }
  }

  lemma PassedFree(t: string, p: nat)
    requires p < |t| && IsFree(t, p) && !IsWord(t[p])
    ensures IsFree(t, p + 1)
  {
  }

  lemma NextFree(t: string, p: nat)
    requires p < |t| && IsFree(t, p) && IsWord(t[p])
    ensures IsFree(t, LiteralEnd(t, p))
    ensures IsLiteralAt(t, p, LiteralEnd(t, p))
  {
    hide LiteralEnd, IsLiteralAt;
    MatchStands(t, p);
  }

  lemma NoneStandsAtEnd(t: string, l: string)
    ensures !StandsFrom(t, |t|, l)
  {
  }

  lemma NoneStandsAt(t: string, p: nat, l: string)
    requires p < |t| && !IsWord(t[p])
    ensures StandsFrom(t, p, l) <==> StandsFrom(t, p + 1, l)
  {
    if StandsFrom(t, p, l) {
      var i: nat, j: nat :| p <= i < j <= |t| && IsLiteralAt(t, i, j) && l == t[i..j];
      assert i != p;
    }
  }

  /** Two literals of a text do not overlap. */
  lemma NoneInside(t: string, i: nat, j: nat, m: nat, n: nat)
    requires IsLiteralAt(t, i, j) && IsLiteralAt(t, m, n) && i <= m < j
    ensures i == m
  {
    assert i < m ==> JoinedAt(t, m - 1, j);
    assert i < m - 1 ==> JoinedAt(t, m - 2, j);
  }

  lemma NextStands(t: string, p: nat, l: string)
    requires p < |t| && IsWord(t[p]) && IsLiteralAt(t, p, LiteralEnd(t, p))
    ensures StandsFrom(t, p, l) <==> l == t[p..LiteralEnd(t, p)] || StandsFrom(t, LiteralEnd(t, p), l)
  {
    hide LiteralEnd, IsLiteralAt;
    var e := LiteralEnd(t, p);
    if StandsFrom(t, p, l) {
      var i: nat, j: nat :| p <= i < j <= |t| && IsLiteralAt(t, i, j) && l == t[i..j];
      if i < e {
        NoneInside(t, p, e, i, j);
        StartIsWord(t, i, j);
        LiteralEndIs(t, i, j, p);
      }
    }
  }

  lemma StartIsWord(t: string, i: nat, j: nat)
    requires IsLiteralAt(t, i, j)
    ensures i < j <= |t| && IsWord(t[i])
  {
  }

  /** The literals of a text are what stands in it, in lower case. */
  lemma LiteralsMean(t: string, l: string)
    ensures l in Literals(t) <==> IsLiteralIn(t, l)
  {
    hide IsLiteralAt, Fold, LiteralsFrom, IsLowered;
    if l in Literals(t) {
      var x :| x in LiteralsFrom(t, 0) && l == Fold(x);
      FoundStand(t, 0, x);
      var i: nat, j: nat :| i < j <= |t| && IsLiteralAt(t, i, j) && x == t[i..j];
      LoweredIs(t[i..j], l);
    }
    if IsLiteralIn(t, l) {
      var i: nat, j: nat :| i < j <= |t| && IsLiteralAt(t, i, j) && IsLowered(t[i..j], l);
      LoweredIs(t[i..j], l);
      FoundStand(t, 0, t[i..j]);
      assert Fold(t[i..j]) in Literals(t);
    }
  }

  // ------------------------------------------------------------------------ joined by line feeds

  lemma JoinedShift(s: string, t: string, d: int, i: nat, j: nat)
    requires i <= j <= |s| && 0 <= i + d && j + d <= |t| && forall k :: i <= k < j ==> s[k] == t[k + d]
    requires AreJoined(t, i + d, j + d)
    ensures AreJoined(s, i, j)
  {
    forall k | i <= k < j
      ensures JoinedAt(s, k, j)
    {
      assert JoinedAt(t, k + d, j + d) && s[k] == t[k + d];
      assert k + 1 < j ==> s[k + 1] == t[k + 1 + d];
    }
  }

  lemma JoinedIff(s: string, t: string, d: nat, i: nat, j: nat)
    requires i <= j <= |s| && d + |s| <= |t| && s == t[d..d + |s|]
    ensures AreJoined(s, i, j) <==> AreJoined(t, i + d, j + d)
  {
    hide AreJoined;
    assert forall k :: 0 <= k < |s| ==> s[k] == t[k + d];
    assert forall k :: d <= k < d + |s| ==> t[k] == s[k - d];
    if AreJoined(s, i, j) {
      var back: int := d;
      JoinedShift(t, s, -back, i + d, j + d);
    }
    if AreJoined(t, i + d, j + d) {
      JoinedShift(s, t, d, i, j);
    }
  }

  lemma StandsInFirst(a: string, b: string, i: nat, j: nat)
    requires i < j <= |a|
    ensures IsLiteralAt(a + "\n" + b, i, j) <==> IsLiteralAt(a, i, j)
  {
    hide AreJoined;
    var t := a + "\n" + b;
    assert forall k :: 0 <= k < |a| ==> t[k] == a[k];
    assert t[|a|] == '\n' && a == t[0..0 + |a|];
    JoinedIff(a, t, 0, i, j);
  }

  lemma EndsInLast(a: string, b: string, i: nat, j: nat)
    ensures StartsAt(a + "\n" + b, i + |a| + 1) <==> StartsAt(b, i)
    ensures j > 0 ==> (EndsAt(a + "\n" + b, j + |a| + 1) <==> EndsAt(b, j))
  {
    var t, n := a + "\n" + b, |a| + 1;
    assert forall k :: 0 <= k < |b| ==> b[k] == t[k + n];
    assert t[|a|] == '\n';
    assert i > 0 && i <= |b| ==> b[i - 1] == t[i - 1 + n];
    assert i > 1 && i <= |b| ==> b[i - 2] == t[i - 2 + n];
    assert 0 < j <= |b| ==> b[j - 1] == t[j - 1 + n];
    assert j + 1 < |b| ==> b[j + 1] == t[j + 1 + n];
  }

  lemma StandsInLast(a: string, b: string, i: nat, j: nat)
    requires i < j <= |b|
    ensures IsLiteralAt(a + "\n" + b, i + |a| + 1, j + |a| + 1) <==> IsLiteralAt(b, i, j)
  {
    hide AreJoined, StartsAt, EndsAt;
    var t, n := a + "\n" + b, |a| + 1;
    assert b == t[n..n + |b|];
    EndsInLast(a, b, i, j);
    JoinedIff(b, t, n, i, j);
  }

  lemma NoneAcross(a: string, b: string, i: nat, j: nat)
    requires i <= |a| < j
    ensures !IsLiteralAt(a + "\n" + b, i, j)
  {
    var t := a + "\n" + b;
    assert t[|a|] == '\n';
    assert j <= |t| ==> !JoinedAt(t, |a|, j);
  }

  /** A literal of two texts with a line feed between them stands in one of them. */
  lemma LiteralOfJoin(a: string, b: string, l: string)
    ensures IsLiteralIn(a + "\n" + b, l) <==> IsLiteralIn(a, l) || IsLiteralIn(b, l)
  {
    hide IsLiteralAt, IsLowered;
    var t, n := a + "\n" + b, |a| + 1;
    if IsLiteralIn(t, l) {
      var i: nat, j: nat :| i < j <= |t| && IsLiteralAt(t, i, j) && IsLowered(t[i..j], l);
      if j <= |a| {
        StandsInFirst(a, b, i, j);
        assert t[i..j] == a[i..j];
      } else if i > |a| {
        StandsInLast(a, b, i - n, j - n);
        assert t[i..j] == b[i - n..j - n];
      } else {
        NoneAcross(a, b, i, j);
      }
    }
    if IsLiteralIn(a, l) {
      var i: nat, j: nat :| i < j <= |a| && IsLiteralAt(a, i, j) && IsLowered(a[i..j], l);
      StandsInFirst(a, b, i, j);
      assert t[i..j] == a[i..j];
    }
    if IsLiteralIn(b, l) {
      var i: nat, j: nat :| i < j <= |b| && IsLiteralAt(b, i, j) && IsLowered(b[i..j], l);
      StandsInLast(a, b, i, j);
      assert t[i + n..j + n] == b[i..j];
    }
  }

  lemma {:induction false} LiteralOfJoined(comments: seq<string>, l: string)
    ensures IsLiteralIn(JoinComments(comments), l) <==> exists m :: 0 <= m < |comments| && IsLiteralIn(comments[m], l)
  {
    hide IsLiteralIn;
    if comments == [] {
      NoLiteral(l);
    } else if |comments| > 1 {
      LiteralOfJoin(comments[0], JoinComments(comments[1..]), l);
      LiteralOfJoined(comments[1..], l);
      if m :| 0 <= m < |comments[1..]| && IsLiteralIn(comments[1..][m], l) {
        assert comments[m + 1] == comments[1..][m];
      }
      if m :| 0 <= m < |comments| && IsLiteralIn(comments[m], l) {
        assert m > 0 ==> comments[m] == comments[1..][m - 1];
      }
    }
  }

  lemma NoLiteral(l: string)
    ensures !IsLiteralIn("", l)
  {
  }

  // ------------------------------------------------------------------------------ the fingerprints

  /** The value is a literal of the code of some source, or a run of one. */
  ghost predicate IsOfCode(sources: seq<string>, f: string) {
    exists k, l :: 0 <= k < |sources| && Halves(sources[k]).Some? && IsLiteralIn(Halves(sources[k]).value.0, l)
                   && IsRunOf(l, f)
  }

  /** The value is a literal of some comment of some source. */
  ghost predicate IsOfComments(sources: seq<string>, l: string) {
    exists k, m :: 0 <= k < |sources| && Halves(sources[k]).Some? && 0 <= m < |Halves(sources[k]).value.1|
                   && IsLiteralIn(Halves(sources[k]).value.1[m], l)
  }

  /** A telling value of no code: a run of a telling literal of the comments that is itself of no code. */
  ghost predicate IsFingerprint(sources: seq<string>, f: string) {
    && IsTelling(f) && !IsOfCode(sources, f)
    && exists l :: IsOfComments(sources, l) && IsTelling(l) && !IsOfCode(sources, l) && IsRunOf(l, f)
  }

  predicate AllSplit(sources: seq<string>) {
    forall k :: 0 <= k < |sources| ==> Halves(sources[k]).Some?
  }

  /** The halves of each source. */
  predicate AreHalves(sources: seq<string>, halves: seq<(string, string)>) {
    && |halves| == |sources|
    && forall k :: 0 <= k < |sources| ==>
                     && Halves(sources[k]).Some?
                     && halves[k] == (Halves(sources[k]).value.0, JoinComments(Halves(sources[k]).value.1))
  }

  lemma {:induction false} AllHalvesAre(sources: seq<string>)
    ensures AllHalves(sources).Some? <==> AllSplit(sources)
    ensures AllHalves(sources).Some? ==> AreHalves(sources, AllHalves(sources).value)
  {
    hide Halves;
    if sources != [] {
      AllHalvesAre(sources[..|sources| - 1]);
    }
  }

  lemma {:induction false} CodeMembers(halves: seq<(string, string)>, f: string)
    ensures f in InCode(halves) <==>
              exists k, l :: 0 <= k < |halves| && IsLiteralIn(halves[k].0, l) && IsRunOf(l, f)
  {
    hide IsLiteralIn, IsRunOf, Literals, Runs;
    if halves != [] {
      var n := |halves| - 1;
      CodeMembers(halves[..n], f);
      LastCode(halves[n].0, f);
      if k, l :| 0 <= k < n && IsLiteralIn(halves[..n][k].0, l) && IsRunOf(l, f) {
        assert halves[k] == halves[..n][k];
      }
      if k, l :| 0 <= k < |halves| && IsLiteralIn(halves[k].0, l) && IsRunOf(l, f) {
        assert k < n ==> halves[k] == halves[..n][k];
      }
    }
  }

  lemma LastCode(code: string, f: string)
    ensures f in (set l, r | l in Literals(code) && r in Runs(l) :: r) <==>
              exists l :: IsLiteralIn(code, l) && IsRunOf(l, f)
  {
    hide IsLiteralIn, IsRunOf, Literals, Runs;
    forall l
      ensures l in Literals(code) <==> IsLiteralIn(code, l)
      ensures f in Runs(l) <==> IsRunOf(l, f)
    {
      LiteralsMean(code, l);
      RunIs(l, f);
    }
  }

  lemma {:induction false} CommentMembers(halves: seq<(string, string)>, l: string)
    ensures l in InComments(halves) <==> exists k :: 0 <= k < |halves| && IsLiteralIn(halves[k].1, l)
  {
    hide IsLiteralIn, Literals;
    if halves != [] {
      var n := |halves| - 1;
      CommentMembers(halves[..n], l);
      LiteralsMean(halves[n].1, l);
      if k :| 0 <= k < n && IsLiteralIn(halves[..n][k].1, l) {
        assert halves[k] == halves[..n][k];
      }
      if k :| 0 <= k < |halves| && IsLiteralIn(halves[k].1, l) {
        assert k < n ==> halves[k] == halves[..n][k];
      }
    }
  }

  lemma OfCodeIs(sources: seq<string>, halves: seq<(string, string)>, f: string)
    requires AreHalves(sources, halves)
    ensures IsOfCode(sources, f) <==> f in InCode(halves)
  {
    hide IsLiteralIn, IsRunOf, InCode, Halves;
    CodeMembers(halves, f);
  }

  lemma OfCommentsIs(sources: seq<string>, halves: seq<(string, string)>, l: string)
    requires AreHalves(sources, halves)
    ensures IsOfComments(sources, l) <==> l in InComments(halves)
  {
    hide IsLiteralIn, InComments, Halves, JoinComments;
    CommentMembers(halves, l);
    forall k | 0 <= k < |sources|
      ensures IsLiteralIn(halves[k].1, l) <==>
                exists m :: 0 <= m < |Halves(sources[k]).value.1| && IsLiteralIn(Halves(sources[k]).value.1[m], l)
    {
      LiteralOfJoined(Halves(sources[k]).value.1, l);
    }
  }

  /** What is fingerprinted, for every list of sources that can be split: exactly the telling values of the
      comments that the code does not have. */
  lemma FingerprintMeans(sources: seq<string>, f: string)
    requires AllSplit(sources)
    ensures AllHalves(sources).Some?
    ensures f in Fingerprinted(AllHalves(sources).value) <==> IsFingerprint(sources, f)
  {
    hide AllHalves, InCode, InComments, IsOfCode, IsOfComments, IsRunOf, Runs, IsTelling, Distinctive, Halves, AllSplit,
         AreHalves;
    AllHalvesAre(sources);
    var halves := AllHalves(sources).value;
    TellingIs(f);
    OfCodeIs(sources, halves, f);
    forall l
      ensures IsOfComments(sources, l) <==> l in InComments(halves)
      ensures IsOfCode(sources, l) <==> l in InCode(halves)
      ensures IsTelling(l) <==> Distinctive(l)
      ensures IsRunOf(l, f) <==> f in Runs(l)
    {
      OfCommentsIs(sources, halves, l);
      OfCodeIs(sources, halves, l);
      TellingIs(l);
      RunIs(l, f);
    }
    if IsFingerprint(sources, f) {
      var l :| IsOfComments(sources, l) && IsTelling(l) && !IsOfCode(sources, l) && IsRunOf(l, f);
      assert l in CommentOnly(halves);
    }
  }

  /** What a text is reported for: the telling runs of its literals whose digest is stored. */
  lemma MatchMeans<D(!new)>(t: string, digests: set<D>, digest: string -> D, r: string)
    ensures r in Matches(t, digests, digest) <==>
              IsTelling(r) && digest(r) in digests && exists l :: IsLiteralIn(t, l) && IsRunOf(l, r)
  {
    hide IsTelling, IsLiteralIn, IsRunOf, Literals, Runs, Distinctive;
    TellingIs(r);
    forall l
      ensures l in Literals(t) <==> IsLiteralIn(t, l)
      ensures r in Runs(l) <==> IsRunOf(l, r)
    {
      LiteralsMean(t, l);
      RunIs(l, r);
    }
  }

  /** The value stands at a place of a text, in any capitalisation, with no word character at either side. */
  predicate Stands(t: string, i: nat, f: string) {
    && i + |f| <= |t| && IsLowered(t[i..i + |f|], f)
    && (i > 0 ==> !IsWordChar(t[i - 1]))
    && (i + |f| < |t| ==> !IsWordChar(t[i + |f|]))
  }

  /** Word characters, with single joiners between them. */
  predicate IsValue(f: string) {
    f != "" && IsWordChar(f[0]) && IsWordChar(f[|f| - 1]) && AreJoined(f, 0, |f|)
  }

  lemma ValueIsLiteral(f: string)
    requires IsValue(f)
    ensures IsLiteral(f)
  {
    forall k | 0 <= k < |f|
      ensures WordOrJoint(f, k)
    {
      assert JoinedAt(f, k, |f|);
    }
  }

  /** From a comment to a finding: a telling value that stands in a comment of some source and is of no code is
      reported in every text that it stands in. */
  lemma FoundEverywhere<D(!new)>(sources: seq<string>, k: nat, m: nat, i: nat, f: string, t: string, at: nat,
                                 digest: string -> D)
    requires AllSplit(sources) && k < |sources| && m < |Halves(sources[k]).value.1|
    requires IsValue(f) && Stands(Halves(sources[k]).value.1[m], i, f)
    requires IsTelling(f) && !IsOfCode(sources, f)
    requires Stands(t, at, f)
    ensures AllHalves(sources).Some?
    ensures f in Matches(t, Digests(AllHalves(sources).value, digest), digest)
  {
    hide Matches, Digests, IsLiteral, IsValue, IsTelling, IsOfCode, Halves, AllHalves, Stands, Fingerprinted,
         IsFingerprint;
    var comment := Halves(sources[k]).value.1[m];
    ValueIsLiteral(f);
    var l := HolderOf(comment, i, f);
    HolderIsFingerprint(sources, k, m, f, l);
    FingerprintMeans(sources, f);
    StandsIs(t, at, f);
    CopyIsFound(AllHalves(sources).value, f, t, at, digest);
  }

  lemma StandsIs(t: string, i: nat, f: string)
    ensures Stands(t, i, f) <==> StandsAt(t, i, f)
  {
    if i + |f| <= |t| {
      LoweredIs(t[i..i + |f|], f);
    }
  }

  /** The literal around a value that stands in a text. */
  lemma HolderOf(t: string, i: nat, f: string) returns (l: string)
    requires IsLiteral(f) && Stands(t, i, f)
    ensures IsLiteralIn(t, l) && IsRunOf(l, f)
  {
    hide IsLiteral, IsLiteralIn, IsRunOf, Runs, LiteralsFrom, Fold, Stands;
    var j := i + |f|;
    StandsIs(t, i, f);
    NotEmpty(f);
    FoldedLiteral(t[i..j]);
    var x := HeldByLiteral(t, 0, i, j);
    FoldedRun(x, t[i..j]);
    l := Fold(x);
    assert l in Literals(t);
    LiteralsMean(t, l);
    RunIs(l, f);
  }

  lemma HolderIsFingerprint(sources: seq<string>, k: nat, m: nat, f: string, l: string)
    requires AllSplit(sources) && k < |sources| && m < |Halves(sources[k]).value.1|
    requires IsLiteralIn(Halves(sources[k]).value.1[m], l) && IsRunOf(l, f)
    requires IsTelling(f) && !IsOfCode(sources, f)
    ensures IsFingerprint(sources, f)
  {
    hide Halves, IsLiteralIn;
    assert IsOfComments(sources, l);
    LongerTells(l, f);
    if IsOfCode(sources, l) {
      OfCodeRun(sources, l, f);
    }
  }

  lemma LongerTells(l: string, f: string)
    requires IsRunOf(l, f) && IsTelling(f)
    ensures IsTelling(l)
  {
    var i: nat, j: nat :| i <= j <= |l| && f == l[i..j];
    var k :| 0 <= k < |f| && f[k] in "0123456789";
    assert l[i + k] == f[k];
  }

  lemma OfCodeRun(sources: seq<string>, l: string, f: string)
    requires IsOfCode(sources, l) && IsRunOf(l, f)
    ensures IsOfCode(sources, f)
  {
    hide Halves, IsLiteralIn, IsRunOf, Runs;
    var k, x :| 0 <= k < |sources| && Halves(sources[k]).Some? && IsLiteralIn(Halves(sources[k]).value.0, x)
      && IsRunOf(x, l);
    RunIs(x, l);
    RunIs(l, f);
    RunOfRun(x, l, f);
    RunIs(x, f);
  }
}
