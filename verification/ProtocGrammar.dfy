/**
 The grammar of protoc's text format, on tokens: what the parser accepts is fields, each a name, a colon or a
 block, a value, and a separator or none (`AcceptedIsGrammar`). All else is refused.
 */
module ProtocGrammar {
  import opened Lists
  import opened ProtocStrings
  import opened ProtocText
  import opened ProtocTokens
  import opened Wrappers

  predicate IsPunctAt(ts: seq<Token>, i: nat, c: char) {
    i < |ts| && ts[i].kind == Punct && ts[i].text == [c]
  }

  /** The text without its first and its last character. */
  function Unquoted(t: string): string {
    if |t| >= 2 then t[1..|t| - 1] else ""
  }

  /** Strings one after another stand for their octets, one after another. */
  predicate AreStrings(ts: seq<Token>, octets: Octets)
    decreases |ts|
  {
    if ts == [] then octets == []
    else
      var first := Unescape(Unquoted(ts[0].text));
      && ts[0].kind == Quoted && first.Some? && first.value <= octets
      && AreStrings(ts[1..], octets[|first.value|..])
  }

  predicate IsScalar(ts: seq<Token>, value: Value) {
    match value
    case Bytes(octets) => ts != [] && AreStrings(ts, octets)
    case Word(name) => ts == [Token(Ident, name)]
    case Message(_) => false
    case number => |ts| == 1 && ts[0].kind == Number && ts[0].text != "" && NumberOf(ts[0].text) == number
  }

  /** The tokens between the name of a field and its separator: a value behind a colon, or a message between
      braces or angles, behind a colon or none. */
  ghost predicate IsValue(ts: seq<Token>, value: Value)
    decreases value, 0
  {
    var colon := IsPunctAt(ts, 0, ':');
    var body := if colon then ts[1..] else ts;
    match value
    case Message(fields) =>
      && |body| >= 2
      && ((IsPunctAt(body, 0, '{') && IsPunctAt(body, |body| - 1, '}'))
          || (IsPunctAt(body, 0, '<') && IsPunctAt(body, |body| - 1, '>')))
      && AreFields(body[1..|body| - 1], fields)
    case _ => colon && IsScalar(body, value)
  }

  /** A name, a value, and a semicolon or a comma or none. */
  ghost predicate IsField(ts: seq<Token>, name: string, value: Value)
    decreases value, 1
  {
    && ts != [] && ts[0].kind in {Ident, Number, Bracket} && ts[0].text == name
    && (IsValue(ts[1..], value)
        || (|ts| >= 2 && (IsPunctAt(ts, |ts| - 1, ';') || IsPunctAt(ts, |ts| - 1, ','))
            && IsValue(ts[1..|ts| - 1], value)))
  }

  /** Field after field. */
  ghost predicate AreFields(ts: seq<Token>, fields: seq<Field>)
    decreases fields, 0
  {
    if fields == [] then ts == []
    else
      exists k: nat :: k <= |ts| && IsField(ts[..k], fields[0].name, fields[0].value)
                       && AreFields(ts[k..], fields[1..])
  }

  // ----------------------------------------------------------------------------------- what is read

  predicate AreSpelled(ts: seq<Token>) {
    forall t :: t in ts ==> t.text != ""
  }

  lemma {:induction false} TokensAreSpelled(s: string)
    requires TokensOf(s).Some?
    ensures AreSpelled(TokensOf(s).value)
    decreases |s|
  {
    hide First;
    if s != "" {
      TokensAreSpelled(s[First(s).value.1..]);
    }
  }

  lemma NoStrings()
    ensures AreStrings([], [])
  {
  }

  lemma {:induction false} StringsSound(octets: Octets, ts: seq<Token>) returns (k: nat, more: Octets)
    requires ReadStrings(octets, ts).Ok?
    ensures k <= |ts| && AreStrings(ts[..k], more)
    ensures ReadStrings(octets, ts) == Ok((Bytes(octets + more), ts[k..]))
    decreases |ts|
  {
    hide Unescape, AreStrings;
    if ts == [] || ts[0].kind != Quoted {
      k, more := 0, [];
      assert octets + [] == octets && ts[..0] == [] && ts[0..] == ts;
      NoStrings();
    } else {
      var first := Unescape(Unquoted(ts[0].text)).value;
      var n, after := StringsSound(octets + first, ts[1..]);
      k, more := n + 1, first + after;
      assert ts[..k] == [ts[0]] + ts[1..][..n] && ts[1..][n..] == ts[k..];
      OneMoreString(ts[0], first, ts[1..][..n], after);
      assert octets + first + after == octets + more;
    }
  }

  lemma NumberIsOne(t: string)
    requires t != ""
    ensures NumberOf(t).Integer? || NumberOf(t).Float?
  {
  }

  lemma ScalarSound(ts: seq<Token>) returns (k: nat)
    requires ReadScalar(ts).Ok? && AreSpelled(ts)
    ensures 0 < k <= |ts| && ReadScalar(ts).value.1 == ts[k..] && IsScalar(ts[..k], ReadScalar(ts).value.0)
  {
    hide Unescape, NumberOf, AreStrings;
    k := 1;
    assert ts[0] in ts && ts[..1] == [ts[0]];
    NumberIsOne(ts[0].text);
    if ts[0].kind == Quoted {
      var first := Unescape(Unquoted(ts[0].text)).value;
      var n, more := StringsSound(first, ts[1..]);
      k := n + 1;
      assert ts[1..][n..] == ts[k..] && ts[..k] == [ts[0]] + ts[1..][..n];
      OneMoreString(ts[0], first, ts[1..][..n], more);
    }
  }

  lemma OneMoreString(t: Token, first: Octets, ts: seq<Token>, octets: Octets)
    requires t.kind == Quoted && Unescape(Unquoted(t.text)) == Some(first) && AreStrings(ts, octets)
    ensures AreStrings([t] + ts, first + octets)
  {
    hide Unescape;
    assert ([t] + ts)[1..] == ts && (first + octets)[|first|..] == octets;
  }

  lemma MarkIs(ts: seq<Token>, i: nat, c: char)
    requires i <= |ts|
    ensures IsMark(ts[i..], c) <==> IsPunctAt(ts, i, c)
  {
  }

  lemma SpelledRest(ts: seq<Token>, k: nat)
    requires AreSpelled(ts) && k <= |ts|
    ensures AreSpelled(ts[k..])
  {
  }

  /** A field that is read is one, in front of what it leaves. */
  lemma {:induction false} FieldSound(ts: seq<Token>) returns (k: nat)
    requires ts != [] && AreSpelled(ts) && ReadField(ts).Ok?
    ensures var (field, rest) := ReadField(ts).value;
            0 < k <= |ts| && rest == ts[k..] && IsField(ts[..k], field.name, field.value)
    decreases |ts|, 0
  {
    hide ReadScalar, ReadFields, IsScalar, IsMark, IsValue, IsField, AreFields, AfterSeparator;
    var (field, rest) := ReadField(ts).value;
    MarkIs(ts, 1, ':');
    var start := if IsMark(ts[1..], ':') then 2 else 1;
    assert AfterMark(ts[1..], ':') == ts[start..];
    MarkIs(ts, start, '{');
    MarkIs(ts, start, '<');
    SpelledRest(ts, start);
    var n;
    if IsMark(ts[start..], '{') || IsMark(ts[start..], '<') {
      var close := if IsMark(ts[start..], '{') then '}' else '>';
      assert ts[start..][1..] == ts[start + 1..];
      SpelledRest(ts, start + 1);
      var m := FieldsSound(ts[start + 1..], Some(close));
      n := start + 1 + m + 1;
      assert ts[start + 1..][m + 1..] == ts[n..];
      BlockIsValue(ts, start, m, close, field.value.fields);
    } else {
      var m := ScalarSound(ts[start..]);
      n := start + m;
      assert ts[start..][m..] == ts[n..] && ts[start..][..m] == ts[start..n];
      ScalarIsValue(ts, n, field.value);
    }
    k := SeparatorSound(ts, n, field);
  }

  lemma ScalarIsValue(ts: seq<Token>, n: nat, value: Value)
    requires 2 < n <= |ts| && IsPunctAt(ts, 1, ':') && IsScalar(ts[2..n], value)
    ensures IsValue(ts[1..n], value)
  {
    assert ts[1..n][1..] == ts[2..n];
  }

  lemma BlockIsValue(ts: seq<Token>, start: nat, m: nat, close: char, fields: seq<Field>)
    requires start + 1 + m < |ts| && (if IsPunctAt(ts, 1, ':') then start == 2 else start == 1)
    requires (IsPunctAt(ts, start, '{') && close == '}') || (IsPunctAt(ts, start, '<') && close == '>')
    requires IsPunctAt(ts[start + 1..], m, close) && AreFields(ts[start + 1..][..m], fields)
    ensures IsValue(ts[1..start + 1 + m + 1], Message(fields))
  {
    hide AreFields;
    var part := ts[1..start + 1 + m + 1];
    var body := ts[start..start + 1 + m + 1];
    assert IsPunctAt(part, 0, ':') <==> IsPunctAt(ts, 1, ':');
    assert body == if start == 2 then part[1..] else part;
    SliceOfSlice(ts, start, start + m + 2, 1, m + 1);
    SliceOfSlice(ts, start + 1, |ts|, 0, m);
    assert |body| == m + 2 && ts[start + 1..][..m] == ts[start + 1..|ts|][0..m];
    assert body[|body| - 1] == ts[start + 1..][m];
  }

  lemma SeparatorSound(ts: seq<Token>, n: nat, field: Field) returns (k: nat)
    requires 1 <= n <= |ts| && ts[0].kind in {Ident, Number, Bracket} && ts[0].text == field.name
    requires IsValue(ts[1..n], field.value)
    ensures n <= k <= |ts| && AfterSeparator(ts[n..]) == ts[k..] && IsField(ts[..k], field.name, field.value)
  {
    hide IsValue;
    MarkIs(ts, n, ';');
    MarkIs(ts, n, ',');
    if IsMark(ts[n..], ';') || IsMark(ts[n..], ',') {
      k := n + 1;
      assert ts[..k][1..k - 1] == ts[1..n] && ts[..k][k - 1] == ts[n];
    } else {
      k := n;
      assert ts[..k][1..] == ts[1..n];
    }
  }

  lemma OneMoreField(ts: seq<Token>, k: nat, m: nat, field: Field, fields: seq<Field>)
    requires k <= |ts| && m <= |ts[k..]|
    requires IsField(ts[..k], field.name, field.value) && AreFields(ts[k..][..m], fields)
    ensures AreFields(ts[..k + m], [field] + fields)
  {
    hide IsField;
    var part := ts[..k + m];
    assert part[..k] == ts[..k] && part[k..] == ts[k..][..m];
    assert ([field] + fields)[1..] == fields;
  }

  /** Fields that are read are fields, up to the mark that closes them or to the end. */
  lemma {:induction false} FieldsSound(ts: seq<Token>, close: Option<char>) returns (m: nat)
    requires AreSpelled(ts) && ReadFields(ts, close).Ok?
    ensures m <= |ts| && AreFields(ts[..m], ReadFields(ts, close).value.0)
    ensures if close.None? then m == |ts|
            else IsPunctAt(ts, m, close.value) && ReadFields(ts, close).value.1 == ts[m + 1..]
    decreases |ts|, 1
  {
    hide ReadField, IsField, IsMark;
    if close.Some? {
      MarkIs(ts, 0, close.value);
      assert ts[0..] == ts;
    }
    if ts == [] || (close.Some? && IsMark(ts, close.value)) {
      m := 0;
    } else {
      var (field, rest) := ReadField(ts).value;
      var k := FieldSound(ts);
      SpelledRest(ts, k);
      var n := FieldsSound(rest, close);
      m := k + n;
      OneMoreField(ts, k, n, field, ReadFields(rest, close).value.0);
      if close.Some? {
        assert rest[n..] == ts[m..] && rest[n + 1..] == ts[m + 1..];
      }
    }
  }

  /** Whatever the parser accepts is fields, and it returns these. */
  lemma AcceptedIsGrammar(text: string)
    requires ParseOf(text).Ok?
    ensures TokensOf(text).Some? && AreFields(TokensOf(text).value, ParseOf(text).value)
  {
    hide ReadFields, AreFields;
    TokensAreSpelled(text);
    var ts := TokensOf(text).value;
    var m := FieldsSound(ts, None);
    assert ts[..|ts|] == ts;
  }
}
