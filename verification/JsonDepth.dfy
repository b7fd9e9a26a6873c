/**
 The nesting depth of JSON text, read off its characters in one pass, and of a parsed document,
 read with a stack (`json_nesting_depth` and `container_depth` of the adapter base class).

 `Doc` is JSON text with its spelling kept: whitespace, escapes and lexemes. `Raw` is what a decoder
 is handed, objects as lists of pairs; `Value` is what it returns, objects as dictionaries.
 */
module JsonDepth {

  // --------------------------------------------------------------------------- JSON as written

  /** One unit of a string literal; section 7 of RFC 8259. */
  datatype Piece =
    | Plain(c: char)
    | Escaped(c: char)
    | CodeUnit(hex: string)

  /** An element with the whitespace around it, and a member with the whitespace around its parts. */
  datatype Item = Item(lead: string, value: Doc, trail: string)
  datatype Member = Member(lead: string, key: seq<Piece>, beforeColon: string, afterColon: string, value: Doc,
                           trail: string)

  /** `blank` is the whitespace inside an empty array or object. */
  datatype Doc =
    | Atom(lexeme: string)
    | Text(pieces: seq<Piece>)
    | Array(blank: string, items: seq<Item>)
    | Object(blank: string, members: seq<Member>)

  predicate IsSpace(c: char) {
    c == ' ' || c == '\t' || c == '\n' || c == '\r'
  }

  predicate IsSpaces(s: string) {
    forall c :: c in s ==> IsSpace(c)
  }

  predicate IsHex(c: char) {
    '0' <= c <= '9' || 'a' <= c <= 'f' || 'A' <= c <= 'F'
  }

  predicate IsPiece(p: Piece) {
    match p
    case Plain(c) => c != '"' && c != '\\'
    case Escaped(c) => c in "\"\\/bfnrt"
    case CodeUnit(hex) => |hex| == 4 && forall c :: c in hex ==> IsHex(c)
  }

  /** The characters that mean something to the scan; a number or a literal name has none. */
  predicate IsSignificant(c: char) {
    c in "\"{}[]\\"
  }

  predicate IsLexeme(s: string) {
    forall c :: c in s ==> !IsSignificant(c)
  }

  predicate IsJson(doc: Doc) {
    match doc
    case Atom(lexeme) => IsLexeme(lexeme)
    case Text(pieces) => forall p :: p in pieces ==> IsPiece(p)
    case Array(blank, items) =>
      IsSpaces(blank) && forall i :: i in items ==> IsSpaces(i.lead) && IsJson(i.value) && IsSpaces(i.trail)
    case Object(blank, members) =>
      IsSpaces(blank) && forall m :: m in members ==>
        && IsSpaces(m.lead) && (forall p :: p in m.key ==> IsPiece(p))
        && IsSpaces(m.beforeColon) && IsSpaces(m.afterColon) && IsJson(m.value) && IsSpaces(m.trail)
  }

  function RenderPiece(p: Piece): string {
    match p
    case Plain(c) => [c]
    case Escaped(c) => ['\\', c]
    case CodeUnit(hex) => "\\u" + hex
  }

  function RenderPieces(pieces: seq<Piece>): string {
    if pieces == [] then "" else RenderPiece(pieces[0]) + RenderPieces(pieces[1..])
  }

  function Quote(pieces: seq<Piece>): string {
    "\"" + RenderPieces(pieces) + "\""
  }

  function Render(doc: Doc): string {
    match doc
    case Atom(lexeme) => lexeme
    case Text(pieces) => Quote(pieces)
    case Array(blank, items) => "[" + blank + RenderItems(items) + "]"
    case Object(blank, members) => "{" + blank + RenderMembers(members) + "}"
  }

  function RenderItems(items: seq<Item>): string {
    if items == [] then ""
    else
      items[0].lead + Render(items[0].value) + items[0].trail
      + (if |items| == 1 then "" else ",") + RenderItems(items[1..])
  }

  function RenderMembers(members: seq<Member>): string {
    if members == [] then ""
    else
      members[0].lead + Quote(members[0].key) + members[0].beforeColon + ":" + members[0].afterColon
      + Render(members[0].value) + members[0].trail
      + (if |members| == 1 then "" else ",") + RenderMembers(members[1..])
  }

  function Max(a: nat, b: nat): nat {
    if a < b then b else a
  }

  /** One level per object or array. */
  function Depth(doc: Doc): nat {
    match doc
    case Atom(_) => 0
    case Text(_) => 0
    case Array(_, items) => 1 + DepthOfItems(items)
    case Object(_, members) => 1 + DepthOfMembers(members)
  }

  function DepthOfItems(items: seq<Item>): nat {
    if items == [] then 0 else Max(Depth(items[0].value), DepthOfItems(items[1..]))
  }

  function DepthOfMembers(members: seq<Member>): nat {
    if members == [] then 0 else Max(Depth(members[0].value), DepthOfMembers(members[1..]))
  }

  // ------------------------------------------------------------------------------ the one pass

  /** Outside a string literal, inside one, or on the character a backslash hides. */
  datatype Mode = Outside | Inside | Hidden
  datatype State = State(depth: nat, deepest: nat, mode: Mode)

  function Step(s: State, c: char): State {
    match s.mode
    case Hidden => s.(mode := Inside)
    case Inside => if c == '\\' then s.(mode := Hidden) else if c == '"' then s.(mode := Outside) else s
    case Outside =>
      if c == '"' then s.(mode := Inside)
      else if c == '{' || c == '[' then State(s.depth + 1, Max(s.deepest, s.depth + 1), Outside)
      else if (c == '}' || c == ']') && s.depth > 0 then s.(depth := s.depth - 1)
      else s
  }

  function Run(s: State, text: string): State
    decreases |text|
  {
    if text == "" then s else Run(Step(s, text[0]), text[1..])
  }

  const START := State(0, 0, Outside)

  /** The scan: it visits the significant characters only, and skips those a backslash hides. */
  method JsonNestingDepth(text: string) returns (deepest: nat)
    ensures deepest == Run(START, text).deepest
  {
    var depth := 0;
    deepest := 0;
    var inString := false;
    var hiddenUntil := -1;
    ghost var state := START;
    for position := 0 to |text|
      invariant Run(START, text) == Run(state, text[position..])
      invariant state.depth == depth && state.deepest == deepest
      invariant inString <==> state.mode != Outside
      invariant state.mode == Hidden <==> position < hiddenUntil
      invariant hiddenUntil <= position + 1
    {
      var c := text[position];
      state := Step(state, c);
      assert text[position..][1..] == text[position + 1..];
      if !IsSignificant(c) || position < hiddenUntil {
        continue;
      }
      if inString {
        if c == '\\' {
          hiddenUntil := position + 2;
        } else if c == '"' {
          inString := false;
        }
      } else if c == '"' {
        inString := true;
      } else if c == '{' || c == '[' {
        depth := depth + 1;
        if depth > deepest {
          deepest := depth;
        }
      } else if (c == '}' || c == ']') && depth > 0 {
        depth := depth - 1;
      }
    }
  }

  lemma RunOfNothing(s: State)
    ensures Run(s, "") == s
  {
  }

  lemma {:induction false} RunOfConcat(s: State, a: string, b: string)
    ensures Run(s, a + b) == Run(Run(s, a), b)
    decreases |a|
  {
    if a == "" {
      assert a + b == b;
    } else {
      RunOfConcat(Step(s, a[0]), a[1..], b);
      assert (a + b)[1..] == a[1..] + b;
    }
  }

  /** Outside a string, text without a significant character changes nothing. */
  lemma {:induction false} RunOfLexeme(s: State, text: string)
    requires s.mode == Outside && IsLexeme(text)
    ensures Run(s, text) == s
  {
    if text != "" {
      assert text[0] in text;
      assert forall c :: c in text[1..] ==> c in text;
      RunOfLexeme(s, text[1..]);
    }
  }

  lemma RunOfSpaces(s: State, text: string)
    requires s.mode == Outside && IsSpaces(text)
    ensures Run(s, text) == s
  {
    RunOfLexeme(s, text);
  }

  /** A string literal, brackets, quotes and escapes included, leaves the scan as it found it. */
  lemma RunOfQuote(s: State, pieces: seq<Piece>)
    requires s.mode == Outside && forall p :: p in pieces ==> IsPiece(p)
    ensures Run(s, Quote(pieces)) == s
  {
    var inside := s.(mode := Inside);
    assert Quote(pieces)[1..] == RenderPieces(pieces) + "\"";
    RunOfConcat(inside, RenderPieces(pieces), "\"");
    RunOfPieces(inside, pieces);
    assert Run(inside, "\"") == Run(Step(inside, '"'), "");
  }

  lemma {:induction false} RunOfPieces(s: State, pieces: seq<Piece>)
    requires s.mode == Inside && forall p :: p in pieces ==> IsPiece(p)
    ensures Run(s, RenderPieces(pieces)) == s
  {
    if pieces != [] {
      assert pieces[0] in pieces;
      assert forall p :: p in pieces[1..] ==> p in pieces;
      RunOfConcat(s, RenderPiece(pieces[0]), RenderPieces(pieces[1..]));
      RunOfPiece(s, pieces[0]);
      RunOfPieces(s, pieces[1..]);
    }
  }

  lemma RunOfPiece(s: State, p: Piece)
    requires s.mode == Inside && IsPiece(p)
    ensures Run(s, RenderPiece(p)) == s
  {
    var text := RenderPiece(p);
    match p
    case Plain(c) =>
      assert Run(s, text) == Run(Step(s, c), text[1..]);
    case Escaped(c) =>
      assert text[1..] == [c];
      assert Run(s, text) == Run(s.(mode := Hidden), [c]);
      assert Run(s.(mode := Hidden), [c]) == Run(s, [c][1..]);
    case CodeUnit(hex) =>
      assert text == ['\\', 'u'] + hex;
      RunOfConcat(s, ['\\', 'u'], hex);
      assert Run(s, ['\\', 'u']) == Run(s.(mode := Hidden), ['\\', 'u'][1..]);
      assert Run(s.(mode := Hidden), ['u']) == Run(s, ['u'][1..]);
      assert forall c :: c in hex ==> c != '\\' && c != '"';
      RunInside(s, hex);
  }

  lemma {:induction false} RunInside(s: State, text: string)
    requires s.mode == Inside && '\\' !in text && '"' !in text
    ensures Run(s, text) == s
  {
    if text != "" {
      assert text[0] in text;
      RunInside(s, text[1..]);
    }
  }

  /** What reading a value that nests `levels` deep does to the scan. */
  function Raised(s: State, levels: nat): State {
    s.(deepest := Max(s.deepest, s.depth + levels))
  }

  predicate AtRest(s: State) {
    s.mode == Outside && s.depth <= s.deepest
  }

  lemma {:induction false} RunOfDoc(s: State, doc: Doc)
    requires AtRest(s) && IsJson(doc)
    ensures Run(s, Render(doc)) == Raised(s, Depth(doc))
    decreases doc, 0
  {
    match doc
    case Atom(lexeme) =>
      RunOfLexeme(s, lexeme);
    case Text(pieces) =>
      RunOfQuote(s, pieces);
    case Array(blank, items) =>
      RunOfItems(Entered(s), items);
      RunOfContainer(s, '[', blank, RenderItems(items), ']', DepthOfItems(items));
    case Object(blank, members) =>
      RunOfMembers(Entered(s), members);
      RunOfContainer(s, '{', blank, RenderMembers(members), '}', DepthOfMembers(members));
  }

  /** The scan just after an opening bracket. */
  function Entered(s: State): State {
    State(s.depth + 1, Max(s.deepest, s.depth + 1), Outside)
  }

  lemma RunOfContainer(s: State, open: char, blank: string, inner: string, close: char, levels: nat)
    requires AtRest(s) && IsSpaces(blank)
    requires open == '[' || open == '{'
    requires close == ']' || close == '}'
    requires Run(Entered(s), inner) == Raised(Entered(s), levels)
    ensures Run(s, [open] + blank + inner + [close]) == Raised(s, 1 + levels)
  {
    hide Run, IsSpaces;
    RunOfOne(s, open);
    RunOfSpaces(Entered(s), blank);
    RunOfConcat(s, [open], blank);
    RunOfConcat(s, [open] + blank, inner);
    RunOfClose(s, close, levels);
    RunOfConcat(s, [open] + blank + inner, [close]);
  }

  lemma RunOfClose(s: State, close: char, levels: nat)
    requires AtRest(s) && (close == ']' || close == '}')
    ensures Run(Raised(Entered(s), levels), [close]) == Raised(s, 1 + levels)
  {
    RunOfOne(Raised(Entered(s), levels), close);
  }

  lemma RunOfOne(s: State, c: char)
    ensures Run(s, [c]) == Step(s, c)
  {
    assert [c][1..] == "";
  }

  lemma {:induction false} RunOfItems(s: State, items: seq<Item>)
    requires AtRest(s)
    requires forall i :: i in items ==> IsSpaces(i.lead) && IsJson(i.value) && IsSpaces(i.trail)
    ensures Run(s, RenderItems(items)) == Raised(s, DepthOfItems(items))
    decreases items, 0
  {
    RunOfNothing(s);
    hide Run, Render, Depth, IsJson, IsSpaces;
    if items != [] {
      var item := items[0];
      assert item in items;
      assert forall i :: i in items[1..] ==> i in items;
      var comma := if |items| == 1 then "" else ",";
      var s1 := Raised(s, Depth(item.value));
      RunOfDoc(s, item.value);
      RunOfItems(s1, items[1..]);
      RunOfSpaces(s, item.lead);
      RunOfSpaces(s1, item.trail);
      RunOfLexeme(s1, comma);
      RunOfConcat(s, item.lead, Render(item.value));
      RunOfConcat(s, item.lead + Render(item.value), item.trail);
      RunOfConcat(s, item.lead + Render(item.value) + item.trail, comma);
      RunOfConcat(s, item.lead + Render(item.value) + item.trail + comma, RenderItems(items[1..]));
    }
  }

  lemma {:induction false} RunOfMembers(s: State, members: seq<Member>)
    requires AtRest(s)
    requires forall m :: m in members ==>
               && IsSpaces(m.lead) && (forall p :: p in m.key ==> IsPiece(p))
               && IsSpaces(m.beforeColon) && IsSpaces(m.afterColon) && IsJson(m.value) && IsSpaces(m.trail)
    ensures Run(s, RenderMembers(members)) == Raised(s, DepthOfMembers(members))
    decreases members, 0
  {
    RunOfNothing(s);
    hide Run, Render, Depth, IsJson, IsSpaces;
    if members != [] {
      var m := members[0];
      assert m in members;
      assert forall n :: n in members[1..] ==> n in members;
      var comma := if |members| == 1 then "" else ",";
      var s1 := Raised(s, Depth(m.value));
      RunOfDoc(s, m.value);
      RunOfMembers(s1, members[1..]);
      RunOfKey(s, m);
      RunOfSpaces(s1, m.trail);
      RunOfLexeme(s1, comma);
      var head := m.lead + Quote(m.key) + m.beforeColon + ":" + m.afterColon;
      RunOfConcat(s, head, Render(m.value));
      RunOfConcat(s, head + Render(m.value), m.trail);
      RunOfConcat(s, head + Render(m.value) + m.trail, comma);
      RunOfConcat(s, head + Render(m.value) + m.trail + comma, RenderMembers(members[1..]));
    }
  }

  lemma RunOfKey(s: State, m: Member)
    requires AtRest(s) && IsSpaces(m.lead) && IsSpaces(m.beforeColon) && IsSpaces(m.afterColon)
    requires forall p :: p in m.key ==> IsPiece(p)
    ensures Run(s, m.lead + Quote(m.key) + m.beforeColon + ":" + m.afterColon) == s
  {
    hide Run;
    RunOfSpaces(s, m.lead);
    RunOfQuote(s, m.key);
    RunOfSpaces(s, m.beforeColon);
    RunOfOne(s, ':');
    RunOfSpaces(s, m.afterColon);
    RunOfConcat(s, m.lead, Quote(m.key));
    RunOfConcat(s, m.lead + Quote(m.key), m.beforeColon);
    RunOfConcat(s, m.lead + Quote(m.key) + m.beforeColon, ":");
    RunOfConcat(s, m.lead + Quote(m.key) + m.beforeColon + ":", m.afterColon);
  }

  /** The depth read off the characters is the depth of the document, whatever its spelling and
      the whitespace around it. */
  lemma ScanIsDepth(lead: string, doc: Doc, trail: string)
    requires IsSpaces(lead) && IsJson(doc) && IsSpaces(trail)
    ensures Run(START, lead + Render(doc) + trail).deepest == Depth(doc)
  {
    hide Run;
    RunOfSpaces(START, lead);
    RunOfDoc(START, doc);
    RunOfSpaces(Raised(START, Depth(doc)), trail);
    RunOfConcat(START, lead, Render(doc));
    RunOfConcat(START, lead + Render(doc), trail);
  }

  // ------------------------------------------------------------------------ JSON as decoded

  datatype Pair = Pair(key: string, value: Raw)
  datatype Raw = RawLeaf(text: string) | RawList(items: seq<Raw>) | RawObject(pairs: seq<Pair>)

  /** `dict` keeps its entries in insertion order, with distinct keys. */
  datatype Entry = Entry(key: string, value: Value)
  datatype Value = Leaf(text: string) | List(items: seq<Value>) | Dict(entries: seq<Entry>)

  /** The tree a decoder sees. How it spells the text of a string literal is a parameter. */
  function Read(doc: Doc, spell: seq<Piece> -> string): Raw {
    match doc
    case Atom(lexeme) => RawLeaf(lexeme)
    case Text(pieces) => RawLeaf(spell(pieces))
    case Array(_, items) => RawList(ReadItems(items, spell))
    case Object(_, members) => RawObject(ReadMembers(members, spell))
  }

  function ReadItems(items: seq<Item>, spell: seq<Piece> -> string): seq<Raw> {
    if items == [] then [] else [Read(items[0].value, spell)] + ReadItems(items[1..], spell)
  }

  function ReadMembers(members: seq<Member>, spell: seq<Piece> -> string): seq<Pair> {
    if members == [] then []
    else [Pair(spell(members[0].key), Read(members[0].value, spell))] + ReadMembers(members[1..], spell)
  }

  function RawDepth(raw: Raw): nat {
    match raw
    case RawLeaf(_) => 0
    case RawList(items) => 1 + RawDepthOfAll(items)
    case RawObject(pairs) => 1 + RawDepthOfPairs(pairs)
  }

  function RawDepthOfAll(items: seq<Raw>): nat {
    if items == [] then 0 else Max(RawDepth(items[0]), RawDepthOfAll(items[1..]))
  }

  function RawDepthOfPairs(pairs: seq<Pair>): nat {
    if pairs == [] then 0 else Max(RawDepth(pairs[0].value), RawDepthOfPairs(pairs[1..]))
  }

  lemma {:induction false} ReadKeepsDepth(doc: Doc, spell: seq<Piece> -> string)
    ensures RawDepth(Read(doc, spell)) == Depth(doc)
    decreases doc, 0
  {
    match doc
    case Atom(_) =>
    case Text(_) =>
    case Array(_, items) => ReadItemsKeepsDepth(items, spell);
    case Object(_, members) => ReadMembersKeepsDepth(members, spell);
  }

  lemma {:induction false} ReadItemsKeepsDepth(items: seq<Item>, spell: seq<Piece> -> string)
    ensures RawDepthOfAll(ReadItems(items, spell)) == DepthOfItems(items)
    decreases items, 0
  {
    if items != [] {
      ReadKeepsDepth(items[0].value, spell);
      ReadItemsKeepsDepth(items[1..], spell);
    }
  }

  lemma {:induction false} ReadMembersKeepsDepth(members: seq<Member>, spell: seq<Piece> -> string)
    ensures RawDepthOfPairs(ReadMembers(members, spell)) == DepthOfMembers(members)
    decreases members, 0
  {
    if members != [] {
      ReadKeepsDepth(members[0].value, spell);
      ReadMembersKeepsDepth(members[1..], spell);
    }
  }

  /** `dict(pairs)`: a repeated key keeps its first place and takes its last value. */
  function Insert(entries: seq<Entry>, key: string, value: Value): seq<Entry> {
    if entries == [] then [Entry(key, value)]
    else if entries[0].key == key then [Entry(key, value)] + entries[1..]
    else [entries[0]] + Insert(entries[1..], key, value)
  }

  /** What `json.loads` makes of the tree. */
  function Load(raw: Raw): Value {
    match raw
    case RawLeaf(text) => Leaf(text)
    case RawList(items) => List(LoadAll(items))
    case RawObject(pairs) => Dict(LoadPairs(pairs))
  }

  function LoadAll(items: seq<Raw>): seq<Value> {
    if items == [] then [] else [Load(items[0])] + LoadAll(items[1..])
  }

  function LoadPairs(pairs: seq<Pair>): seq<Entry> {
    if pairs == [] then []
    else
      var last := pairs[|pairs| - 1];
      Insert(LoadPairs(pairs[..|pairs| - 1]), last.key, Load(last.value))
  }

  function ContainerDepth(value: Value): nat {
    match value
    case Leaf(_) => 0
    case List(items) => 1 + DepthOfAll(items)
    case Dict(entries) => 1 + DepthOfEntries(entries)
  }

  function DepthOfAll(items: seq<Value>): nat {
    if items == [] then 0 else Max(ContainerDepth(items[0]), DepthOfAll(items[1..]))
  }

  function DepthOfEntries(entries: seq<Entry>): nat {
    if entries == [] then 0 else Max(ContainerDepth(entries[0].value), DepthOfEntries(entries[1..]))
  }

  predicate DistinctKeys(pairs: seq<Pair>) {
    forall i, j :: 0 <= i < j < |pairs| ==> pairs[i].key != pairs[j].key
  }

  /** No object of the tree, at any depth, repeats a key. */
  predicate NoRepeats(raw: Raw) {
    match raw
    case RawLeaf(_) => true
    case RawList(items) => forall r :: r in items ==> NoRepeats(r)
    case RawObject(pairs) => DistinctKeys(pairs) && forall p :: p in pairs ==> NoRepeats(p.value)
  }

  /** Decoding never deepens a document, so the scan never measures less than a walk of the decoded
      document will meet; without repeated keys the two agree. */
  lemma {:induction false} LoadDepth(raw: Raw)
    ensures ContainerDepth(Load(raw)) <= RawDepth(raw)
    ensures NoRepeats(raw) ==> ContainerDepth(Load(raw)) == RawDepth(raw)
    decreases raw, 0
  {
    match raw
    case RawLeaf(_) =>
    case RawList(items) => LoadAllDepth(items);
    case RawObject(pairs) => LoadPairsDepth(pairs);
  }

  lemma {:induction false} LoadAllDepth(items: seq<Raw>)
    ensures DepthOfAll(LoadAll(items)) <= RawDepthOfAll(items)
    ensures (forall r :: r in items ==> NoRepeats(r)) ==> DepthOfAll(LoadAll(items)) == RawDepthOfAll(items)
    decreases items, 0
  {
    if items != [] {
      LoadDepth(items[0]);
      LoadAllDepth(items[1..]);
    }
  }

  lemma {:induction false} LoadPairsDepth(pairs: seq<Pair>)
    ensures DepthOfEntries(LoadPairs(pairs)) <= RawDepthOfPairs(pairs)
    ensures DistinctKeys(pairs) && (forall p :: p in pairs ==> NoRepeats(p.value)) ==>
              DepthOfEntries(LoadPairs(pairs)) == RawDepthOfPairs(pairs)
    ensures forall e :: e in LoadPairs(pairs) ==> exists p :: p in pairs && p.key == e.key
    decreases pairs, 0
  {
    if pairs != [] {
      var n := |pairs| - 1;
      var last := pairs[n];
      var before := LoadPairs(pairs[..n]);
      LoadPairsDepth(pairs[..n]);
      LoadDepth(last.value);
      RawDepthOfSnoc(pairs[..n], last);
      assert pairs == pairs[..n] + [last];
      InsertDepth(before, last.key, Load(last.value));
      forall e | e in LoadPairs(pairs)
        ensures exists p :: p in pairs && p.key == e.key
      {
        if e.key == last.key {
          assert last in pairs;
        } else {
          assert e in before;
          var p :| p in pairs[..n] && p.key == e.key;
          assert p in pairs;
        }
      }
      if DistinctKeys(pairs) {
        NewKey(pairs, before);
      }
    }
  }

  lemma NewKey(pairs: seq<Pair>, entries: seq<Entry>)
    requires pairs != [] && DistinctKeys(pairs)
    requires forall e :: e in entries ==> exists p :: p in pairs[..|pairs| - 1] && p.key == e.key
    ensures forall e :: e in entries ==> e.key != pairs[|pairs| - 1].key
  {
    forall e | e in entries
      ensures e.key != pairs[|pairs| - 1].key
    {
      var p :| p in pairs[..|pairs| - 1] && p.key == e.key;
    }
  }

  lemma LastKeyIsNew(pairs: seq<Pair>)
    requires pairs != [] && DistinctKeys(pairs)
    ensures forall e :: e in LoadPairs(pairs[..|pairs| - 1]) ==> e.key != pairs[|pairs| - 1].key
  {
    LoadPairsDepth(pairs[..|pairs| - 1]);
    NewKey(pairs, LoadPairs(pairs[..|pairs| - 1]));
  }

  lemma {:induction false} RawDepthOfSnoc(pairs: seq<Pair>, last: Pair)
    ensures RawDepthOfPairs(pairs + [last]) == Max(RawDepthOfPairs(pairs), RawDepth(last.value))
  {
    if pairs != [] {
      RawDepthOfSnoc(pairs[1..], last);
      assert (pairs + [last])[1..] == pairs[1..] + [last];
    }
  }

  lemma {:induction false} InsertDepth(entries: seq<Entry>, key: string, value: Value)
    ensures DepthOfEntries(Insert(entries, key, value)) <= Max(DepthOfEntries(entries), ContainerDepth(value))
    ensures (forall e :: e in entries ==> e.key != key) ==>
              DepthOfEntries(Insert(entries, key, value)) == Max(DepthOfEntries(entries), ContainerDepth(value))
    ensures forall e :: e in Insert(entries, key, value) ==> e.key == key || e in entries
  {
    if entries != [] {
      InsertDepth(entries[1..], key, value);
      assert Insert(entries, key, value)[1..] ==
             if entries[0].key == key then entries[1..] else Insert(entries[1..], key, value);
    } else {
      assert Insert(entries, key, value)[1..] == [];
    }
  }

  /** The bound read off the characters of a document also bounds the document decoded from it. */
  lemma ScanBoundsDecoded(lead: string, doc: Doc, trail: string, spell: seq<Piece> -> string)
    requires IsSpaces(lead) && IsJson(doc) && IsSpaces(trail)
    ensures var scanned := Run(START, lead + Render(doc) + trail).deepest;
            var raw := Read(doc, spell);
            && ContainerDepth(Load(raw)) <= scanned
            && (NoRepeats(raw) ==> ContainerDepth(Load(raw)) == scanned)
  {
    ScanIsDepth(lead, doc, trail);
    ReadKeepsDepth(doc, spell);
    LoadDepth(Read(doc, spell));
  }

  // -------------------------------------------------------------------------- the stack walk

  function Children(value: Value): seq<Value> {
    match value
    case Leaf(_) => []
    case List(items) => items
    case Dict(entries) => ValuesOf(entries)
  }

  function ValuesOf(entries: seq<Entry>): seq<Value> {
    if entries == [] then [] else [entries[0].value] + ValuesOf(entries[1..])
  }

  function Size(value: Value): nat {
    match value
    case Leaf(_) => 1
    case List(items) => 1 + SizeOfAll(items)
    case Dict(entries) => 1 + SizeOfEntries(entries)
  }

  function SizeOfAll(items: seq<Value>): nat {
    if items == [] then 0 else Size(items[0]) + SizeOfAll(items[1..])
  }

  function SizeOfEntries(entries: seq<Entry>): nat {
    if entries == [] then 0 else Size(entries[0].value) + SizeOfEntries(entries[1..])
  }

  lemma {:induction false} EntriesAsValues(entries: seq<Entry>)
    ensures SizeOfAll(ValuesOf(entries)) == SizeOfEntries(entries)
    ensures DepthOfAll(ValuesOf(entries)) == DepthOfEntries(entries)
  {
    if entries != [] {
      EntriesAsValues(entries[1..]);
    }
  }

  /** The depth a stacked node, itself at `depth`, can still reach: 0 for a leaf. */
  function Reach(node: Value, depth: nat): nat {
    if ContainerDepth(node) == 0 then 0 else depth + ContainerDepth(node) - 1
  }

  function ReachOfAll(pending: seq<(Value, nat)>): nat {
    if pending == [] then 0
    else
      var (node, depth) := pending[|pending| - 1];
      Max(ReachOfAll(pending[..|pending| - 1]), Reach(node, depth))
  }

  function Work(pending: seq<(Value, nat)>): nat {
    if pending == [] then 0 else Work(pending[..|pending| - 1]) + Size(pending[|pending| - 1].0)
  }

  function Stacked(nodes: seq<Value>, depth: nat): seq<(Value, nat)> {
    seq(|nodes|, i requires 0 <= i < |nodes| => (nodes[i], depth))
  }

  lemma {:induction false} StackedChildren(pending: seq<(Value, nat)>, nodes: seq<Value>, depth: nat)
    requires depth > 0
    ensures Work(pending + Stacked(nodes, depth)) == Work(pending) + SizeOfAll(nodes)
    ensures ReachOfAll(pending + Stacked(nodes, depth))
         == Max(ReachOfAll(pending), if DepthOfAll(nodes) == 0 then 0 else depth + DepthOfAll(nodes) - 1)
    decreases |nodes|
  {
    var all := pending + Stacked(nodes, depth);
    if nodes == [] {
      assert all == pending;
    } else {
      var grown := pending + [(nodes[0], depth)];
      assert grown[..|pending|] == pending;
      StackedChildren(grown, nodes[1..], depth);
      assert all == grown + Stacked(nodes[1..], depth);
    }
  }

  /** Replacing a stacked node by its children, one level deeper, loses no depth and leaves less
      to do. */
  lemma NodeOpened(rest: seq<(Value, nat)>, node: Value, depth: nat)
    requires depth > 0
    ensures var next := rest + Stacked(Children(node), depth + 1);
            && Work(next) < Work(rest) + Size(node)
            && Max(if node.Leaf? then 0 else depth, ReachOfAll(next)) == Max(ReachOfAll(rest), Reach(node, depth))
  {
    hide Work, ReachOfAll;
    StackedChildren(rest, Children(node), depth + 1);
    if node.Dict? {
      EntriesAsValues(node.entries);
    }
  }

  /** `container_depth`: the stack loop ends, and computes the recursive depth. */
  method ContainerDepthByStack(document: Value) returns (deepest: nat)
    ensures deepest == ContainerDepth(document)
  {
    hide Children, Size, ContainerDepth;
    deepest := 0;
    var pending := [(document, 1)];
    assert pending[..0] == [];
    while pending != []
      invariant Max(deepest, ReachOfAll(pending)) == ContainerDepth(document)
      invariant forall p :: p in pending ==> p.1 > 0
      decreases Work(pending)
    {
      var (node, depth) := pending[|pending| - 1];
      assert pending[|pending| - 1] in pending;
      var rest := pending[..|pending| - 1];
      NodeOpened(rest, node, depth);
      if !node.Leaf? {
        deepest := Max(deepest, depth);
      }
      pending := rest + Stacked(Children(node), depth + 1);
    }
  }
}
