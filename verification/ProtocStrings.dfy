/**
 The octets a quoted text-format string stands for. `UnescapeInverts` says that any octets, each
 written bare, by a one-letter escape, by three octal digits or by two hex digits, read back as
 themselves, whatever stands next to them.
 */
module ProtocStrings {
  import opened Decimals
  import opened ProtocTokens
  import opened Wrappers

  type Octets = seq<Octet>

  /** UTF-8; none for a surrogate and past the last code point. */
  function Utf8(code: nat): Option<Octets> {
    if code < 0x80 then Some([code as Octet])
    else if code < 0x800 then Some([(0xC0 + code / 0x40) as Octet, Tail(code)])
    else if 0xD800 <= code < 0xE000 then None
    else if code < 0x10000 then Some([(0xE0 + code / 0x1000) as Octet, Tail(code / 0x40), Tail(code)])
    else if code < 0x110000 then
      Some([(0xF0 + code / 0x40000) as Octet, Tail(code / 0x1000), Tail(code / 0x40), Tail(code)])
    else None
  }

  function Tail(code: nat): Octet {
    (0x80 + code % 0x40) as Octet
  }

  function CharOctets(c: char): Octets {
    match Utf8(c as int)
    case Some(octets) => octets
    case None => []
  }

  function SimpleEscape(c: char): Option<Octet> {
    if c == 'n' then Some(10)
    else if c == 'r' then Some(13)
    else if c == 't' then Some(9)
    else if c == '"' then Some(34)
    else if c == '\'' then Some(39)
    else if c == '\\' then Some(92)
    else if c == 'a' then Some(7)
    else if c == 'b' then Some(8)
    else if c == 'f' then Some(12)
    else if c == 'v' then Some(11)
    else if c == '?' then Some(63)
    else None
  }

  predicate IsOctal(c: char) {
    '0' <= c <= '7'
  }

  function HexDigit(c: char): nat
    requires IsHex(c)
  {
    if IsDigit(c) then c as int - '0' as int
    else if 'a' <= c <= 'f' then c as int - 'a' as int + 10
    else c as int - 'A' as int + 10
  }

  function HexValue(s: string): nat
    requires forall c :: c in s ==> IsHex(c)
  {
    if s == "" then 0 else 16 * HexValue(s[..|s| - 1]) + HexDigit(s[|s| - 1])
  }

  function OctalDigit(c: char): nat
    requires IsOctal(c)
  {
    c as int - '0' as int
  }

  function OctalValue(s: string): nat
    requires forall c :: c in s ==> IsOctal(c)
  {
    if s == "" then 0 else 8 * OctalValue(s[..|s| - 1]) + OctalDigit(s[|s| - 1])
  }

  /** The leading characters of a class, at most `limit` of them. */
  function Leading(s: string, limit: nat, p: char -> bool): (r: string)
    ensures |r| <= |s| && |r| <= limit && r == s[..|r|]
    ensures forall c :: c in r ==> p(c)
    ensures |r| < limit && |r| < |s| ==> !p(s[|r|])
  {
    if s == "" || limit == 0 || !p(s[0]) then ""
    else
      var rest := Leading(s[1..], limit - 1, p);
      assert [s[0]] + rest == s[..1 + |rest|];
      [s[0]] + rest
  }

  /** The escape after a backslash: its octets and how many characters it takes. */
  function Escape(s: string): (r: Option<(Octets, nat)>)
    ensures r.Some? ==> 0 < r.value.1 <= |s|
  {
    if s == "" then None
    else if SimpleEscape(s[0]).Some? then Some(([SimpleEscape(s[0]).value], 1))
    else if IsOctal(s[0]) then
      var digits := Leading(s, 3, IsOctal);
      var value := OctalValue(digits);
      if value > 0xFF || digits == "" then None else Some(([value as Octet], |digits|))
    else if s[0] == 'x' || s[0] == 'X' then
      var digits := Leading(s[1..], 2, IsHex);
      HexBound(digits);
      if digits == "" then None else Some(([HexValue(digits) as Octet], 1 + |digits|))
    else if s[0] == 'u' || s[0] == 'U' then
      var width := if s[0] == 'u' then 4 else 8;
      var digits := Leading(s[1..], width, IsHex);
      if |digits| < width then None
      else
        match Utf8(HexValue(digits))
        case None => None
        case Some(octets) => Some((octets, 1 + width))
    else None
  }

  lemma HexBound(s: string)
    requires |s| <= 2 && forall c :: c in s ==> IsHex(c)
    ensures HexValue(s) <= 0xFF
  {
    if |s| == 2 {
      assert s[0] in s && s[1] in s && s == [s[0], s[1]];
      HexOfDigits(s[0], s[1]);
    } else if |s| == 1 {
      assert s[0] in s && s[..0] == "";
    }
  }

  /** `unescape`, on the text between the quotes. */
  function Unescape(s: string): Option<Octets>
    decreases |s|
  {
    if s == "" then Some([])
    else if s[0] != '\\' then Joined(CharOctets(s[0]), Unescape(s[1..]))
    else
      match Escape(s[1..])
      case None => None
      case Some((octets, n)) => Joined(octets, Unescape(s[1 + n..]))
  }

  function Joined(octets: Octets, rest: Option<Octets>): Option<Octets> {
    match rest
    case None => None
    case Some(r) => Some(octets + r)
  }

  lemma JoinedTwice(a: Octets, b: Octets, rest: Option<Octets>)
    ensures Joined(a, Joined(b, rest)) == Joined(a + b, rest)
    ensures Joined([], rest) == rest
  {
    if rest.Some? {
      assert a + (b + rest.value) == (a + b) + rest.value;
      assert [] + rest.value == rest.value;
    }
  }

  method UnescapeBody(body: string) returns (r: Option<Octets>)
    ensures r == Unescape(body)
  {
    hide Escape, CharOctets;
    var out: Octets, index := [], 0;
    assert body[0..] == body;
    JoinedTwice([], [], Unescape(body));
    while index < |body|
      invariant index <= |body|
      invariant Unescape(body) == Joined(out, Unescape(body[index..]))
    {
      var c := body[index];
      if c != '\\' {
        assert body[index..][1..] == body[index + 1..];
        JoinedTwice(out, CharOctets(c), Unescape(body[index + 1..]));
        out := out + CharOctets(c);
        index := index + 1;
        continue;
      }
      assert body[index..][1..] == body[index + 1..];
      var escape := Escape(body[index + 1..]);
      if escape.None? {
        return None;
      }
      var (octets, n) := escape.value;
      assert body[index..][1 + n..] == body[index + 1 + n..];
      JoinedTwice(out, octets, Unescape(body[index + 1 + n..]));
      out := out + octets;
      index := index + 1 + n;
    }
    assert body[index..] == "";
    assert out + [] == out;
    r := Some(out);
  }

  // --------------------------------------------------------------------------------- escaping

  /** One written unit of a string. */
  datatype Unit = Bare(c: char) | Letter(c: char) | OctalDigits(octet: Octet) | HexDigits(octet: Octet)

  predicate IsUnit(u: Unit, quote: char) {
    match u
    case Bare(c) => c != quote && c != '\\' && c != '\n'
    case Letter(c) => SimpleEscape(c).Some?
    case _ => true
  }

  function OctalChar(d: nat): char
    requires d < 8
  {
    '0' + d as char
  }

  function HexChar(d: nat): char
    requires d < 16
  {
    if d < 10 then '0' + d as char else 'a' + (d - 10) as char
  }

  function OctalText(octet: Octet): string {
    var n := octet as int;
    [OctalChar(n / 64), OctalChar(n / 8 % 8), OctalChar(n % 8)]
  }

  function HexText(octet: Octet): string {
    var n := octet as int;
    [HexChar(n / 16), HexChar(n % 16)]
  }

  function UnitText(u: Unit): string {
    match u
    case Bare(c) => [c]
    case Letter(c) => ['\\', c]
    case OctalDigits(octet) => "\\" + OctalText(octet)
    case HexDigits(octet) => "\\x" + HexText(octet)
  }

  function UnitOctets(u: Unit): Octets {
    match u
    case Bare(c) => CharOctets(c)
    case Letter(c) => if SimpleEscape(c).Some? then [SimpleEscape(c).value] else []
    case OctalDigits(octet) => [octet]
    case HexDigits(octet) => [octet]
  }

  function UnitsText(units: seq<Unit>): string {
    if units == [] then "" else UnitText(units[0]) + UnitsText(units[1..])
  }

  function UnitsOctets(units: seq<Unit>): Octets {
    if units == [] then [] else UnitOctets(units[0]) + UnitsOctets(units[1..])
  }

  lemma ThreeOctal(octet: Octet, rest: string)
    ensures Leading(OctalText(octet) + rest, 3, IsOctal) == OctalText(octet)
    ensures OctalValue(OctalText(octet)) == octet as int
  {
    var t := OctalText(octet);
    var s := t + rest;
    assert s[1..][1..][1..] == rest;
    assert s[0] == t[0] && s[1..][0] == t[1] && s[1..][1..][0] == t[2];
    assert Leading(s[1..][1..], 1, IsOctal) == [t[2]] + Leading(rest, 0, IsOctal);
    assert Leading(s[1..], 2, IsOctal) == [t[1]] + Leading(s[1..][1..], 1, IsOctal);
    OctalOfDigits(t[0], t[1], t[2]);
  }

  lemma OctalOfDigits(a: char, b: char, c: char)
    requires IsOctal(a) && IsOctal(b) && IsOctal(c)
    ensures OctalValue([a, b, c]) == 64 * OctalDigit(a) + 8 * OctalDigit(b) + OctalDigit(c)
  {
    assert [a][..0] == "" && [a, b][..1] == [a] && [a, b, c][..2] == [a, b];
    assert OctalValue([a]) == OctalDigit(a);
    assert OctalValue([a, b]) == 8 * OctalValue([a]) + OctalDigit(b);
  }

  lemma TwoHex(octet: Octet, rest: string)
    ensures Leading(HexText(octet) + rest, 2, IsHex) == HexText(octet)
    ensures HexValue(HexText(octet)) == octet as int
  {
    var t := HexText(octet);
    var s := t + rest;
    assert s[1..][1..] == rest;
    assert Leading(s[1..], 1, IsHex) == [t[1]] + Leading(rest, 0, IsHex);
    HexOfDigits(t[0], t[1]);
  }

  lemma HexOfDigits(a: char, b: char)
    requires IsHex(a) && IsHex(b)
    ensures HexValue([a, b]) == 16 * HexDigit(a) + HexDigit(b)
  {
    assert [a][..0] == "" && [a, b][..1] == [a];
    assert HexValue([a]) == HexDigit(a);
  }

  lemma UnescapeUnit(u: Unit, quote: char, rest: string)
    requires IsUnit(u, quote)
    ensures Unescape(UnitText(u) + rest) == Joined(UnitOctets(u), Unescape(rest))
  {
    hide Escape;
    var s := UnitText(u) + rest;
    match u {
      case Bare(c) =>
        assert s[1..] == rest;
      case Letter(c) =>
        EscapeLetter(c, rest);
        assert s[1..] == [c] + rest;
        assert s[2..] == rest;
      case OctalDigits(octet) =>
        EscapeOctal(octet, rest);
        assert s[1..] == OctalText(octet) + rest;
        assert s[4..] == rest;
      case HexDigits(octet) =>
        EscapeHex(octet, rest);
        assert s[1..] == "x" + (HexText(octet) + rest);
        assert s[4..] == rest;
    }
  }

  lemma EscapeLetter(c: char, rest: string)
    requires SimpleEscape(c).Some?
    ensures Escape([c] + rest) == Some(([SimpleEscape(c).value], 1))
  {
  }

  lemma EscapeOctal(octet: Octet, rest: string)
    ensures Escape(OctalText(octet) + rest) == Some(([octet], 3))
  {
    hide Leading, OctalValue;
    ThreeOctal(octet, rest);
    assert (OctalText(octet) + rest)[0] == OctalText(octet)[0];
  }

  lemma EscapeHex(octet: Octet, rest: string)
    ensures Escape("x" + (HexText(octet) + rest)) == Some(([octet], 3))
  {
    hide Leading, HexValue;
    TwoHex(octet, rest);
    assert ("x" + (HexText(octet) + rest))[1..] == HexText(octet) + rest;
  }

  /** Unescaping inverts escaping, unit by unit. */
  lemma {:induction false} UnescapeInverts(units: seq<Unit>, quote: char)
    requires forall u :: u in units ==> IsUnit(u, quote)
    ensures Unescape(UnitsText(units)) == Some(UnitsOctets(units))
  {
    hide Unescape, IsUnit, UnitText, UnitOctets;
    if units == [] {
      NothingToUnescape();
    } else {
      assert units[0] in units && forall u :: u in units[1..] ==> u in units;
      UnescapeUnit(units[0], quote, UnitsText(units[1..]));
      UnescapeInverts(units[1..], quote);
    }
  }

  lemma NothingToUnescape()
    ensures Unescape("") == Some([])
  {
  }

  /** Every octet string can be written, so the inverse is onto. */
  lemma {:induction false} EveryStringCanBeWritten(octets: Octets, quote: char) returns (units: seq<Unit>)
    ensures forall u :: u in units ==> IsUnit(u, quote)
    ensures UnitsOctets(units) == octets
  {
    if octets == [] {
      units := [];
    } else {
      var rest := EveryStringCanBeWritten(octets[1..], quote);
      units := [OctalDigits(octets[0])] + rest;
      assert units[1..] == rest;
    }
  }

  // --------------------------------------------------------------------- quoted strings as tokens

  /** A written string is one token. */
  lemma QuotedIsToken(units: seq<Unit>, quote: char)
    requires quote == '"' || quote == '\''
    requires forall u :: u in units ==> IsUnit(u, quote)
    ensures IsToken(Token(Quoted, [quote] + UnitsText(units) + [quote]))
  {
    var t := [quote] + UnitsText(units) + [quote];
    UnitsEnd([quote], units, quote);
    assert t == [quote] + (UnitsText(units) + [quote]);
  }

  lemma {:induction false} UnitsEnd(before: string, units: seq<Unit>, quote: char)
    requires quote == '"' || quote == '\''
    requires forall u :: u in units ==> IsUnit(u, quote)
    ensures StringEnd(before + (UnitsText(units) + [quote]), |before|, quote) == Some(|before| + |UnitsText(units)| + 1)
    decreases |units|
  {
    hide StringEnd, IsUnit, UnitText;
    if units == [] {
      CloseQuote(before, quote);
      assert "" + [quote] == [quote];
    } else {
      assert units[0] in units && forall u :: u in units[1..] ==> u in units;
      var text := UnitText(units[0]);
      var rest := UnitsText(units[1..]) + [quote];
      UnitsEnd(before + text, units[1..], quote);
      UnitPassed(before, units[0], rest, quote);
      Regroup(before, text, UnitsText(units[1..]), [quote]);
    }
  }

  lemma CloseQuote(before: string, quote: char)
    requires quote == '"' || quote == '\''
    ensures StringEnd(before + [quote], |before|, quote) == Some(|before| + 1)
  {
  }

  lemma Regroup(a: string, b: string, c: string, d: string)
    ensures a + ((b + c) + d) == (a + b) + (c + d)
  {
  }

  lemma UnitPassed(before: string, u: Unit, rest: string, quote: char)
    requires (quote == '"' || quote == '\'') && IsUnit(u, quote)
    ensures StringEnd(before + UnitText(u) + rest, |before|, quote)
         == StringEnd(before + UnitText(u) + rest, |before| + |UnitText(u)|, quote)
  {
    var s := before + UnitText(u) + rest;
    var n := |before|;
    var text := UnitText(u);
    assert forall i :: 0 <= i < |text| ==> s[n + i] == text[i];
    match u {
      case Bare(c) =>
      case Letter(c) =>
        assert s[n] == '\\' && s[n + 1] == c;
      case OctalDigits(octet) =>
        assert s[n] == '\\' && s[n + 1] == text[1];
        PlainPassed(s, n + 2, quote);
        PlainPassed(s, n + 3, quote);
      case HexDigits(octet) =>
        assert s[n] == '\\' && s[n + 1] == 'x';
        PlainPassed(s, n + 2, quote);
        PlainPassed(s, n + 3, quote);
    }
  }

  lemma PlainPassed(s: string, i: nat, quote: char)
    requires i < |s| && IsHex(s[i]) && (quote == '"' || quote == '\'')
    ensures StringEnd(s, i, quote) == StringEnd(s, i + 1, quote)
  {
  }
}
