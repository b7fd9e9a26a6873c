/**
 What the escapes of protoc's text format stand for, said by tables of their own: the eleven letters, three
 octal digits, two hexadecimal digits, and characters as UTF-8 (RFC 3629). However the octets of a string are
 spelled, reading gives them back (`SpelledReadsBack`), and so does what protoc itself prints
 (`PrintedReadsBack`).
 */
module ProtocEscapes {
  import opened ProtocStrings
  import opened ProtocTokens
  import opened Wrappers

  /** The letter after a backslash, and the octet it stands for. */
  predicate IsLetterFor(c: char, octet: Octet) {
    || (c == 'n' && octet == 10) || (c == 'r' && octet == 13) || (c == 't' && octet == 9)
    || (c == '"' && octet == 34) || (c == '\'' && octet == 39) || (c == '\\' && octet == 92)
    || (c == 'a' && octet == 7) || (c == 'b' && octet == 8) || (c == 'f' && octet == 12)
    || (c == 'v' && octet == 11) || (c == '?' && octet == 63)
  }

  predicate IsOctalFor(c: char, value: nat) {
    value < 8 && c == "01234567"[value]
  }

  predicate IsHexFor(c: char, value: nat) {
    value < 16 && (c == "0123456789abcdef"[value] || c == "0123456789ABCDEF"[value])
  }

  ghost predicate IsOctalSpelling(text: string, octet: Octet) {
    |text| == 4 && text[0] == '\\'
    && exists a: nat, b: nat, c: nat ::
         IsOctalFor(text[1], a) && IsOctalFor(text[2], b) && IsOctalFor(text[3], c)
         && octet as int == 64 * a + 8 * b + c
  }

  ghost predicate IsHexSpelling(text: string, octet: Octet) {
    |text| == 4 && text[0] == '\\' && (text[1] == 'x' || text[1] == 'X')
    && exists a: nat, b: nat :: IsHexFor(text[2], a) && IsHexFor(text[3], b) && octet as int == 16 * a + b
  }

  /** The ways to write one octet: an ASCII character bare, a letter, three octal digits, two hexadecimal. */
  ghost predicate Spells(text: string, octet: Octet) {
    || (|text| == 1 && text[0] != '\\' && text[0] as int < 128 && octet as int == text[0] as int)
    || (|text| == 2 && text[0] == '\\' && IsLetterFor(text[1], octet))
    || IsOctalSpelling(text, octet)
    || IsHexSpelling(text, octet)
  }

  function Text(texts: seq<string>): string {
    if texts == [] then "" else texts[0] + Text(texts[1..])
  }

  lemma EscapeTaken(s: string, octets: Octets, n: nat)
    requires |s| > 0 && s[0] == '\\' && Escape(s[1..]) == Some((octets, n))
    ensures 1 + n <= |s| && Unescape(s) == Joined(octets, Unescape(s[1 + n..]))
  {
    hide Escape;
  }

  lemma BareRead(c: char, octet: Octet, rest: string)
    requires c != '\\' && c as int < 128 && octet as int == c as int
    ensures Unescape([c] + rest) == Joined([octet], Unescape(rest))
  {
    assert ([c] + rest)[1..] == rest;
  }

  lemma LetterRead(c: char, octet: Octet, rest: string)
    requires IsLetterFor(c, octet)
    ensures Unescape(['\\', c] + rest) == Joined([octet], Unescape(rest))
  {
    var s := ['\\', c] + rest;
    assert s[1..] == [c] + rest && s[2..] == rest;
    EscapeTaken(s, [octet], 1);
  }

  lemma OctalIs(c: char, value: nat)
    requires IsOctalFor(c, value)
    ensures IsOctal(c) && OctalDigit(c) == value
  {
  }

  lemma HexIs(c: char, value: nat)
    requires IsHexFor(c, value)
    ensures IsHex(c) && HexDigit(c) == value
  {
  }

  lemma ThreeLead(a: char, b: char, c: char, rest: string)
    requires IsOctal(a) && IsOctal(b) && IsOctal(c)
    ensures Leading([a, b, c] + rest, 3, IsOctal) == [a, b, c]
  {
    var s := [a, b, c] + rest;
    assert s[1..][1..][1..] == rest;
    assert Leading(s[1..][1..], 1, IsOctal) == [c] + Leading(rest, 0, IsOctal);
    assert Leading(s[1..], 2, IsOctal) == [b] + Leading(s[1..][1..], 1, IsOctal);
  }

  lemma TwoLead(a: char, b: char, rest: string)
    requires IsHex(a) && IsHex(b)
    ensures Leading([a, b] + rest, 2, IsHex) == [a, b]
  {
    var s := [a, b] + rest;
    assert s[1..][1..] == rest;
    assert Leading(s[1..], 1, IsHex) == [b] + Leading(rest, 0, IsHex);
  }

  lemma OctalRead(text: string, octet: Octet, rest: string)
    requires IsOctalSpelling(text, octet)
    ensures Unescape(text + rest) == Joined([octet], Unescape(rest))
  {
    var a: nat, b: nat, c: nat :| IsOctalFor(text[1], a) && IsOctalFor(text[2], b) && IsOctalFor(text[3], c)
                   && octet as int == 64 * a + 8 * b + c;
    OctalIs(text[1], a);
    OctalIs(text[2], b);
    OctalIs(text[3], c);
    var s := text + rest;
    assert s[1..] == [text[1], text[2], text[3]] + rest && s[4..] == rest;
    OctalEscape(text[1], text[2], text[3], octet, rest);
    EscapeTaken(s, [octet], 3);
  }

  lemma OctalEscape(a: char, b: char, c: char, octet: Octet, rest: string)
    requires IsOctal(a) && IsOctal(b) && IsOctal(c)
    requires octet as int == 64 * OctalDigit(a) + 8 * OctalDigit(b) + OctalDigit(c)
    ensures Escape([a, b, c] + rest) == Some(([octet], 3))
  {
    hide Leading, OctalValue;
    ThreeLead(a, b, c, rest);
    OctalOfDigits(a, b, c);
  }

  lemma HexRead(text: string, octet: Octet, rest: string)
    requires IsHexSpelling(text, octet)
    ensures Unescape(text + rest) == Joined([octet], Unescape(rest))
  {
    var a: nat, b: nat :| IsHexFor(text[2], a) && IsHexFor(text[3], b) && octet as int == 16 * a + b;
    HexIs(text[2], a);
    HexIs(text[3], b);
    var s := text + rest;
    assert s[1..] == [text[1]] + ([text[2], text[3]] + rest) && s[4..] == rest;
    HexEscape(text[1], text[2], text[3], octet, rest);
    EscapeTaken(s, [octet], 3);
  }

  lemma HexEscape(x: char, a: char, b: char, octet: Octet, rest: string)
    requires (x == 'x' || x == 'X') && IsHex(a) && IsHex(b) && octet as int == 16 * HexDigit(a) + HexDigit(b)
    ensures Escape([x] + ([a, b] + rest)) == Some(([octet], 3))
  {
    hide Leading, HexValue;
    TwoLead(a, b, rest);
    HexOfDigits(a, b);
    assert ([x] + ([a, b] + rest))[1..] == [a, b] + rest;
  }

  lemma SpelledOne(text: string, octet: Octet, rest: string)
    requires Spells(text, octet)
    ensures Unescape(text + rest) == Joined([octet], Unescape(rest))
  {
    hide Unescape, IsOctalSpelling, IsHexSpelling;
    if IsOctalSpelling(text, octet) {
      OctalRead(text, octet, rest);
    } else if IsHexSpelling(text, octet) {
      HexRead(text, octet, rest);
    } else if |text| == 1 {
      assert text == [text[0]];
      BareRead(text[0], octet, rest);
    } else {
      assert text == ['\\', text[1]];
      LetterRead(text[1], octet, rest);
    }
  }

  /** Octets read back, whichever way each is spelled and whatever stands next to it. */
  lemma {:induction false} SpelledReadsBack(texts: seq<string>, octets: Octets)
    requires |texts| == |octets| && forall i :: 0 <= i < |texts| ==> Spells(texts[i], octets[i])
    ensures Unescape(Text(texts)) == Some(octets)
  {
    hide Unescape, Spells;
    if texts == [] {
      NothingToUnescape();
    } else {
      SpelledOne(texts[0], octets[0], Text(texts[1..]));
      SpelledReadsBack(texts[1..], octets[1..]);
      assert octets == [octets[0]] + octets[1..];
    }
  }

  /** How protoc prints one octet: by letter where it has one of these, as it is where it is printable, and by
      three octal digits elsewhere. */
  function Printed(octet: Octet): string {
    if octet == 10 then "\\n"
    else if octet == 13 then "\\r"
    else if octet == 9 then "\\t"
    else if octet == 34 then "\\\""
    else if octet == 39 then "\\'"
    else if octet == 92 then "\\\\"
    else if 32 <= octet < 127 then [octet as int as char]
    else ThreeDigits(octet)
  }

  function ThreeDigits(octet: Octet): string {
    var n := octet as int;
    ['\\', "01234567"[n / 64], "01234567"[n / 8 % 8], "01234567"[n % 8]]
  }

  lemma PrintedInOctal(octet: Octet)
    ensures IsOctalSpelling(ThreeDigits(octet), octet)
  {
    var n := octet as int;
    var text := ThreeDigits(octet);
    assert IsOctalFor(text[1], n / 64) && IsOctalFor(text[2], n / 8 % 8) && IsOctalFor(text[3], n % 8);
  }

  lemma PrintedSpells(octet: Octet)
    ensures Spells(Printed(octet), octet)
  {
    hide IsOctalSpelling, IsHexSpelling;
    if octet !in [10, 13, 9, 34, 39, 92] && !(32 <= octet < 127) {
      PrintedInOctal(octet);
    }
  }

  function PrintedAll(octets: Octets): seq<string> {
    seq(|octets|, i requires 0 <= i < |octets| => Printed(octets[i]))
  }

  /** Every string, as protoc prints it, reads back. */
  lemma PrintedReadsBack(octets: Octets)
    ensures Unescape(Text(PrintedAll(octets))) == Some(octets)
  {
    forall i | 0 <= i < |octets|
      ensures Spells(PrintedAll(octets)[i], octets[i])
    {
      PrintedSpells(octets[i]);
    }
    SpelledReadsBack(PrintedAll(octets), octets);
  }

  // ------------------------------------------------------------------------------------- UTF-8

  predicate IsTail(octet: Octet) {
    0x80 <= octet <= 0xBF
  }

  /** The sequence of one to four octets that stands for a character. */
  predicate Decodes(octets: Octets, code: nat) {
    || (|octets| == 1 && octets[0] < 0x80 && code == octets[0] as int)
    || (|octets| == 2 && 0xC2 <= octets[0] <= 0xDF && IsTail(octets[1])
        && code == 0x40 * (octets[0] as int - 0xC0) + (octets[1] as int - 0x80))
    || (|octets| == 3 && 0xE0 <= octets[0] <= 0xEF && IsTail(octets[1]) && IsTail(octets[2]) && code >= 0x800
        && code == 0x1000 * (octets[0] as int - 0xE0) + 0x40 * (octets[1] as int - 0x80) + (octets[2] as int - 0x80))
    || (|octets| == 4 && 0xF0 <= octets[0] <= 0xF4 && IsTail(octets[1]) && IsTail(octets[2]) && IsTail(octets[3])
        && code >= 0x10000
        && code == 0x40000 * (octets[0] as int - 0xF0) + 0x1000 * (octets[1] as int - 0x80)
                   + 0x40 * (octets[2] as int - 0x80) + (octets[3] as int - 0x80))
  }

  /** Every code point but the surrogates has octets, and they decode to it. */
  lemma Utf8Decodes(code: nat)
    ensures Utf8(code).None? <==> 0xD800 <= code <= 0xDFFF || code > 0x10FFFF
    ensures Utf8(code).Some? ==> Decodes(Utf8(code).value, code)
  {
    if code >= 0x10000 {
      assert code / 0x1000 == code / 0x40 / 0x40 && code / 0x40000 == code / 0x40 / 0x40 / 0x40;
    } else if code >= 0x800 {
      assert code / 0x1000 == code / 0x40 / 0x40;
    }
  }

  lemma UnescapeBare(c: char, rest: string)
    requires c != '\\'
    ensures Unescape([c] + rest) == Joined(CharOctets(c), Unescape(rest))
  {
    hide CharOctets, Escape;
    assert ([c] + rest)[1..] == rest;
  }

  /** A character written bare stands for its UTF-8 octets. */
  lemma CharacterRead(c: char, rest: string)
    requires c != '\\'
    ensures exists octets :: Decodes(octets, c as int) && Unescape([c] + rest) == Joined(octets, Unescape(rest))
  {
    hide Decodes, Unescape;
    Utf8Decodes(c as int);
    UnescapeBare(c, rest);
    assert Decodes(CharOctets(c), c as int);
  }

  /** The number written by digits in base 16, the greatest first. */
  function Sixteens(values: seq<nat>): nat {
    if values == [] then 0 else 16 * Sixteens(values[..|values| - 1]) + values[|values| - 1]
  }

  predicate AreHexFor(digits: string, values: seq<nat>) {
    |digits| == |values| && forall i :: 0 <= i < |digits| ==> IsHexFor(digits[i], values[i])
  }

  lemma {:induction false} SixteensAre(digits: string, values: seq<nat>)
    requires AreHexFor(digits, values)
    ensures (forall c :: c in digits ==> IsHex(c)) && HexValue(digits) == Sixteens(values)
  {
    if digits != "" {
      var n := |digits| - 1;
      HexIs(digits[n], values[n]);
      SixteensAre(digits[..n], values[..n]);
      assert digits == digits[..n] + [digits[n]];
    }
  }

  lemma {:induction false} AllLead(digits: string, rest: string)
    requires forall c :: c in digits ==> IsHex(c)
    ensures Leading(digits + rest, |digits|, IsHex) == digits
  {
    if digits == "" {
      assert "" + rest == rest;
    } else {
      AllLead(digits[1..], rest);
      assert (digits + rest)[1..] == digits[1..] + rest;
      assert digits == [digits[0]] + digits[1..];
    }
  }

  /** Four digits after `u` or eight after `U` stand for the UTF-8 octets of the character they number; a
      surrogate, and a number past the last character, is refused. */
  lemma UnicodeRead(u: char, digits: string, values: seq<nat>, rest: string)
    requires (u == 'u' && |digits| == 4) || (u == 'U' && |digits| == 8)
    requires AreHexFor(digits, values)
    ensures var value := Sixteens(values);
            if 0xD800 <= value <= 0xDFFF || value > 0x10FFFF then Unescape(['\\', u] + digits + rest) == None
            else exists octets ::
                   Decodes(octets, value) && Unescape(['\\', u] + digits + rest) == Joined(octets, Unescape(rest))
  {
    hide Utf8, Decodes, Leading, HexValue, Unescape;
    var value := Sixteens(values);
    Utf8Decodes(value);
    SixteensAre(digits, values);
    AllLead(digits, rest);
    var s := ['\\', u] + digits + rest;
    assert s[1..] == [u] + (digits + rest);
    assert s[1..][1..] == digits + rest;
    UnicodeEscape(u, digits, rest);
    assert s[2 + |digits|..] == rest;
    if Utf8(value).Some? {
      EscapeTaken(s, Utf8(value).value, 1 + |digits|);
    } else {
      EscapeRefused(s);
    }
  }

  lemma UnicodeEscape(u: char, digits: string, rest: string)
    requires (u == 'u' && |digits| == 4) || (u == 'U' && |digits| == 8)
    requires (forall c :: c in digits ==> IsHex(c)) && Leading(digits + rest, |digits|, IsHex) == digits
    ensures Escape([u] + (digits + rest)) ==
              match Utf8(HexValue(digits))
              case None => None
              case Some(octets) => Some((octets, 1 + |digits|))
  {
    hide Utf8, Leading, HexValue;
    assert ([u] + (digits + rest))[1..] == digits + rest;
  }

  // ----------------------------------------------------------------------------- fewer digits

  /** The number written by digits in base 8. */
  function Eights(values: seq<nat>): nat {
    if values == [] then 0 else 8 * Eights(values[..|values| - 1]) + values[|values| - 1]
  }

  predicate AreOctalFor(digits: string, values: seq<nat>) {
    |digits| == |values| && forall i :: 0 <= i < |digits| ==> IsOctalFor(digits[i], values[i])
  }

  lemma {:induction false} EightsAre(digits: string, values: seq<nat>)
    requires AreOctalFor(digits, values)
    ensures (forall c :: c in digits ==> IsOctal(c)) && OctalValue(digits) == Eights(values)
  {
    if digits != "" {
      var n := |digits| - 1;
      OctalIs(digits[n], values[n]);
      EightsAre(digits[..n], values[..n]);
      assert digits == digits[..n] + [digits[n]];
    }
  }

  predicate NoOctalNext(rest: string) {
    rest != "" ==> rest[0] !in "01234567"
  }

  predicate NoHexNext(rest: string) {
    rest != "" ==> rest[0] !in "0123456789abcdefABCDEF"
  }

  lemma {:induction false} LeadUpTo(digits: string, limit: nat, rest: string, p: char -> bool)
    requires |digits| <= limit && (forall c :: c in digits ==> p(c)) && (rest != "" ==> !p(rest[0]))
    ensures Leading(digits + rest, limit, p) == digits
  {
    if digits == "" {
      assert "" + rest == rest;
    } else {
      LeadUpTo(digits[1..], limit - 1, rest, p);
      assert (digits + rest)[1..] == digits[1..] + rest;
      assert digits == [digits[0]] + digits[1..];
    }
  }

  /** One or two octal digits that no third follows, and one hexadecimal digit that no second follows, stand
      for the number they write. */
  lemma ShortRead(digits: string, values: seq<nat>, rest: string)
    ensures 1 <= |digits| <= 2 && AreOctalFor(digits, values) && NoOctalNext(rest) ==>
              Eights(values) < 256
              && Unescape(['\\'] + digits + rest) == Joined([Eights(values) as Octet], Unescape(rest))
    ensures |digits| == 1 && AreHexFor(digits, values) && NoHexNext(rest) ==>
              Sixteens(values) < 256
              && Unescape("\\x" + digits + rest) == Joined([Sixteens(values) as Octet], Unescape(rest))
              && Unescape("\\X" + digits + rest) == Joined([Sixteens(values) as Octet], Unescape(rest))
  {
    if 1 <= |digits| <= 2 && AreOctalFor(digits, values) && NoOctalNext(rest) {
      ShortOctal(digits, values, rest);
    }
    if |digits| == 1 && AreHexFor(digits, values) && NoHexNext(rest) {
      ShortHex('x', digits, values, rest);
      ShortHex('X', digits, values, rest);
      assert "\\x" + digits + rest == ['\\', 'x'] + digits + rest;
      assert "\\X" + digits + rest == ['\\', 'X'] + digits + rest;
    }
  }

  lemma NextIsNone(rest: string)
    ensures NoOctalNext(rest) && rest != "" ==> !IsOctal(rest[0])
    ensures NoHexNext(rest) && rest != "" ==> !IsHex(rest[0])
  {
  }

  lemma ShortOctal(digits: string, values: seq<nat>, rest: string)
    requires 1 <= |digits| <= 2 && AreOctalFor(digits, values) && NoOctalNext(rest)
    ensures Eights(values) < 256
    ensures Unescape(['\\'] + digits + rest) == Joined([Eights(values) as Octet], Unescape(rest))
  {
    hide Unescape, Leading, OctalValue, NoOctalNext, AreOctalFor;
    EightsAre(digits, values);
    EightsBound(digits, values);
    NextIsNone(rest);
    LeadUpTo(digits, 3, rest, IsOctal);
    var s := ['\\'] + digits + rest;
    assert s[1..] == digits + rest && s[1 + |digits|..] == rest;
    assert digits[0] in digits;
    EscapeTaken(s, [Eights(values) as Octet], |digits|);
  }

  lemma EightsBound(digits: string, values: seq<nat>)
    requires |digits| <= 2 && AreOctalFor(digits, values)
    ensures Eights(values) < 64
  {
    if |values| == 2 {
      assert Eights(values[..1]) == 8 * Eights(values[..1][..0]) + values[0];
    }
  }

  lemma ShortHex(x: char, digits: string, values: seq<nat>, rest: string)
    requires (x == 'x' || x == 'X') && |digits| == 1 && AreHexFor(digits, values) && NoHexNext(rest)
    ensures Sixteens(values) < 256
    ensures Unescape(['\\', x] + digits + rest) == Joined([Sixteens(values) as Octet], Unescape(rest))
  {
    hide Unescape, Leading, HexValue, NoHexNext, AreHexFor, Sixteens;
    SixteensAre(digits, values);
    HexBound(digits);
    NextIsNone(rest);
    LeadUpTo(digits, 2, rest, IsHex);
    var s := ['\\', x] + digits + rest;
    assert s[1..] == [x] + (digits + rest) && s[1..][1..] == digits + rest && s[2 + |digits|..] == rest;
    EscapeTaken(s, [Sixteens(values) as Octet], 1 + |digits|);
  }

  // --------------------------------------------------------------------------------- refusals

  lemma EscapeRefused(s: string)
    requires |s| > 0 && s[0] == '\\' && Escape(s[1..]) == None
    ensures Unescape(s) == None
  {
    hide Escape;
  }

  /** A backslash at the end, or in front of a character that starts no escape, is refused; so are three octal
      digits past one octet, and an `x` without a hexadecimal digit. */
  lemma Refused(c: char, rest: string)
    ensures Unescape("\\") == None
    ensures c !in "nrt\"'\\abfv?01234567xXuU" ==> Unescape(['\\', c] + rest) == None
    ensures forall b, d :: '4' <= c <= '7' && '0' <= b <= '7' && '0' <= d <= '7' ==>
              Unescape(['\\', c, b, d] + rest) == None
    ensures !('0' <= c <= '9' || 'a' <= c <= 'f' || 'A' <= c <= 'F') ==>
              Unescape("\\x" + [c] + rest) == None && Unescape("\\X" + [c] + rest) == None
  {
    hide Unescape, Escape;
    EscapeRefusedAtEnd();
    if c !in "nrt\"'\\abfv?01234567xXuU" {
      UnknownRefused(c, rest);
    }
    forall b, d | '4' <= c <= '7' && '0' <= b <= '7' && '0' <= d <= '7'
      ensures Unescape(['\\', c, b, d] + rest) == None
    {
      OctalRefused(c, b, d, rest);
    }
    if !('0' <= c <= '9' || 'a' <= c <= 'f' || 'A' <= c <= 'F') {
      HexRefused('x', c, rest);
      HexRefused('X', c, rest);
      assert "\\x" + [c] + rest == ['\\', 'x', c] + rest && "\\X" + [c] + rest == ['\\', 'X', c] + rest;
    }
  }

  lemma EscapeRefusedAtEnd()
    ensures Unescape("\\") == None
  {
    assert "\\"[1..] == "";
  }

  lemma UnknownRefused(c: char, rest: string)
    requires c !in "nrt\"'\\abfv?01234567xXuU"
    ensures Unescape(['\\', c] + rest) == None
  {
    hide Unescape, Leading, OctalValue, HexValue, Utf8;
    var s := ['\\', c] + rest;
    Unknown(c);
    assert s[1..] == [c] + rest;
    EscapeRefused(s);
  }

  lemma Unknown(c: char)
    requires c !in "nrt\"'\\abfv?01234567xXuU"
    ensures SimpleEscape(c).None? && !IsOctal(c) && c !in {'x', 'X', 'u', 'U'}
  {
    var known := "nrt\"'\\abfv?01234567xXuU";
    assert known[0] == 'n' && known[1] == 'r' && known[2] == 't' && known[3] == '"' && known[4] == '\''
           && known[5] == '\\' && known[6] == 'a' && known[7] == 'b' && known[8] == 'f' && known[9] == 'v'
           && known[10] == '?' && known[19] == 'x' && known[20] == 'X' && known[21] == 'u' && known[22] == 'U';
    assert known[11] == '0' && known[12] == '1' && known[13] == '2' && known[14] == '3' && known[15] == '4'
           && known[16] == '5' && known[17] == '6' && known[18] == '7';
  }

  lemma OctalRefused(a: char, b: char, c: char, rest: string)
    requires '4' <= a <= '7' && '0' <= b <= '7' && '0' <= c <= '7'
    ensures Unescape(['\\', a, b, c] + rest) == None
  {
    hide Leading, OctalValue, Unescape;
    var s := ['\\', a, b, c] + rest;
    assert s[1..] == [a, b, c] + rest;
    ThreeLead(a, b, c, rest);
    OctalOfDigits(a, b, c);
    EscapeRefused(s);
  }

  lemma HexRefused(x: char, c: char, rest: string)
    requires x == 'x' || x == 'X'
    requires !('0' <= c <= '9' || 'a' <= c <= 'f' || 'A' <= c <= 'F')
    ensures Unescape(['\\', x, c] + rest) == None
  {
    hide Unescape;
    var s := ['\\', x, c] + rest;
    assert s[1..] == [x] + ([c] + rest) && s[1..][1..] == [c] + rest;
    EscapeRefused(s);
  }
}
