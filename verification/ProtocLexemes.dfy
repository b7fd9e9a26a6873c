/**
 The lexemes of protoc's text format, spelled out: which texts are one token of each kind (`TokenMeans`), which
 characters blanks are, and what number a numeral stands for (`NumeralMeans`).
 */
module ProtocLexemes {
  import opened Decimals
  import opened ProtocEscapes
  import opened ProtocStrings
  import opened ProtocText
  import opened ProtocTokens
  import opened Wrappers

  // ------------------------------------------------------------------------------ the characters

  predicate IsNumeric(c: char) {
    '0' <= c <= '9'
  }

  predicate IsHexDigit(c: char) {
    '0' <= c <= '9' || 'a' <= c <= 'f' || 'A' <= c <= 'F'
  }

  predicate StartsWord(c: char) {
    c == '_' || 'a' <= c <= 'z' || 'A' <= c <= 'Z'
  }

  /** Some characters, all of them of one kind. */
  predicate All(s: string, p: char -> bool) {
    forall i :: 0 <= i < |s| ==> p(s[i])
  }

  predicate Some1(s: string, p: char -> bool) {
    s != "" && All(s, p)
  }

  // --------------------------------------------------------------------------------- the lexemes

  /** Characters of a string: a backslash takes the next one with it, but for a line feed. */
  predicate IsStringBody(body: string, quote: char)
    decreases |body|
  {
    || body == ""
    || (body[0] == '\\' && |body| >= 2 && body[1] != '\n' && IsStringBody(body[2..], quote))
    || (body[0] != '\\' && body[0] != quote && body[0] != '\n' && IsStringBody(body[1..], quote))
  }

  predicate IsString(t: string) {
    && |t| >= 2 && (t[0] == '"' || t[0] == '\'') && t[|t| - 1] == t[0]
    && IsStringBody(t[1..|t| - 1], t[0])
  }

  predicate IsExtension(t: string) {
    && |t| >= 2 && t[0] == '[' && t[|t| - 1] == ']'
    && forall i :: 1 <= i < |t| - 1 ==> t[i] != ']' && t[i] != '\n'
  }

  predicate IsWord(t: string) {
    var w := if t != "" && t[0] == '-' then t[1..] else t;
    w != "" && StartsWord(w[0]) && All(w[1..], (c: char) => StartsWord(c) || IsNumeric(c) || c == '.')
  }

  /** An `e`, a sign or none, and digits. */
  predicate IsExponent(s: string) {
    && |s| >= 2 && (s[0] == 'e' || s[0] == 'E')
    && Some1(if s[1] == '+' || s[1] == '-' then s[2..] else s[1..], IsNumeric)
  }

  /** What may follow the digits of a decimal: an exponent or none, and an `f` or none. */
  predicate IsTail(s: string) {
    var float := s != "" && (s[|s| - 1] == 'f' || s[|s| - 1] == 'F');
    var exponent := if float then s[..|s| - 1] else s;
    exponent == "" || IsExponent(exponent)
  }

  predicate IsHexNumeral(s: string) {
    |s| > 2 && s[0] == '0' && (s[1] == 'x' || s[1] == 'X') && All(s[2..], IsHexDigit)
  }

  /** Digits, a point or none, more digits; some digit on one side. */
  predicate IsDecimalOf(s: string, whole: string, fraction: string, tail: string) {
    && All(whole, IsNumeric) && All(fraction, IsNumeric) && IsTail(tail)
    && ((whole != "" && fraction == "" && s == whole + tail)
        || (whole + fraction != "" && s == whole + "." + fraction + tail))
  }

  ghost predicate IsDecimal(s: string) {
    exists whole, fraction, tail :: IsDecimalOf(s, whole, fraction, tail)
  }

  function Magnitude(t: string): string {
    if t != "" && t[0] == '-' then t[1..] else t
  }

  ghost predicate IsNumber(t: string) {
    IsHexNumeral(Magnitude(t)) || IsDecimal(Magnitude(t))
  }

  ghost predicate IsLexeme(kind: Kind, t: string) {
    match kind
    case Skip => false
    case Quoted => IsString(t)
    case Bracket => IsExtension(t)
    case Punct => t in {"{", "}", "<", ">", ":", ";", ","}
    case Number => IsNumber(t)
    case Ident => IsWord(t)
  }

  // ----------------------------------------------------------------------------------- the proof

  lemma {:induction false} StringEndIs(t: string, from: nat, quote: char)
    requires from <= |t| && (quote == '"' || quote == '\'')
    ensures StringEnd(t, from, quote) == Some(|t|) <==>
              from < |t| && t[|t| - 1] == quote && IsStringBody(t[from..|t| - 1], quote)
    decreases |t| - from
  {
    if from < |t| {
      var body := t[from..|t| - 1];
      if from + 1 < |t| && t[from] == '\\' && t[from + 1] != '\n' {
        StringEndIs(t, from + 2, quote);
        if from + 2 < |t| {
          assert body[2..] == t[from + 2..|t| - 1] && body[1] == t[from + 1];
        }
      } else if from + 1 < |t| && t[from] != '\\' {
        StringEndIs(t, from + 1, quote);
        assert body[1..] == t[from + 1..|t| - 1];
      }
    }
  }

  lemma {:induction false} BracketEndIs(t: string, from: nat)
    requires from <= |t|
    ensures BracketEnd(t, from) == Some(|t|) <==>
              from < |t| && t[|t| - 1] == ']' && forall i :: from <= i < |t| - 1 ==> t[i] != ']' && t[i] != '\n'
    decreases |t| - from
  {
    if from < |t| {
      BracketEndIs(t, from + 1);
    }
  }

  /** A run ends where the class of its characters does. */
  lemma RunIs(s: string, from: nat, p: char -> bool, e: nat)
    requires from <= e <= |s| && All(s[from..e], p) && (e < |s| ==> !p(s[e]))
    ensures RunEnd(s, from, p) == e
  {
    assert forall k :: from <= k < e ==> s[k] == s[from..e][k - from];
  }

  lemma RunAll(s: string, from: nat, p: char -> bool)
    requires from <= |s|
    ensures All(s[from..RunEnd(s, from, p)], p)
  {
  }

  lemma WordMeans(t: string)
    ensures IdentEnd(t) == Some(|t|) <==> IsWord(t)
  {
    var from := SignEnd(t);
    var w := Magnitude(t);
    assert w == t[from..];
    if from < |t| && IsLetter(t[from]) {
      var p := (c: char) => StartsWord(c) || IsNumeric(c) || c == '.';
      assert forall c :: p(c) <==> IsIdentChar(c);
      if IsWord(t) {
        assert forall k :: from < k < |t| ==> t[k] == w[1..][k - from - 1];
        assert All(t[from..|t|], IsIdentChar);
        RunIs(t, from, IsIdentChar, |t|);
      }
      if RunEnd(t, from, IsIdentChar) == |t| {
        assert forall k :: 0 <= k < |w[1..]| ==> w[1..][k] == t[from + 1 + k];
      }
    }
  }

  /** An exponent is passed over when it is all there is in front of the end or of an `f`. */
  lemma ExponentMeans(s: string, from: nat, k: nat)
    requires from <= k <= |s| && (k == |s| || s[k] == 'f' || s[k] == 'F')
    ensures ExponentEnd(s, from) == k <==> from == k || IsExponent(s[from..k])
  {
    var part := s[from..k];
    if from < k && (s[from] == 'e' || s[from] == 'E') {
      var digits := if from + 1 < |s| && (s[from + 1] == '+' || s[from + 1] == '-') then from + 2 else from + 1;
      assert |part| >= 2 ==> part[1] == s[from + 1];
      if IsExponent(part) {
        assert s[digits..k] == if part[1] == '+' || part[1] == '-' then part[2..] else part[1..];
        assert s[digits] == s[digits..k][0];
        RunIs(s, digits, IsDigit, k);
      }
      if ExponentEnd(s, from) == k {
        assert DigitAt(s, digits) && digits < k;
        RunAll(s, digits, IsDigit);
        assert s[digits..k] == if part[1] == '+' || part[1] == '-' then part[2..] else part[1..];
      }
    }
  }

  lemma TailMeans(s: string, from: nat)
    requires from <= |s|
    ensures SuffixEnd(s, from) == |s| <==> IsTail(s[from..])
  {
    hide ExponentEnd, IsExponent;
    var tail := s[from..];
    ExponentMeans(s, from, |s|);
    assert s[from..|s|] == tail;
    if from < |s| && (s[|s| - 1] == 'f' || s[|s| - 1] == 'F') {
      ExponentMeans(s, from, |s| - 1);
      assert tail[..|tail| - 1] == s[from..|s| - 1];
      NoExponent(tail);
    }
  }

  lemma NoExponent(s: string)
    requires s != "" && (s[|s| - 1] == 'f' || s[|s| - 1] == 'F')
    ensures !IsExponent(s)
  {
  }

  lemma TailStart(tail: string)
    requires IsTail(tail) && tail != ""
    ensures tail[0] == 'e' || tail[0] == 'E' || tail[0] == 'f' || tail[0] == 'F'
  {
  }

  /** A decimal is read to its end, without a point and with one. */
  lemma WholeRead(t: string, from: nat, e: nat)
    requires from < e <= |t| && All(t[from..e], IsNumeric) && IsTail(t[e..])
    ensures UnsignedEnd(t, from) == Some(|t|)
  {
    hide SuffixEnd, RunEnd, IsTail;
    if e < |t| {
      TailStart(t[e..]);
    }
    DigitsAre(t[from..e]);
    RunIs(t, from, IsDigit, e);
    assert t[from] == t[from..e][0] && (from + 1 < e ==> t[from + 1] == t[from..e][1]);
    TailMeans(t, e);
  }

  lemma PointRead(t: string, from: nat, e: nat, g: nat)
    requires from <= e < g <= |t| && t[e] == '.' && (from < e || e + 1 < g)
    requires All(t[from..e], IsNumeric) && All(t[e + 1..g], IsNumeric) && IsTail(t[g..])
    ensures UnsignedEnd(t, from) == Some(|t|)
  {
    hide SuffixEnd, RunEnd, IsTail;
    if g < |t| {
      TailStart(t[g..]);
    }
    DigitsAre(t[from..e]);
    DigitsAre(t[e + 1..g]);
    RunIs(t, from, IsDigit, e);
    RunIs(t, e + 1, IsDigit, g);
    assert from < e ==> t[from] == t[from..e][0] && (from + 1 < e ==> t[from + 1] == t[from..e][1]);
    assert e + 1 < g ==> t[e + 1] == t[e + 1..g][0];
    TailMeans(t, g);
  }

  lemma Pointed(t: string, from: nat, e: nat, g: nat)
    requires from <= e < g <= |t| && t[e] == '.' && (from < e || e + 1 < g)
    requires All(t[from..e], IsNumeric) && All(t[e + 1..g], IsNumeric) && IsTail(t[g..])
    ensures IsDecimal(t[from..])
  {
    hide IsTail, All;
    var whole, fraction, tail := t[from..e], t[e + 1..g], t[g..];
    assert t[from..] == whole + "." + fraction + tail;
    assert whole + fraction != "";
    assert IsDecimalOf(t[from..], whole, fraction, tail);
  }

  lemma Unpointed(t: string, from: nat, e: nat)
    requires from < e <= |t| && All(t[from..e], IsNumeric) && IsTail(t[e..])
    ensures IsDecimal(t[from..])
  {
    hide IsTail;
    assert t[from..] == t[from..e] + t[e..];
    assert IsDecimalOf(t[from..], t[from..e], "", t[e..]);
  }

  lemma DigitsAre(s: string)
    ensures All(s, IsDigit) <==> All(s, IsNumeric)
  {
  }

  /** And what is read to its end is a decimal. */
  lemma ReadIsDecimal(t: string, from: nat)
    requires from <= |t| && !HexAt(t, from) && UnsignedEnd(t, from) == Some(|t|)
    ensures IsDecimal(t[from..])
  {
    hide SuffixEnd, RunEnd, IsTail, IsDecimal, All;
    var e := RunEnd(t, from, IsDigit);
    RunAll(t, from, IsDigit);
    DigitsAre(t[from..e]);
    if e < |t| && t[e] == '.' {
      var g := RunEnd(t, e + 1, IsDigit);
      RunAll(t, e + 1, IsDigit);
      DigitsAre(t[e + 1..g]);
      TailMeans(t, g);
      Pointed(t, from, e, g);
    } else {
      TailMeans(t, e);
      Unpointed(t, from, e);
    }
  }

  lemma HexMeans(t: string, from: nat)
    requires from <= |t|
    ensures HexAt(t, from) && UnsignedEnd(t, from) == Some(|t|) <==> IsHexNumeral(t[from..])
  {
    var s := t[from..];
    if HexAt(t, from) {
      RunAll(t, from + 2, IsHex);
      assert forall i :: from + 2 <= i < |t| ==> t[i] == s[2..][i - from - 2];
      if IsHexNumeral(s) {
        assert t[from + 2..|t|] == s[2..];
        RunIs(t, from + 2, IsHex, |t|);
      }
      if RunEnd(t, from + 2, IsHex) == |t| {
        assert s[2..] == t[from + 2..|t|];
      }
    }
  }

  lemma DecimalIsRead(t: string, from: nat)
    requires from <= |t| && IsDecimal(t[from..])
    ensures UnsignedEnd(t, from) == Some(|t|)
  {
    hide UnsignedEnd, IsTail, All;
    var s := t[from..];
    var whole, fraction, tail :| IsDecimalOf(s, whole, fraction, tail);
    var e := from + |whole|;
    assert t[from..e] == s[..|whole|];
    if whole != "" && fraction == "" && s == whole + tail {
      assert s[..|whole|] == whole && t[e..] == s[|whole|..] == tail;
      WholeRead(t, from, e);
    } else {
      var g := e + 1 + |fraction|;
      assert s == whole + "." + fraction + tail;
      assert s[..|whole|] == whole && t[e] == s[|whole|] == '.';
      assert t[e + 1..g] == s[|whole| + 1..|whole| + 1 + |fraction|] == fraction;
      assert t[g..] == s[|whole| + 1 + |fraction|..] == tail;
      PointRead(t, from, e, g);
    }
  }

  lemma NumberMeans(t: string)
    ensures NumberEnd(t) == Some(|t|) <==> IsNumber(t)
  {
    hide UnsignedEnd, IsHexNumeral, HexAt, IsDecimal;
    var from := SignEnd(t);
    assert Magnitude(t) == t[from..];
    HexMeans(t, from);
    if UnsignedEnd(t, from) == Some(|t|) && !HexAt(t, from) {
      ReadIsDecimal(t, from);
    }
    if IsDecimal(Magnitude(t)) {
      DecimalIsRead(t, from);
    }
  }

  lemma NumberStart(t: string)
    requires NumberEnd(t).Some?
    ensures t != "" && (t[0] == '-' || t[0] == '.' || IsDigit(t[0]))
  {
  }

  lemma WordStart(t: string)
    requires IdentEnd(t).Some?
    ensures t != "" && (t[0] == '-' || IsLetter(t[0])) && NumberEnd(t) == None
  {
    IdentIsNoNumber(t);
  }

  /** One token is exactly one lexeme of its kind. */
  lemma TokenMeans(kind: Kind, t: string)
    ensures IsToken(Token(kind, t)) <==> IsLexeme(kind, t)
  {
    hide StringEnd, BracketEnd, NumberEnd, IdentEnd, IsNumber, IsWord;
    NumberMeans(t);
    WordMeans(t);
    if t != "" {
      if t[0] == '"' || t[0] == '\'' {
        StringEndIs(t, 1, t[0]);
      }
      BracketEndIs(t, 1);
      if NumberEnd(t).Some? {
        NumberStart(t);
      }
      if IdentEnd(t).Some? {
        WordStart(t);
      }
      assert |t| == 1 ==> t == [t[0]];
    }
  }

  /** A blank between tokens is one of six characters, and a comment goes to the end of its line. */
  lemma FillerMeans(f: Filler)
    ensures IsFiller(f) <==>
              match f
              case Blank(c) => c as int in {9, 10, 11, 12, 13, 32}
              case Comment(body) => forall i :: 0 <= i < |body| ==> body[i] != '\n'
  {
  }

  // ---------------------------------------------------------------------------------- the numbers

  predicate AreDigits(s: string, digits: seq<nat>) {
    |s| == |digits| && forall i :: 0 <= i < |s| ==> digits[i] < 10 && s[i] == "0123456789"[digits[i]]
  }

  lemma {:induction false} TensAre(s: string, digits: seq<nat>)
    requires AreDigits(s, digits)
    ensures DecimalValue(s) == Tens(digits) && forall c :: c in s ==> IsDigit(c)
  {
    if s != "" {
      var n := |s| - 1;
      TensAre(s[..n], digits[..n]);
      assert s == s[..n] + [s[n]];
    }
  }

  function SignOf(t: string): int {
    if t != "" && t[0] == '-' then -1 else 1
  }

  /** A numeral behind `0x` is an integer in base sixteen. */
  lemma HexIsInteger(t: string, digits: string, values: seq<nat>)
    requires digits != "" && AreHexFor(digits, values)
    requires Magnitude(t) == "0x" + digits || Magnitude(t) == "0X" + digits
    ensures NumberOf(t) == Integer(SignOf(t) * Sixteens(values))
  {
    SixteensAre(digits, values);
    assert Magnitude(t)[2..] == digits;
  }

  /** What is left of a decimal without its last `f`. */
  function Unsuffixed(s: string): string {
    if s != "" && (s[|s| - 1] == 'f' || s[|s| - 1] == 'F') then s[..|s| - 1] else s
  }

  lemma DecimalNumber(t: string)
    requires Magnitude(t) != "" && !IsHexPrefixed(Magnitude(t))
    ensures NumberOf(t) == var body := Unsuffixed(Magnitude(t));
                           if AllOf(body, IsDigit) then Integer(SignOf(t) * DecimalValue(body))
                           else Float(Unsuffixed(t))
  {
    hide AllOf, DecimalValue;
    assert t[|t| - 1] == Magnitude(t)[|Magnitude(t)| - 1];
  }

  lemma SuffixDropped(digits: string, values: seq<nat>)
    requires digits != "" && AreDigits(digits, values)
    ensures Unsuffixed(digits) == digits && Unsuffixed(digits + "f") == digits && Unsuffixed(digits + "F") == digits
    ensures !IsHexPrefixed(digits) && !IsHexPrefixed(digits + "f") && !IsHexPrefixed(digits + "F")
  {
    TensAre(digits, values);
    assert digits[|digits| - 1] in digits && digits[0] in digits;
    assert |digits| > 1 ==> digits[1] in digits;
    assert (digits + "f")[..|digits|] == digits && (digits + "F")[..|digits|] == digits;
  }

  /** Digits alone, or in front of an `f`, are an integer in base ten. */
  lemma DigitsAreTens(t: string, digits: string, values: seq<nat>)
    requires digits != "" && AreDigits(digits, values)
    requires Magnitude(t) == digits || Magnitude(t) == digits + "f" || Magnitude(t) == digits + "F"
    ensures NumberOf(t) == Integer(SignOf(t) * Tens(values))
  {
    hide NumberOf, Unsuffixed, IsHexPrefixed, AreDigits;
    TensAre(digits, values);
    SuffixDropped(digits, values);
    DecimalNumber(t);
  }

  lemma AllOfMeans(s: string)
    ensures AllOf(s, IsDigit) <==> Some1(s, IsNumeric)
  {
    assert forall i :: 0 <= i < |s| ==> s[i] in s;
  }

  lemma DecimalIsNoHex(s: string)
    requires IsDecimal(s)
    ensures s != "" && !IsHexPrefixed(s)
  {
    hide IsTail;
    var whole, fraction, tail :| IsDecimalOf(s, whole, fraction, tail);
    if tail != "" {
      TailStart(tail);
    }
  }

  /** Every other number is kept as it is spelled, without its last `f`. */
  lemma OtherIsFloat(t: string)
    requires IsNumber(t) && !IsHexNumeral(Magnitude(t))
    requires forall digits ::
               Magnitude(t) == digits || Magnitude(t) == digits + "f" || Magnitude(t) == digits + "F" ==>
                 !Some1(digits, IsNumeric)
    ensures NumberOf(t) == Float(if t[|t| - 1] == 'f' || t[|t| - 1] == 'F' then t[..|t| - 1] else t)
  {
    hide NumberOf, IsHexPrefixed, IsDecimal;
    var m := Magnitude(t);
    DecimalIsNoHex(m);
    DecimalNumber(t);
    var body := Unsuffixed(m);
    assert m == body || m == body + "f" || m == body + "F";
    AllOfMeans(body);
  }
}
