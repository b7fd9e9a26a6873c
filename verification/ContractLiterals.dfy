/**
 Literals, the runs of their parts, and the fingerprints of those that occur only in comments. Proved:
 `runs` yields exactly the stretches of a literal between part boundaries, a run of a run is a run,
 no name taken from the contract's code is ever a hit, and a fingerprinted value is found in every
 text that holds it, whatever literal it stands in and however it is capitalised.
 */
module ContractLiterals {
  import opened ContractSplit
  import opened Lists
  import opened Wrappers

  predicate IsWord(c: char) {
    'A' <= c <= 'Z' || 'a' <= c <= 'z' || '0' <= c <= '9' || c == '_'
  }

  predicate IsJoiner(c: char) {
    c == '-' || c == '.' || c == ':' || c == '/'
  }

  // ---------------------------------------------------------------------------- the literals

  /** The end of the run of word characters at `p`. */
  function WordEnd(t: string, p: nat): (e: nat)
    requires p <= |t|
    ensures p <= e <= |t|
    ensures forall k :: p <= k < e ==> IsWord(t[k])
    ensures e == |t| || !IsWord(t[e])
    decreases |t| - p
  {
    if p == |t| || !IsWord(t[p]) then p else WordEnd(t, p + 1)
  }

  /** The literal goes on at `e`: a joiner with a word character after it. */
  predicate GoesOn(t: string, e: nat) {
    e + 1 < |t| && IsJoiner(t[e]) && IsWord(t[e + 1])
  }

  /** The end of the literal that starts at `p`: runs of word characters joined by single joiners. */
  function LiteralEnd(t: string, p: nat): (e: nat)
    requires p < |t| && IsWord(t[p])
    ensures p < e <= |t|
    ensures forall k :: p <= k < e ==> IsWord(t[k]) || IsJoiner(t[k])
    ensures e == |t| || !IsWord(t[e])
    ensures !GoesOn(t, e)
    decreases |t| - p
  {
    var e := WordEnd(t, p);
    if GoesOn(t, e) then LiteralEnd(t, e + 1) else e
  }

  /** `findall`, from a position on. */
  function LiteralsFrom(t: string, p: nat): seq<string>
    requires p <= |t|
    decreases |t| - p
  {
    if p == |t| then []
    else if IsWord(t[p]) then [t[p..LiteralEnd(t, p)]] + LiteralsFrom(t, LiteralEnd(t, p))
    else LiteralsFrom(t, p + 1)
  }

  function FoldChar(c: char): char {
    if 'A' <= c <= 'Z' then c - 'A' + 'a' else c
  }

  function Fold(s: string): (r: string)
    ensures |r| == |s| && forall i :: 0 <= i < |s| ==> r[i] == FoldChar(s[i])
  {
    seq(|s|, i requires 0 <= i < |s| => FoldChar(s[i]))
  }

  /** Every literal of a text, case-folded. */
  function Literals(t: string): set<string> {
    set l | l in LiteralsFrom(t, 0) :: Fold(l)
  }

  // -------------------------------------------------------------------------------- the runs

  predicate StartsPart(l: string, i: nat) {
    i <= |l| && (i == 0 || IsJoiner(l[i - 1]))
  }

  predicate EndsPart(l: string, j: nat) {
    j <= |l| && (j == |l| || IsJoiner(l[j]))
  }

  /** The stretches of a literal from the start of a part to the end of one. */
  function Runs(l: string): set<string> {
    set i, j | 0 <= i <= j <= |l| && StartsPart(l, i) && EndsPart(l, j) :: l[i..j]
  }

  lemma RunAt(l: string, i: nat, j: nat)
    requires i <= j <= |l| && StartsPart(l, i) && EndsPart(l, j)
    ensures l[i..j] in Runs(l)
  {
  }

  lemma WholeIsRun(l: string)
    ensures l in Runs(l)
  {
    assert l[0..|l|] == l;
    RunAt(l, 0, |l|);
  }

  lemma RunWithin(l: string, i: nat, j: nat, m: nat, n: nat)
    requires i <= j <= |l| && StartsPart(l, i) && EndsPart(l, j)
    requires m <= n <= j - i && StartsPart(l[i..j], m) && EndsPart(l[i..j], n)
    ensures l[i..j][m..n] in Runs(l)
  {
    hide Runs;
    SliceOfSlice(l, i, j, m, n);
    RunAt(l, i + m, i + n);
  }

  /** A run of a run is a run. */
  lemma RunOfRun(l: string, r: string, q: string)
    requires r in Runs(l) && q in Runs(r)
    ensures q in Runs(l)
  {
    var i, j :| 0 <= i <= j <= |l| && StartsPart(l, i) && EndsPart(l, j) && r == l[i..j];
    var m, n :| 0 <= m <= n <= |r| && StartsPart(r, m) && EndsPart(r, n) && q == r[m..n];
    RunWithin(l, i, j, m, n);
  }

  /** Where the parts start when a literal is cut at its joiners. */
  function Starts(l: string): (r: seq<nat>)
    ensures r != [] && forall k :: 0 <= k < |r| ==> StartsPart(l, r[k])
    ensures forall i: nat :: StartsPart(l, i) ==> i in r
    ensures forall j, k :: 0 <= j < k < |r| ==> r[j] < r[k]
  {
    if l == "" then [0]
    else
      var n := |l| - 1;
      var before := Starts(l[..n]);
      assert forall i: nat :: i <= n ==> (StartsPart(l, i) <==> StartsPart(l[..n], i));
      if IsJoiner(l[n]) then before + [n + 1] else before
  }

  /** Each part ends where its joiner stands, the last one at the end. */
  function End(l: string, k: nat): (e: nat)
    requires k < |Starts(l)|
    ensures Starts(l)[k] <= e <= |l| && EndsPart(l, e)
    ensures k + 1 < |Starts(l)| ==> e < |l| && e + 1 == Starts(l)[k + 1]
  {
    assert StartsPart(l, Starts(l)[k]);
    if k + 1 < |Starts(l)| then
      assert Starts(l)[k] < Starts(l)[k + 1] && StartsPart(l, Starts(l)[k + 1]);
      Starts(l)[k + 1] - 1
    else |l|
  }

  lemma EndOfPart(l: string, j: nat) returns (k: nat)
    requires EndsPart(l, j)
    ensures k < |Starts(l)| && End(l, k) == j
  {
    var starts := Starts(l);
    if j == |l| {
      k := |starts| - 1;
    } else {
      assert StartsPart(l, j + 1);
      var m :| 0 <= m < |starts| && starts[m] == j + 1;
      assert StartsPart(l, 0) && 0 in starts;
      k := m - 1;
    }
  }

  /** Parts `f` to `g`, joined as written. */
  function Stretch(l: string, f: nat, g: nat): string
    requires f <= g < |Starts(l)|
  {
    assert Starts(l)[f] <= Starts(l)[g];
    l[Starts(l)[f]..End(l, g)]
  }

  /** `runs`: the two loops over the parts produce exactly the runs. */
  method RunsOf(literal: string) returns (found: set<string>)
    ensures found == Runs(literal)
  {
    hide Starts, End, Stretch;
    var parts := |Starts(literal)|;
    found := {};
    for first := 0 to parts
      invariant found == Rows(literal, first)
    {
      var text := Stretch(literal, first, first);
      ghost var before := found;
      found := found + {text};
      for last := first + 1 to parts
        invariant found == before + Row(literal, first, last)
        invariant text == Stretch(literal, first, last - 1)
      {
        LongerStretch(literal, first, last);
        text := text + [literal[End(literal, last - 1)]] + Stretch(literal, last, last);
        found := found + {text};
      }
    }
    AllRunsFound(literal);
  }

  lemma LongerStretch(l: string, first: nat, last: nat)
    requires first < last < |Starts(l)|
    ensures End(l, last - 1) < |l|
    ensures Stretch(l, first, last - 1) + [l[End(l, last - 1)]] + Stretch(l, last, last) == Stretch(l, first, last)
  {
    hide Starts, End;
    var e := End(l, last - 1);
    assert Starts(l)[last] == e + 1;
  }

  /** The runs that start with part `f` and end before part `upTo`. */
  ghost function Row(l: string, f: nat, upTo: nat): set<string>
    requires f <= upTo <= |Starts(l)|
  {
    if f == upTo then {} else Row(l, f, upTo - 1) + {Stretch(l, f, upTo - 1)}
  }

  ghost function Rows(l: string, upTo: nat): set<string>
    requires upTo <= |Starts(l)|
  {
    if upTo == 0 then {} else Rows(l, upTo - 1) + Row(l, upTo - 1, |Starts(l)|)
  }

  lemma {:induction false} RowMember(l: string, f: nat, upTo: nat, r: string)
    requires f <= upTo <= |Starts(l)|
    ensures r in Row(l, f, upTo) <==> exists g :: f <= g < upTo && r == Stretch(l, f, g)
  {
    hide Starts, Stretch;
    if f < upTo {
      RowMember(l, f, upTo - 1, r);
    }
  }

  lemma {:induction false} RowsMember(l: string, upTo: nat, r: string)
    requires upTo <= |Starts(l)|
    ensures r in Rows(l, upTo) <==> exists f, g :: 0 <= f < upTo && f <= g < |Starts(l)| && r == Stretch(l, f, g)
  {
    hide Starts, Stretch, Row;
    if upTo > 0 {
      RowsMember(l, upTo - 1, r);
      RowMember(l, upTo - 1, |Starts(l)|, r);
    }
  }

  lemma AllRunsFound(l: string)
    ensures Rows(l, |Starts(l)|) == Runs(l)
  {
    forall r
      ensures r in Rows(l, |Starts(l)|) <==> r in Runs(l)
    {
      RowsMember(l, |Starts(l)|, r);
      if r in Rows(l, |Starts(l)|) {
        StretchIsRun(l, r);
      }
      if r in Runs(l) {
        RunIsStretch(l, r);
      }
    }
  }

  lemma StretchIsRun(l: string, r: string)
    requires exists f, g :: 0 <= f < |Starts(l)| && f <= g < |Starts(l)| && r == Stretch(l, f, g)
    ensures r in Runs(l)
  {
    hide Starts, End, Runs;
    var f, g :| 0 <= f < |Starts(l)| && f <= g < |Starts(l)| && r == Stretch(l, f, g);
    RunAt(l, Starts(l)[f], End(l, g));
  }

  lemma PartsInOrder(l: string, f: nat, g: nat)
    requires f < |Starts(l)| && g < |Starts(l)| && Starts(l)[f] <= End(l, g)
    ensures f <= g
  {
  }

  lemma RunIsStretch(l: string, r: string)
    requires r in Runs(l)
    ensures exists f, g :: 0 <= f < |Starts(l)| && f <= g < |Starts(l)| && r == Stretch(l, f, g)
  {
    var i, j :| 0 <= i <= j <= |l| && StartsPart(l, i) && EndsPart(l, j) && r == l[i..j];
    hide Starts, End, Runs;
    var f :| 0 <= f < |Starts(l)| && Starts(l)[f] == i;
    var g := EndOfPart(l, j);
    PartsInOrder(l, f, g);
    assert r == Stretch(l, f, g);
  }

  // ------------------------------------------------------------------------ the fingerprints

  const MIN_LENGTH := 8

  predicate Distinctive(l: string) {
    |l| >= MIN_LENGTH && exists c :: c in l && '0' <= c <= '9'
  }

  /** Every run of every literal of the code halves, and every literal of the comments. */
  function InCode(halves: seq<(string, string)>): set<string> {
    if halves == [] then {}
    else InCode(halves[..|halves| - 1]) + set l, r | l in Literals(halves[|halves| - 1].0) && r in Runs(l) :: r
  }

  function InComments(halves: seq<(string, string)>): set<string> {
    if halves == [] then {} else InComments(halves[..|halves| - 1]) + Literals(halves[|halves| - 1].1)
  }

  function DistinctiveAmong(literals: set<string>): set<string> {
    set l | l in literals && Distinctive(l)
  }

  function CommentOnly(halves: seq<(string, string)>): set<string> {
    DistinctiveAmong(InComments(halves) - InCode(halves))
  }

  /** The distinctive runs of some literals that are no run of the code. */
  function RunsOutside(literals: set<string>, inCode: set<string>): set<string> {
    set l, r | l in literals && r in Runs(l) && r !in inCode && Distinctive(r) :: r
  }

  /** `fingerprinted`. */
  function Fingerprinted(halves: seq<(string, string)>): set<string> {
    RunsOutside(CommentOnly(halves), InCode(halves))
  }

  /** The comments of one source, joined by line feeds. */
  function JoinComments(comments: seq<string>): string {
    if comments == [] then ""
    else if |comments| == 1 then comments[0]
    else comments[0] + "\n" + JoinComments(comments[1..])
  }

  /** The code and the comments of every source, unless some source cannot be told apart. */
  function AllHalves(sources: seq<string>): Option<seq<(string, string)>> {
    if sources == [] then Some([])
    else
      match (AllHalves(sources[..|sources| - 1]), Halves(sources[|sources| - 1]))
      case (Some(before), Some((code, comments))) => Some(before + [(code, JoinComments(comments))])
      case _ => None
  }

  /** The fingerprinting of a list of sources. */
  method Fingerprint(sources: seq<string>) returns (r: Option<set<string>>)
    ensures AllHalves(sources).None? ==> r.None?
    ensures AllHalves(sources).Some? ==> r == Some(Fingerprinted(AllHalves(sources).value))
  {
    hide Literals, Runs, Halves;
    ghost var halves: seq<(string, string)> := [];
    var inCode, inComments: set<string> := {}, {};
    for i := 0 to |sources|
      invariant AllHalves(sources[..i]) == Some(halves)
      invariant inCode == InCode(halves) && inComments == InComments(halves)
    {
      assert sources[..i + 1][..i] == sources[..i];
      var split := Split(sources[i]);
      if split.None? {
        NoHalves(sources, i);
        return None;
      }
      var (code, comments) := split.value;
      inCode := inCode + set l, x | l in Literals(code) && x in Runs(l) :: x;
      inComments := inComments + Literals(JoinComments(comments));
      assert (halves + [(code, JoinComments(comments))])[..|halves|] == halves;
      halves := halves + [(code, JoinComments(comments))];
    }
    assert sources[..|sources|] == sources;
    r := Some(RunsOutside(DistinctiveAmong(inComments - inCode), inCode));
  }

  lemma {:induction false} NoHalves(sources: seq<string>, i: nat)
    requires i < |sources| && Halves(sources[i]).None?
    ensures AllHalves(sources).None?
  {
    if i < |sources| - 1 {
      NoHalves(sources[..|sources| - 1], i);
    }
  }

  /** The stored digests; the digest is a parameter. */
  function Digests<D>(halves: seq<(string, string)>, digest: string -> D): set<D> {
    set f | f in Fingerprinted(halves) :: digest(f)
  }

  /** What a file is reported for. */
  function Matches<D(==)>(t: string, digests: set<D>, digest: string -> D): set<string> {
    set l, r | l in Literals(t) && r in Runs(l) && Distinctive(r) && digest(r) in digests :: r
  }

  ghost predicate Injective<D(!new)>(digest: string -> D) {
    forall a, b :: digest(a) == digest(b) ==> a == b
  }

  /** A text all of whose literals are names of the code, or runs of their parts, is never a hit. */
  lemma NameFromCodeNeverHits<D(!new)>(halves: seq<(string, string)>, t: string, digest: string -> D)
    requires Injective(digest)
    requires forall l :: l in Literals(t) ==> l in InCode(halves)
    ensures Matches(t, Digests(halves, digest), digest) == {}
  {
    hide InCode, Runs, Literals, Fingerprinted;
    var hits := Matches(t, Digests(halves, digest), digest);
    assert hits <= InCode(halves) by {
      forall r | r in hits
        ensures r in InCode(halves)
      {
        var l :| l in Literals(t) && r in Runs(l);
        RunInCode(halves, l, r);
      }
    }
    HitsAreFingerprinted(halves, t, digest);
  }

  lemma {:induction false} RunInCode(halves: seq<(string, string)>, l: string, r: string)
    requires l in InCode(halves) && r in Runs(l)
    ensures r in InCode(halves)
  {
    hide Runs, Literals;
    var n := |halves| - 1;
    if l in InCode(halves[..n]) {
      RunInCode(halves[..n], l, r);
    } else {
      var name :| name in Literals(halves[n].0) && l in Runs(name);
      RunOfRun(name, l, r);
    }
  }

  /** In particular the code half of any of the sources. */
  lemma CodeHalfNeverHits<D(!new)>(halves: seq<(string, string)>, i: nat, digest: string -> D)
    requires Injective(digest) && i < |halves|
    ensures Matches(halves[i].0, Digests(halves, digest), digest) == {}
  {
    forall l | l in Literals(halves[i].0)
      ensures l in InCode(halves)
    {
      LiteralInCode(halves, i, l);
    }
    NameFromCodeNeverHits(halves, halves[i].0, digest);
  }

  lemma {:induction false} LiteralInCode(halves: seq<(string, string)>, i: nat, l: string)
    requires i < |halves| && l in Literals(halves[i].0)
    ensures l in InCode(halves)
  {
    hide Runs, Literals;
    var n := |halves| - 1;
    if i < n {
      LiteralInCode(halves[..n], i, l);
    } else {
      WholeIsRun(l);
    }
  }

  /** What is reported is always a fingerprinted value: part of a comment's literal and of no code. */
  lemma HitsAreFingerprinted<D(!new)>(halves: seq<(string, string)>, t: string, digest: string -> D)
    requires Injective(digest)
    ensures Matches(t, Digests(halves, digest), digest) <= Fingerprinted(halves)
    ensures Fingerprinted(halves) !! InCode(halves)
  {
    forall r | r in Matches(t, Digests(halves, digest), digest)
      ensures r in Fingerprinted(halves)
    {
      var f :| f in Fingerprinted(halves) && digest(f) == digest(r);
    }
  }

  // --------------------------------------------------------- a copy is found wherever it stands

  predicate WordOrJoint(f: string, k: nat)
    requires k < |f|
  {
    IsWord(f[k]) || (IsJoiner(f[k]) && k + 1 < |f| && IsWord(f[k + 1]))
  }

  /** The shape of a literal: word characters, with single joiners between them. */
  predicate IsLiteral(f: string) {
    && f != "" && IsWord(f[0]) && IsWord(f[|f| - 1])
    && forall k :: 0 <= k < |f| ==> WordOrJoint(f, k)
  }

  /** `f` stands in the text at `i`, in any capitalisation, with no word character at either side. */
  predicate StandsAt(t: string, i: nat, f: string) {
    && i + |f| <= |t|
    && Fold(t[i..i + |f|]) == f
    && (i == 0 || !IsWord(t[i - 1]))
    && (i + |f| == |t| || !IsWord(t[i + |f|]))
  }

  /** The literal that holds a value standing in a text has the value as a run. */
  lemma {:induction false} HeldByLiteral(t: string, p: nat, i: nat, j: nat) returns (l: string)
    requires p <= i < j <= |t| && IsLiteral(t[i..j])
    requires i == 0 || i == p || !IsWord(t[i - 1])
    requires j == |t| || !IsWord(t[j])
    ensures l in LiteralsFrom(t, p) && t[i..j] in Runs(l)
    decreases |t| - p
  {
    hide Runs, LiteralEnd;
    assert t[i..j][0] == t[i];
    if !IsWord(t[p]) {
      l := HeldByLiteral(t, p + 1, i, j);
    } else {
      var e := LiteralEnd(t, p);
      if e <= i {
        l := HeldByLiteral(t, e, i, j);
      } else {
        l := t[p..e];
        if e < j {
          LiteralGoesOn(t, i, j, e);
        }
        RunInside(t, p, e, i, j);
      }
    }
  }

  lemma RunInside(t: string, p: nat, e: nat, i: nat, j: nat)
    requires p <= i < j <= e <= |t|
    requires i == p || IsJoiner(t[i - 1])
    requires j == e || IsJoiner(t[j])
    ensures t[i..j] in Runs(t[p..e])
  {
    hide Runs;
    SliceOfSlice(t, p, e, i - p, j - p);
    RunAt(t[p..e], i - p, j - p);
  }

  /** Inside something of a literal's shape, what is not a word character joins two of them. */
  lemma LiteralGoesOn(t: string, i: nat, j: nat, e: nat)
    requires i < e < j <= |t| && IsLiteral(t[i..j]) && !IsWord(t[e])
    ensures GoesOn(t, e)
  {
    var f := t[i..j];
    assert f[e - i] == t[e];
    assert WordOrJoint(f, e - i);
    assert f[e - i + 1] == t[e + 1];
  }

  lemma FoldKeepsClasses(c: char)
    ensures IsWord(FoldChar(c)) == IsWord(c) && IsJoiner(FoldChar(c)) == IsJoiner(c)
  {
  }

  lemma FoldedRun(l: string, r: string)
    requires r in Runs(l)
    ensures Fold(r) in Runs(Fold(l))
  {
    var i, j :| 0 <= i <= j <= |l| && StartsPart(l, i) && EndsPart(l, j) && r == l[i..j];
    assert Fold(r) == Fold(l)[i..j];
    if i > 0 {
      FoldKeepsClasses(l[i - 1]);
    }
    if j < |l| {
      FoldKeepsClasses(l[j]);
    }
    RunAt(Fold(l), i, j);
  }

  /** Folding keeps the shape of a literal, both ways. */
  lemma FoldedLiteral(s: string)
    ensures IsLiteral(Fold(s)) <==> IsLiteral(s)
  {
    var r := Fold(s);
    forall k | 0 <= k < |s|
      ensures IsWord(r[k]) == IsWord(s[k]) && IsJoiner(r[k]) == IsJoiner(s[k])
    {
      FoldKeepsClasses(s[k]);
    }
    forall k | 0 <= k < |s|
      ensures WordOrJoint(s, k) <==> WordOrJoint(r, k)
    {
    }
  }

  /** What the pattern matches has the shape of a literal. */
  lemma {:induction false} MatchIsLiteral(t: string, p: nat)
    requires p < |t| && IsWord(t[p])
    ensures IsLiteral(t[p..LiteralEnd(t, p)])
    decreases |t| - p
  {
    hide WordEnd, IsLiteral;
    var e := WordEnd(t, p);
    assert p < e;
    var l := t[p..LiteralEnd(t, p)];
    if GoesOn(t, e) {
      MatchIsLiteral(t, e + 1);
      var rest := t[e + 1..LiteralEnd(t, e + 1)];
      assert l == t[p..e] + [t[e]] + rest;
      LiteralJoins(t[p..e], t[e], rest);
    } else {
      assert forall k :: 0 <= k < |l| ==> l[k] == t[p + k];
      WordsAreLiteral(l);
    }
  }

  lemma WordsAreLiteral(words: string)
    requires words != "" && forall k :: 0 <= k < |words| ==> IsWord(words[k])
    ensures IsLiteral(words)
  {
  }

  lemma LiteralJoins(words: string, joiner: char, rest: string)
    requires words != "" && (forall k :: 0 <= k < |words| ==> IsWord(words[k])) && IsJoiner(joiner) && IsLiteral(rest)
    ensures IsLiteral(words + [joiner] + rest)
  {
    var l := words + [joiner] + rest;
    forall k | 0 <= k < |l|
      ensures WordOrJoint(l, k)
    {
      if k > |words| {
        assert WordOrJoint(rest, k - |words| - 1);
      }
    }
  }

  lemma {:induction false} FoundAreLiterals(t: string, p: nat)
    requires p <= |t|
    ensures forall l :: l in LiteralsFrom(t, p) ==> IsLiteral(l)
    decreases |t| - p
  {
    hide LiteralEnd, IsLiteral;
    if p < |t| {
      if IsWord(t[p]) {
        MatchIsLiteral(t, p);
        FoundAreLiterals(t, LiteralEnd(t, p));
      } else {
        FoundAreLiterals(t, p + 1);
      }
    }
  }

  lemma LiteralsAreLiterals(t: string)
    ensures forall l :: l in Literals(t) ==> IsLiteral(l)
  {
    hide IsLiteral, LiteralsFrom, Fold;
    FoundAreLiterals(t, 0);
    forall l | l in LiteralsFrom(t, 0)
      ensures IsLiteral(Fold(l))
    {
      FoldedLiteral(l);
    }
  }

  /** A run of a literal is a literal, unless it is empty. */
  lemma RunIsLiteral(l: string, r: string)
    requires IsLiteral(l) && r in Runs(l) && r != ""
    ensures IsLiteral(r)
  {
    var i, j :| 0 <= i <= j <= |l| && StartsPart(l, i) && EndsPart(l, j) && r == l[i..j];
    if i > 0 {
      assert WordOrJoint(l, i - 1);
    }
    assert WordOrJoint(l, j - 1);
    forall k | 0 <= k < |r|
      ensures WordOrJoint(r, k)
    {
      assert WordOrJoint(l, i + k);
    }
  }

  lemma {:induction false} CommentLiterals(halves: seq<(string, string)>)
    ensures forall l :: l in InComments(halves) ==> IsLiteral(l)
  {
    hide IsLiteral, Literals;
    if halves != [] {
      CommentLiterals(halves[..|halves| - 1]);
      LiteralsAreLiterals(halves[|halves| - 1].1);
    }
  }

  /** Every fingerprinted value has the shape of a literal. */
  lemma FingerprintedIsLiteral(halves: seq<(string, string)>, f: string)
    requires f in Fingerprinted(halves)
    ensures IsLiteral(f)
  {
    hide IsLiteral, Runs, InComments, InCode;
    var l :| l in CommentOnly(halves) && f in Runs(l) && Distinctive(f);
    CommentLiterals(halves);
    RunIsLiteral(l, f);
  }

  /** A fingerprinted value is reported in every text it stands in: alone, behind a prefix, as a part
      of a longer literal, in any capitalisation. */
  lemma CopyIsFound<D(!new)>(halves: seq<(string, string)>, f: string, t: string, i: nat, digest: string -> D)
    requires f in Fingerprinted(halves) && StandsAt(t, i, f)
    ensures f in Matches(t, Digests(halves, digest), digest)
  {
    hide Runs, LiteralsFrom, IsLiteral;
    var j := i + |f|;
    FingerprintedIsLiteral(halves, f);
    NotEmpty(f);
    FoldedLiteral(t[i..j]);
    var l := HeldByLiteral(t, 0, i, j);
    FoldedRun(l, t[i..j]);
    assert Fold(l) in Literals(t);
    assert digest(f) in Digests(halves, digest);
  }

  lemma NotEmpty(f: string)
    requires IsLiteral(f)
    ensures |f| > 0
  {
  }
}
