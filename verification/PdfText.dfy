/**
 Normalised text over pages, and the index that says which page each character came from. The index
 is built page by page; its text must be the text `normalized` gives for the joined pages
 (`MappedIsNormalized`), and every match must be attributed to the page its first character stands
 on (`MatchAttribution`).
 */
module PdfText {
  import opened Lists

  predicate IsSpace(c: char) {
    c == ' ' || 9 as char <= c <= 13 as char || 28 as char <= c <= 31 as char
  }

  // ---------------------------------------------------------------------------- normalising

  /** `lstrip()`. */
  function StripLeft(s: string): (r: string)
    ensures r != "" ==> !IsSpace(r[0])
    ensures |r| <= |s|
  {
    if s != "" && IsSpace(s[0]) then StripLeft(s[1..]) else s
  }

  /** `rstrip()`. */
  function StripRight(s: string): (r: string)
    ensures r != "" ==> !IsSpace(r[|r| - 1])
  {
    if s != "" && IsSpace(s[|s| - 1]) then StripRight(s[..|s| - 1]) else s
  }

  /** `sub(r"\s+", " ")`. */
  function Collapse(s: string): string
    decreases |s|
  {
    if s == "" then ""
    else if IsSpace(s[0]) then " " + Collapse(StripLeft(s))
    else [s[0]] + Collapse(s[1..])
  }

  /** `normalized` on text that is already one string. */
  function Normal(s: string): string {
    StripLeft(StripRight(Collapse(s)))
  }

  function Join(pages: seq<string>): string {
    if pages == [] then ""
    else if |pages| == 1 then pages[0]
    else Join(pages[..|pages| - 1]) + " " + pages[|pages| - 1]
  }

  /** The same text in one pass: a run of blanks becomes one space when something follows it. */
  function Squeeze(s: string, gap: bool): string {
    if s == "" then ""
    else if IsSpace(s[0]) then Squeeze(s[1..], true)
    else (if gap then " " else "") + ([s[0]] + Squeeze(s[1..], false))
  }

  lemma {:induction false} GapFirst(s: string)
    ensures Squeeze(s, true) == if StripLeft(s) == "" then "" else " " + Squeeze(StripLeft(s), false)
  {
    if s != "" {
      if IsSpace(s[0]) {
        GapFirst(s[1..]);
      } else {
        assert "" + ([s[0]] + Squeeze(s[1..], false)) == [s[0]] + Squeeze(s[1..], false);
      }
    }
  }

  lemma {:induction false} StripRightOfConcat(a: string, b: string)
    ensures StripRight(a + b) == if StripRight(b) == "" then StripRight(a) else a + StripRight(b)
    decreases |b|
  {
    if b == "" {
      assert a + b == a;
    } else {
      var n := |b| - 1;
      assert (a + b)[..|a| + n] == a + b[..n];
      if IsSpace(b[n]) {
        StripRightOfConcat(a, b[..n]);
      }
    }
  }

  lemma {:induction false} CollapseIsSqueeze(s: string)
    ensures StripRight(Collapse(s)) == Squeeze(s, false)
    decreases |s|
  {
    if s != "" {
      if IsSpace(s[0]) {
        var rest := StripLeft(s);
        CollapseIsSqueeze(rest);
        StripRightOfConcat(" ", Collapse(rest));
        GapFirst(s[1..]);
        assert StripRight(" ") == "";
        if rest != "" {
          assert Squeeze(rest, false) == "" + ([rest[0]] + Squeeze(rest[1..], false));
        }
      } else {
        CollapseIsSqueeze(s[1..]);
        StripRightOfConcat([s[0]], Collapse(s[1..]));
        assert StripRight([s[0]]) == [s[0]];
        assert Squeeze(s, false) == [s[0]] + Squeeze(s[1..], false);
      }
    }
  }

  /** Normalising is squeezing what is left after the leading blanks. */
  lemma NormalIsSqueeze(s: string)
    ensures Normal(s) == Squeeze(StripLeft(s), false)
  {
    CollapseIsSqueeze(s);
    var rest := StripLeft(s);
    if s == rest {
      SqueezeStart(s);
    } else {
      GapFirst(s);
      GapSame(s);
      SqueezeStart(rest);
      if rest != "" {
        assert (" " + Squeeze(rest, false))[1..] == Squeeze(rest, false);
      }
    }
  }

  lemma GapSame(s: string)
    requires s != "" && IsSpace(s[0])
    ensures Squeeze(s, false) == Squeeze(s, true)
  {
  }

  lemma SqueezeStart(s: string)
    requires s == "" || !IsSpace(s[0])
    ensures s != "" ==> Squeeze(s, false) != "" && Squeeze(s, false)[0] == s[0]
    ensures StripLeft(Squeeze(s, false)) == Squeeze(s, false)
  {
  }

  lemma {:induction false} SqueezeOfJoin(a: string, b: string, gap: bool)
    ensures Squeeze(a + " " + b, gap) == Squeeze(a, gap) + Squeeze(b, true)
  {
    var s := a + " " + b;
    if a == "" {
      assert s[1..] == b;
      assert "" + Squeeze(b, true) == Squeeze(b, true);
    } else {
      assert s[1..] == a[1..] + " " + b;
      SqueezeOfJoin(a[1..], b, IsSpace(a[0]));
      if IsSpace(a[0]) {
        assert Squeeze(s, gap) == Squeeze(a[1..] + " " + b, true);
      }
    }
  }

  lemma {:induction false} StripLeftOfJoin(a: string, b: string)
    ensures StripLeft(a + " " + b) == if StripLeft(a) == "" then StripLeft(b) else StripLeft(a) + " " + b
  {
    var s := a + " " + b;
    if a == "" {
      assert s[1..] == b;
    } else if IsSpace(a[0]) {
      assert s[1..] == a[1..] + " " + b;
      StripLeftOfJoin(a[1..], b);
    }
  }

  /** Normalising two texts joined by a space: the two normal texts, with a space if both are there. */
  lemma NormalOfJoin(a: string, b: string)
    ensures Normal(a + " " + b)
         == if Normal(a) == "" then Normal(b)
            else if Normal(b) == "" then Normal(a)
            else Normal(a) + " " + Normal(b)
  {
    NormalIsSqueeze(a);
    NormalIsSqueeze(b);
    NormalIsSqueeze(a + " " + b);
    StripLeftOfJoin(a, b);
    SqueezeStart(StripLeft(a));
    SqueezeStart(StripLeft(b));
    SqueezeOfJoin(StripLeft(a), b, false);
    GapFirst(b);
  }

  // ------------------------------------------------------------------------------- the index

  function Repeat(x: nat, n: nat): (r: seq<nat>)
    ensures |r| == n && forall i :: 0 <= i < n ==> r[i] == x
  {
    seq(n, _ => x)
  }

  /** The normalised text with the 1-based page of each character. */
  function Mapped(pages: seq<string>): (r: (string, seq<nat>))
    ensures |r.0| == |r.1|
  {
    if pages == [] then ("", [])
    else
      var number := |pages|;
      var (text, owner) := Mapped(pages[..number - 1]);
      var piece := Normal(pages[number - 1]);
      if piece == "" then (text, owner)
      else if text == "" then (piece, Repeat(number, |piece|))
      else (text + " " + piece, owner + [number - 1] + Repeat(number, |piece|))
  }

  /** `_offset_map`. */
  method OffsetMap(pages: seq<string>) returns (text: string, owner: seq<nat>)
    ensures (text, owner) == Mapped(pages)
  {
    hide Normal;
    text, owner := "", [];
    for i := 0 to |pages|
      invariant (text, owner) == Mapped(pages[..i])
    {
      assert pages[..i + 1][..i] == pages[..i];
      var piece := Normal(pages[i]);
      if piece == "" {
        continue;
      }
      if text == "" {
        assert "" + piece == piece && [] + Repeat(i + 1, |piece|) == Repeat(i + 1, |piece|);
        text, owner := piece, Repeat(i + 1, |piece|);
      } else {
        text, owner := text + " " + piece, owner + [i] + Repeat(i + 1, |piece|);
      }
    }
    assert pages[..|pages|] == pages;
  }

  /** The page-by-page text is the normalised text of the joined pages. */
  lemma {:induction false} MappedIsNormalized(pages: seq<string>)
    ensures Mapped(pages).0 == Normal(Join(pages))
  {
    hide Normal;
    var n := |pages| - 1;
    if pages == [] {
      NormalIsSqueeze("");
    } else if n == 0 {
      assert pages[..0] == [];
    } else {
      MappedIsNormalized(pages[..n]);
      NormalOfJoin(Join(pages[..n]), pages[n]);
    }
  }

  /** Where the own text of page `p` (1-based) begins in the whole. */
  function Start(pages: seq<string>, p: nat): nat
    requires 1 <= p <= |pages|
  {
    var before := Mapped(pages[..p - 1]).0;
    if before == "" then 0 else |before| + 1
  }

  predicate OnPage(pages: seq<string>, p: nat, k: nat) {
    1 <= p <= |pages| && Start(pages, p) <= k < Start(pages, p) + |Normal(pages[p - 1])|
  }

  lemma StartOfPrefix(pages: seq<string>, p: nat, n: nat)
    requires 1 <= p <= n <= |pages|
    ensures Start(pages[..n], p) == Start(pages, p)
  {
    assert pages[..n][..p - 1] == pages[..p - 1];
  }

  lemma LastPiece(pages: seq<string>)
    requires pages != [] && Normal(pages[|pages| - 1]) != ""
    ensures var (text, owner) := Mapped(pages);
            var start := Start(pages, |pages|);
            var piece := Normal(pages[|pages| - 1]);
            && |text| == start + |piece|
            && text[start..] == piece
            && forall k :: start <= k < |text| ==> owner[k] == |pages|
  {
    hide Normal;
  }

  /** The own text of a page stands in the whole, unbroken, and is owned by the page. */
  lemma {:induction false} PageOwned(pages: seq<string>, p: nat)
    requires 1 <= p <= |pages|
    ensures var (text, owner) := Mapped(pages);
            var start := Start(pages, p);
            var piece := Normal(pages[p - 1]);
            piece != "" ==>
              && start + |piece| <= |text|
              && text[start..start + |piece|] == piece
              && forall k :: start <= k < start + |piece| ==> owner[k] == p
  {
    hide Normal;
    var n := |pages| - 1;
    if Normal(pages[p - 1]) != "" {
      if p == |pages| {
        LastPiece(pages);
      } else {
        PageOwned(pages[..n], p);
        StartOfPrefix(pages, p, n);
        MappedGrows(pages);
      }
    }
  }

  lemma MappedGrows(pages: seq<string>)
    requires pages != []
    ensures var (text, owner) := Mapped(pages);
            var (text', owner') := Mapped(pages[..|pages| - 1]);
            && |text'| <= |text| && text[..|text'|] == text' && owner[..|text'|] == owner'
  {
    hide Normal;
    var (text', owner') := Mapped(pages[..|pages| - 1]);
    var piece := Normal(pages[|pages| - 1]);
    if piece == "" {
      assert text'[..|text'|] == text' && owner'[..|text'|] == owner';
    } else if text' != "" {
      assert (text' + " " + piece)[..|text'|] == text';
      assert (owner' + [|pages| - 1] + Repeat(|pages|, |piece|))[..|text'|] == owner';
    }
  }

  /** Every character that is not a blank is owned by the page whose own text it stands in. */
  lemma {:induction false} OwnerIsPage(pages: seq<string>, k: nat)
    requires k < |Mapped(pages).0| && Mapped(pages).0[k] != ' '
    ensures OnPage(pages, Mapped(pages).1[k], k)
  {
    hide Normal;
    var n := |pages| - 1;
    var (text, owner) := Mapped(pages);
    var (before, _) := Mapped(pages[..n]);
    MappedGrows(pages);
    if k < |before| {
      assert text[k] == before[k];
      OwnerIsPage(pages[..n], k);
      StartOfPrefix(pages, owner[k], n);
    } else {
      LastPiece(pages);
    }
  }

  predicate AreOwners(owner: seq<nat>, limit: nat) {
    && (forall k :: 0 <= k < |owner| ==> 1 <= owner[k] <= limit)
    && forall j, k :: 0 <= j < k < |owner| ==> owner[j] <= owner[k]
  }

  /** The owner list is as long as the text, names pages only, and never goes back. */
  lemma {:induction false} OwnersAscend(pages: seq<string>)
    ensures AreOwners(Mapped(pages).1, |pages|)
  {
    hide Normal, AreOwners;
    if pages == [] {
      NoOwners();
    } else {
      var n := |pages| - 1;
      assert n == 0 ==> pages[..n] == [];
      OwnersAscend(pages[..n]);
      OwnersGrow(Mapped(pages[..n]).1, n, |Normal(pages[n])|);
    }
  }

  lemma NoOwners()
    ensures AreOwners([], 0)
  {
  }

  lemma OwnersGrow(owner: seq<nat>, n: nat, count: nat)
    requires AreOwners(owner, n)
    ensures AreOwners(owner, n + 1)
    ensures AreOwners(Repeat(n + 1, count), n + 1)
    ensures n > 0 ==> AreOwners(owner + [n] + Repeat(n + 1, count), n + 1)
  {
  }

  // ------------------------------------------------------------------------------ the matches

  predicate OccursAt(text: string, i: nat, needle: string) {
    i + |needle| <= |text| && text[i..i + |needle|] == needle
  }

  /** The starts of the non-overlapping occurrences, from the left: `str.count` counts them and
      `finditer` yields them. */
  function Occurrences(text: string, from: nat, needle: string): (r: seq<nat>)
    requires needle != ""
    ensures forall k :: 0 <= k < |r| ==> from <= r[k] && OccursAt(text, r[k], needle)
    ensures forall j, k :: 0 <= j < k < |r| ==> r[j] + |needle| <= r[k]
    decreases if from < |text| then |text| - from else 0
  {
    if from + |needle| > |text| then []
    else if OccursAt(text, from, needle) then [from] + Occurrences(text, from + |needle|, needle)
    else Occurrences(text, from + 1, needle)
  }

  /** No occurrence is missed: each one starts inside one of those found. */
  lemma {:induction false} NoneMissed(text: string, from: nat, needle: string, i: nat) returns (k: nat)
    requires needle != "" && from <= i && OccursAt(text, i, needle)
    ensures k < |Occurrences(text, from, needle)|
    ensures Occurrences(text, from, needle)[k] <= i < Occurrences(text, from, needle)[k] + |needle|
    decreases if from < |text| then |text| - from else 0
  {
    hide OccursAt, Occurrences;
    OccurrencesNext(text, from, needle, i);
    if OccursAt(text, from, needle) {
      if i < from + |needle| {
        k := 0;
      } else {
        k := NoneMissed(text, from + |needle|, needle, i);
        k := k + 1;
      }
    } else {
      k := NoneMissed(text, from + 1, needle, i);
    }
  }

  lemma OccurrencesNext(text: string, from: nat, needle: string, i: nat)
    requires needle != "" && from <= i && OccursAt(text, i, needle)
    ensures from < |text|
    ensures Occurrences(text, from, needle) ==
              if OccursAt(text, from, needle) then [from] + Occurrences(text, from + |needle|, needle)
              else Occurrences(text, from + 1, needle)
    ensures !OccursAt(text, from, needle) ==> from < i
  {
  }

  /** `count` on a needle that is not blank. */
  function Count(pages: seq<string>, needle: string): nat
    requires Normal(needle) != ""
  {
    |Occurrences(Normal(Join(pages)), 0, Normal(needle))|
  }

  datatype Match = Match(page: nat, start: nat, text: string, spansPages: bool)

  function MatchAt(owner: seq<nat>, start: nat, needle: string): Match
    requires needle != ""
  {
    var last := start + |needle| - 1;
    var page := if start < |owner| then owner[start] else 0;
    var endPage := if last < |owner| then owner[last] else page;
    Match(page, start, needle, endPage != page)
  }

  function MatchesAt(owner: seq<nat>, starts: seq<nat>, needle: string): (r: seq<Match>)
    requires needle != ""
    ensures |r| == |starts| && forall k :: 0 <= k < |r| ==> r[k] == MatchAt(owner, starts[k], needle)
  {
    seq(|starts|, k requires 0 <= k < |starts| => MatchAt(owner, starts[k], needle))
  }

  function Located(pages: seq<string>, needle: string): seq<Match>
    requires Normal(needle) != ""
  {
    MatchesAt(Mapped(pages).1, Occurrences(Mapped(pages).0, 0, Normal(needle)), Normal(needle))
  }

  /** `locate` on a string: a match for each occurrence, with its page. */
  method Locate(pages: seq<string>, needle: string) returns (found: seq<Match>)
    requires Normal(needle) != ""
    ensures found == Located(pages, needle)
    ensures |found| == Count(pages, needle)
  {
    hide Normal, Occurrences, Mapped;
    var text, owner := OffsetMap(pages);
    MappedIsNormalized(pages);
    var n := Normal(needle);
    var starts := Occurrences(text, 0, n);
    found := [];
    for i := 0 to |starts|
      invariant found == MatchesAt(owner, starts[..i], n)
    {
      var first := starts[i];
      var last := first + |n| - 1;
      var page := if first < |owner| then owner[first] else 0;
      var endPage := if last < |owner| then owner[last] else page;
      found := found + [Match(page, first, n, endPage != page)];
    }
    assert starts[..|starts|] == starts;
  }

  /** A normalised needle begins and ends with something other than a blank. */
  lemma NormalEnds(s: string)
    requires Normal(s) != ""
    ensures !IsSpace(Normal(s)[0]) && !IsSpace(Normal(s)[|Normal(s)| - 1])
  {
    LeftKeepsEnd(StripRight(Collapse(s)));
  }

  lemma {:induction false} LeftKeepsEnd(s: string)
    ensures StripLeft(s) != "" ==> s != "" && StripLeft(s)[|StripLeft(s)| - 1] == s[|s| - 1]
  {
    if s != "" && IsSpace(s[0]) {
      LeftKeepsEnd(s[1..]);
    }
  }

  /** A match is attributed to the page in whose own text its first character stands, and it spans
      pages exactly when it does not lie in that page's own text as a whole. */
  lemma MatchAttribution(pages: seq<string>, needle: string, start: nat)
    requires Normal(needle) != "" && OccursAt(Mapped(pages).0, start, Normal(needle))
    ensures var m := MatchAt(Mapped(pages).1, start, Normal(needle));
            && OnPage(pages, m.page, start)
            && (!m.spansPages <==> OnPage(pages, m.page, start + |Normal(needle)| - 1))
            && (!m.spansPages <==> OccursAt(Normal(pages[m.page - 1]), start - Start(pages, m.page), Normal(needle)))
  {
    hide Normal, Mapped, OccursAt, Start;
    var n := Normal(needle);
    var (text, owner) := Mapped(pages);
    var last := start + |n| - 1;
    NormalEnds(needle);
    OccursEnds(text, start, n);
    OwnerIsPage(pages, start);
    OwnerIsPage(pages, last);
    PageOwned(pages, owner[start]);
    WithinPage(pages, owner[start], start, n);
  }

  lemma OccursEnds(text: string, start: nat, n: string)
    requires n != "" && OccursAt(text, start, n)
    ensures start + |n| <= |text| && text[start] == n[0] && text[start + |n| - 1] == n[|n| - 1]
  {
  }

  /** What starts in a page's own text lies in it as a whole when its last character does. */
  lemma WithinPage(pages: seq<string>, p: nat, start: nat, n: string)
    requires n != "" && OnPage(pages, p, start) && OccursAt(Mapped(pages).0, start, n)
    ensures OnPage(pages, p, start + |n| - 1) <==> OccursAt(Normal(pages[p - 1]), start - Start(pages, p), n)
  {
    hide Normal, Mapped;
    PageOwned(pages, p);
    var piece := Normal(pages[p - 1]);
    var s := Start(pages, p);
    var i := start - s;
    if i + |n| <= |piece| {
      var text := Mapped(pages).0;
      SliceOfSlice(text, s, s + |piece|, i, i + |n|);
    }
  }

  // ----------------------------------------------------------------------------- hits per page

  function HitsOn(found: seq<Match>, page: nat): nat {
    if found == [] then 0
    else HitsOn(found[..|found| - 1], page) + if found[|found| - 1].page == page then 1 else 0
  }

  /** The pages below `limit` with a hit, in order, with their numbers of hits. */
  function Tally(found: seq<Match>, limit: nat): seq<(nat, nat)> {
    if limit == 0 then []
    else Tally(found, limit - 1) + if HitsOn(found, limit - 1) == 0 then [] else [(limit - 1, HitsOn(found, limit - 1))]
  }

  function Total(tally: seq<(nat, nat)>): nat {
    if tally == [] then 0 else Total(tally[..|tally| - 1]) + tally[|tally| - 1].1
  }

  /** `per_page`. */
  method PerPage(pages: seq<string>, needle: string) returns (tally: seq<(nat, nat)>)
    requires Normal(needle) != ""
    ensures Total(tally) == Count(pages, needle)
    ensures tally == Tally(Located(pages, needle), |pages| + 1)
  {
    hide Normal, Occurrences, Mapped;
    var found := Locate(pages, needle);
    var hits: map<nat, nat> := map[];
    for i := 0 to |found|
      invariant forall p ::
                  (p in hits <==> HitsOn(found[..i], p) > 0) && (p in hits ==> hits[p] == HitsOn(found[..i], p))
    {
      var page := found[i].page;
      assert found[..i + 1][..i] == found[..i];
      hits := hits[page := (if page in hits then hits[page] else 0) + 1];
    }
    assert found[..|found|] == found;
    tally := [];
    for p := 0 to |pages| + 1
      invariant tally == Tally(found, p)
    {
      if p in hits {
        tally := tally + [(p, hits[p])];
      }
    }
    PagesNamed(pages, needle);
    TotalIsAll(found, |pages| + 1);
  }

  lemma PagesNamed(pages: seq<string>, needle: string)
    requires Normal(needle) != ""
    ensures forall m :: m in Located(pages, needle) ==> m.page < |pages| + 1
  {
    hide Normal, Occurrences, Mapped;
    OwnersAscend(pages);
    var owner := Mapped(pages).1;
    forall m | m in Located(pages, needle)
      ensures m.page < |pages| + 1
    {
      var k :| 0 <= k < |Located(pages, needle)| && Located(pages, needle)[k] == m;
    }
  }

  lemma {:induction false} TotalIsAll(found: seq<Match>, limit: nat)
    requires forall m :: m in found ==> m.page < limit
    ensures Total(Tally(found, limit)) == |found|
  {
    if found == [] {
      NoHits(limit);
    } else {
      var n := |found| - 1;
      assert found[n] in found && forall m :: m in found[..n] ==> m in found;
      TotalIsAll(found[..n], limit);
      OneMoreHit(found, limit);
    }
  }

  lemma {:induction false} NoHits(limit: nat)
    ensures Total(Tally([], limit)) == 0
  {
    if limit > 0 {
      NoHits(limit - 1);
      assert Tally([], limit - 1) + [] == Tally([], limit - 1);
    }
  }

  lemma TotalOfSnoc(tally: seq<(nat, nat)>, last: (nat, nat))
    ensures Total(tally + [last]) == Total(tally) + last.1
  {
    assert (tally + [last])[..|tally|] == tally;
  }

  lemma TotalStep(found: seq<Match>, limit: nat)
    requires limit > 0
    ensures Total(Tally(found, limit)) == Total(Tally(found, limit - 1)) + HitsOn(found, limit - 1)
  {
    if HitsOn(found, limit - 1) == 0 {
      assert Tally(found, limit - 1) + [] == Tally(found, limit - 1);
    } else {
      TotalOfSnoc(Tally(found, limit - 1), (limit - 1, HitsOn(found, limit - 1)));
    }
  }

  lemma {:induction false} OneMoreHit(found: seq<Match>, limit: nat)
    requires found != []
    ensures Total(Tally(found, limit))
         == Total(Tally(found[..|found| - 1], limit)) + if found[|found| - 1].page < limit then 1 else 0
  {
    if limit > 0 {
      OneMoreHit(found, limit - 1);
      TotalStep(found, limit);
      TotalStep(found[..|found| - 1], limit);
    }
  }
}
