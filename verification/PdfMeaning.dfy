/**
 What is counted over the pages, said of the characters: the normal text is the characters that are no blank,
 with one space wherever blanks stood between two of them (`NormalMeans`); each match is where and what it says
 it is (`LocatedMeans`), and the tally has each page beside its own matches (`TallyMeans`).
 */
module PdfMeaning {
  import opened Lists
  import opened PdfText

  /** Space, tab, line feed, vertical tab, form feed, carriage return, and the four separators. */
  predicate IsBlank(c: char) {
    c as int in {9, 10, 11, 12, 13, 28, 29, 30, 31, 32}
  }

  lemma BlankIs(c: char)
    ensures IsBlank(c) <==> IsSpace(c)
  {
  }

  /** The characters at some places, with a space between two that did not stand next to each other. */
  function Spaced(s: string, ks: seq<nat>): string
    requires forall i :: 0 <= i < |ks| ==> ks[i] < |s|
    decreases |ks|
  {
    if ks == [] then ""
    else [s[ks[0]]] + ((if |ks| > 1 && ks[1] != ks[0] + 1 then " " else "") + Spaced(s, ks[1..]))
  }

  /** The places from `from` on that hold no blank, in order. */
  predicate AreInked(s: string, from: nat, ks: seq<nat>) {
    && (forall i :: 0 <= i < |ks| ==> from <= ks[i] < |s|)
    && (forall i, j :: 0 <= i < j < |ks| ==> ks[i] < ks[j])
    && forall k: nat :: from <= k < |s| ==> (!IsBlank(s[k]) <==> k in ks)
  }

  lemma InkedNext(s: string, from: nat, ks: seq<nat>)
    requires from < |s| && AreInked(s, from + 1, ks)
    ensures AreInked(s, from, if IsBlank(s[from]) then ks else [from] + ks)
  {
    if !IsBlank(s[from]) {
      assert forall k :: k in [from] + ks <==> k == from || k in ks;
    }
  }

  lemma {:induction false} SqueezeIs(s: string, from: nat, gap: bool) returns (ks: seq<nat>)
    requires from <= |s|
    ensures AreInked(s, from, ks)
    ensures Squeeze(s[from..], gap) == (if ks != [] && (gap || ks[0] != from) then " " else "") + Spaced(s, ks)
    decreases |s| - from
  {
    hide AreInked;
    if from == |s| {
      ks := [];
      NothingInked(s);
    } else {
      var rest := SqueezeIs(s, from + 1, gap || IsBlank(s[from]));
      assert s[from..][1..] == s[from + 1..];
      BlankIs(s[from]);
      if IsBlank(s[from]) {
        ks := rest;
        InkedFrom(s, from + 1, ks);
      } else {
        var after := SqueezeIs(s, from + 1, false);
        ks := [from] + after;
        assert ks[1..] == after;
        InkedFrom(s, from + 1, after);
      }
      InkedNext(s, from, if IsBlank(s[from]) then ks else ks[1..]);
    }
  }

  lemma NothingInked(s: string)
    ensures AreInked(s, |s|, [])
  {
  }

  lemma InkedFrom(s: string, from: nat, ks: seq<nat>)
    requires AreInked(s, from, ks)
    ensures forall i :: 0 <= i < |ks| ==> from <= ks[i] < |s|
  {
  }

  /** The normal text of a string. */
  lemma NormalMeans(s: string) returns (ks: seq<nat>)
    ensures AreInked(s, 0, ks) && Normal(s) == Spaced(s, ks)
  {
    hide AreInked;
    ks := SqueezeIs(s, 0, true);
    assert s[0..] == s;
    InkedFrom(s, 0, ks);
    NormalIsSqueeze(s);
    GapFirst(s);
    if ks != [] {
      assert Squeeze(s, true)[1..] == Spaced(s, ks);
      assert StripLeft(s) != "";
      assert (" " + Squeeze(StripLeft(s), false))[1..] == Squeeze(StripLeft(s), false);
    }
  }

  /** The space in front of a page's own text belongs to the page before it. */
  lemma {:induction false} GapOwned(pages: seq<string>, p: nat)
    requires 1 <= p <= |pages| && Normal(pages[p - 1]) != "" && Start(pages, p) > 0
    ensures var (text, owner) := Mapped(pages);
            Start(pages, p) <= |text| && text[Start(pages, p) - 1] == ' ' && owner[Start(pages, p) - 1] == p - 1
  {
    hide Normal;
    var n := |pages| - 1;
    if p < |pages| {
      StartOfPrefix(pages, p, n);
      GapOwned(pages[..n], p);
      MappedGrows(pages);
    }
  }

  /** Each match stands where it says, on the page it says, and is the needle. */
  lemma LocatedMeans(pages: seq<string>, needle: string, k: nat)
    requires Normal(needle) != "" && k < |Located(pages, needle)|
    ensures var m, n := Located(pages, needle)[k], Normal(needle);
            && m.text == n
            && |Located(pages, needle)| == |Occurrences(Normal(Join(pages)), 0, n)|
            && m.start == Occurrences(Normal(Join(pages)), 0, n)[k]
            && OnPage(pages, m.page, m.start)
            && (m.spansPages <==> !OnPage(pages, m.page, m.start + |n| - 1))
  {
    hide Normal, Mapped, Occurrences, OnPage, Join;
    var n, text := Normal(needle), Mapped(pages).0;
    MappedIsNormalized(pages);
    var starts := Occurrences(text, 0, n);
    assert OccursAt(text, starts[k], n);
    MatchAttribution(pages, needle, starts[k]);
  }

  /** The matches on a page. */
  function MatchesOn(found: seq<Match>, page: nat): set<nat> {
    set i: nat | i < |found| && found[i].page == page
  }

  lemma {:induction false} HitsAre(found: seq<Match>, page: nat)
    ensures HitsOn(found, page) == |MatchesOn(found, page)|
  {
    if found == [] {
      assert MatchesOn([], page) == {};
    } else {
      var n := |found| - 1;
      HitsAre(found[..n], page);
      var before := MatchesOn(found[..n], page);
      assert n !in before;
      assert MatchesOn(found, page) == if found[n].page == page then before + {n} else before;
    }
  }

  lemma {:induction false} TallyIs(found: seq<Match>, limit: nat)
    ensures var tally := Tally(found, limit);
            && (forall p: nat, h: nat :: (p, h) in tally <==> p < limit && h == HitsOn(found, p) > 0)
            && forall i, j :: 0 <= i < j < |tally| ==> tally[i].0 < tally[j].0
  {
    hide HitsOn;
    if limit > 0 {
      TallyIs(found, limit - 1);
      var before := Tally(found, limit - 1);
      assert forall p: nat, h: nat :: (p, h) in Tally(found, limit) <==>
        (p, h) in before || (p == limit - 1 && h == HitsOn(found, p) > 0);
      forall i | 0 <= i < |before|
        ensures before[i].0 < limit - 1
      {
        assert (before[i].0, before[i].1) in before;
      }
    }
  }

  /** A page is in the tally with a number exactly when that is how many matches it has, and it has some; pages
      come in order. */
  lemma TallyMeans(pages: seq<string>, needle: string)
    requires Normal(needle) != ""
    ensures var found := Located(pages, needle);
            var tally := Tally(found, |pages| + 1);
            && (forall p: nat, h: nat :: (p, h) in tally <==> h > 0 && h == |MatchesOn(found, p)|)
            && forall i, j :: 0 <= i < j < |tally| ==> tally[i].0 < tally[j].0
  {
    hide Normal, Located, Tally, HitsOn;
    var found := Located(pages, needle);
    TallyIs(found, |pages| + 1);
    PagesNamed(pages, needle);
    forall p: nat
      ensures HitsOn(found, p) == |MatchesOn(found, p)|
      ensures HitsOn(found, p) > 0 ==> p < |pages| + 1
    {
      HitsAre(found, p);
      if |MatchesOn(found, p)| > 0 {
        var i :| i in MatchesOn(found, p);
        assert found[i] in found;
      }
    }
  }
}
