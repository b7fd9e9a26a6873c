/** Facts about sequences: filtering and the multiset of what is left, and slices of slices. */
module Lists {

  function Filter<T(!new)>(s: seq<T>, p: T -> bool): (r: seq<T>)
    ensures forall x :: x in r <==> x in s && p(x)
  {
    if s == [] then []
    else
      var before := Filter(s[..|s| - 1], p);
      assert forall x :: x in s <==> x in s[..|s| - 1] || x == s[|s| - 1];
      if p(s[|s| - 1]) then before + [s[|s| - 1]] else before
  }

  lemma {:induction false} FilterCount<T(!new)>(s: seq<T>, p: T -> bool, x: T)
    ensures multiset(Filter(s, p))[x] == if p(x) then multiset(s)[x] else 0
  {
    if s != [] {
      var n := |s| - 1;
      FilterCount(s[..n], p, x);
      assert s == s[..n] + [s[n]];
    }
  }

  /** Filtering two permutations gives two permutations. */
  lemma FilterOfPermutation<T(!new)>(a: seq<T>, b: seq<T>, p: T -> bool)
    requires multiset(a) == multiset(b)
    ensures multiset(Filter(a, p)) == multiset(Filter(b, p))
  {
    forall x | x in multiset(Filter(a, p)) || x in multiset(Filter(b, p))
      ensures multiset(Filter(a, p))[x] == multiset(Filter(b, p))[x]
    {
      FilterCount(a, p, x);
      FilterCount(b, p, x);
    }
  }

  lemma PermutationMembers<T(!new)>(a: seq<T>, b: seq<T>)
    requires multiset(a) == multiset(b)
    ensures forall x :: x in a <==> x in b
    ensures |a| == |b|
  {
    forall x
      ensures x in a <==> x in b
    {
      assert x in a <==> x in multiset(a);
      assert x in b <==> x in multiset(b);
    }
    assert |multiset(a)| == |a| && |multiset(b)| == |b|;
  }

  lemma FilterOfNext<T(!new)>(s: seq<T>, x: T, p: T -> bool)
    ensures Filter(s + [x], p) == Filter(s, p) + if p(x) then [x] else []
  {
    assert (s + [x])[..|s|] == s;
  }

  lemma FilterOfEmpty<T(!new)>(p: T -> bool)
    ensures Filter([], p) == []
  {
  }

  lemma {:induction false} FilterOfConcat<T(!new)>(a: seq<T>, b: seq<T>, p: T -> bool)
    ensures Filter(a + b, p) == Filter(a, p) + Filter(b, p)
    decreases |b|
  {
    hide Filter;
    if b == [] {
      assert a + b == a;
      FilterOfEmpty(p);
    } else {
      var before, last := b[..|b| - 1], b[|b| - 1];
      FilterOfConcat(a, before, p);
      FilterOfNext(a + before, last, p);
      FilterOfNext(before, last, p);
      assert a + b == a + before + [last] && b == before + [last];
    }
  }

  lemma {:induction false} FilterTwice<T(!new)>(s: seq<T>, p: T -> bool, q: T -> bool, r: T -> bool)
    requires forall x :: r(x) <==> p(x) && q(x)
    ensures Filter(Filter(s, p), q) == Filter(s, r)
  {
    hide Filter;
    if s == [] {
      FilterOfEmpty(p);
      FilterOfEmpty(q);
      FilterOfEmpty(r);
    } else {
      var n := |s| - 1;
      FilterTwice(s[..n], p, q, r);
      assert s == s[..n] + [s[n]];
      FilterOfNext(s[..n], s[n], p);
      FilterOfNext(s[..n], s[n], r);
      FilterOfNext(Filter(s[..n], p), s[n], q);
      assert Filter(s[..n], p) + [] == Filter(s[..n], p);
    }
  }

  /** `picked` is what `s` holds at the ascending positions `ks`, and these are the positions where `p` holds. */
  ghost predicate PicksAt<T(!new)>(s: seq<T>, picked: seq<T>, ks: seq<nat>, p: T -> bool) {
    && |ks| == |picked|
    && (forall i, j :: 0 <= i < j < |ks| ==> ks[i] < ks[j])
    && (forall i :: 0 <= i < |ks| ==> ks[i] < |s| && picked[i] == s[ks[i]])
    && (forall k: nat :: k < |s| ==> (p(s[k]) <==> k in ks))
  }

  /** `picked` is what `p` holds of in `s`, in the order of `s`. */
  ghost predicate Picks<T(!new)>(s: seq<T>, picked: seq<T>, p: T -> bool) {
    exists ks :: PicksAt(s, picked, ks, p)
  }

  lemma {:induction false} FilterPicksAt<T(!new)>(s: seq<T>, p: T -> bool, q: T -> bool) returns (ks: seq<nat>)
    requires forall x :: x in s ==> p(x) == q(x)
    ensures PicksAt(s, Filter(s, p), ks, q)
  {
    hide PicksAt;
    if s == [] {
      ks := [];
      PicksNothing(q);
    } else {
      var n := |s| - 1;
      assert s[n] in s && forall x :: x in s[..n] ==> x in s;
      ks := FilterPicksAt(s[..n], p, q);
      PicksNext(s, Filter(s[..n], p), ks, q);
      ks := if p(s[n]) then ks + [n] else ks;
    }
  }

  lemma PicksNothing<T(!new)>(p: T -> bool)
    ensures PicksAt([], [], [], p)
  {
  }

  lemma PicksNext<T(!new)>(s: seq<T>, picked: seq<T>, ks: seq<nat>, p: T -> bool)
    requires s != [] && PicksAt(s[..|s| - 1], picked, ks, p)
    ensures var n := |s| - 1;
            PicksAt(s, if p(s[n]) then picked + [s[n]] else picked, if p(s[n]) then ks + [n] else ks, p)
  {
    var n := |s| - 1;
    assert forall k: nat :: k < n ==> s[..n][k] == s[k];
    if p(s[n]) {
      assert forall k :: k in ks + [n] <==> k in ks || k == n;
    }
  }

  lemma FilterPicks<T(!new)>(s: seq<T>, p: T -> bool, q: T -> bool)
    requires forall x :: x in s ==> p(x) == q(x)
    ensures Picks(s, Filter(s, p), q)
  {
    var ks := FilterPicksAt(s, p, q);
  }

  /** What is picked is fixed by what it is picked by. */
  lemma PicksAtOnce<T(!new)>(s: seq<T>, a: seq<T>, ks: seq<nat>, p: T -> bool, b: seq<T>, ms: seq<nat>, q: T -> bool)
    requires PicksAt(s, a, ks, p) && PicksAt(s, b, ms, q) && forall x :: p(x) == q(x)
    ensures a == b
  {
    AscendingOnce(ks, ms);
  }

  lemma {:induction false} AscendingOnce(a: seq<nat>, b: seq<nat>)
    requires forall i, j :: 0 <= i < j < |a| ==> a[i] < a[j]
    requires forall i, j :: 0 <= i < j < |b| ==> b[i] < b[j]
    requires forall k :: k in a <==> k in b
    ensures a == b
  {
    assert b != [] ==> b[0] in b;
    if a != [] {
      assert a[0] in b && b[0] in a && a[0] == b[0];
      assert a == [a[0]] + a[1..] && b == [b[0]] + b[1..];
      forall k
        ensures k in a[1..] <==> k in b[1..]
      {
        if k in a[1..] {
          assert k in a && a[0] < k;
        }
        if k in b[1..] {
          assert k in b && b[0] < k;
        }
      }
      AscendingOnce(a[1..], b[1..]);
    }
  }

  lemma PicksOnce<T(!new)>(s: seq<T>, a: seq<T>, p: T -> bool, b: seq<T>, q: T -> bool)
    requires Picks(s, a, p) && Picks(s, b, q) && forall x :: p(x) == q(x)
    ensures a == b
  {
    hide PicksAt;
    var ks :| PicksAt(s, a, ks, p);
    var ms :| PicksAt(s, b, ms, q);
    PicksAtOnce(s, a, ks, p, b, ms, q);
  }

  lemma SomeMember<T>(s: seq<T>)
    ensures s != [] ==> exists x :: x in s
  {
    if s != [] {
      assert s[0] in s;
    }
  }

  predicate Distinct<T(==)>(s: seq<T>) {
    forall i, j :: 0 <= i < j < |s| ==> s[i] != s[j]
  }

  lemma FilterDistinct<T(!new)>(s: seq<T>, p: T -> bool)
    requires Distinct(s)
    ensures Distinct(Filter(s, p))
  {
    hide Filter;
    var ks := FilterPicksAt(s, p, p);
  }

  lemma OnlyOne<T>(s: seq<T>, x: T)
    requires Distinct(s) && forall y :: y in s <==> y == x
    ensures s == [x]
  {
    assert |s| < 2 || s[0] != s[1];
    assert x in s && forall i :: 0 <= i < |s| ==> s[i] in s;
  }

  lemma {:induction false} FilterAll<T(!new)>(s: seq<T>, p: T -> bool)
    requires forall x :: x in s ==> p(x)
    ensures Filter(s, p) == s
  {
    if s != [] {
      assert s[|s| - 1] in s && forall x :: x in s[..|s| - 1] ==> x in s;
      FilterAll(s[..|s| - 1], p);
      assert s == s[..|s| - 1] + [s[|s| - 1]];
    }
  }

  lemma {:induction false} FilterNone<T(!new)>(s: seq<T>, p: T -> bool)
    requires forall x :: x in s ==> !p(x)
    ensures Filter(s, p) == []
  {
    if s != [] {
      assert s[|s| - 1] in s && forall x :: x in s[..|s| - 1] ==> x in s;
      FilterNone(s[..|s| - 1], p);
    }
  }

  /** What is left of a sequence without one place. */
  lemma WithoutOne<T>(s: seq<T>, i: nat)
    requires i < |s|
    ensures multiset(s[..i] + s[i + 1..]) == multiset(s) - multiset{s[i]}
    ensures multiset(s[..i] + s[i + 1..] + [s[i]]) == multiset(s)
  {
    assert s == s[..i] + [s[i]] + s[i + 1..];
  }

  lemma SliceOfSlice<T>(l: seq<T>, i: nat, j: nat, m: nat, n: nat)
    requires i <= j <= |l| && m <= n <= j - i
    ensures l[i..j][m..n] == l[i + m..i + n]
  {
    var inner := l[i..j];
    forall k | 0 <= k < n - m
      ensures inner[m..n][k] == l[i + m..i + n][k]
    {
      assert inner[m..n][k] == inner[m + k];
    }
  }
}
