/**
 What the parks table complains of and what a reversal hands back, said of the rows and the claims: the five
 shapes, the order of the closures, and each copy row by row and claim by claim (`ReversedMeans`).
 */
module ParksMeaning {
  import opened Lists
  import opened ParksTable
  import opened Wrappers

  predicate IsOpenRow(p: Parks, n: Park) {
    n in p.rows && p.rows[n].closed == false
  }

  ghost predicate HasShape(shape: Shape, p: Parks) {
    match shape
    case ClaimNamesOpenPark =>
      exists i, j :: 0 <= i < |p.claims| && 0 <= j < |p.claims[i].members| && IsOpenRow(p, p.claims[i].members[j])
    case MissingCanFire => exists m, n :: m != n && IsOpenRow(p, m) && IsOpenRow(p, n)
    case ClaimToObserve => |p.claims| > 0
    case DerivableBlocker => exists n :: IsOpenRow(p, n) && p.rows[n].namesSeries
    case OpenRowExists => exists n :: IsOpenRow(p, n)
  }

  lemma ShapeMeans(shape: Shape, p: Parks)
    ensures Holds(shape, p) <==> HasShape(shape, p)
  {
    match shape {
      case ClaimNamesOpenPark =>
        if Holds(shape, p) {
          var c :| c in p.claims && exists m :: m in c.members && m in OpenParks(p);
          var m :| m in c.members && m in OpenParks(p);
          var i :| 0 <= i < |p.claims| && p.claims[i] == c;
          var j :| 0 <= j < |c.members| && c.members[j] == m;
          assert IsOpenRow(p, p.claims[i].members[j]);
        }
        if i, j :| 0 <= i < |p.claims| && 0 <= j < |p.claims[i].members| && IsOpenRow(p, p.claims[i].members[j]) {
          assert p.claims[i] in p.claims && p.claims[i].members[j] in OpenParks(p);
        }
      case MissingCanFire =>
        TwoMembers(OpenParks(p));
        if m, n :| m != n && IsOpenRow(p, m) && IsOpenRow(p, n) {
          assert m in OpenParks(p) && n in OpenParks(p);
        }
        if m, n :| m != n && m in OpenParks(p) && n in OpenParks(p) {
          assert IsOpenRow(p, m) && IsOpenRow(p, n);
        }
      case ClaimToObserve =>
      case DerivableBlocker =>
        assert forall n :: n in OpenParks(p) <==> IsOpenRow(p, n);
      case OpenRowExists =>
        assert forall n :: n in OpenParks(p) <==> IsOpenRow(p, n);
    }
  }

  lemma TwoMembers(s: set<Park>)
    ensures |s| > 1 <==> exists m, n :: m != n && m in s && n in s
  {
    if |s| > 1 {
      var m :| m in s;
      assert |s - {m}| > 0;
      var n :| n in s - {m};
    }
    if m, n :| m != n && m in s && n in s {
      assert s == {m, n} + (s - {m, n});
    }
  }

  // ------------------------------------------------------------------------------ the complaints

  /** A live claim names a park that is no row, or one that is closed. */
  predicate IsProblem(p: Parks, q: Problem) {
    q.claim in p.claims && q.member in q.claim.members
    && match q
       case Phantom(_, m) => m !in p.rows
       case ClosedMember(_, m) => m in p.rows && p.rows[m].closed
  }

  lemma {:induction false} MemberListed(p: Parks, claim: SetClaim, upTo: nat, q: Problem)
    requires upTo <= |claim.members|
    ensures q in MemberProblems(p, claim, upTo) <==>
              q.claim == claim && q.member in claim.members[..upTo]
                && q in MemberProblem(p, claim, q.member)
  {
    if upTo > 0 {
      MemberListed(p, claim, upTo - 1, q);
      assert claim.members[..upTo] == claim.members[..upTo - 1] + [claim.members[upTo - 1]];
    }
  }

  lemma {:induction false} ProblemListed(p: Parks, upTo: nat, q: Problem)
    requires upTo <= |p.claims|
    ensures q in Problems(p, upTo) <==>
              q.claim in p.claims[..upTo] && q.member in q.claim.members && q in MemberProblem(p, q.claim, q.member)
  {
    hide MemberProblems, MemberProblem;
    if upTo > 0 {
      var claim := p.claims[upTo - 1];
      ProblemListed(p, upTo - 1, q);
      MemberListed(p, claim, |claim.members|, q);
      assert claim.members[..|claim.members|] == claim.members;
      assert p.claims[..upTo] == p.claims[..upTo - 1] + [claim];
    }
  }

  /** What `CheckSetClaims` lists is exactly what there is to complain of. */
  lemma ProblemMeans(p: Parks, q: Problem)
    ensures q in Problems(p, |p.claims|) <==> IsProblem(p, q)
  {
    ProblemListed(p, |p.claims|, q);
    assert p.claims[..|p.claims|] == p.claims;
  }

  ghost predicate NoComplaint(p: Parks) {
    forall q :: !IsProblem(p, q)
  }

  lemma CleanMeans(p: Parks)
    ensures IsClean(p) <==> NoComplaint(p)
  {
    if IsClean(p) {
      forall q
        ensures !IsProblem(p, q)
      {
        if q.claim in p.claims && q.member in q.claim.members {
          var i :| 0 <= i < |p.claims| && p.claims[i] == q.claim;
          assert AllOpen(p, p.claims[i]);
        }
      }
    }
    if NoComplaint(p) {
      forall i, j | 0 <= i < |p.claims| && 0 <= j < |p.claims[i].members|
        ensures p.claims[i].members[j] in OpenParks(p)
      {
        var c, m := p.claims[i], p.claims[i].members[j];
        assert !IsProblem(p, Phantom(c, m)) && !IsProblem(p, ClosedMember(c, m));
      }
    }
  }

  // ------------------------------------------------------------------------- the order of closures

  /** By date, no date before all dates, and by number on one date. */
  predicate ClosedLater(a: Row, b: Row) {
    match (a.closedOn, b.closedOn)
    case (Some(x), Some(y)) => x > y || (x == y && a.park.number > b.park.number)
    case (Some(_), None) => true
    case (None, Some(_)) => false
    case (None, None) => a.park.number > b.park.number
  }

  /** These are closed rows, the latest closure first, and every other closed row closed earlier. */
  ghost predicate AreLatest(p: Parks, numbers: seq<Park>) {
    && (forall n :: n in numbers ==> n in p.rows && p.rows[n].closed)
    && (forall i, j :: 0 <= i < j < |numbers| ==> ClosedLater(p.rows[numbers[i]], p.rows[numbers[j]]))
    && forall m, n :: m in p.rows && p.rows[m].closed && m !in numbers && n in numbers ==>
                        ClosedLater(p.rows[n], p.rows[m])
  }

  lemma OrderDescends(p: Parks)
    requires IsTable(p)
    ensures forall n :: n in Order(p) <==> n in p.rows && p.rows[n].closed
    ensures forall i, j :: 0 <= i < j < |Order(p)| ==> ClosedLater(p.rows[Order(p)[i]], p.rows[Order(p)[j]])
  {
    hide NewestFirst;
    var order := Order(p);
    assert order == NewestFirst(p.rows, ClosedParks(p));
    NewestFirstDescends(p.rows, ClosedParks(p));
    forall i, j | 0 <= i < j < |order|
      ensures ClosedLater(p.rows[order[i]], p.rows[order[j]])
    {
      assert Older(p.rows[order[j]], p.rows[order[i]]);
    }
  }

  lemma LaterInOrder(order: seq<Park>, k: nat, n: Park, m: Park)
    requires k <= |order| && n in order[..k] && m in order && m !in order[..k]
    ensures exists i, j :: 0 <= i < j < |order| && order[i] == n && order[j] == m
  {
    assert order == order[..k] + order[k..];
    var i :| 0 <= i < k && order[..k][i] == n;
    var j :| 0 <= j < |order[k..]| && order[k..][j] == m;
    assert order[i] == n && order[k + j] == m;
  }

  lemma OrderIsLatest(p: Parks, k: nat)
    requires IsTable(p) && k <= |Order(p)|
    ensures AreLatest(p, Order(p)[..k])
    ensures k == |Order(p)| ==> forall n :: n in p.rows && p.rows[n].closed ==> n in Order(p)[..k]
  {
    hide Order, ClosedLater;
    var order := Order(p);
    OrderDescends(p);
    var some := order[..k];
    assert order[..|order|] == order;
    forall m, n | m in p.rows && p.rows[m].closed && m !in some && n in some
      ensures ClosedLater(p.rows[n], p.rows[m])
    {
      LaterInOrder(order, k, n, m);
    }
  }

  // ------------------------------------------------------------------------------------- the copy

  /** The withdrawn claim is whole in the copy, and no live claim of its row says the same. */
  ghost predicate IsPutBack(p: Parks, copy: Parks, c: SetClaim) {
    && (forall m :: m in c.members ==> IsOpenRow(copy, m))
    && !exists d :: d in p.claims && d.inRow == c.inRow && d.members == c.members
  }

  /** The table with these rows reopened, their dates struck, and behind its claims every withdrawn claim that
      is whole, in their order. */
  ghost predicate IsCopy(p: Parks, numbers: seq<Park>, copy: Parks) {
    && copy.rows.Keys == p.rows.Keys
    && (forall n :: n in p.rows ==>
          copy.rows[n] == if n in numbers then Row(p.rows[n].park, false, None, p.rows[n].namesSeries) else p.rows[n])
    && copy.retired == p.retired
    && |p.claims| <= |copy.claims| && copy.claims[..|p.claims|] == p.claims
    && Picks(p.retired, copy.claims[|p.claims|..], (c: SetClaim) => IsPutBack(p, copy, c))
  }

  lemma AllOpenMeans(p: Parks, c: SetClaim)
    ensures AllOpen(p, c) <==> forall m :: m in c.members ==> IsOpenRow(p, m)
  {
    if AllOpen(p, c) {
      forall m | m in c.members
        ensures IsOpenRow(p, m)
      {
        var i :| 0 <= i < |c.members| && c.members[i] == m;
        assert c.members[i] in OpenParks(p);
      }
    }
    if forall m :: m in c.members ==> IsOpenRow(p, m) {
      assert forall i :: 0 <= i < |c.members| ==> c.members[i] in c.members && IsOpenRow(p, c.members[i]);
    }
  }

  function IsBack(p: Parks): SetClaim -> bool {
    (c: SetClaim) => AllOpen(p, c) && !IsLive(p, c)
  }

  lemma {:induction false} ReinstatedIsFilter(p: Parks, retired: seq<SetClaim>)
    ensures Reinstated(p, retired) == Filter(retired, IsBack(p))
  {
    if retired != [] {
      ReinstatedIsFilter(p, retired[..|retired| - 1]);
    }
  }

  lemma TrialIsCopy(p: Parks, numbers: seq<Park>)
    ensures IsCopy(p, numbers, Trial(p, numbers))
  {
    hide Reinstated, Picks, Filter;
    var x := p.(rows := Reopen(p.rows, numbers));
    var copy := Trial(p, numbers);
    forall c: SetClaim
      ensures IsBack(x)(c) <==> IsPutBack(p, copy, c)
    {
      AllOpenMeans(x, c);
      assert forall m :: IsOpenRow(x, m) <==> IsOpenRow(copy, m);
    }
    ReinstatedIsFilter(x, p.retired);
    FilterPicks(p.retired, IsBack(x), (c: SetClaim) => IsPutBack(p, copy, c));
    assert copy.claims[|p.claims|..] == Reinstated(x, p.retired);
    assert forall n :: n in p.rows ==>
      copy.rows[n] == if n in numbers then Row(p.rows[n].park, false, None, p.rows[n].namesSeries) else p.rows[n];
  }

  /** A copy is fixed by the rows that are reopened. */
  lemma CopyIsOne(p: Parks, numbers: seq<Park>, a: Parks, b: Parks)
    requires IsCopy(p, numbers, a) && IsCopy(p, numbers, b)
    ensures a == b
  {
    hide Picks;
    var n := |p.claims|;
    assert a.rows == b.rows;
    forall c: SetClaim
      ensures IsPutBack(p, a, c) <==> IsPutBack(p, b, c)
    {
    }
    PicksOnce(p.retired, a.claims[n..], (c: SetClaim) => IsPutBack(p, a, c), b.claims[n..],
              (c: SetClaim) => IsPutBack(p, b, c));
    assert a.claims == a.claims[..n] + a.claims[n..] && b.claims == b.claims[..n] + b.claims[n..];
  }

  /** What a reversal hands back: the table as it is where it has the shape; else a copy in which the latest
      closures are reopened. A restored copy has the shape, there is nothing to complain of in it, and neither
      is so with fewer closures reopened; one that is not restored has all of them reopened, and with no number
      of them, one at least, is it so. */
  lemma ReversedMeans(shape: Shape, p: Parks, r: Reversal)
    requires IsTable(p) && IsReversal(shape, p, r)
    ensures HasShape(shape, p) ==> r == Reversal(p, [], true)
    ensures !HasShape(shape, p) ==>
              && AreLatest(p, r.reopened) && IsCopy(p, r.reopened, r.parks)
              && (r.restored ==> r.reopened != [] && HasShape(shape, r.parks) && NoComplaint(r.parks))
              && (!r.restored ==> forall n :: n in p.rows && p.rows[n].closed ==> n in r.reopened)
              && forall k, copy :: 0 < k <= |r.reopened| && !(r.restored && k == |r.reopened|)
                                   && IsCopy(p, r.reopened[..k], copy) ==>
                                     !(HasShape(shape, copy) && NoComplaint(copy))
  {
    hide Holds, HasShape, IsClean, NoComplaint, IsCopy, AreLatest, Trial, NewestFirst;
    ShapeMeans(shape, p);
    if !HasShape(shape, p) {
      OrderIsLatest(p, |r.reopened|);
      TrialIsCopy(p, r.reopened);
      ShapeMeans(shape, r.parks);
      CleanMeans(r.parks);
      forall k, copy | 0 < k <= |r.reopened| && !(r.restored && k == |r.reopened|)
                       && IsCopy(p, r.reopened[..k], copy)
        ensures !(HasShape(shape, copy) && NoComplaint(copy))
      {
        assert r.reopened[..k] == Order(p)[..k];
        assert !Suits(shape, p, k);
        TrialIsCopy(p, r.reopened[..k]);
        CopyIsOne(p, r.reopened[..k], copy, Trial(p, r.reopened[..k]));
        ShapeMeans(shape, copy);
        CleanMeans(copy);
      }
    }
  }

  // --------------------------------------------------------------------------- a stated partition

  /** All the memberships that are stated, one after another. */
  function Memberships(groups: seq<seq<Park>>): seq<Park> {
    if groups == [] then [] else groups[0] + Memberships(groups[1..])
  }

  lemma {:induction false} MembershipsOfNext(groups: seq<seq<Park>>, last: seq<Park>)
    ensures Memberships(groups + [last]) == Memberships(groups) + last
  {
    if groups == [] {
      assert [last][1..] == [];
    } else {
      MembershipsOfNext(groups[1..], last);
      assert (groups + [last])[1..] == groups[1..] + [last];
    }
  }

  lemma {:induction false} ClaimantsAre(groups: seq<seq<Park>>, m: Park)
    ensures Claimants(groups, m) == multiset(Memberships(groups))[m]
  {
    if groups != [] {
      var n := |groups| - 1;
      ClaimantsAre(groups[..n], m);
      MembershipsOfNext(groups[..n], groups[n]);
      assert groups == groups[..n] + [groups[n]];
    }
  }

  /** What is stated is a partition exactly when its memberships, in whatever groups, are the open rows, each
      once. */
  lemma PartitionMeans(groups: seq<seq<Park>>, p: Parks)
    ensures IsPartition(groups, p) <==>
              Distinct(Memberships(groups)) && forall m :: m in Memberships(groups) <==> IsOpenRow(p, m)
  {
    var all := Memberships(groups);
    forall m
      ensures Claimants(groups, m) == multiset(all)[m]
    {
      ClaimantsAre(groups, m);
    }
    assert forall m :: m in all <==> multiset(all)[m] > 0;
    assert forall m :: m in OpenParks(p) <==> IsOpenRow(p, m);
    OnceEach(all);
  }

  lemma {:induction false} OnceEach(s: seq<Park>)
    ensures Distinct(s) <==> forall m :: multiset(s)[m] <= 1
  {
    if s != [] {
      var n := |s| - 1;
      OnceEach(s[..n]);
      assert s == s[..n] + [s[n]];
      if Distinct(s) {
        assert s[n] !in s[..n];
        assert forall m :: multiset(s)[m] == multiset(s[..n])[m] + multiset{s[n]}[m];
      } else if Distinct(s[..n]) {
        var i, j :| 0 <= i < j < |s| && s[i] == s[j];
        assert j == n && s[..n][i] == s[n];
        assert s[n] in s[..n] && multiset(s)[s[n]] == multiset(s[..n])[s[n]] + 1;
      } else {
        var m :| multiset(s[..n])[m] > 1;
        assert multiset(s)[m] >= multiset(s[..n])[m];
      }
    }
  }
}
