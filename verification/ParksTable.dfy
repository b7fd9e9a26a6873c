/**
 The parks table: rows that close, claims about sets of rows, and the reversal of the most recent
 closures until a shape holds again. `ReversalIsShortest` says which copy the reversal hands back, and
 `FailureSentenceIff` exactly when it finds one and when what it says of a failure is untrue, on any table.

 A row's title is kept only as whether it names a document series.
 */
module ParksTable {
  import opened Wrappers

  /** A park, by its number. */
  datatype Park = Park(number: int)

  /** `closedOn` is the date of the closure, as a number that orders like the date. */
  datatype Row = Row(park: Park, closed: bool, closedOn: Option<nat>, namesSeries: bool)
  datatype SetClaim = SetClaim(inRow: Park, members: seq<Park>)
  datatype Parks = Parks(rows: map<Park, Row>, claims: seq<SetClaim>, retired: seq<SetClaim>)

  predicate IsTable(p: Parks) {
    forall n :: n in p.rows ==> p.rows[n].park == n
  }

  function OpenParks(p: Parks): set<Park> {
    set n | n in p.rows && !p.rows[n].closed
  }

  function ClosedParks(p: Parks): set<Park> {
    set n | n in p.rows && p.rows[n].closed
  }

  // ------------------------------------------------------------------------------ set claims

  datatype Problem = Phantom(claim: SetClaim, member: Park) | ClosedMember(claim: SetClaim, member: Park)

  /** The complaints about a claim's first members. */
  function MemberProblems(p: Parks, claim: SetClaim, upTo: nat): seq<Problem>
    requires upTo <= |claim.members|
  {
    if upTo == 0 then []
    else MemberProblems(p, claim, upTo - 1) + MemberProblem(p, claim, claim.members[upTo - 1])
  }

  function MemberProblem(p: Parks, claim: SetClaim, member: Park): seq<Problem> {
    if member !in p.rows then [Phantom(claim, member)]
    else if p.rows[member].closed then [ClosedMember(claim, member)]
    else []
  }

  function Problems(p: Parks, upTo: nat): seq<Problem>
    requires upTo <= |p.claims|
  {
    if upTo == 0 then []
    else Problems(p, upTo - 1) + MemberProblems(p, p.claims[upTo - 1], |p.claims[upTo - 1].members|)
  }

  method CheckSetClaims(p: Parks) returns (problems: seq<Problem>)
    ensures problems == Problems(p, |p.claims|)
    ensures problems == [] <==> IsClean(p)
  {
    hide OpenParks;
    problems := [];
    for i := 0 to |p.claims|
      invariant problems == Problems(p, i)
    {
      var claim := p.claims[i];
      ghost var before := problems;
      for j := 0 to |claim.members|
        invariant problems == before + MemberProblems(p, claim, j)
      {
        var member := claim.members[j];
        if member !in p.rows {
          problems := problems + [Phantom(claim, member)];
        } else if p.rows[member].closed {
          problems := problems + [ClosedMember(claim, member)];
        }
        MemberProblemsNext(p, claim, j, before);
      }
    }
    CleanIsNoProblem(p, |p.claims|);
  }

  lemma MemberProblemsNext(p: Parks, claim: SetClaim, j: nat, before: seq<Problem>)
    requires j < |claim.members|
    ensures before + MemberProblems(p, claim, j + 1)
         == (before + MemberProblems(p, claim, j)) + MemberProblem(p, claim, claim.members[j])
    ensures MemberProblem(p, claim, claim.members[j]) == [] ==>
              before + MemberProblems(p, claim, j + 1) == before + MemberProblems(p, claim, j)
  {
  }

  predicate AllOpen(p: Parks, claim: SetClaim) {
    forall i :: 0 <= i < |claim.members| ==> claim.members[i] in OpenParks(p)
  }

  /** Every live claim names open parks only. */
  predicate IsClean(p: Parks) {
    forall i :: 0 <= i < |p.claims| ==> AllOpen(p, p.claims[i])
  }

  lemma {:induction false} MembersOpen(p: Parks, claim: SetClaim, upTo: nat)
    requires upTo <= |claim.members|
    ensures |MemberProblems(p, claim, upTo)| == 0 <==> forall i :: 0 <= i < upTo ==> claim.members[i] in OpenParks(p)
  {
    if upTo > 0 {
      MembersOpen(p, claim, upTo - 1);
    }
  }

  lemma {:induction false} CleanIsNoProblem(p: Parks, upTo: nat)
    requires upTo <= |p.claims|
    ensures |Problems(p, upTo)| == 0 <==> forall i :: 0 <= i < upTo ==> AllOpen(p, p.claims[i])
  {
    hide OpenParks, MemberProblems;
    if upTo > 0 {
      CleanIsNoProblem(p, upTo - 1);
      MembersOpen(p, p.claims[upTo - 1], |p.claims[upTo - 1].members|);
    }
  }

  // ------------------------------------------------------------------------------- the shapes

  datatype Shape = ClaimNamesOpenPark | MissingCanFire | ClaimToObserve | DerivableBlocker | OpenRowExists

  predicate Holds(shape: Shape, p: Parks) {
    match shape
    case ClaimNamesOpenPark => exists c :: c in p.claims && exists m :: m in c.members && m in OpenParks(p)
    case MissingCanFire => |OpenParks(p)| > 1
    case ClaimToObserve => p.claims != []
    case DerivableBlocker => exists n :: n in OpenParks(p) && p.rows[n].namesSeries
    case OpenRowExists => OpenParks(p) != {}
  }

  // ----------------------------------------------------------------------------- the reversal

  /** The date a row closed, below every date when it states none; the number breaks ties. */
  predicate Older(a: Row, b: Row) {
    var x, y := if a.closedOn.Some? then a.closedOn.value else -1, if b.closedOn.Some? then b.closedOn.value else -1;
    x < y || (x == y && a.park.number < b.park.number)
  }

  predicate IsNewest(rows: map<Park, Row>, among: set<Park>, n: Park)
    requires among <= rows.Keys
  {
    n in among && forall m :: m in among ==> m == n || Older(rows[m], rows[n])
  }

  lemma {:induction false} NewestExists(rows: map<Park, Row>, among: set<Park>)
    requires among != {} && among <= rows.Keys
    requires forall n :: n in rows ==> rows[n].park == n
    ensures exists n :: IsNewest(rows, among, n)
    decreases |among|
  {
    var n :| n in among;
    var others := among - {n};
    assert forall m :: m in among <==> m == n || m in others;
    if others == {} {
      assert IsNewest(rows, among, n);
    } else {
      NewestExists(rows, others);
      var m :| IsNewest(rows, others, m);
      assert IsNewest(rows, among, if Older(rows[m], rows[n]) then n else m);
    }
  }

  function Newest(rows: map<Park, Row>, among: set<Park>): (n: Park)
    requires among != {} && among <= rows.Keys
    requires forall n :: n in rows ==> rows[n].park == n
    ensures IsNewest(rows, among, n)
  {
    NewestExists(rows, among);
    var n :| n in among && IsNewest(rows, among, n);
    n
  }

  /** `sorted(…, reverse=True)` by date and number: the most recent closure first. */
  function NewestFirst(rows: map<Park, Row>, among: set<Park>): (r: seq<Park>)
    requires among <= rows.Keys
    requires forall n :: n in rows ==> rows[n].park == n
    ensures forall n :: n in r <==> n in among
  {
    if among == {} then []
    else
      var n := Newest(rows, among);
      [n] + NewestFirst(rows, among - {n})
  }

  lemma NewestFirstStep(rows: map<Park, Row>, among: set<Park>)
    requires among != {} && among <= rows.Keys
    requires forall n :: n in rows ==> rows[n].park == n
    ensures NewestFirst(rows, among) == [Newest(rows, among)] + NewestFirst(rows, among - {Newest(rows, among)})
  {
  }

  lemma {:induction false} NewestFirstDescends(rows: map<Park, Row>, among: set<Park>)
    requires among <= rows.Keys
    requires forall n :: n in rows ==> rows[n].park == n
    ensures var r := NewestFirst(rows, among);
            forall i, j :: 0 <= i < j < |r| ==> Older(rows[r[j]], rows[r[i]])
  {
    if among == {} {
    } else {
      var n := Newest(rows, among);
      NewestFirstStep(rows, among);
      hide NewestFirst, Older, Newest;
      NewestFirstDescends(rows, among - {n});
      var rest := NewestFirst(rows, among - {n});
      forall j | 0 <= j < |rest|
        ensures Older(rows[rest[j]], rows[n])
      {
        assert rest[j] in rest && rest[j] in among && rest[j] != n;
      }
    }
  }

  function Reopen(rows: map<Park, Row>, numbers: seq<Park>): (r: map<Park, Row>)
    ensures r.Keys == rows.Keys
    ensures forall n :: n in r ==> r[n] == if n in numbers then rows[n].(closed := false, closedOn := None) else rows[n]
  {
    map n | n in rows :: if n in numbers then rows[n].(closed := false, closedOn := None) else rows[n]
  }

  /** A claim is live when a live claim of the same row has the same members. */
  predicate IsLive(p: Parks, c: SetClaim) {
    exists d :: d in p.claims && d.inRow == c.inRow && d.members == c.members
  }

  function Reinstated(p: Parks, retired: seq<SetClaim>): (r: seq<SetClaim>)
    ensures forall c :: c in r <==> c in retired && AllOpen(p, c) && !IsLive(p, c)
  {
    if retired == [] then []
    else
      var n := |retired| - 1;
      var before := Reinstated(p, retired[..n]);
      assert forall c :: c in retired <==> c in retired[..n] || c == retired[n];
      if AllOpen(p, retired[n]) && !IsLive(p, retired[n]) then before + [retired[n]] else before
  }

  /** `_reinstate`. */
  function Reinstate(p: Parks): Parks {
    p.(claims := p.claims + Reinstated(p, p.retired))
  }

  /** The copy with some closures reversed and the withdrawn claims that are whole again put back. */
  function Trial(p: Parks, numbers: seq<Park>): Parks {
    Reinstate(p.(rows := Reopen(p.rows, numbers)))
  }

  function Order(p: Parks): seq<Park>
    requires IsTable(p)
  {
    NewestFirst(p.rows, ClosedParks(p))
  }

  datatype Reversal = Reversal(parks: Parks, reopened: seq<Park>, restored: bool)

  predicate Suits(shape: Shape, p: Parks, k: nat)
    requires IsTable(p) && k <= |Order(p)|
  {
    var trial := Trial(p, Order(p)[..k]);
    Holds(shape, trial) && IsClean(trial)
  }

  /** No run of one to `upTo` closures, newest first, suits. */
  predicate NoneSuits(shape: Shape, p: Parks, upTo: nat)
    requires IsTable(p) && upTo <= |Order(p)|
  {
    forall k :: 0 < k <= upTo ==> !Suits(shape, p, k)
  }

  /** The table as it is where the shape is there; else the first copy that suits, closures reopened newest
      first; else the copy with every closure reopened. */
  predicate IsReversal(shape: Shape, p: Parks, r: Reversal)
    requires IsTable(p)
  {
    if Holds(shape, p) then r == Reversal(p, [], true)
    else
      && |r.reopened| <= |Order(p)| && r.reopened == Order(p)[..|r.reopened|]
      && r.parks == Trial(p, r.reopened)
      && if r.restored then
           0 < |r.reopened| && Suits(shape, p, |r.reopened|) && NoneSuits(shape, p, |r.reopened| - 1)
         else r.reopened == Order(p) && NoneSuits(shape, p, |Order(p)|)
  }

  /** `reversed_to`: reopen the most recent closure, and then the next, until a clean copy has the
      shape. */
  method ReversedTo(shape: Shape, p: Parks) returns (r: Reversal)
    requires IsTable(p)
    ensures IsReversal(shape, p, r)
  {
    hide Holds, NewestFirst, Reinstated, Reopen, IsClean, Suits, NoneSuits, Trial;
    if Holds(shape, p) {
      return Reversal(p, [], true);
    }
    var order := Order(p);
    var rows := p.rows;
    var reopened: seq<Park> := [];
    NothingReopened(shape, p);
    for i := 0 to |order|
      invariant reopened == order[..i]
      invariant rows == Reopen(p.rows, reopened)
      invariant NoneSuits(shape, p, i)
    {
      assert order[i] in order;
      var row := p.rows[order[i]];
      OneReopened(p, i);
      TrialUnfolds(p, order[..i + 1]);
      SuitsUnfolds(shape, p, i + 1);
      NoneSuitsNext(shape, p, i);
      rows := rows[order[i] := row.(closed := false, closedOn := None)];
      reopened := reopened + [order[i]];
      var trial := Reinstate(p.(rows := rows));
      var problems := CheckSetClaims(trial);
      if Holds(shape, trial) && problems == [] {
        return Reversal(trial, reopened, true);
      }
    }
    assert order[..|order|] == order;
    TrialUnfolds(p, order);
    r := Reversal(Reinstate(p.(rows := rows)), reopened, false);
  }

  lemma NothingReopened(shape: Shape, p: Parks)
    requires IsTable(p)
    ensures Reopen(p.rows, []) == p.rows && NoneSuits(shape, p, 0)
  {
  }

  lemma TrialUnfolds(p: Parks, numbers: seq<Park>)
    ensures Trial(p, numbers) == Reinstate(p.(rows := Reopen(p.rows, numbers)))
  {
  }

  lemma OneReopened(p: Parks, i: nat)
    requires IsTable(p) && i < |Order(p)| && Order(p)[i] in p.rows
    ensures var order := Order(p);
            && order[..i + 1] == order[..i] + [order[i]]
            && Reopen(p.rows, order[..i + 1])
               == Reopen(p.rows, order[..i])[order[i] := p.rows[order[i]].(closed := false, closedOn := None)]
  {
    hide NewestFirst, Reopen;
    ReopenOne(p.rows, Order(p)[..i], Order(p)[i]);
    assert Order(p)[..i + 1] == Order(p)[..i] + [Order(p)[i]];
  }

  lemma SuitsUnfolds(shape: Shape, p: Parks, k: nat)
    requires IsTable(p) && k <= |Order(p)|
    ensures Suits(shape, p, k) <==> Holds(shape, Trial(p, Order(p)[..k])) && IsClean(Trial(p, Order(p)[..k]))
  {
    hide Holds, NewestFirst, Trial, IsClean;
  }

  lemma NoneSuitsNext(shape: Shape, p: Parks, i: nat)
    requires IsTable(p) && i < |Order(p)|
    ensures NoneSuits(shape, p, i + 1) <==> NoneSuits(shape, p, i) && !Suits(shape, p, i + 1)
  {
    hide NewestFirst, Suits;
  }

  lemma ReopenOne(rows: map<Park, Row>, numbers: seq<Park>, n: Park)
    requires n in rows
    ensures Reopen(rows, numbers + [n]) == Reopen(rows, numbers)[n := rows[n].(closed := false, closedOn := None)]
  {
  }

  // ------------------------------------------------------------- reopening only ever adds

  lemma TrialOpens(p: Parks, a: seq<Park>, b: seq<Park>)
    requires forall n :: n in a ==> n in b
    ensures OpenParks(p) <= OpenParks(Trial(p, a)) <= OpenParks(Trial(p, b))
  {
  }

  /** All five shapes stay once they are there: more closures reversed never lose one. */
  lemma ShapesMonotone(shape: Shape, p: Parks, a: seq<Park>, b: seq<Park>)
    requires forall n :: n in a ==> n in b
    requires Holds(shape, Trial(p, a))
    ensures Holds(shape, Trial(p, b))
  {
    var x, y := Trial(p, a), Trial(p, b);
    TrialOpens(p, a, b);
    ClaimsGrow(p, a, b);
    match shape
    case ClaimNamesOpenPark =>
      var c :| c in x.claims && exists m :: m in c.members && m in OpenParks(x);
      assert c in y.claims;
    case MissingCanFire =>
      SubsetSize(OpenParks(x), OpenParks(y));
    case ClaimToObserve =>
      assert x.claims[0] in x.claims;
    case DerivableBlocker =>
      var n :| n in OpenParks(x) && x.rows[n].namesSeries;
      assert n in OpenParks(y) && y.rows[n].namesSeries;
    case OpenRowExists =>
      var n :| n in OpenParks(x);
      assert n in OpenParks(y);
  }

  lemma ClaimsGrow(p: Parks, a: seq<Park>, b: seq<Park>)
    requires forall n :: n in a ==> n in b
    ensures forall c :: c in Trial(p, a).claims ==> c in Trial(p, b).claims
  {
    TrialOpens(p, a, b);
    var x, y := p.(rows := Reopen(p.rows, a)), p.(rows := Reopen(p.rows, b));
    forall c | c in Reinstated(x, p.retired)
      ensures c in Reinstated(y, p.retired)
    {
      assert AllOpen(x, c) && AllOpen(y, c);
      assert IsLive(y, c) ==> IsLive(x, c);
    }
  }

  lemma SubsetSize(a: set<Park>, b: set<Park>)
    requires a <= b
    ensures |a| <= |b|
  {
    assert |b| == |a| + |b - a|;
  }

  /** No live claim names a park the table does not have. */
  predicate NoPhantom(p: Parks) {
    forall c, m :: c in p.claims && m in c.members ==> m in p.rows
  }

  /** A copy is clean exactly when the live claims of the table name rows it has, all open by then:
      the claims put back bring no complaint. */
  lemma TrialClean(p: Parks, numbers: seq<Park>)
    ensures IsClean(Trial(p, numbers)) <==>
              forall c, m :: c in p.claims && m in c.members ==> m in p.rows && (m in numbers || !p.rows[m].closed)
  {
    var trial := Trial(p, numbers);
    var x := p.(rows := Reopen(p.rows, numbers));
    assert forall c :: c in trial.claims <==> c in p.claims || c in Reinstated(x, p.retired);
    forall c | c in p.claims
      ensures AllOpen(trial, c) <==> forall m :: m in c.members ==> m in p.rows && (m in numbers || !p.rows[m].closed)
    {
    }
    assert forall c :: c in Reinstated(x, p.retired) ==> AllOpen(x, c) && AllOpen(trial, c);
  }

  /** On any table some copy suits exactly when a row is closed, the fully reopened table has the shape and
      no live claim names a park that does not exist. */
  lemma RestoredIff(shape: Shape, p: Parks)
    requires IsTable(p)
    ensures (exists k :: 0 < k <= |Order(p)| && Suits(shape, p, k))
        <==> (Order(p) != [] && Holds(shape, Trial(p, Order(p))) && NoPhantom(p))
  {
    hide Holds, Reinstated, NewestFirst, IsClean;
    var order := Order(p);
    var n := |order|;
    assert order[..n] == order;
    TrialClean(p, order);
    assert NoPhantom(p) <==> IsClean(Trial(p, order)) by {
      assert forall m :: m in order <==> m in ClosedParks(p);
    }
    if k :| 0 < k <= n && Suits(shape, p, k) {
      var some := order[..k];
      assert forall m :: m in some ==> m in order;
      ShapesMonotone(shape, p, some, order);
      TrialClean(p, some);
    }
    if n > 0 && Holds(shape, Trial(p, order)) && NoPhantom(p) {
      assert Suits(shape, p, n);
    }
  }

  /** On a table without complaints every copy is clean, so the reversal stops at the shortest
      newest-first run of closures that brings the shape back: with one closure fewer it is not
      there. */
  lemma ReversalIsShortest(shape: Shape, p: Parks, k: nat)
    requires IsTable(p) && IsClean(p) && k <= |Order(p)|
    ensures Suits(shape, p, k) <==> Holds(shape, Trial(p, Order(p)[..k]))
    ensures Suits(shape, p, k) ==> forall j :: k <= j <= |Order(p)| ==> Suits(shape, p, j)
  {
    hide Holds, Reinstated, NewestFirst;
    forall j | k <= j <= |Order(p)|
      ensures IsClean(Trial(p, Order(p)[..j]))
      ensures Holds(shape, Trial(p, Order(p)[..k])) ==> Holds(shape, Trial(p, Order(p)[..j]))
    {
      TrialClean(p, Order(p)[..j]);
      assert forall c, m :: c in p.claims && m in c.members ==> AllOpen(p, c) && m in OpenParks(p);
      if Holds(shape, Trial(p, Order(p)[..k])) {
        assert forall m :: m in Order(p)[..k] ==> m in Order(p)[..j];
        ShapesMonotone(shape, p, Order(p)[..k], Order(p)[..j]);
      }
    }
  }

  /** What is said of a reversal that found nothing is that the shape still does not hold. That is untrue
      exactly when the table lacks the shape, the fully reopened copy has it, and either no row is closed, so
      that no copy was tried, or a live claim names a park that does not exist, so that none was clean. */
  lemma FailureSentenceIff(shape: Shape, p: Parks, r: Reversal)
    requires IsTable(p) && IsReversal(shape, p, r)
    ensures !r.restored && Holds(shape, r.parks) <==>
              !Holds(shape, p) && Holds(shape, Trial(p, Order(p))) && (Order(p) == [] || !NoPhantom(p))
    ensures r.restored <==> Holds(shape, p) || (Order(p) != [] && Holds(shape, Trial(p, Order(p))) && NoPhantom(p))
  {
    hide Holds, NewestFirst, Trial, NoPhantom, Suits;
    RestoredIff(shape, p);
  }

  /** An input of the first kind: two open rows, no claim, and a withdrawn claim over both, which the copy puts
      back. */
  lemma NothingClosedMisleads() returns (p: Parks, r: Reversal)
    ensures IsTable(p) && IsClean(p) && IsReversal(ClaimToObserve, p, r)
    ensures Order(p) == [] && !r.restored && Holds(ClaimToObserve, r.parks)
  {
    var one, two := Park(1), Park(2);
    var claim := SetClaim(one, [one, two]);
    p := Parks(map[one := Row(one, false, None, false), two := Row(two, false, None, false)], [], [claim]);
    assert ClosedParks(p) == {};
    var copy := p.(rows := Reopen(p.rows, []));
    assert AllOpen(copy, claim) && !IsLive(copy, claim);
    assert claim in Reinstated(copy, p.retired);
    r := Reversal(Trial(p, []), [], false);
    RestoredIff(ClaimToObserve, p);
  }

  /** An input of the second: one closed row, and a live claim on a park that does not exist. */
  lemma PhantomMisleads() returns (p: Parks, r: Reversal)
    ensures IsTable(p) && IsReversal(OpenRowExists, p, r)
    ensures Order(p) != [] && !r.restored && Holds(OpenRowExists, r.parks)
  {
    var one := Park(1);
    var claim := SetClaim(one, [Park(9)]);
    p := Parks(map[one := Row(one, true, Some(1), false)], [claim], []);
    assert one in ClosedParks(p) && OpenParks(p) == {};
    assert one in Order(p);
    r := Reversal(Trial(p, Order(p)), Order(p), false);
    assert one in OpenParks(r.parks);
    assert Park(9) != one && Park(9) in claim.members && claim in p.claims;
    assert Park(9) !in p.rows;
    RestoredIff(OpenRowExists, p);
  }

  /** A copy differs from the table only in the rows reopened and in withdrawn claims of the table put
      back, all of whose members are open in the copy. */
  lemma CopyDiffersOnlyThere(p: Parks, numbers: seq<Park>)
    ensures var copy := Trial(p, numbers);
            && copy.rows.Keys == p.rows.Keys
            && (forall n :: n in p.rows && n !in numbers ==> copy.rows[n] == p.rows[n])
            && (forall n :: n in p.rows && n in numbers ==>
                  !copy.rows[n].closed && copy.rows[n].namesSeries == p.rows[n].namesSeries)
            && copy.retired == p.retired
            && |copy.claims| >= |p.claims| && copy.claims[..|p.claims|] == p.claims
            && forall c :: c in copy.claims[|p.claims|..] ==> c in p.retired && AllOpen(copy, c) && !IsLive(p, c)
  {
    var x := p.(rows := Reopen(p.rows, numbers));
    var copy := Trial(p, numbers);
    assert copy.claims[|p.claims|..] == Reinstated(x, p.retired);
    assert forall c :: AllOpen(x, c) <==> AllOpen(copy, c);
    assert forall c :: IsLive(x, c) <==> IsLive(p, c);
  }

  // ------------------------------------------------------------------------ a stated partition

  datatype StatedProblem =
    | PhantomMember(group: nat, member: Park)
    | ClosedInGroup(group: nat, member: Park)
    | Overlap(member: Park)
    | Missing(member: Park)

  /** The groups a member is claimed by, a group once for each time it names the member. */
  function Claimants(groups: seq<seq<Park>>, member: Park): nat {
    if groups == [] then 0
    else Claimants(groups[..|groups| - 1], member) + multiset(groups[|groups| - 1])[member]
  }

  /** What a stated partition must be: every member an open park, named once, and no open park left
      out. */
  ghost predicate IsPartition(groups: seq<seq<Park>>, p: Parks) {
    && (forall m :: Claimants(groups, m) > 0 ==> m in OpenParks(p))
    && (forall m :: Claimants(groups, m) <= 1)
    && (forall m :: m in OpenParks(p) ==> Claimants(groups, m) > 0)
  }

  /** How often each member is claimed by some groups and by the first members of the next. */
  ghost predicate Counts(claimed: map<Park, nat>, groups: seq<seq<Park>>, last: seq<Park>) {
    forall m :: if m in claimed then claimed[m] == Claimants(groups, m) + multiset(last)[m] && claimed[m] > 0
                else Claimants(groups, m) + multiset(last)[m] == 0
  }

  function Bump(claimed: map<Park, nat>, member: Park): map<Park, nat> {
    claimed[member := (if member in claimed then claimed[member] else 0) + 1]
  }

  lemma CountsNext(claimed: map<Park, nat>, groups: seq<seq<Park>>, last: seq<Park>, member: Park)
    requires Counts(claimed, groups, last)
    ensures Counts(Bump(claimed, member), groups, last + [member])
  {
    assert forall m :: multiset(last + [member])[m] == multiset(last)[m] + if m == member then 1 else 0;
  }

  lemma CountsGroup(claimed: map<Park, nat>, groups: seq<seq<Park>>, last: seq<Park>)
    requires Counts(claimed, groups, last)
    ensures Counts(claimed, groups + [last], [])
  {
    assert (groups + [last])[..|groups|] == groups;
  }

  /** What is complained of the members of some groups and of the first members of the next. */
  predicate IsMemberProblem(groups: seq<seq<Park>>, last: seq<Park>, p: Parks, q: StatedProblem) {
    (q.PhantomMember? || q.ClosedInGroup?)
    && (if q.group < |groups| then q.member in groups[q.group] else q.group == |groups| && q.member in last)
    && if q.PhantomMember? then q.member !in p.rows else q.member in p.rows && p.rows[q.member].closed
  }

  function StatedProblemOf(p: Parks, group: nat, member: Park): seq<StatedProblem> {
    if member !in p.rows then [PhantomMember(group, member)]
    else if p.rows[member].closed then [ClosedInGroup(group, member)]
    else []
  }

  ghost predicate AllStated(problems: seq<StatedProblem>, groups: seq<seq<Park>>, last: seq<Park>, p: Parks) {
    forall q :: q in problems <==> IsMemberProblem(groups, last, p, q)
  }

  lemma StatedNext(problems: seq<StatedProblem>, groups: seq<seq<Park>>, last: seq<Park>, p: Parks, member: Park)
    requires AllStated(problems, groups, last, p)
    ensures AllStated(problems + StatedProblemOf(p, |groups|, member), groups, last + [member], p)
  {
  }

  lemma StatedGroup(problems: seq<StatedProblem>, groups: seq<seq<Park>>, last: seq<Park>, p: Parks)
    requires AllStated(problems, groups, last, p)
    ensures AllStated(problems, groups + [last], [], p)
  {
    forall q
      ensures IsMemberProblem(groups + [last], [], p, q) <==> IsMemberProblem(groups, last, p, q)
    {
    }
  }

  /** The first half of `check_stated`: every membership is counted, and complained of when the member
      is no open park. */
  method ClaimAll(groups: seq<seq<Park>>, p: Parks) returns (claimed: map<Park, nat>, problems: seq<StatedProblem>)
    ensures Counts(claimed, groups, [])
    ensures AllStated(problems, groups, [], p)
  {
    problems, claimed := [], map[];
    NothingClaimed(p);
    hide Counts, AllStated;
    for g := 0 to |groups|
      invariant Counts(claimed, groups[..g], [])
      invariant AllStated(problems, groups[..g], [], p)
    {
      claimed, problems := ClaimGroup(groups[..g], g, groups[g], p, claimed, problems);
      CountsGroup(claimed, groups[..g], groups[g]);
      StatedGroup(problems, groups[..g], groups[g], p);
      assert groups[..g + 1] == groups[..g] + [groups[g]];
    }
    assert groups[..|groups|] == groups;
  }

  method ClaimGroup(ghost earlier: seq<seq<Park>>, g: nat, members: seq<Park>, p: Parks,
                    counted: map<Park, nat>, found: seq<StatedProblem>)
      returns (claimed: map<Park, nat>, problems: seq<StatedProblem>)
    requires g == |earlier| && Counts(counted, earlier, []) && AllStated(found, earlier, [], p)
    ensures Counts(claimed, earlier, members)
    ensures AllStated(problems, earlier, members, p)
  {
    hide Counts, AllStated, Bump;
    claimed, problems := counted, found;
    assert members[..0] == [];
    for j := 0 to |members|
      invariant Counts(claimed, earlier, members[..j])
      invariant AllStated(problems, earlier, members[..j], p)
    {
      var member := members[j];
      assert members[..j + 1] == members[..j] + [member];
      CountsNext(claimed, earlier, members[..j], member);
      StatedNext(problems, earlier, members[..j], p, member);
      claimed := Bump(claimed, member);
      if member !in p.rows {
        problems := problems + [PhantomMember(g, member)];
      } else if p.rows[member].closed {
        problems := problems + [ClosedInGroup(g, member)];
      } else {
        assert problems + [] == problems;
      }
    }
    assert members[..|members|] == members;
  }

  lemma NothingClaimed(p: Parks)
    ensures Counts(map[], [], []) && AllStated([], [], [], p)
  {
  }

  /** A complaint about what is stated: a member of a group that is no row or is closed, a park that more than
      one membership claims, an open park that none does. */
  ghost predicate IsStatedProblem(groups: seq<seq<Park>>, p: Parks, q: StatedProblem) {
    match q
    case PhantomMember(g, m) => g < |groups| && m in groups[g] && m !in p.rows
    case ClosedInGroup(g, m) => g < |groups| && m in groups[g] && m in p.rows && p.rows[m].closed
    case Overlap(m) => Claimants(groups, m) > 1
    case Missing(m) => m in OpenParks(p) && Claimants(groups, m) == 0
  }

  /** `check_stated`: the complaints are exactly those there are. Groups are numbered in the order of their
      names. */
  method CheckStated(groups: seq<seq<Park>>, p: Parks) returns (problems: seq<StatedProblem>)
    ensures forall q :: q in problems <==> IsStatedProblem(groups, p, q)
    ensures problems == [] <==> IsPartition(groups, p)
  {
    hide IsPartition, OpenParks;
    var claimed;
    claimed, problems := ClaimAll(groups, p);
    assert forall m :: Claimants(groups, m) == if m in claimed then claimed[m] else 0;
    var overlaps := Listed(ClaimedTwice(claimed), m => Overlap(m));
    var missing := Listed(Unclaimed(claimed, p), m => Missing(m));
    problems := problems + overlaps + missing;
    PartitionIff(groups, p);
    assert |problems| > 0 ==> problems[0] in problems;
  }

  function ClaimedTwice(claimed: map<Park, nat>): (r: set<Park>)
    ensures forall m :: m in r <==> m in claimed && claimed[m] > 1
  {
    set m | m in claimed && claimed[m] > 1
  }

  function Unclaimed(claimed: map<Park, nat>, p: Parks): (r: set<Park>)
    ensures forall m :: m in r <==> m in OpenParks(p) && m !in claimed
  {
    set m | m in OpenParks(p) && m !in claimed
  }

  lemma {:induction false} ClaimedSomewhere(groups: seq<seq<Park>>, m: Park)
    ensures Claimants(groups, m) > 0 <==> exists g :: 0 <= g < |groups| && m in groups[g]
  {
    if groups != [] {
      var n := |groups| - 1;
      ClaimedSomewhere(groups[..n], m);
      assert forall g :: 0 <= g < n ==> groups[..n][g] == groups[g];
      assert m in groups[n] <==> multiset(groups[n])[m] > 0;
    }
  }

  /** There is nothing to complain of exactly when what is stated is a partition of the open parks. */
  lemma PartitionIff(groups: seq<seq<Park>>, p: Parks)
    ensures IsPartition(groups, p) <==> forall q :: !IsStatedProblem(groups, p, q)
  {
    if IsPartition(groups, p) {
      forall q
        ensures !IsStatedProblem(groups, p, q)
      {
        ClaimedSomewhere(groups, q.member);
      }
    }
    if forall q :: !IsStatedProblem(groups, p, q) {
      forall m
        ensures Claimants(groups, m) > 0 ==> m in OpenParks(p)
        ensures Claimants(groups, m) <= 1
        ensures m in OpenParks(p) ==> Claimants(groups, m) > 0
      {
        ClaimedSomewhere(groups, m);
        assert !IsStatedProblem(groups, p, Overlap(m)) && !IsStatedProblem(groups, p, Missing(m));
        if g :| 0 <= g < |groups| && m in groups[g] {
          assert !IsStatedProblem(groups, p, PhantomMember(g, m)) && !IsStatedProblem(groups, p, ClosedInGroup(g, m));
        }
      }
    }
  }

  method Listed(numbers: set<Park>, complaint: Park -> StatedProblem) returns (r: seq<StatedProblem>)
    ensures forall q :: q in r <==> exists n :: n in numbers && complaint(n) == q
  {
    r := [];
    var rest := numbers;
    while rest != {}
      invariant rest <= numbers
      invariant forall q :: q in r <==> exists n :: n in numbers - rest && complaint(n) == q
    {
      var n :| n in rest;
      assert numbers - (rest - {n}) == (numbers - rest) + {n};
      r := r + [complaint(n)];
      rest := rest - {n};
    }
    assert numbers - rest == numbers;
  }
}
