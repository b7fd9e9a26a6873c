/**
 Where order does play a part. The view of a feature does not depend on the order of the objects
 (`AixmResolve.OrderPlaysNoPart`), but the TS_017 finding, a correction that moves the begin of an
 active slice, compares the valid slice with the last one it supersedes; when several share that
 correction number the last of them is the one that came last in the caller's list. `FeatureStableIff` says
 exactly when the findings of a feature do not depend on the order.
 */
module AixmFindings {
  import opened Wrappers
  import opened Lists
  import opened AixmResolve
  import opened AixmSequences

  /** A superseded slice no other superseded slice outranks. */
  ghost predicate IsRunnerUp(group: multiset<Slice>, top: Slice, s: Slice) {
    s in group && s != top && forall t :: t in group && t != top ==> t.Rank() <= s.Rank()
  }

  /** The slice TS_017 compares the valid slice with. */
  function Previous(group: seq<Slice>): Option<Slice>
    requires group != []
  {
    var superseded := EntryOf(group).superseded;
    if superseded == [] then None else Some(superseded[|superseded| - 1])
  }

  lemma EntryShape(group: seq<Slice>)
    requires group != []
    ensures var entry := EntryOf(group);
            if entry.valid.None? then entry.superseded == SortByRank(group)
            else SortByRank(group) == entry.superseded + [entry.valid.value]
    ensures ByRank(EntryOf(group).superseded)
  {
    hide SortByRank, Filter;
    SortIsSorted(group);
  }

  lemma WinnerIsLast(group: seq<Slice>, top: Slice)
    requires group != [] && IsWinner(multiset(group), top)
    ensures SortByRank(group)[|group| - 1] == top
    ensures EntryOf(group) == Entry(Some(top), SortByRank(group)[..|group| - 1])
  {
    hide SortByRank, EntryOf, IsWinner;
    ValidIsWinner(group, top);
    EntryShape(group);
    SortIsSorted(group);
    PermutationMembers(SortByRank(group), group);
  }

  /** What is compared is a runner-up. */
  lemma PreviousIsRunnerUp(group: seq<Slice>, top: Slice)
    requires |group| >= 2 && IsWinner(multiset(group), top)
    ensures Previous(group) == Some(SortByRank(group)[|group| - 2])
    ensures IsRunnerUp(multiset(group), top, Previous(group).value)
  {
    hide IsWinner, IsRunnerUp, SortByRank, EntryOf;
    WinnerIsLast(group, top);
    SortIsSorted(group);
    LastButOne(SortByRank(group), top);
  }

  lemma LastButOne(sorted: seq<Slice>, top: Slice)
    requires |sorted| >= 2 && ByRank(sorted) && IsWinner(multiset(sorted), top)
    requires sorted[|sorted| - 1] == top
    ensures IsRunnerUp(multiset(sorted), top, sorted[|sorted| - 2])
  {
    var previous := sorted[|sorted| - 2];
    assert previous in sorted;
    assert sorted == sorted[..|sorted| - 2] + [previous, top];
    forall t | t in multiset(sorted) && t != top
      ensures t.Rank() <= previous.Rank()
    {
      assert t in sorted;
    }
  }

  /** Any runner-up can be the one compared: put it last. */
  lemma AnyRunnerUp(group: seq<Slice>, top: Slice, s: Slice) returns (other: seq<Slice>)
    requires IsWinner(multiset(group), top) && IsRunnerUp(multiset(group), top, s)
    ensures other != [] && multiset(other) == multiset(group) && Previous(other) == Some(s)
  {
    hide Previous;
    assert s in group;
    var i :| 0 <= i < |group| && group[i] == s;
    var rest := group[..i] + group[i + 1..];
    other := rest + [s];
    WithoutOne(group, i);
    WinnerStays(multiset(group), multiset(rest), top, s);
    NonEmptyWinner(rest, top);
    PutLast(rest, top, s);
  }

  lemma WinnerStays(group: multiset<Slice>, rest: multiset<Slice>, top: Slice, s: Slice)
    requires IsWinner(group, top) && IsRunnerUp(group, top, s) && rest == group - multiset{s}
    ensures IsWinner(rest, top) && s.Rank() < top.Rank()
    ensures forall t :: t in rest && t != top ==> t.Rank() <= s.Rank()
  {
    assert forall t :: t in rest ==> t in group;
  }

  lemma PutLast(rest: seq<Slice>, top: Slice, s: Slice)
    requires rest != [] && IsWinner(multiset(rest), top) && s.Rank() < top.Rank()
    requires forall t :: t in multiset(rest) && t != top ==> t.Rank() <= s.Rank()
    ensures Previous(rest + [s]) == Some(s)
  {
    hide IsRunnerUp, SortByRank, EntryOf;
    var other := rest + [s];
    WinnerIsLast(rest, top);
    WinnerKept(rest, top, s);
    WinnerIsLast(other, top);
    SortOfSnoc(rest, s);
    var before := SortByRank(rest)[..|rest| - 1];
    assert SortByRank(rest) == before + [top];
    InsertBelow(before, top, s);
    if before != [] {
      RunnerUpBound(rest, top, s);
    }
  }

  lemma WinnerKept(rest: seq<Slice>, top: Slice, s: Slice)
    requires IsWinner(multiset(rest), top) && s.Rank() < top.Rank()
    ensures IsWinner(multiset(rest + [s]), top)
  {
    assert forall t :: t in multiset(rest + [s]) <==> t in multiset(rest) || t == s;
  }

  lemma SortOfSnoc(rest: seq<Slice>, s: Slice)
    ensures SortByRank(rest + [s]) == InsertByRank(SortByRank(rest), s)
  {
    assert (rest + [s])[..|rest|] == rest;
  }

  lemma InsertBelow(before: seq<Slice>, top: Slice, s: Slice)
    requires s.Rank() < top.Rank()
    ensures InsertByRank(before + [top], s) == InsertByRank(before, s) + [top]
    ensures before == [] || before[|before| - 1].Rank() <= s.Rank() ==> InsertByRank(before, s) == before + [s]
  {
    assert (before + [top])[..|before|] == before;
  }

  lemma RunnerUpBound(rest: seq<Slice>, top: Slice, s: Slice)
    requires |rest| >= 2 && IsWinner(multiset(rest), top)
    requires forall t :: t in multiset(rest) && t != top ==> t.Rank() <= s.Rank()
    ensures SortByRank(rest)[|rest| - 2].Rank() <= s.Rank()
  {
    PreviousIsRunnerUp(rest, top);
  }

  function BeginFindingOf(group: seq<Slice>, interpretation: Interpretation, key: Key, top: Slice): seq<Finding>
    requires group != []
  {
    if Previous(group).None? || top.Cancelled() then []
    else BeginFinding(interpretation, key, top, Previous(group).value)
  }

  ghost predicate FindingIsStable(group: seq<Slice>, interpretation: Interpretation, key: Key, top: Slice)
    requires group != []
  {
    forall other: seq<Slice> :: other != [] && multiset(other) == multiset(group) ==>
      BeginFindingOf(other, interpretation, key, top) == BeginFindingOf(group, interpretation, key, top)
  }

  /** The finding is the same in every order exactly when all runners-up would give the same one. */
  lemma FindingStableIff(group: seq<Slice>, interpretation: Interpretation, key: Key, top: Slice)
    requires |group| >= 2 && IsWinner(multiset(group), top) && !top.Cancelled()
    ensures FindingIsStable(group, interpretation, key, top) <==>
              forall s, t :: IsRunnerUp(multiset(group), top, s) && IsRunnerUp(multiset(group), top, t) ==>
                BeginFinding(interpretation, key, top, s) == BeginFinding(interpretation, key, top, t)
  {
    hide Previous, BeginFinding, IsWinner, IsRunnerUp;
    PreviousIsRunnerUp(group, top);
    if FindingIsStable(group, interpretation, key, top) {
      forall s | IsRunnerUp(multiset(group), top, s)
        ensures BeginFinding(interpretation, key, top, s) == BeginFindingOf(group, interpretation, key, top)
      {
        var other := AnyRunnerUp(group, top, s);
        assert BeginFindingOf(other, interpretation, key, top) == BeginFindingOf(group, interpretation, key, top);
      }
    }
    if forall s, t :: IsRunnerUp(multiset(group), top, s) && IsRunnerUp(multiset(group), top, t) ==>
         BeginFinding(interpretation, key, top, s) == BeginFinding(interpretation, key, top, t) {
      forall other: seq<Slice> | other != [] && multiset(other) == multiset(group)
        ensures BeginFindingOf(other, interpretation, key, top) == BeginFindingOf(group, interpretation, key, top)
      {
        PermutationMembers(other, group);
        PreviousIsRunnerUp(other, top);
      }
    }
  }

  /** An input on which it is not: corrections 1, 1 and 2 of one sequence, the two of correction 1 with
      different begins. One order reports a moved begin and the other does not. */
  lemma FindingDependsOnOrder() returns (a: seq<Slice>, b: seq<Slice>, top: Slice)
    ensures a != [] && b != [] && multiset(a) == multiset(b) && IsWinner(multiset(a), top)
    ensures BeginFindingOf(a, TEMPDELTA, Some(1), top) == []
    ensures BeginFindingOf(b, TEMPDELTA, Some(1), top) == [BeginMoved(TEMPDELTA, Some(1), 2, 6, Some(5))]
  {
    hide SortByRank, EntryOf, IsWinner, Previous;
    var early := Slice("", "", Airspace, TEMPDELTA, Some(1), Some(1), Period, Some(5), None, [], []);
    var late := early.(beginPosition := Some(6));
    top := early.(correction := Some(2));
    TwoCorrections(late, early, top);
    TwoCorrections(early, late, top);
    a, b := [top, late] + [early], [top, early] + [late];
    assert multiset(a) == multiset(b);
  }

  lemma TwoCorrections(first: Slice, second: Slice, top: Slice)
    requires first.Rank() == second.Rank() < top.Rank()
    ensures IsWinner(multiset([top, first] + [second]), top)
    ensures Previous([top, first] + [second]) == Some(second)
  {
    assert IsWinner(multiset([top, first]), top);
    WinnerKept([top, first], top, second);
    PutLast([top, first], top, second);
  }

  // ------------------------------------------------------------------- the findings of a feature

  /** The TS_017 finding about one sequence. */
  function BeginOf(slices: seq<Slice>, interpretation: Interpretation, key: Key): (r: seq<Finding>)
    ensures |r| <= 1 && forall f :: f in r ==> f.BeginMoved? && f.interpretation == interpretation && f.sequence == key
  {
    var group := GroupOf(slices, interpretation, key);
    if group == [] then [] else BeginFindings(interpretation, key, EntryOf(group))
  }

  /** The other findings about it. */
  function OrderOf(slices: seq<Slice>, interpretation: Interpretation, key: Key): (r: seq<Finding>)
    ensures forall f :: f in r ==> !f.BeginMoved?
  {
    var group := GroupOf(slices, interpretation, key);
    if group == [] then [] else OrderFindings(interpretation, key, EntryOf(group))
  }

  function FindingsAt(keys: seq<Key>, slices: seq<Slice>, interpretation: Interpretation): seq<Finding> {
    if keys == [] then []
    else
      var n := |keys| - 1;
      FindingsAt(keys[..n], slices, interpretation)
      + (OrderOf(slices, interpretation, keys[n]) + BeginOf(slices, interpretation, keys[n]))
  }

  lemma {:induction false} AllFindingsAre(keys: seq<Key>, slices: seq<Slice>, interpretation: Interpretation)
    requires forall k :: k in keys ==> k in KeysOf(slices, interpretation)
    ensures |EntriesOf(keys, slices, interpretation)| == |keys|
    ensures AllFindings(keys, EntriesOf(keys, slices, interpretation), interpretation)
              == FindingsAt(keys, slices, interpretation)
  {
    hide KeysOf, GroupOf, EntryOf, OrderFindings, BeginFindings;
    if keys != [] {
      var n := |keys| - 1;
      assert keys[n] in keys;
      GroupNonEmpty(slices, interpretation, keys[n]);
      AllFindingsAre(keys[..n], slices, interpretation);
      var entries := EntriesOf(keys, slices, interpretation);
      assert entries[..n] == EntriesOf(keys[..n], slices, interpretation);
    }
  }

  /** A TS_017 finding is listed exactly when its own sequence has it. */
  lemma {:induction false} BeginListed(keys: seq<Key>, slices: seq<Slice>, interpretation: Interpretation, f: Finding)
    requires f.BeginMoved?
    ensures f in FindingsAt(keys, slices, interpretation) <==>
              f.interpretation == interpretation && f.sequence in keys
                && f in BeginOf(slices, interpretation, f.sequence)
  {
    hide OrderOf, BeginOf;
    if keys != [] {
      var n := |keys| - 1;
      BeginListed(keys[..n], slices, interpretation, f);
      assert forall k :: k in keys <==> k in keys[..n] || k == keys[n];
    }
  }

  lemma {:induction false} FilterByRank(s: seq<Slice>, p: Slice -> bool)
    requires ByRank(s)
    ensures ByRank(Filter(s, p))
  {
    if s != [] {
      FilterByRank(s[..|s| - 1], p);
      var before := Filter(s[..|s| - 1], p);
      forall i | 0 <= i < |before|
        ensures before[i].Rank() <= s[|s| - 1].Rank()
      {
        assert before[i] in before && before[i] in s[..|s| - 1];
      }
    }
  }

  /** Two sorted permutations end, and start, with the same correction number. */
  lemma SameEnds(a: seq<Slice>, b: seq<Slice>)
    requires ByRank(a) && ByRank(b) && multiset(a) == multiset(b)
    ensures |a| == |b| && (|a| > 0 ==> a[0].Rank() == b[0].Rank() && a[|a| - 1].Rank() == b[|b| - 1].Rank())
  {
    PermutationMembers(a, b);
    if |a| > 0 {
      assert a[0] in a && a[|a| - 1] in a && b[0] in b && b[|b| - 1] in b;
    }
  }

  /** What two permutations supersede is the same but for the order of equal corrections. */
  lemma SupersededAgree(a: seq<Slice>, b: seq<Slice>)
    requires a != [] && b != [] && multiset(a) == multiset(b)
    ensures EntryOf(a).valid == EntryOf(b).valid
    ensures multiset(EntryOf(a).superseded) == multiset(EntryOf(b).superseded)
  {
    hide SortByRank, EntryOf, IsWinner;
    ValidOfPermutation(a, b);
    SortIsSorted(a);
    SortIsSorted(b);
    EntryShape(a);
    EntryShape(b);
    if EntryOf(a).valid.Some? {
      var x, y, top := EntryOf(a).superseded, EntryOf(b).superseded, EntryOf(a).valid.value;
      assert multiset(x) == multiset(x + [top]) - multiset{top};
      assert multiset(y) == multiset(y + [top]) - multiset{top};
    }
  }

  lemma OrderOfEntry(a: seq<Slice>, b: seq<Slice>, interpretation: Interpretation, key: Key)
    requires a != [] && b != [] && multiset(a) == multiset(b)
    ensures OrderFindings(interpretation, key, EntryOf(a)) == OrderFindings(interpretation, key, EntryOf(b))
  {
    hide SortByRank, EntryOf, Filter;
    SupersededAgree(a, b);
    EntryShape(a);
    EntryShape(b);
    var x, y := EntryOf(a).superseded, EntryOf(b).superseded;
    SameEnds(x, y);
    FilterOfPermutation(x, y, IsCancelled());
    FilterByRank(x, IsCancelled());
    FilterByRank(y, IsCancelled());
    SameEnds(Filter(x, IsCancelled()), Filter(y, IsCancelled()));
  }

  lemma OrderOfPermutation(a: seq<Slice>, b: seq<Slice>, interpretation: Interpretation, key: Key)
    requires multiset(a) == multiset(b)
    ensures OrderOf(a, interpretation, key) == OrderOf(b, interpretation, key)
  {
    hide OrderFindings, EntryOf;
    FilterOfPermutation(a, b, InGroup(interpretation, key));
    PermutationMembers(GroupOf(a, interpretation, key), GroupOf(b, interpretation, key));
    if GroupOf(a, interpretation, key) != [] {
      OrderOfEntry(GroupOf(a, interpretation, key), GroupOf(b, interpretation, key), interpretation, key);
    }
  }

  /** TS_017 says the same of every sequence of that interpretation in both orders. */
  ghost predicate BeginsAgree(a: seq<Slice>, b: seq<Slice>, interpretation: Interpretation) {
    forall key :: BeginOf(a, interpretation, key) == BeginOf(b, interpretation, key)
  }

  lemma {:induction false} FindingsAtAgree(keys: seq<Key>, a: seq<Slice>, b: seq<Slice>, interpretation: Interpretation)
    requires multiset(a) == multiset(b) && BeginsAgree(a, b, interpretation)
    ensures FindingsAt(keys, a, interpretation) == FindingsAt(keys, b, interpretation)
  {
    hide OrderOf, BeginOf;
    if keys != [] {
      FindingsAtAgree(keys[..|keys| - 1], a, b, interpretation);
      OrderOfPermutation(a, b, interpretation, keys[|keys| - 1]);
    }
  }

  lemma SequenceFindingsAre(slices: seq<Slice>, interpretation: Interpretation)
    ensures SequenceFindings(slices, interpretation)
         == FindingsAt(KeysOf(slices, interpretation), slices, interpretation)
  {
    hide KeysOf, EntriesOf, AllFindings;
    AllFindingsAre(KeysOf(slices, interpretation), slices, interpretation);
  }

  /** Where a TS_017 finding can stand in the findings of a feature. */
  lemma BeginOfFeature(slices: seq<Slice>, instant: int, f: Finding)
    requires slices != [] && f.BeginMoved?
    ensures f in FindingsOfFeature(slices, instant) <==>
              f.interpretation in {BASELINE, TEMPDELTA, PERMDELTA} && f in BeginOf(slices, f.interpretation, f.sequence)
  {
    hide SequenceFindings, BeginOf, InForceOf, KeysOf;
    forall i | i in {BASELINE, TEMPDELTA, PERMDELTA}
      ensures f in SequenceFindings(slices, i) <==> f.interpretation == i && f in BeginOf(slices, i, f.sequence)
    {
      SequenceFindingsAre(slices, i);
      BeginListed(KeysOf(slices, i), slices, i, f);
      if f.sequence !in KeysOf(slices, i) {
        NoGroupNoBegin(slices, i, f.sequence);
      }
    }
  }

  lemma NoGroupNoBegin(slices: seq<Slice>, interpretation: Interpretation, key: Key)
    requires key !in KeysOf(slices, interpretation)
    ensures BeginOf(slices, interpretation, key) == []
  {
    GroupNonEmpty(slices, interpretation, key);
  }

  /** Two orders of the same objects give the same findings exactly when TS_017 says the same of every
      sequence in both. */
  lemma FindingsAgreeIff(a: seq<Slice>, b: seq<Slice>, instant: int)
    requires a != [] && b != [] && multiset(a) == multiset(b) && OneElement(a)
    ensures FindingsOfFeature(a, instant) == FindingsOfFeature(b, instant) <==>
              BeginsAgree(a, b, BASELINE) && BeginsAgree(a, b, TEMPDELTA) && BeginsAgree(a, b, PERMDELTA)
  {
    hide BeginOf, KeysOf, InForceOf, LiveIn, SequenceFindings, FindingsOfFeature;
    if FindingsOfFeature(a, instant) == FindingsOfFeature(b, instant) {
      forall i, key | i in {BASELINE, TEMPDELTA, PERMDELTA}
        ensures BeginOf(a, i, key) == BeginOf(b, i, key)
      {
        SameBegin(a, b, instant, i, key);
      }
    }
    if BeginsAgree(a, b, BASELINE) && BeginsAgree(a, b, TEMPDELTA) && BeginsAgree(a, b, PERMDELTA) {
      SameFindings(a, b, instant);
    }
  }

  lemma SameBegin(a: seq<Slice>, b: seq<Slice>, instant: int, interpretation: Interpretation, key: Key)
    requires a != [] && b != [] && FindingsOfFeature(a, instant) == FindingsOfFeature(b, instant)
    requires interpretation in {BASELINE, TEMPDELTA, PERMDELTA}
    ensures BeginOf(a, interpretation, key) == BeginOf(b, interpretation, key)
  {
    hide FindingsOfFeature, BeginOf;
    var x, y := BeginOf(a, interpretation, key), BeginOf(b, interpretation, key);
    if |x| > 0 {
      assert x[0] in x;
      BeginOfFeature(a, instant, x[0]);
      BeginOfFeature(b, instant, x[0]);
      assert x[0] in y;
    }
    if |y| > 0 {
      assert y[0] in y;
      BeginOfFeature(a, instant, y[0]);
      BeginOfFeature(b, instant, y[0]);
      assert y[0] in x;
    }
  }

  lemma SameFindings(a: seq<Slice>, b: seq<Slice>, instant: int)
    requires a != [] && b != [] && multiset(a) == multiset(b) && OneElement(a)
    requires BeginsAgree(a, b, BASELINE) && BeginsAgree(a, b, TEMPDELTA) && BeginsAgree(a, b, PERMDELTA)
    ensures FindingsOfFeature(a, instant) == FindingsOfFeature(b, instant)
  {
    hide BeginOf, KeysOf, InForceOf, LiveIn, SequenceFindings, BeginsAgree, EntriesOf;
    PermutationMembers(a, b);
    assert b[0] in a && a[0] in a;
    forall i | i in {BASELINE, TEMPDELTA, PERMDELTA}
      ensures SequenceFindings(a, i) == SequenceFindings(b, i)
      ensures InForceOf(SequencesOf(a, i), instant) == InForceOf(SequencesOf(b, i), instant)
    {
      SequenceFindingsAre(a, i);
      SequenceFindingsAre(b, i);
      KeysOfPermutation(a, b, i);
      FindingsAtAgree(KeysOf(a, i), a, b, i);
      InForceIsLiveIn(a, i, instant);
      InForceIsLiveIn(b, i, instant);
      LiveInPermutation(a, b, i, instant);
    }
  }

  lemma InForceIsLiveIn(slices: seq<Slice>, interpretation: Interpretation, instant: int)
    ensures InForceOf(SequencesOf(slices, interpretation), instant) == LiveIn(slices, interpretation, instant)
  {
    InForceIsLive(KeysOf(slices, interpretation), slices, interpretation, instant);
  }

  lemma GroupAndRest(slices: seq<Slice>, interpretation: Interpretation, key: Key)
    ensures multiset(GroupOf(slices, interpretation, key)) + multiset(WithoutSequence(slices, interpretation, key))
         == multiset(slices)
  {
    forall s
      ensures multiset(GroupOf(slices, interpretation, key))[s]
                + multiset(WithoutSequence(slices, interpretation, key))[s]
           == multiset(slices)[s]
    {
      FilterCount(slices, InGroup(interpretation, key), s);
      FilterCount(slices, OutsideSequence(interpretation, key), s);
    }
  }

  /** The objects with one sequence's slices put in another order, before all others. */
  lemma Rearrange(slices: seq<Slice>, interpretation: Interpretation, key: Key, group: seq<Slice>)
    returns (other: seq<Slice>)
    requires multiset(group) == multiset(GroupOf(slices, interpretation, key))
    ensures multiset(other) == multiset(slices)
    ensures GroupOf(other, interpretation, key) == group
  {
    var rest := WithoutSequence(slices, interpretation, key);
    other := group + rest;
    var p := InGroup(interpretation, key);
    PermutationMembers(group, GroupOf(slices, interpretation, key));
    assert forall s :: s in group ==> p(s);
    GroupAndRest(slices, interpretation, key);
    FilterOfConcat(group, rest, p);
    FilterAll(group, p);
    FilterNone(rest, p);
  }

  /** All the slices that could be the one compared with the valid slice would give the same finding. */
  ghost predicate RunnersUpAgree(slices: seq<Slice>, interpretation: Interpretation, key: Key) {
    var group := multiset(GroupOf(slices, interpretation, key));
    forall top, s, t ::
      IsWinner(group, top) && !top.Cancelled() && IsRunnerUp(group, top, s) && IsRunnerUp(group, top, t) ==>
      BeginFinding(interpretation, key, top, s) == BeginFinding(interpretation, key, top, t)
  }

  /** Every order of the objects gives the same findings. */
  ghost predicate FindingsAreStable(slices: seq<Slice>, instant: int)
    requires slices != []
  {
    forall other: seq<Slice> :: other != [] && multiset(other) == multiset(slices) ==>
      FindingsOfFeature(other, instant) == FindingsOfFeature(slices, instant)
  }

  /** The TS_017 finding of a sequence with a winner is about the winner and a runner-up. */
  lemma BeginOfWinner(slices: seq<Slice>, interpretation: Interpretation, key: Key, top: Slice)
    requires IsWinner(multiset(GroupOf(slices, interpretation, key)), top)
    ensures var group := GroupOf(slices, interpretation, key);
            && group != []
            && BeginOf(slices, interpretation, key)
               == (if top.Cancelled() || |group| == 1 then []
                   else BeginFinding(interpretation, key, top, Previous(group).value))
            && (|group| >= 2 ==> Previous(group).Some? && IsRunnerUp(multiset(group), top, Previous(group).value))
  {
    hide IsRunnerUp, SortByRank, GroupOf, IsWinner, EntryOf, BeginFinding;
    var group := GroupOf(slices, interpretation, key);
    NonEmptyWinner(group, top);
    WinnerIsLast(group, top);
    if |group| >= 2 {
      PreviousIsRunnerUp(group, top);
    }
  }

  lemma NonEmptyWinner(group: seq<Slice>, top: Slice)
    requires IsWinner(multiset(group), top)
    ensures group != []
  {
    assert top in multiset(group);
  }

  lemma NoWinnerNoBegin(slices: seq<Slice>, interpretation: Interpretation, key: Key)
    requires forall top :: !IsWinner(multiset(GroupOf(slices, interpretation, key)), top)
    ensures BeginOf(slices, interpretation, key) == []
  {
    hide IsWinner, EntryOf, GroupOf;
    var group := GroupOf(slices, interpretation, key);
    if group != [] && EntryOf(group).valid.Some? {
      ValidIsWinner(group, EntryOf(group).valid.value);
    }
  }

  lemma AgreeingBegins(slices: seq<Slice>, other: seq<Slice>, interpretation: Interpretation, key: Key)
    requires multiset(slices) == multiset(other) && RunnersUpAgree(slices, interpretation, key)
    ensures BeginOf(other, interpretation, key) == BeginOf(slices, interpretation, key)
  {
    hide IsWinner, IsRunnerUp, GroupOf, BeginOf, BeginFinding, Previous;
    FilterOfPermutation(slices, other, InGroup(interpretation, key));
    assert GroupOf(slices, interpretation, key) == Filter(slices, InGroup(interpretation, key)) by {
      GroupIsFilter(slices, interpretation, key);
    }
    assert GroupOf(other, interpretation, key) == Filter(other, InGroup(interpretation, key)) by {
      GroupIsFilter(other, interpretation, key);
    }
    PermutationMembers(GroupOf(slices, interpretation, key), GroupOf(other, interpretation, key));
    var group := multiset(GroupOf(slices, interpretation, key));
    if top :| IsWinner(group, top) {
      BeginOfWinner(slices, interpretation, key, top);
      BeginOfWinner(other, interpretation, key, top);
    } else {
      NoWinnerNoBegin(slices, interpretation, key);
      NoWinnerNoBegin(other, interpretation, key);
    }
  }

  lemma GroupIsFilter(slices: seq<Slice>, interpretation: Interpretation, key: Key)
    ensures GroupOf(slices, interpretation, key) == Filter(slices, InGroup(interpretation, key))
  {
  }

  /** Any runner-up can be the one a feature's TS_017 finding is about: some order makes it so. */
  lemma RunnerUpReported(slices: seq<Slice>, instant: int, interpretation: Interpretation, key: Key, top: Slice,
                         s: Slice)
    requires slices != [] && FindingsAreStable(slices, instant) && interpretation in {BASELINE, TEMPDELTA, PERMDELTA}
    requires var group := multiset(GroupOf(slices, interpretation, key));
             IsWinner(group, top) && !top.Cancelled() && IsRunnerUp(group, top, s)
    ensures BeginOf(slices, interpretation, key) == BeginFinding(interpretation, key, top, s)
  {
    hide IsWinner, IsRunnerUp, GroupOf, BeginOf, BeginFinding, Previous, FindingsOfFeature;
    var group := AnyRunnerUp(GroupOf(slices, interpretation, key), top, s);
    var other := Rearrange(slices, interpretation, key, group);
    PermutationMembers(other, slices);
    assert FindingsOfFeature(other, instant) == FindingsOfFeature(slices, instant);
    SameBegin(slices, other, instant, interpretation, key);
    BeginOfWinner(other, interpretation, key, top);
    TwoSlices(group, top, s);
  }

  lemma TwoSlices(group: seq<Slice>, top: Slice, s: Slice)
    requires IsWinner(multiset(group), top) && IsRunnerUp(multiset(group), top, s)
    ensures |group| >= 2
  {
    assert top in group && s in group;
  }

  /** The findings of a feature are the same in every order of its objects exactly when, in every sequence, all
      the slices that could be compared with the valid one would give the same TS_017 finding. */
  lemma FeatureStableIff(slices: seq<Slice>, instant: int)
    requires slices != [] && OneElement(slices)
    ensures FindingsAreStable(slices, instant) <==>
              forall i, key :: i in {BASELINE, TEMPDELTA, PERMDELTA} ==> RunnersUpAgree(slices, i, key)
  {
    hide FindingsOfFeature, BeginOf, IsWinner, IsRunnerUp, GroupOf, BeginFinding;
    if FindingsAreStable(slices, instant) {
      forall i, key | i in {BASELINE, TEMPDELTA, PERMDELTA}
        ensures RunnersUpAgree(slices, i, key)
      {
        var group := multiset(GroupOf(slices, i, key));
        forall top, s | IsWinner(group, top) && !top.Cancelled() && IsRunnerUp(group, top, s)
          ensures BeginOf(slices, i, key) == BeginFinding(i, key, top, s)
        {
          RunnerUpReported(slices, instant, i, key, top, s);
        }
      }
    }
    if forall i, key :: i in {BASELINE, TEMPDELTA, PERMDELTA} ==> RunnersUpAgree(slices, i, key) {
      forall other: seq<Slice> | other != [] && multiset(other) == multiset(slices)
        ensures FindingsOfFeature(other, instant) == FindingsOfFeature(slices, instant)
      {
        forall i, key | i in {BASELINE, TEMPDELTA, PERMDELTA}
          ensures BeginOf(slices, i, key) == BeginOf(other, i, key)
        {
          AgreeingBegins(slices, other, i, key);
        }
        FindingsAgreeIff(slices, other, instant);
      }
    }
  }
}
