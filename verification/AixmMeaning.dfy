/**
 What the resolver reports, said of the slices themselves. A slice is in force when it is its sequence's one
 highest correction and its validity covers the instant; which slices are in force fixes the view, and the
 structures of the one that is applied fix the reading, structure by structure.
 */
module AixmMeaning {
  import opened Wrappers
  import opened Lists
  import opened AixmSequences
  import opened AixmResolve
  import opened AixmFindings

  function CorrectionOf(s: Slice): int {
    match s.correction
    case None => 0
    case Some(n) => n
  }

  /** The slice is there once, and every other one of its sequence has a lower correction number. */
  ghost predicate IsValid(slices: seq<Slice>, s: Slice) {
    && multiset(slices)[s] == 1
    && forall t :: t in slices && t != s && t.interpretation == s.interpretation && t.sequence == s.sequence ==>
                     CorrectionOf(t) < CorrectionOf(s)
  }

  /** Begin included, end excluded; an instant and a period without an end cover all that follows. */
  predicate CoversInstant(s: Slice, instant: int) {
    && (s.form == Period || s.form == Instant)
    && s.beginPosition.Some? && s.beginPosition.value <= instant
    && (s.form == Period && s.endPosition.Some? ==> instant < s.endPosition.value)
  }

  ghost predicate IsInForce(slices: seq<Slice>, interpretation: Interpretation, s: Slice, instant: int) {
    s.interpretation == interpretation && IsValid(slices, s) && CoversInstant(s, instant)
  }

  /** What the slice states of the property: activations for an airspace, availabilities for all else. */
  function StatedBy(s: Slice, element: Element): seq<Structure> {
    match element
    case Airspace => s.activation
    case _ => s.availability
  }

  /** A change in force that states the property. */
  ghost predicate IsChange(slices: seq<Slice>, s: Slice, instant: int)
    requires slices != []
  {
    IsInForce(slices, TEMPDELTA, s, instant) && StatedBy(s, slices[0].element) != []
  }

  // ------------------------------------------------------------------------- the slices in force

  lemma WinnerIsValid(slices: seq<Slice>, interpretation: Interpretation, key: Key, s: Slice)
    ensures IsWinner(multiset(GroupOf(slices, interpretation, key)), s) <==>
              s.interpretation == interpretation && s.sequence == key && IsValid(slices, s)
  {
    var group := GroupOf(slices, interpretation, key);
    FilterCount(slices, InGroup(interpretation, key), s);
    assert forall t :: t in multiset(group) <==> t in group;
  }

  lemma EntryIsValid(slices: seq<Slice>, interpretation: Interpretation, key: Key, s: Slice)
    requires key in KeysOf(slices, interpretation)
    ensures GroupOf(slices, interpretation, key) != []
    ensures EntryOf(GroupOf(slices, interpretation, key)).valid == Some(s) <==>
              s.interpretation == interpretation && s.sequence == key && IsValid(slices, s)
  {
    hide EntryOf, IsWinner, IsValid, KeysOf, GroupOf;
    GroupNonEmpty(slices, interpretation, key);
    ValidIsWinner(GroupOf(slices, interpretation, key), s);
    WinnerIsValid(slices, interpretation, key, s);
  }

  lemma {:induction false} ValidsAre(keys: seq<Key>, slices: seq<Slice>, interpretation: Interpretation)
    requires AixmSequences.Ascending(keys) && forall k :: k in keys ==> k in KeysOf(slices, interpretation)
    ensures var valid := ValidOf(EntriesOf(keys, slices, interpretation));
            && Distinct(valid)
            && forall s :: s in valid <==>
                 s.sequence in keys && s.interpretation == interpretation && IsValid(slices, s)
  {
    hide EntryOf, IsValid, KeysOf, GroupOf;
    if keys != [] {
      var n := |keys| - 1;
      assert keys[n] in keys;
      ValidsAre(keys[..n], slices, interpretation);
      GroupNonEmpty(slices, interpretation, keys[n]);
      var entry := EntryOf(GroupOf(slices, interpretation, keys[n]));
      var before := EntriesOf(keys[..n], slices, interpretation);
      assert EntriesOf(keys, slices, interpretation)[..|before|] == before;
      forall s
        ensures entry.valid == Some(s) <==>
                  s.interpretation == interpretation && s.sequence == keys[n] && IsValid(slices, s)
      {
        EntryIsValid(slices, interpretation, keys[n], s);
      }
      assert forall k :: k in keys <==> k in keys[..n] || k == keys[n];
      assert keys[n] !in keys[..n];
    }
  }

  /** The valid slices of one interpretation, each once. */
  lemma ValidMembers(slices: seq<Slice>, interpretation: Interpretation)
    ensures var valid := ValidOf(SequencesOf(slices, interpretation));
            && Distinct(valid)
            && forall s :: s in valid <==> s.interpretation == interpretation && IsValid(slices, s)
  {
    hide IsValid;
    ValidsAre(KeysOf(slices, interpretation), slices, interpretation);
    forall s: Slice | s.interpretation == interpretation && IsValid(slices, s)
      ensures s.sequence in KeysOf(slices, interpretation)
    {
      ValidIsThere(slices, s);
    }
  }

  lemma ValidIsThere(slices: seq<Slice>, s: Slice)
    requires IsValid(slices, s)
    ensures s in slices
  {
    assert s in multiset(slices);
  }

  lemma {:induction false} InForceIsFilter(entries: seq<Entry>, instant: int)
    ensures InForceOf(entries, instant) == Filter(ValidOf(entries), IsInForceAt(instant))
  {
    hide Filter;
    if entries == [] {
      FilterOfEmpty(IsInForceAt(instant));
    } else {
      var n := |entries| - 1;
      InForceIsFilter(entries[..n], instant);
      match entries[n].valid {
        case None => assert ValidOf(entries[..n]) + [] == ValidOf(entries[..n]);
        case Some(s) => FilterOfNext(ValidOf(entries[..n]), s, IsInForceAt(instant));
      }
    }
  }

  lemma InForceIsCovers(s: Slice, instant: int)
    ensures s.InForceAt(instant) <==> CoversInstant(s, instant)
  {
  }

  /** The slices in force, each once. */
  lemma InForceMembers(slices: seq<Slice>, interpretation: Interpretation, instant: int)
    ensures var live := InForceOf(SequencesOf(slices, interpretation), instant);
            && Distinct(live)
            && forall s :: s in live <==> IsInForce(slices, interpretation, s, instant)
  {
    hide IsValid, SequencesOf, CoversInstant;
    var entries := SequencesOf(slices, interpretation);
    ValidMembers(slices, interpretation);
    InForceIsFilter(entries, instant);
    FilterDistinct(ValidOf(entries), IsInForceAt(instant));
    forall s
      ensures IsInForceAt(instant)(s) <==> CoversInstant(s, instant)
    {
      InForceIsCovers(s, instant);
    }
  }

  /** The changes of the property, each once. */
  lemma ChangeMembers(slices: seq<Slice>, instant: int)
    requires slices != []
    ensures var changes := Filter(InForceOf(SequencesOf(slices, TEMPDELTA), instant),
                                  StatesProperty(slices[0].element));
            && Distinct(changes)
            && forall s :: s in changes <==> IsChange(slices, s, instant)
  {
    hide IsInForce, SequencesOf, InForceOf;
    InForceMembers(slices, TEMPDELTA, instant);
    FilterDistinct(InForceOf(SequencesOf(slices, TEMPDELTA), instant), StatesProperty(slices[0].element));
  }

  // ------------------------------------------------------------------------------- the reading

  /** The classes whose CLOSED structures are operative over the others. */
  predicate ClosureRules(element: Element) {
    element == RunwayDirection || element == AirportHeliport
  }

  /** The structures that are not nil, in order; where one of them is CLOSED, on a runway or an airport, the
      CLOSED ones alone. */
  ghost predicate AreOperative(statuses: seq<Structure>, element: Element, operative: seq<Structure>) {
    var closure := ClosureRules(element) && exists x :: x in statuses && !x.nil && x.code == "CLOSED";
    Picks(statuses, operative, (x: Structure) => !x.nil && (closure ==> x.code == "CLOSED"))
  }

  /** More than one structure, each with a signal of its own; not on a runway, an airspace or an airport. */
  predicate OnePerSignal(operative: seq<Structure>, element: Element) {
    && element !in {RunwayDirection, Airspace, AirportHeliport}
    && |operative| > 1
    && (forall x :: x in operative ==> x.signal != "")
    && forall i, j :: 0 <= i < j < |operative| ==> operative[i].signal != operative[j].signal
  }

  predicate SomeScheduled(operative: seq<Structure>) {
    exists x :: x in operative && x.scheduled
  }

  predicate SomeCoded(operative: seq<Structure>) {
    exists x :: x in operative && x.codeState == Stated
  }

  /** What a reading says of the structures, state by state. */
  ghost predicate Reads(statuses: seq<Structure>, element: Element, reading: Reading) {
    var operative := reading.operative;
    var signals := OnePerSignal(operative, element);
    var timed := SomeScheduled(operative);
    var coded := SomeCoded(operative);
    && AreOperative(statuses, element, operative)
    && (reading.state == Scheduled <==> timed)
    && (reading.state == AssertedPerSignal <==> !timed && signals)
    && (reading.state == Asserted <==> !timed && coded && |operative| == 1)
    && (reading.state == AmbiguousState <==> !timed && coded && |operative| > 1 && !signals)
    && (reading.state == NotStated <==>
          statuses == []
          || (operative != [] && !timed && !signals && forall x :: x in operative ==> x.codeState == AbsentCode))
    && (reading.state == Withdrawn <==>
          statuses != []
          && (operative == []
              || (!timed && !signals && !coded && exists x :: x in operative && x.codeState == NilCode)))
    && reading.asserted == (if reading.state == Asserted then Some(operative[0].code) else None)
    && (reading.state != AssertedPerSignal ==> reading.bySignal == map[])
    && (reading.state == AssertedPerSignal ==> SignalsRead(operative, reading.bySignal))
  }

  /** Each signal is given the code its structure states, and no other signal is given one. */
  ghost predicate SignalsRead(operative: seq<Structure>, bySignal: map<string, string>) {
    && (forall x :: x in operative && x.codeState == Stated ==>
          x.signal in bySignal && bySignal[x.signal] == x.code)
    && forall k :: k in bySignal ==> exists x :: x in operative && x.codeState == Stated && x.signal == k
  }

  lemma NextSignal(stated: seq<Structure>, last: Structure, bySignal: map<string, string>)
    requires SignalsRead(stated, bySignal) && forall x :: x in stated ==> x.signal != last.signal
    ensures SignalsRead(stated + [last],
                        if last.codeState == Stated then bySignal[last.signal := last.code] else bySignal)
  {
    var more := if last.codeState == Stated then bySignal[last.signal := last.code] else bySignal;
    assert forall x :: x in stated + [last] <==> x in stated || x == last;
    forall k | k in more
      ensures exists x :: x in stated + [last] && x.codeState == Stated && x.signal == k
    {
      if k in bySignal {
        var x :| x in stated && x.codeState == Stated && x.signal == k;
        assert x in stated + [last];
      } else {
        assert last in stated + [last];
      }
    }
  }

  lemma {:induction false} SignalCodesRead(stated: seq<Structure>)
    requires forall i, j :: 0 <= i < j < |stated| ==> stated[i].signal != stated[j].signal
    ensures SignalsRead(stated, SignalCodes(stated))
  {
    hide SignalsRead;
    if stated == [] {
      NoSignals();
    } else {
      var n := |stated| - 1;
      SignalCodesRead(stated[..n]);
      assert forall x :: x in stated[..n] ==> x.signal != stated[n].signal;
      NextSignal(stated[..n], stated[n], SignalCodes(stated[..n]));
      assert stated == stated[..n] + [stated[n]];
    }
  }

  lemma NoSignals()
    ensures SignalsRead([], map[])
  {
  }

  function IsOpenClosure(): Structure -> bool {
    (x: Structure) => !x.nil && x.code == CLOSED
  }

  lemma ClosedBranchIs(statuses: seq<Structure>, element: Element)
    ensures AreOperative(statuses, element, ClosedBranch(Filter(statuses, NotNil()), StatusElementOf(element)))
  {
    hide Filter, Picks;
    var stated := Filter(statuses, NotNil());
    var closed := Filter(stated, IsCode(CLOSED));
    var closure := ClosureRules(element) && exists x :: x in statuses && !x.nil && x.code == "CLOSED";
    var p := (x: Structure) => !x.nil && (closure ==> x.code == "CLOSED");
    ShorterFilter(stated, IsCode(CLOSED));
    if closure {
      var x :| x in statuses && !x.nil && x.code == "CLOSED";
      assert x in stated && x in closed;
      FilterTwice(statuses, NotNil(), IsCode(CLOSED), IsOpenClosure());
      FilterPicks(statuses, IsOpenClosure(), p);
    } else {
      if ClosureRules(element) {
        FilterNone(stated, IsCode(CLOSED));
      }
      FilterPicks(statuses, NotNil(), p);
    }
  }

  lemma CodesRead(statuses: seq<Structure>, element: Element, operative: seq<Structure>)
    requires AreOperative(statuses, element, operative) && statuses != [] && operative != []
    requires !OnePerSignal(operative, element)
    ensures Reads(statuses, element, ReadCodes(operative))
  {
    hide AreOperative, OnePerSignal, Filter;
    var coded := Filter(operative, HasCode());
    assert operative[0] in operative;
    if coded != [] {
      assert coded[0] in coded && coded[0] in operative;
    }
    if |operative| == 1 {
      assert operative == [operative[0]];
      CodedOne(operative[0]);
    }
  }

  lemma CodedOne(x: Structure)
    ensures Filter([x], HasCode()) == if x.codeState == Stated then [x] else []
  {
    assert [x][..0] == [];
  }

  lemma BranchOf(stated: seq<Structure>, element: Element)
    ensures ClosedBranch(stated, StatusElementOf(element)) == [] <==> stated == []
    ensures StatusElementOf(element).NavaidStatus? <==> element !in {RunwayDirection, Airspace, AirportHeliport}
    ensures StatusElementOf(element).NavaidStatus? ==> ClosedBranch(stated, StatusElementOf(element)) == stated
  {
  }

  /** The reading of what a source states. */
  lemma ReadingMeans(statuses: seq<Structure>, element: Element, source: Source)
    requires source == NoSource ==> statuses == []
    ensures Reads(statuses, element, Operative(statuses, source, StatusElementOf(element)))
  {
    hide Filter, Picks, ReadCodes, ClosedBranch;
    var stated := Filter(statuses, NotNil());
    var operative := ClosedBranch(stated, StatusElementOf(element));
    ClosedBranchIs(statuses, element);
    BranchOf(stated, element);
    if stated == [] {
    } else if operative == stated && OnePerSignal(stated, element) {
      assert stated[0] in stated;
      SignalCodesRead(stated);
    } else {
      assert stated[0] in stated;
      CodesRead(statuses, element, operative);
    }
  }

  // ---------------------------------------------------------------------------------- the view

  /** One baseline in force and no change of the property: what the baseline states is reported, and is read. */
  lemma BaselineReported(slices: seq<Slice>, instant: int, b: Slice)
    requires slices != []
    requires forall s :: IsInForce(slices, BASELINE, s, instant) <==> s == b
    requires forall s :: !IsChange(slices, s, instant)
    ensures var view := ViewOf(slices, instant);
            var statuses := StatedBy(b, slices[0].element);
            && view.outcome == Resolved && view.baseline == Some(b) && view.delta == None
            && view.statuses == statuses
            && (view.source == FromBaseline <==> statuses != []) && (view.source == NoSource <==> statuses == [])
            && Reads(statuses, slices[0].element, view.reading)
  {
    hide IsInForce, SequencesOf, InForceOf, Operative, Reads, IsChange;
    var element := slices[0].element;
    InForceMembers(slices, BASELINE, instant);
    ChangeMembers(slices, instant);
    OnlyOne(InForceOf(SequencesOf(slices, BASELINE), instant), b);
    NoChange(slices, instant);
    ReadingMeans(StatedBy(b, element), element, if StatedBy(b, element) != [] then FromBaseline else NoSource);
  }

  lemma NoChange(slices: seq<Slice>, instant: int)
    requires slices != [] && forall s :: !IsChange(slices, s, instant)
    ensures Filter(InForceOf(SequencesOf(slices, TEMPDELTA), instant), StatesProperty(slices[0].element)) == []
  {
    hide IsChange, SequencesOf, InForceOf;
    var live := InForceOf(SequencesOf(slices, TEMPDELTA), instant);
    ChangeMembers(slices, instant);
    forall s | s in live
      ensures !StatesProperty(slices[0].element)(s)
    {
      assert s in Filter(live, StatesProperty(slices[0].element)) <==> IsChange(slices, s, instant);
    }
    FilterNone(live, StatesProperty(slices[0].element));
  }

  /** One change of the property, and no two baselines: what the change states replaces all else. */
  lemma ChangeReported(slices: seq<Slice>, instant: int, d: Slice)
    requires slices != []
    requires forall s :: IsChange(slices, s, instant) <==> s == d
    requires forall s, t ::
               IsInForce(slices, BASELINE, s, instant) && IsInForce(slices, BASELINE, t, instant) ==> s == t
    ensures var view := ViewOf(slices, instant);
            var statuses := StatedBy(d, slices[0].element);
            && (forall s :: view.baseline == Some(s) <==> IsInForce(slices, BASELINE, s, instant))
            && view.outcome == (if view.baseline == None then Unresolved else Resolved)
            && view.delta == Some(d) && view.source == FromDelta && view.statuses == statuses
            && Reads(statuses, slices[0].element, view.reading)
  {
    hide IsInForce, SequencesOf, InForceOf, Operative, Reads, IsChange;
    var element := slices[0].element;
    InForceMembers(slices, BASELINE, instant);
    ChangeMembers(slices, instant);
    AtMostOne(InForceOf(SequencesOf(slices, BASELINE), instant));
    OnlyOne(Filter(InForceOf(SequencesOf(slices, TEMPDELTA), instant), StatesProperty(element)), d);
    ReadingMeans(StatedBy(d, element), element, FromDelta);
  }

  lemma AtMostOne(s: seq<Slice>)
    requires Distinct(s) && forall x, y :: x in s && y in s ==> x == y
    ensures s == [] || s == [s[0]]
  {
    assert |s| < 2 || s[0] != s[1];
    assert forall i :: 0 <= i < |s| ==> s[i] in s;
  }

  /** Neither: nothing is reported. */
  lemma NothingReported(slices: seq<Slice>, instant: int)
    requires slices != []
    requires forall s :: !IsInForce(slices, BASELINE, s, instant)
    requires forall s :: !IsChange(slices, s, instant)
    ensures ViewOf(slices, instant)
         == View(Unresolved, None, None, NoSource, [], Reading(NotStated, None, [], map[]))
  {
    hide IsInForce, SequencesOf, InForceOf, IsChange;
    var live := InForceOf(SequencesOf(slices, BASELINE), instant);
    InForceMembers(slices, BASELINE, instant);
    SomeMember(live);
    NoChange(slices, instant);
  }

  /** Two baselines in force, or two changes of the property: nothing is reported but the ambiguity. */
  lemma AmbiguityReported(slices: seq<Slice>, instant: int, s: Slice, t: Slice)
    requires slices != [] && s != t
    requires (IsInForce(slices, BASELINE, s, instant) && IsInForce(slices, BASELINE, t, instant))
             || (IsChange(slices, s, instant) && IsChange(slices, t, instant))
    ensures var view := ViewOf(slices, instant);
            && view.outcome == Ambiguous && view.delta == None && view.source == NoSource && view.statuses == []
            && view.reading == Reading(AmbiguousState, None, [], map[])
            && forall b :: view.baseline == Some(b) <==>
                 (forall s :: IsInForce(slices, BASELINE, s, instant) <==> s == b)
  {
    hide IsInForce, SequencesOf, InForceOf, IsChange;
    var baselines := InForceOf(SequencesOf(slices, BASELINE), instant);
    var changes := Filter(InForceOf(SequencesOf(slices, TEMPDELTA), instant), StatesProperty(slices[0].element));
    InForceMembers(slices, BASELINE, instant);
    ChangeMembers(slices, instant);
    if IsChange(slices, s, instant) && IsChange(slices, t, instant) {
      TwoMembers(changes, s, t);
    } else {
      TwoMembers(baselines, s, t);
    }
    forall b
      ensures ViewOf(slices, instant).baseline == Some(b) <==>
                (forall s :: IsInForce(slices, BASELINE, s, instant) <==> s == b)
    {
      if forall s :: IsInForce(slices, BASELINE, s, instant) <==> s == b {
        OnlyOne(baselines, b);
      }
    }
  }

  lemma TwoMembers(slices: seq<Slice>, s: Slice, t: Slice)
    requires s in slices && t in slices && s != t
    ensures |slices| > 1
  {
  }

  // ------------------------------------------------------------------------------- the history

  /** What the history says of a sequence: of its valid slice's own positions, and whether it is applied. */
  predicate IsDisposition(entry: HistoryEntry, instant: int, applied: set<Slice>) {
    match entry.valid
    case None => entry.disposition == Conflict
    case Some(v) =>
      var dated := (v.form == Period || v.form == Instant) && v.beginPosition.Some?;
      && (entry.disposition == Cancelled <==> v.form == NilTime || v.form == AbsentTime)
      && (entry.disposition == NotApplicable <==> (v.form == Period || v.form == Instant) && v.beginPosition == None)
      && (entry.disposition == Future <==> dated && instant < v.beginPosition.value)
      && (entry.disposition == Expired <==>
            dated && v.form == Period && v.endPosition.Some? && v.beginPosition.value <= instant
            && v.endPosition.value <= instant)
      && (entry.disposition == Applied <==> CoversInstant(v, instant) && v in applied)
      && (entry.disposition == InForce <==> CoversInstant(v, instant) && v !in applied)
  }

  lemma DispositionMeans(slices: seq<Slice>, instant: int, applied: set<Slice>)
    ensures forall h :: h in HistoryOfFeature(slices, instant, applied) ==> IsDisposition(h, instant, applied)
  {
    hide SequencesOf;
    forall entries: seq<Entry>, h | h in HistoryOf(entries, instant, applied)
      ensures IsDisposition(h, instant, applied)
    {
      var i :| 0 <= i < |entries| && h == HistoryOf(entries, instant, applied)[i];
    }
  }

  /** By number, and a missing number last. */
  predicate ComesFirst(a: Key, b: Key) {
    match (a, b)
    case (Some(m), Some(n)) => m < n
    case (Some(_), None) => true
    case _ => false
  }

  /** The slices of one entry of a history are of one sequence. */
  predicate IsEntryOf(h: HistoryEntry, interpretation: Interpretation, key: Key) {
    && (forall s :: s in h.superseded ==> s.interpretation == interpretation && s.sequence == key)
    && (h.valid.Some? ==> h.valid.value.interpretation == interpretation && h.valid.value.sequence == key)
    && (h.valid.Some? || h.superseded != [])
  }

  /** The entries of one interpretation are in order of their sequence numbers. */
  lemma HistoryOrder(slices: seq<Slice>, interpretation: Interpretation, instant: int, applied: set<Slice>)
    returns (keys: seq<Key>)
    ensures var history := HistoryOf(SequencesOf(slices, interpretation), instant, applied);
            && |keys| == |history|
            && (forall i, j :: 0 <= i < j < |keys| ==> ComesFirst(keys[i], keys[j]))
            && forall i :: 0 <= i < |keys| ==> IsEntryOf(history[i], interpretation, keys[i])
  {
    hide SequencesOf, KeysOf;
    keys := KeysOf(slices, interpretation);
    var entries := SequencesOf(slices, interpretation);
    EntriesCount(slices, interpretation);
    forall i, j | 0 <= i < j < |keys|
      ensures ComesFirst(keys[i], keys[j])
    {
      assert Before(keys[i], keys[j]);
    }
    forall i | 0 <= i < |keys|
      ensures IsEntryOf(HistoryOf(entries, instant, applied)[i], interpretation, keys[i])
    {
      EntryHolds(slices, interpretation, i);
    }
  }

  lemma EntryHolds(slices: seq<Slice>, interpretation: Interpretation, i: nat)
    requires i < |KeysOf(slices, interpretation)|
    ensures |SequencesOf(slices, interpretation)| == |KeysOf(slices, interpretation)|
    ensures var entry := SequencesOf(slices, interpretation)[i];
            IsEntryOf(HistoryEntry(entry.valid, entry.superseded, Conflict), interpretation,
                      KeysOf(slices, interpretation)[i])
  {
    hide KeysOf, EntryOf, GroupOf;
    var keys := KeysOf(slices, interpretation);
    EntryAt(keys, slices, interpretation, i);
    var group := GroupOf(slices, interpretation, keys[i]);
    EntryConserves(group);
    forall s | s in SlicesOf(EntryOf(group))
      ensures s.interpretation == interpretation && s.sequence == keys[i]
    {
      assert s in multiset(SlicesOf(EntryOf(group))) && s in group;
      GroupMember(slices, interpretation, keys[i], s);
    }
    assert |multiset(SlicesOf(EntryOf(group)))| == |multiset(group)| > 0;
  }

  // -------------------------------------------------------------------------------- the Event

  ghost predicate IsValidEvent(slices: seq<Slice>, s: Slice) {
    s.interpretation == BASELINE && IsValid(slices, s)
  }

  predicate HasBegin(s: Slice) {
    (s.form == Period || s.form == Instant) && s.beginPosition.Some?
  }

  predicate IsOver(s: Slice, instant: int) {
    s.form == Period && s.endPosition.Some? && s.endPosition.value <= instant
  }

  ghost predicate IsOnlyEvent(slices: seq<Slice>, s: Slice, instant: int) {
    forall t :: IsValidEvent(slices, t) && CoversInstant(t, instant) <==> t == s
  }

  /** The state of an Event, by its valid slices: active, by the one that covers the instant; several active, by
      two that do; none valid, by there being none; called off, by none having a begin; ended, by all that have
      one being over, unless all of these are still to begin; and not yet for the rest. */
  lemma EventStateMeans(slices: seq<Slice>, instant: int)
    ensures var state := EventStateOf(ValidOf(SequencesOf(slices, BASELINE)), instant);
            && (state == Active <==> exists s :: IsOnlyEvent(slices, s, instant))
            && (state == SeveralActive <==>
                  exists s, t :: s != t && IsValidEvent(slices, s) && CoversInstant(s, instant)
                                 && IsValidEvent(slices, t) && CoversInstant(t, instant))
            && (state == NoValid <==> forall s :: !IsValidEvent(slices, s))
            && (state == CalledOff <==>
                  (exists s :: IsValidEvent(slices, s)) && forall s :: IsValidEvent(slices, s) ==> !HasBegin(s))
            && (state == Ended <==>
                  (exists s :: IsValidEvent(slices, s) && HasBegin(s) && s.beginPosition.value <= instant)
                  && forall s :: IsValidEvent(slices, s) && HasBegin(s) ==> IsOver(s, instant))
  {
    hide IsValidEvent, SequencesOf, EventStateOf, CoversInstant, HasBegin, IsOver;
    var valid := ValidOf(SequencesOf(slices, BASELINE));
    EventMembers(slices);
    EventCovers(valid, instant);
    EventRest(valid, instant);
    if s :| IsOnlyEvent(slices, s, instant) {
      assert IsValidEvent(slices, s);
    }
    if EventStateOf(valid, instant) == Active {
      var s :| s in valid && CoversInstant(s, instant);
      assert IsOnlyEvent(slices, s, instant);
    }
  }

  lemma EventMembers(slices: seq<Slice>)
    ensures var valid := ValidOf(SequencesOf(slices, BASELINE));
            Distinct(valid) && forall s :: s in valid <==> IsValidEvent(slices, s)
  {
    hide IsValid, SequencesOf;
    ValidMembers(slices, BASELINE);
  }

  /** The slices that cover the instant decide whether the Event is active. */
  lemma EventCovers(valid: seq<Slice>, instant: int)
    requires Distinct(valid)
    ensures var state := EventStateOf(valid, instant);
            && (state == Active <==>
                  (exists s :: s in valid && CoversInstant(s, instant))
                  && forall s, t :: s in valid && t in valid && CoversInstant(s, instant) && CoversInstant(t, instant)
                                    ==> s == t)
            && (state == SeveralActive <==>
                  exists s, t :: s != t && s in valid && t in valid && CoversInstant(s, instant)
                                 && CoversInstant(t, instant))
  {
    hide Filter, CoversInstant;
    var covering := Filter(valid, IsInForceAt(instant));
    FilterDistinct(valid, IsInForceAt(instant));
    forall s: Slice
      ensures s.InForceAt(instant) <==> CoversInstant(s, instant)
    {
      InForceIsCovers(s, instant);
    }
    SomeMember(covering);
    if |covering| > 1 {
      assert covering[0] in covering && covering[1] in covering && covering[0] != covering[1];
    } else if |covering| == 1 {
      assert covering == [covering[0]];
    }
  }

  /** The states of an Event no slice of which covers the instant. */
  lemma EventRest(valid: seq<Slice>, instant: int)
    requires Distinct(valid)
    ensures var state := EventStateOf(valid, instant);
            && (state == NoValid <==> forall s :: s !in valid)
            && (state == CalledOff <==> (exists s :: s in valid) && forall s :: s in valid ==> !HasBegin(s))
            && (state == Ended <==>
                  (exists s :: s in valid && HasBegin(s) && s.beginPosition.value <= instant)
                  && forall s :: s in valid && HasBegin(s) ==> IsOver(s, instant))
  {
    hide Filter;
    var covering := Filter(valid, IsInForceAt(instant));
    var live := Filter(valid, IsLive());
    SomeMember(valid);
    SomeMember(covering);
    SomeMember(live);
  }

  // ------------------------------------------------------------------------------ the findings

  predicate InSequence(s: Slice, interpretation: Interpretation, key: Key) {
    s.interpretation == interpretation && s.sequence == key
  }

  /** Two slices of the sequence have this correction number. */
  ghost predicate StandTwice(slices: seq<Slice>, interpretation: Interpretation, key: Key, rank: int) {
    exists p, q :: 0 <= p < q < |slices|
                   && InSequence(slices[p], interpretation, key) && CorrectionOf(slices[p]) == rank
                   && InSequence(slices[q], interpretation, key) && CorrectionOf(slices[q]) == rank
  }

  /** Two slices of the sequence stand at its highest correction number. */
  ghost predicate IsDisputed(slices: seq<Slice>, interpretation: Interpretation, key: Key, rank: int) {
    && StandTwice(slices, interpretation, key, rank)
    && forall t :: t in slices && InSequence(t, interpretation, key) ==> CorrectionOf(t) <= rank
  }

  /** The valid slice of the sequence has correction `rank`, and the lowest of its other slices without a
      validity has `cancelledAt`. */
  ghost predicate IsReinstated(slices: seq<Slice>, interpretation: Interpretation, key: Key, cancelledAt: int,
                               rank: int) {
    exists top, s ::
      && IsValid(slices, top) && InSequence(top, interpretation, key) && CorrectionOf(top) == rank
      && IsCalledOff(slices, top, s) && CorrectionOf(s) == cancelledAt
      && forall t :: IsCalledOff(slices, top, t) ==> CorrectionOf(t) >= cancelledAt
  }

  predicate IsCalledOff(slices: seq<Slice>, top: Slice, s: Slice) {
    && s in slices && s != top && InSequence(s, top.interpretation, top.sequence)
    && (s.form == NilTime || s.form == AbsentTime)
  }

  function InGroupAt(interpretation: Interpretation, key: Key, rank: int): Slice -> bool {
    (s: Slice) => InSequence(s, interpretation, key) && CorrectionOf(s) == rank
  }

  lemma TwoPlaces(slices: seq<Slice>, p: Slice -> bool)
    ensures |Filter(slices, p)| > 1 <==> exists i, j :: 0 <= i < j < |slices| && p(slices[i]) && p(slices[j])
  {
    hide Filter;
    var ks := FilterPicksAt(slices, p, p);
    if |ks| > 1 {
      assert p(slices[ks[0]]) by {
        assert ks[0] in ks;
      }
      assert p(slices[ks[1]]) by {
        assert ks[1] in ks;
      }
    }
    if i, j :| 0 <= i < j < |slices| && p(slices[i]) && p(slices[j]) {
      assert i in ks && j in ks;
    }
  }

  lemma TwinsIn(slices: seq<Slice>, interpretation: Interpretation, key: Key, rank: int)
    ensures var sorted := SortByRank(GroupOf(slices, interpretation, key));
            |Filter(sorted, RankIs(rank))| > 1 <==>
              StandTwice(slices, interpretation, key, rank)
  {
    hide Filter, SortByRank;
    var group := GroupOf(slices, interpretation, key);
    SortIsSorted(group);
    FilterOfPermutation(SortByRank(group), group, RankIs(rank));
    PermutationMembers(Filter(SortByRank(group), RankIs(rank)), Filter(group, RankIs(rank)));
    FilterTwice(slices, InGroup(interpretation, key), RankIs(rank), InGroupAt(interpretation, key, rank));
    TwoPlaces(slices, InGroupAt(interpretation, key, rank));
  }

  lemma DisputedIff(slices: seq<Slice>, interpretation: Interpretation, key: Key, rank: int)
    ensures DuplicateCorrection(interpretation, key, rank) in OrderOf(slices, interpretation, key) <==>
              IsDisputed(slices, interpretation, key, rank)
  {
    hide Filter, SortByRank, OrderFindings, EntryOf, StandTwice;
    var group := GroupOf(slices, interpretation, key);
    TwinsIn(slices, interpretation, key, rank);
    assert forall s :: s in group <==> s in slices && InSequence(s, interpretation, key);
    if group != [] {
      HighestTwice(group, interpretation, key, rank);
    } else {
      NoneTwice(rank);
    }
  }

  lemma NoneTwice(rank: int)
    ensures Filter(SortByRank([]), RankIs(rank)) == []
  {
  }

  lemma HighestTwice(group: seq<Slice>, interpretation: Interpretation, key: Key, rank: int)
    requires group != []
    ensures DuplicateCorrection(interpretation, key, rank) in OrderFindings(interpretation, key, EntryOf(group)) <==>
              |Filter(SortByRank(group), RankIs(rank))| > 1 && forall s :: s in group ==> CorrectionOf(s) <= rank
  {
    hide Filter, SortByRank;
    var sorted := SortByRank(group);
    var top := sorted[|sorted| - 1];
    var twins := Filter(sorted, RankIs(rank));
    SortIsSorted(group);
    PermutationMembers(group, sorted);
    SomeMember(twins);
    assert top in group && forall s :: s in group ==> CorrectionOf(s) <= CorrectionOf(top) == top.Rank();
  }

  lemma CancellingIs(slices: seq<Slice>, interpretation: Interpretation, key: Key, top: Slice)
    requires GroupOf(slices, interpretation, key) != []
    requires EntryOf(GroupOf(slices, interpretation, key)).valid == Some(top)
    ensures InSequence(top, interpretation, key) && IsValid(slices, top)
    ensures var cancelling := Filter(EntryOf(GroupOf(slices, interpretation, key)).superseded, IsCancelled());
            ByRank(cancelling) && forall s :: s in cancelling <==> IsCalledOff(slices, top, s)
  {
    hide Filter, SortByRank, EntryOf;
    var group := GroupOf(slices, interpretation, key);
    var superseded := EntryOf(group).superseded;
    EntryShape(group);
    SortIsSorted(group);
    ValidIsWinner(group, top);
    WinnerIsValid(slices, interpretation, key, top);
    FilterByRank(superseded, IsCancelled());
    assert multiset(superseded + [top])[top] == 1;
    forall s
      ensures s in superseded <==> s in slices && s != top && InSequence(s, interpretation, key)
    {
      assert s in multiset(group) <==> s in superseded || s == top;
      assert s in superseded <==> s in multiset(superseded);
    }
  }

  lemma ReinstatedIff(slices: seq<Slice>, interpretation: Interpretation, key: Key, cancelledAt: int, rank: int)
    ensures Reinstated(interpretation, key, cancelledAt, rank) in OrderOf(slices, interpretation, key) <==>
              IsReinstated(slices, interpretation, key, cancelledAt, rank)
  {
    hide Filter, SortByRank, EntryOf, IsValid;
    var group := GroupOf(slices, interpretation, key);
    assert forall s :: s in group <==> s in slices && InSequence(s, interpretation, key);
    if group != [] && EntryOf(group).valid.Some? {
      var top := EntryOf(group).valid.value;
      var cancelling := Filter(EntryOf(group).superseded, IsCancelled());
      CancellingIs(slices, interpretation, key, top);
      assert forall i :: 0 <= i < |cancelling| ==> cancelling[i] in cancelling;
      SomeMember(cancelling);
      forall s
        ensures EntryOf(group).valid == Some(s) <==> InSequence(s, interpretation, key) && IsValid(slices, s)
      {
        ValidIsWinner(group, s);
        WinnerIsValid(slices, interpretation, key, s);
      }
    } else {
      NoneValid(slices, interpretation, key);
    }
  }

  lemma NoneValid(slices: seq<Slice>, interpretation: Interpretation, key: Key)
    requires var group := GroupOf(slices, interpretation, key);
             group == [] || EntryOf(group).valid.None?
    ensures forall s :: InSequence(s, interpretation, key) ==> !IsValid(slices, s)
  {
    hide EntryOf, IsValid, GroupOf, IsWinner;
    var group := GroupOf(slices, interpretation, key);
    forall s | InSequence(s, interpretation, key)
      ensures !IsValid(slices, s)
    {
      WinnerIsValid(slices, interpretation, key, s);
      if group != [] {
        ValidIsWinner(group, s);
      } else {
        NoWinner(s);
      }
    }
  }

  lemma NoWinner(s: Slice)
    ensures !IsWinner(multiset([]), s)
  {
  }

  lemma {:induction false} OrderListed(keys: seq<Key>, slices: seq<Slice>, interpretation: Interpretation, f: Finding)
    requires f.DuplicateCorrection? || f.Reinstated?
    ensures f in FindingsAt(keys, slices, interpretation) <==>
              f.interpretation == interpretation && f.sequence in keys
                && f in OrderOf(slices, interpretation, f.sequence)
  {
    hide OrderOf, BeginOf;
    if keys != [] {
      var n := |keys| - 1;
      OrderListed(keys[..n], slices, interpretation, f);
      OrderNames(slices, interpretation, keys[n], f);
      assert forall k :: k in keys <==> k in keys[..n] || k == keys[n];
    }
  }

  lemma OrderNames(slices: seq<Slice>, interpretation: Interpretation, key: Key, f: Finding)
    ensures f in OrderOf(slices, interpretation, key) ==>
              (f.DuplicateCorrection? || f.Reinstated?) && f.interpretation == interpretation && f.sequence == key
  {
    hide Filter, EntryOf, GroupOf;
  }

  lemma OrderOfFeature(slices: seq<Slice>, instant: int, f: Finding)
    requires slices != [] && (f.DuplicateCorrection? || f.Reinstated?)
    ensures f in FindingsOfFeature(slices, instant) <==>
              f.interpretation in {BASELINE, TEMPDELTA, PERMDELTA} && f in OrderOf(slices, f.interpretation, f.sequence)
  {
    hide SequenceFindings, OrderOf, InForceOf, KeysOf;
    forall i | i in {BASELINE, TEMPDELTA, PERMDELTA}
      ensures f in SequenceFindings(slices, i) <==> f.interpretation == i && f in OrderOf(slices, i, f.sequence)
    {
      SequenceFindingsAre(slices, i);
      OrderListed(KeysOf(slices, i), slices, i, f);
      if f.sequence !in KeysOf(slices, i) {
        NoGroupNoOrder(slices, i, f.sequence);
      }
    }
  }

  lemma NoGroupNoOrder(slices: seq<Slice>, interpretation: Interpretation, key: Key)
    requires key !in KeysOf(slices, interpretation)
    ensures OrderOf(slices, interpretation, key) == []
  {
    GroupNonEmpty(slices, interpretation, key);
  }

  /** Which findings a feature has, said of its slices: a correction number claimed twice at the top of its
      sequence, a sequence that goes on after being called off, and two baselines or two changes at once. */
  lemma FindingMeans(slices: seq<Slice>, instant: int, f: Finding)
    requires slices != [] && !f.BeginMoved?
    ensures f in FindingsOfFeature(slices, instant) <==>
              match f
              case DuplicateCorrection(i, key, rank) =>
                i in {BASELINE, TEMPDELTA, PERMDELTA} && IsDisputed(slices, i, key, rank)
              case Reinstated(i, key, cancelledAt, rank) =>
                i in {BASELINE, TEMPDELTA, PERMDELTA} && IsReinstated(slices, i, key, cancelledAt, rank)
              case OverlappingBaselines(count) => count > 1 && BaselinesNumber(slices, instant, count)
              case OverlappingDeltas(count) =>
                count > 1 && ChangesNumber(slices, instant, count)
                && !exists n: nat :: n > 1 && BaselinesNumber(slices, instant, n)
  {
    hide FindingsOfFeature, IsDisputed, IsReinstated, OrderOf, BaselinesNumber, ChangesNumber;
    match f {
      case DuplicateCorrection(i, key, rank) =>
        OrderOfFeature(slices, instant, f);
        DisputedIff(slices, i, key, rank);
      case Reinstated(i, key, cancelledAt, rank) =>
        OrderOfFeature(slices, instant, f);
        ReinstatedIff(slices, i, key, cancelledAt, rank);
      case OverlappingBaselines(count) =>
        OverlapOfFeature(slices, instant, f);
        BaselinesAre(slices, instant, count);
      case OverlappingDeltas(count) =>
        OverlapOfFeature(slices, instant, f);
        ChangesAre(slices, instant, count);
        BaselinesAre(slices, instant, |InForceOf(SequencesOf(slices, BASELINE), instant)|);
        forall n: nat
          ensures BaselinesNumber(slices, instant, n) <==> n == |InForceOf(SequencesOf(slices, BASELINE), instant)|
        {
          BaselinesAre(slices, instant, n);
        }
    }
  }

  ghost predicate BaselinesNumber(slices: seq<Slice>, instant: int, count: nat) {
    |set s | s in slices && IsInForce(slices, BASELINE, s, instant)| == count
  }

  ghost predicate ChangesNumber(slices: seq<Slice>, instant: int, count: nat)
    requires slices != []
  {
    |set s | s in slices && IsChange(slices, s, instant)| == count
  }

  lemma {:induction false} DistinctCount(s: seq<Slice>)
    requires Distinct(s)
    ensures |set x | x in s| == |s|
  {
    if s != [] {
      var n := |s| - 1;
      DistinctCount(s[..n]);
      assert (set x | x in s) == (set x | x in s[..n]) + {s[n]};
    }
  }

  lemma BaselinesAre(slices: seq<Slice>, instant: int, count: nat)
    ensures BaselinesNumber(slices, instant, count) <==> count == |InForceOf(SequencesOf(slices, BASELINE), instant)|
  {
    hide IsValid, InForceOf, SequencesOf, CoversInstant;
    var live := InForceOf(SequencesOf(slices, BASELINE), instant);
    InForceMembers(slices, BASELINE, instant);
    DistinctCount(live);
    forall s | s in live
      ensures s in slices
    {
      ValidIsThere(slices, s);
    }
    assert (set s | s in slices && IsInForce(slices, BASELINE, s, instant)) == (set s | s in live);
  }

  lemma ChangesAre(slices: seq<Slice>, instant: int, count: nat)
    requires slices != []
    ensures ChangesNumber(slices, instant, count) <==>
              count == |Filter(InForceOf(SequencesOf(slices, TEMPDELTA), instant), StatesProperty(slices[0].element))|
  {
    hide IsValid, InForceOf, SequencesOf, CoversInstant, Filter;
    var changes := Filter(InForceOf(SequencesOf(slices, TEMPDELTA), instant), StatesProperty(slices[0].element));
    ChangeMembers(slices, instant);
    DistinctCount(changes);
    forall s | s in changes
      ensures s in slices
    {
      ValidIsThere(slices, s);
    }
    assert (set s | s in slices && IsChange(slices, s, instant)) == (set s | s in changes);
  }

  lemma OverlapOfFeature(slices: seq<Slice>, instant: int, f: Finding)
    requires slices != [] && (f.OverlappingBaselines? || f.OverlappingDeltas?)
    ensures var baselines := InForceOf(SequencesOf(slices, BASELINE), instant);
            var changes := Filter(InForceOf(SequencesOf(slices, TEMPDELTA), instant),
                                  StatesProperty(slices[0].element));
            f in FindingsOfFeature(slices, instant) <==>
              if |baselines| > 1 then f == OverlappingBaselines(|baselines|)
              else |changes| > 1 && f == OverlappingDeltas(|changes|)
  {
    hide SequenceFindings, InForceOf, SequencesOf, Filter;
    forall i | i in {BASELINE, TEMPDELTA, PERMDELTA}
      ensures f !in SequenceFindings(slices, i)
    {
      SequenceFindingsAre(slices, i);
      NoOverlapListed(KeysOf(slices, i), slices, i, f);
    }
  }

  lemma {:induction false} NoOverlapListed(keys: seq<Key>, slices: seq<Slice>, interpretation: Interpretation,
                                           f: Finding)
    requires f.OverlappingBaselines? || f.OverlappingDeltas?
    ensures f !in FindingsAt(keys, slices, interpretation)
  {
    hide OrderOf, BeginOf;
    if keys != [] {
      NoOverlapListed(keys[..|keys| - 1], slices, interpretation, f);
      OrderNames(slices, interpretation, keys[|keys| - 1], f);
    }
  }
}
