/**
 The AIXM temporality resolver: the availability of one feature at one instant, from the slices a
 caller hands over in any order. Proved of it: order plays no part, a cancelled sequence is as if
 absent, a lower correction changes nothing, every slice stays on the record, and time moves each
 sequence one way.
 */
module AixmResolve {
  import opened Wrappers
  import opened Lists
  import opened AixmSequences

  datatype Outcome = Resolved | Unresolved | Ambiguous
  datatype Source = FromDelta | FromBaseline | NoSource
  datatype State = Asserted | AssertedPerSignal | Scheduled | Withdrawn | NotStated | Unknown | AmbiguousState
  datatype Disposition = Applied | InForce | Cancelled | Expired | Future | Conflict | NotApplicable

  /** What the rules make of the structures in force. */
  datatype Reading = Reading(state: State, asserted: Option<string>, operative: seq<Structure>,
                             bySignal: map<string, string>)

  datatype View = View(
    outcome: Outcome,
    baseline: Option<Slice>,
    delta: Option<Slice>,
    source: Source,
    statuses: seq<Structure>,
    reading: Reading)

  datatype HistoryEntry = HistoryEntry(valid: Option<Slice>, superseded: seq<Slice>, disposition: Disposition)

  datatype Resolution = Resolution(
    element: Element,
    view: View,
    applied: seq<Slice>,
    findings: seq<Finding>,
    history: seq<HistoryEntry>)

  datatype ResolverError = NoSlice | IsEvent

  /** The status structures of the feature classes. */
  datatype StatusElement = ManoeuvringArea | AirspaceActivation | NavaidStatus | AirportStatus

  const CLOSED := "CLOSED"

  /** The status structure of a feature class; anything else is navaid equipment. */
  function StatusElementOf(element: Element): StatusElement {
    match element
    case RunwayDirection => ManoeuvringArea
    case Airspace => AirspaceActivation
    case AirportHeliport => AirportStatus
    case _ => NavaidStatus
  }

  /** The structures a slice states for its feature class; it states the property when it has any. */
  function StructuresOf(s: Slice, element: Element): seq<Structure> {
    if element.Airspace? then s.activation else s.availability
  }

  // -------------------------------------------------------------------- the operative structure

  function IsCode(code: string): Structure -> bool {
    (s: Structure) => s.code == code
  }

  function NotNil(): Structure -> bool {
    (s: Structure) => !s.nil
  }

  function HasCode(): Structure -> bool {
    (s: Structure) => s.codeState.Stated?
  }

  /** Every structure names a signal and no two the same. */
  predicate PerSignal(stated: seq<Structure>) {
    && (forall s :: s in stated ==> s.signal != "")
    && forall i, j :: 0 <= i < j < |stated| ==> stated[i].signal != stated[j].signal
  }

  function SignalCodes(stated: seq<Structure>): map<string, string> {
    if stated == [] then map[]
    else
      var n := |stated| - 1;
      var before := SignalCodes(stated[..n]);
      if stated[n].codeState.Stated? then before[stated[n].signal := stated[n].code] else before
  }

  predicate AnyScheduled(structures: seq<Structure>) {
    exists s :: s in structures && s.scheduled
  }

  /** The CLOSED branch is operative over the branches copied from the baseline beside it. */
  function ClosedBranch(stated: seq<Structure>, statusElement: StatusElement): seq<Structure> {
    var closed := Filter(stated, IsCode(CLOSED));
    if (statusElement.ManoeuvringArea? || statusElement.AirportStatus?) && closed != [] && |closed| < |stated|
    then closed else stated
  }

  /** `_operative`. */
  function Operative(statuses: seq<Structure>, source: Source, statusElement: StatusElement): Reading {
    if source.NoSource? then Reading(if statuses == [] then NotStated else Unknown, None, [], map[])
    else
      var stated := Filter(statuses, NotNil());
      if stated == [] then Reading(if statuses == [] then NotStated else Withdrawn, None, [], map[])
      else if statusElement.NavaidStatus? && |stated| > 1 && PerSignal(stated) then
        if AnyScheduled(stated) then Reading(Scheduled, None, stated, map[])
        else Reading(AssertedPerSignal, None, stated, SignalCodes(stated))
      else ReadCodes(ClosedBranch(stated, statusElement))
  }

  /** The codes of the operative structures: one unscheduled code is asserted, and only then. */
  function ReadCodes(operative: seq<Structure>): Reading {
    if AnyScheduled(operative) then Reading(Scheduled, None, operative, map[])
    else
      var coded := Filter(operative, HasCode());
      if |operative| == 1 && |coded| == 1 then Reading(Asserted, Some(coded[0].code), operative, map[])
      else if coded == [] then
        Reading(if forall s :: s in operative ==> s.codeState.AbsentCode? then NotStated else Withdrawn,
                None, operative, map[])
      else Reading(AmbiguousState, None, operative, map[])
  }

  // -------------------------------------------------------------------------------- the view

  function StatesProperty(element: Element): Slice -> bool {
    (s: Slice) => StructuresOf(s, element) != []
  }

  /** From the valid slices in force at the instant to the view. */
  function Decide(baselines: seq<Slice>, deltas: seq<Slice>, element: Element): View {
    var statusElement := StatusElementOf(element);
    var modifying := Filter(deltas, StatesProperty(element));
    var baseline := if |baselines| == 1 then Some(baselines[0]) else None;
    if |baselines| > 1 || |modifying| > 1 then
      View(Ambiguous, baseline, None, NoSource, [], Reading(AmbiguousState, None, [], map[]))
    else
      var outcome := if baselines == [] then Unresolved else Resolved;
      if |modifying| == 1 then
        var statuses := StructuresOf(modifying[0], element);
        View(outcome, baseline, Some(modifying[0]), FromDelta, statuses, Operative(statuses, FromDelta, statusElement))
      else
        var statuses := if baseline.Some? then StructuresOf(baseline.value, element) else [];
        var source := if statuses != [] then FromBaseline else NoSource;
        View(outcome, baseline, None, source, statuses, Operative(statuses, source, statusElement))
  }

  /** What one sequence contributes at an instant: its valid slice, or nothing. */
  function Contribution(entry: Entry, instant: int): seq<Slice> {
    if entry.valid.Some? && entry.valid.value.InForceAt(instant) then [entry.valid.value] else []
  }

  function InForceOf(entries: seq<Entry>, instant: int): seq<Slice> {
    if entries == [] then []
    else InForceOf(entries[..|entries| - 1], instant) + Contribution(entries[|entries| - 1], instant)
  }

  function ViewOf(slices: seq<Slice>, instant: int): View
    requires slices != []
  {
    Decide(InForceOf(SequencesOf(slices, BASELINE), instant),
           InForceOf(SequencesOf(slices, TEMPDELTA), instant),
           slices[0].element)
  }

  function AppliedOf(view: View): set<Slice> {
    (if view.baseline.Some? then {view.baseline.value} else {})
    + (if view.delta.Some? then {view.delta.value} else {})
  }

  function DispositionOf(entry: Entry, instant: int, applied: set<Slice>): Disposition {
    match entry.valid
    case None => Conflict
    case Some(v) =>
      if v.Cancelled() then Cancelled
      else if v.Begin().None? then NotApplicable
      else if instant < v.Begin().value then Future
      else if v.End().Some? && instant >= v.End().value then Expired
      else if v in applied then Applied
      else InForce
  }

  function HistoryOf(entries: seq<Entry>, instant: int, applied: set<Slice>): (r: seq<HistoryEntry>)
    ensures |r| == |entries|
    ensures forall i :: 0 <= i < |r| ==>
              r[i] == HistoryEntry(entries[i].valid, entries[i].superseded, DispositionOf(entries[i], instant, applied))
  {
    seq(|entries|, i requires 0 <= i < |entries| =>
      HistoryEntry(entries[i].valid, entries[i].superseded, DispositionOf(entries[i], instant, applied)))
  }

  function HistoryOfFeature(slices: seq<Slice>, instant: int, applied: set<Slice>): seq<HistoryEntry> {
    HistoryOf(SequencesOf(slices, BASELINE), instant, applied)
    + HistoryOf(SequencesOf(slices, PERMDELTA), instant, applied)
    + HistoryOf(SequencesOf(slices, TEMPDELTA), instant, applied)
  }

  /** TS_009 and TS_011: more than one baseline in force, or more than one change of the property. */
  function OverlapFindings(baselines: seq<Slice>, deltas: seq<Slice>, element: Element): seq<Finding> {
    var modifying := Filter(deltas, StatesProperty(element));
    if |baselines| > 1 then [OverlappingBaselines(|baselines|)]
    else if |modifying| > 1 then [OverlappingDeltas(|modifying|)]
    else []
  }

  /** The findings about the sequences of one interpretation. */
  function SequenceFindings(slices: seq<Slice>, interpretation: Interpretation): seq<Finding> {
    EntriesCount(slices, interpretation);
    AllFindings(KeysOf(slices, interpretation), SequencesOf(slices, interpretation), interpretation)
  }

  function FindingsOfFeature(slices: seq<Slice>, instant: int): seq<Finding>
    requires slices != []
  {
    SequenceFindings(slices, BASELINE) + SequenceFindings(slices, TEMPDELTA) + SequenceFindings(slices, PERMDELTA)
    + OverlapFindings(InForceOf(SequencesOf(slices, BASELINE), instant),
                      InForceOf(SequencesOf(slices, TEMPDELTA), instant), slices[0].element)
  }

  function NamesFeature(feature: string): Slice -> bool {
    (s: Slice) => s.identifier == feature
  }

  function IsApplied(applied: set<Slice>): Slice -> bool {
    (s: Slice) => s in applied
  }

  /** `_history`: one entry per sequence. */
  method History(entries: seq<Entry>, instant: int, applied: set<Slice>) returns (out: seq<HistoryEntry>)
    ensures out == HistoryOf(entries, instant, applied)
  {
    out := [];
    for i := 0 to |entries|
      invariant |out| == i && out == HistoryOf(entries, instant, applied)[..i]
    {
      var disposition;
      match entries[i].valid {
        case None =>
          disposition := Conflict;
        case Some(v) =>
          if v.Cancelled() {
            disposition := Cancelled;
          } else if v.Begin().None? {
            disposition := NotApplicable;
          } else if instant < v.Begin().value {
            disposition := Future;
          } else if v.End().Some? && instant >= v.End().value {
            disposition := Expired;
          } else {
            disposition := if v in applied then Applied else InForce;
          }
      }
      out := out + [HistoryEntry(entries[i].valid, entries[i].superseded, disposition)];
    }
  }

  /** `resolve`. Identifiers are already stripped and lower-cased. */
  method Resolve(objects: seq<Slice>, feature: string, instant: int) returns (r: Result<Resolution, ResolverError>)
    ensures var slices := Filter(objects, NamesFeature(feature));
            if slices == [] then r == Err(NoSlice)
            else if slices[0].element.EventElement? then r == Err(IsEvent)
            else
              && r.Ok?
              && r.value.element == slices[0].element
              && r.value.view == ViewOf(slices, instant)
              && r.value.applied == Filter(slices, IsApplied(AppliedOf(r.value.view)))
              && r.value.findings == FindingsOfFeature(slices, instant)
              && r.value.history == HistoryOfFeature(slices, instant, AppliedOf(r.value.view))
    ensures forall s :: s in Filter(objects, NamesFeature(feature)) <==> s in objects && s.identifier == feature
    ensures r.Ok? ==>
              forall s :: s in r.value.applied <==>
                s in objects && s.identifier == feature
                && (r.value.view.baseline == Some(s) || r.value.view.delta == Some(s))
  {
    hide SequencesOf, KeysOf, AllFindings, Filter, Operative, InForceOf;
    assert forall s :: NamesFeature(feature)(s) <==> s.identifier == feature;
    var slices := Filter(objects, NamesFeature(feature));
    if slices == [] {
      return Err(NoSlice);
    }
    var element := slices[0].element;
    if element.EventElement? {
      return Err(IsEvent);
    }
    var statusElement := StatusElementOf(element);
    var baselines, findings := Sequences(slices, BASELINE, []);
    var tempdeltas, permdeltas;
    tempdeltas, findings := Sequences(slices, TEMPDELTA, findings);
    permdeltas, findings := Sequences(slices, PERMDELTA, findings);
    assert findings == SequenceFindings(slices, BASELINE) + SequenceFindings(slices, TEMPDELTA)
                       + SequenceFindings(slices, PERMDELTA);
    var covering := InForceOf(baselines, instant);
    var applied: set<Slice> := {};
    var outcome := Resolved;
    var baseline: Option<Slice> := None;
    if |covering| > 1 {
      outcome := Ambiguous;
      findings := findings + [OverlappingBaselines(|covering|)];
    } else if |covering| == 0 {
      outcome := Unresolved;
    } else {
      baseline := Some(covering[0]);
      applied := applied + {covering[0]};
    }
    var modifying := Filter(InForceOf(tempdeltas, instant), StatesProperty(element));
    var source, statuses, delta: Option<Slice> := NoSource, [], None;
    if outcome != Ambiguous && |modifying| > 1 {
      outcome := Ambiguous;
      findings := findings + [OverlappingDeltas(|modifying|)];
    } else if outcome == Ambiguous {
    } else if |modifying| == 1 {
      delta := Some(modifying[0]);
      statuses := StructuresOf(modifying[0], element);
      applied := applied + {modifying[0]};
      source := FromDelta;
    } else if baseline.Some? {
      statuses := StructuresOf(baseline.value, element);
      source := if statuses != [] then FromBaseline else NoSource;
    }
    var reading := Reading(AmbiguousState, None, [], map[]);
    if outcome != Ambiguous {
      reading := Operative(statuses, source, statusElement);
    }
    var view := View(outcome, baseline, delta, source, statuses, reading);
    assert applied == AppliedOf(view);
    assert forall s :: IsApplied(applied)(s) <==> baseline == Some(s) || delta == Some(s);
    var h1 := History(baselines, instant, applied);
    var h2 := History(permdeltas, instant, applied);
    var h3 := History(tempdeltas, instant, applied);
    r := Ok(Resolution(element, view, Filter(slices, IsApplied(applied)), findings, h1 + h2 + h3));
  }

  // -------------------------------------------------------- the slices in force, key by key

  function LiveOf(slices: seq<Slice>, interpretation: Interpretation, key: Key, instant: int): seq<Slice> {
    var group := GroupOf(slices, interpretation, key);
    if group == [] then [] else Contribution(EntryOf(group), instant)
  }

  function LiveAt(keys: seq<Key>, slices: seq<Slice>, interpretation: Interpretation, instant: int): seq<Slice> {
    if keys == [] then []
    else
      var n := |keys| - 1;
      LiveAt(keys[..n], slices, interpretation, instant) + LiveOf(slices, interpretation, keys[n], instant)
  }

  lemma {:induction false} InForceIsLive(keys: seq<Key>, slices: seq<Slice>, interpretation: Interpretation,
                                         instant: int)
    requires forall k :: k in keys ==> k in KeysOf(slices, interpretation)
    ensures InForceOf(EntriesOf(keys, slices, interpretation), instant) == LiveAt(keys, slices, interpretation, instant)
  {
    hide KeysOf, EntryOf, GroupOf, Contribution;
    if keys != [] {
      var n := |keys| - 1;
      assert keys[n] in keys;
      GroupNonEmpty(slices, interpretation, keys[n]);
      InForceIsLive(keys[..n], slices, interpretation, instant);
      var entries := EntriesOf(keys, slices, interpretation);
      assert entries[..|entries| - 1] == EntriesOf(keys[..n], slices, interpretation);
    }
  }

  /** A sequence with a winner contributes the winner, while it is in force. */
  lemma WinnerLives(slices: seq<Slice>, interpretation: Interpretation, key: Key, winner: Slice, instant: int)
    requires IsWinner(multiset(GroupOf(slices, interpretation, key)), winner)
    ensures winner in GroupOf(slices, interpretation, key)
    ensures LiveOf(slices, interpretation, key, instant) == if winner.InForceAt(instant) then [winner] else []
  {
    hide EntryOf, GroupOf;
    var group := GroupOf(slices, interpretation, key);
    assert winner in multiset(group);
    ValidIsWinner(group, winner);
  }

  function LiveIn(slices: seq<Slice>, interpretation: Interpretation, instant: int): seq<Slice> {
    LiveAt(KeysOf(slices, interpretation), slices, interpretation, instant)
  }

  /** The view is a function of what each sequence contributes. */
  lemma ViewIsLive(slices: seq<Slice>, instant: int)
    requires slices != []
    ensures ViewOf(slices, instant)
         == Decide(LiveIn(slices, BASELINE, instant), LiveIn(slices, TEMPDELTA, instant), slices[0].element)
  {
    InForceIsLive(KeysOf(slices, BASELINE), slices, BASELINE, instant);
    InForceIsLive(KeysOf(slices, TEMPDELTA), slices, TEMPDELTA, instant);
  }

  lemma {:induction false} SameLive(keys: seq<Key>, a: seq<Slice>, b: seq<Slice>, interpretation: Interpretation,
                                    instant: int)
    requires forall k :: k in keys ==> LiveOf(a, interpretation, k, instant) == LiveOf(b, interpretation, k, instant)
    ensures LiveAt(keys, a, interpretation, instant) == LiveAt(keys, b, interpretation, instant)
  {
    if keys != [] {
      var n := |keys| - 1;
      assert keys[n] in keys && forall k :: k in keys[..n] ==> k in keys;
      SameLive(keys[..n], a, b, interpretation, instant);
    }
  }

  function OtherKey(key: Key): Key -> bool {
    (k: Key) => k != key
  }

  /** A sequence that contributes nothing may as well not be there. */
  lemma {:induction false} DropDead(keys: seq<Key>, key: Key, slices: seq<Slice>, interpretation: Interpretation,
                                    instant: int)
    requires LiveOf(slices, interpretation, key, instant) == []
    ensures LiveAt(keys, slices, interpretation, instant)
         == LiveAt(Filter(keys, OtherKey(key)), slices, interpretation, instant)
  {
    if keys != [] {
      var n := |keys| - 1;
      DropDead(keys[..n], key, slices, interpretation, instant);
      var before := Filter(keys[..n], OtherKey(key));
      assert (before + [keys[n]])[..|before|] == before;
    }
  }

  // --------------------------------------------------------------------- order plays no part

  lemma KeysOfPermutation(a: seq<Slice>, b: seq<Slice>, interpretation: Interpretation)
    requires multiset(a) == multiset(b)
    ensures KeysOf(a, interpretation) == KeysOf(b, interpretation)
  {
    PermutationMembers(a, b);
    AscendingUnique(KeysOf(a, interpretation), KeysOf(b, interpretation));
  }

  /** Every sequence has the same valid slice in both orders. */
  lemma GroupOfPermutation(a: seq<Slice>, b: seq<Slice>, interpretation: Interpretation, key: Key)
    requires multiset(a) == multiset(b)
    ensures GroupOf(a, interpretation, key) == [] <==> GroupOf(b, interpretation, key) == []
    ensures GroupOf(a, interpretation, key) != [] ==>
              EntryOf(GroupOf(a, interpretation, key)).valid == EntryOf(GroupOf(b, interpretation, key)).valid
  {
    FilterOfPermutation(a, b, InGroup(interpretation, key));
    PermutationMembers(GroupOf(a, interpretation, key), GroupOf(b, interpretation, key));
    if GroupOf(a, interpretation, key) != [] {
      ValidOfPermutation(GroupOf(a, interpretation, key), GroupOf(b, interpretation, key));
    }
  }

  lemma LiveOfPermutation(a: seq<Slice>, b: seq<Slice>, interpretation: Interpretation, key: Key, instant: int)
    requires multiset(a) == multiset(b)
    ensures LiveOf(a, interpretation, key, instant) == LiveOf(b, interpretation, key, instant)
  {
    hide GroupOf, EntryOf;
    GroupOfPermutation(a, b, interpretation, key);
  }

  lemma LiveInPermutation(a: seq<Slice>, b: seq<Slice>, interpretation: Interpretation, instant: int)
    requires multiset(a) == multiset(b)
    ensures LiveIn(a, interpretation, instant) == LiveIn(b, interpretation, instant)
  {
    hide KeysOf, LiveOf;
    KeysOfPermutation(a, b, interpretation);
    forall k | k in KeysOf(a, interpretation)
      ensures LiveOf(a, interpretation, k, instant) == LiveOf(b, interpretation, k, instant)
    {
      LiveOfPermutation(a, b, interpretation, k, instant);
    }
    SameLive(KeysOf(a, interpretation), a, b, interpretation, instant);
  }

  /** All slices of a feature name one element. */
  predicate OneElement(slices: seq<Slice>) {
    forall s, t :: s in slices && t in slices ==> s.element == t.element
  }

  /** The dispositions of the sequences of one interpretation, in order of their numbers. */
  function Dispositions(history: seq<HistoryEntry>): seq<Disposition> {
    seq(|history|, i requires 0 <= i < |history| => history[i].disposition)
  }

  /** For any two orders of the same objects: the same outcome, source, baseline, applied change,
      statuses, operative structures and asserted codes, and the same disposition of each sequence. */
  lemma OrderPlaysNoPart(a: seq<Slice>, b: seq<Slice>, feature: string, instant: int)
    requires multiset(a) == multiset(b)
    requires OneElement(Filter(a, NamesFeature(feature)))
    ensures var sa, sb := Filter(a, NamesFeature(feature)), Filter(b, NamesFeature(feature));
            && (sa == [] <==> sb == [])
            && (sa != [] ==>
                  && ViewOf(sa, instant) == ViewOf(sb, instant)
                  && var applied := AppliedOf(ViewOf(sa, instant));
                     Dispositions(HistoryOfFeature(sa, instant, applied))
                       == Dispositions(HistoryOfFeature(sb, instant, applied)))
  {
    var sa, sb := Filter(a, NamesFeature(feature)), Filter(b, NamesFeature(feature));
    FilterOfPermutation(a, b, NamesFeature(feature));
    PermutationMembers(sa, sb);
    if sa != [] {
      ViewOfPermutation(sa, sb, instant);
      var applied := AppliedOf(ViewOf(sa, instant));
      HistoryOfPermutation(sa, sb, instant, applied);
    }
  }

  lemma ViewOfPermutation(a: seq<Slice>, b: seq<Slice>, instant: int)
    requires a != [] && b != [] && multiset(a) == multiset(b) && OneElement(a)
    ensures ViewOf(a, instant) == ViewOf(b, instant)
  {
    hide ViewOf, LiveIn, Decide;
    PermutationMembers(a, b);
    assert b[0] in a && a[0] in a;
    ViewIsLive(a, instant);
    ViewIsLive(b, instant);
    LiveInPermutation(a, b, BASELINE, instant);
    LiveInPermutation(a, b, TEMPDELTA, instant);
  }

  lemma {:induction false} EntryAt(keys: seq<Key>, slices: seq<Slice>, interpretation: Interpretation, i: nat)
    requires forall k :: k in keys ==> k in KeysOf(slices, interpretation)
    requires i < |keys|
    ensures |EntriesOf(keys, slices, interpretation)| == |keys|
    ensures GroupOf(slices, interpretation, keys[i]) != []
    ensures EntriesOf(keys, slices, interpretation)[i] == EntryOf(GroupOf(slices, interpretation, keys[i]))
  {
    hide KeysOf, GroupOf, EntryOf;
    var n := |keys| - 1;
    assert keys[i] in keys && keys[n] in keys;
    GroupNonEmpty(slices, interpretation, keys[i]);
    GroupNonEmpty(slices, interpretation, keys[n]);
    if i < n {
      EntryAt(keys[..n], slices, interpretation, i);
    } else if n > 0 {
      EntryAt(keys[..n], slices, interpretation, 0);
    }
  }

  lemma EntriesCount(slices: seq<Slice>, interpretation: Interpretation)
    ensures |SequencesOf(slices, interpretation)| == |KeysOf(slices, interpretation)|
  {
    if KeysOf(slices, interpretation) != [] {
      EntryAt(KeysOf(slices, interpretation), slices, interpretation, 0);
    }
  }

  /** Each sequence of `a` has the valid slice it has in `b`. */
  lemma ValidsOfPermutation(a: seq<Slice>, b: seq<Slice>, interpretation: Interpretation)
    requires multiset(a) == multiset(b)
    ensures |SequencesOf(a, interpretation)| == |SequencesOf(b, interpretation)|
    ensures forall i :: 0 <= i < |SequencesOf(a, interpretation)| ==>
              SequencesOf(a, interpretation)[i].valid == SequencesOf(b, interpretation)[i].valid
  {
    hide KeysOf, GroupOf, EntryOf, EntriesOf;
    var keys := KeysOf(a, interpretation);
    KeysOfPermutation(a, b, interpretation);
    EntriesCount(a, interpretation);
    EntriesCount(b, interpretation);
    forall i | 0 <= i < |keys|
      ensures SequencesOf(a, interpretation)[i].valid == SequencesOf(b, interpretation)[i].valid
    {
      EntryAt(keys, a, interpretation, i);
      EntryAt(keys, b, interpretation, i);
      GroupOfPermutation(a, b, interpretation, keys[i]);
    }
  }

  lemma HistoryOfPermutation(a: seq<Slice>, b: seq<Slice>, instant: int, applied: set<Slice>)
    requires multiset(a) == multiset(b)
    ensures Dispositions(HistoryOfFeature(a, instant, applied)) == Dispositions(HistoryOfFeature(b, instant, applied))
  {
    hide SequencesOf;
    ValidsOfPermutation(a, b, BASELINE);
    ValidsOfPermutation(a, b, PERMDELTA);
    ValidsOfPermutation(a, b, TEMPDELTA);
  }

  // --------------------------------------------------------------- cancelled means as if absent

  function OutsideSequence(interpretation: Interpretation, key: Key): Slice -> bool {
    (s: Slice) => !(s.interpretation == interpretation && s.sequence == key)
  }

  function WithoutSequence(slices: seq<Slice>, interpretation: Interpretation, key: Key): seq<Slice> {
    Filter(slices, OutsideSequence(interpretation, key))
  }

  lemma {:induction false} GroupOutside(slices: seq<Slice>, gone: Interpretation, key: Key,
                                        interpretation: Interpretation, k: Key)
    requires interpretation != gone || k != key
    ensures GroupOf(WithoutSequence(slices, gone, key), interpretation, k) == GroupOf(slices, interpretation, k)
  {
    if slices != [] {
      var n := |slices| - 1;
      GroupOutside(slices[..n], gone, key, interpretation, k);
      var before := WithoutSequence(slices[..n], gone, key);
      assert (before + [slices[n]])[..|before|] == before;
    }
  }

  lemma {:induction false} AscendingFilter(keys: seq<Key>, key: Key)
    requires Ascending(keys)
    ensures Ascending(Filter(keys, OtherKey(key)))
  {
    if keys != [] {
      var n := |keys| - 1;
      AscendingFilter(keys[..n], key);
      var before := Filter(keys[..n], OtherKey(key));
      forall i | 0 <= i < |before|
        ensures Before(before[i], keys[n])
      {
        assert before[i] in before;
        var j :| 0 <= j < n && keys[j] == before[i];
      }
    }
  }

  lemma KeysWithout(slices: seq<Slice>, key: Key, gone: Interpretation, interpretation: Interpretation)
    ensures KeysOf(WithoutSequence(slices, gone, key), interpretation)
         == if interpretation == gone then Filter(KeysOf(slices, interpretation), OtherKey(key))
            else KeysOf(slices, interpretation)
  {
    var rest := WithoutSequence(slices, gone, key);
    var keys := KeysOf(slices, interpretation);
    var expected := if interpretation == gone then Filter(keys, OtherKey(key)) else keys;
    AscendingFilter(keys, key);
    forall k
      ensures k in KeysOf(rest, interpretation) <==> k in expected
    {
      if k in expected {
        var s :| s in slices && s.interpretation == interpretation && s.sequence == k;
        assert s in rest;
      }
    }
    AscendingUnique(KeysOf(rest, interpretation), expected);
  }

  /** Removing a whole sequence that contributes nothing leaves the rest in force as it was. */
  lemma LiveWithout(slices: seq<Slice>, key: Key, gone: Interpretation, interpretation: Interpretation, instant: int)
    requires LiveOf(slices, gone, key, instant) == []
    ensures LiveIn(WithoutSequence(slices, gone, key), interpretation, instant)
              == LiveIn(slices, interpretation, instant)
  {
    hide KeysOf, LiveAt, WithoutSequence;
    var rest := WithoutSequence(slices, gone, key);
    var keys := KeysOf(rest, interpretation);
    KeysWithout(slices, key, gone, interpretation);
    forall k | k in keys
      ensures LiveOf(rest, interpretation, k, instant) == LiveOf(slices, interpretation, k, instant)
    {
      GroupOutside(slices, gone, key, interpretation, k);
    }
    SameLive(keys, rest, slices, interpretation, instant);
    if interpretation == gone {
      DropDead(KeysOf(slices, interpretation), key, slices, interpretation, instant);
    }
  }

  lemma ViewWithout(slices: seq<Slice>, key: Key, gone: Interpretation, instant: int)
    requires OneElement(slices) && LiveOf(slices, gone, key, instant) == []
    requires WithoutSequence(slices, gone, key) != []
    ensures slices != [] && ViewOf(WithoutSequence(slices, gone, key), instant) == ViewOf(slices, instant)
  {
    hide LiveIn, ViewOf, Decide, LiveOf;
    var rest := WithoutSequence(slices, gone, key);
    assert rest[0] in rest;
    assert rest[0] in slices && slices[0] in slices;
    ViewIsLive(slices, instant);
    ViewIsLive(rest, instant);
    LiveWithout(slices, key, gone, BASELINE, instant);
    LiveWithout(slices, key, gone, TEMPDELTA, instant);
  }

  /** A temporary change whose valid correction is a cancellation: the view is that of the objects
      without the whole sequence, whatever else was on it. */
  lemma CancelledIsAbsent(slices: seq<Slice>, key: Key, cancellation: Slice, instant: int)
    requires OneElement(slices)
    requires IsWinner(multiset(GroupOf(slices, TEMPDELTA, key)), cancellation) && cancellation.Cancelled()
    requires WithoutSequence(slices, TEMPDELTA, key) != []
    ensures slices != [] && ViewOf(slices, instant) == ViewOf(WithoutSequence(slices, TEMPDELTA, key), instant)
  {
    hide IsWinner, GroupOf, WithoutSequence, ViewOf, LiveOf;
    WinnerLives(slices, TEMPDELTA, key, cancellation, instant);
    ViewWithout(slices, key, TEMPDELTA, instant);
  }

  /** The same at an instant the valid slice of a sequence does not cover. */
  lemma ElsewhenIsAbsent(slices: seq<Slice>, key: Key, winner: Slice, gone: Interpretation, instant: int)
    requires OneElement(slices)
    requires IsWinner(multiset(GroupOf(slices, gone, key)), winner) && !winner.InForceAt(instant)
    requires WithoutSequence(slices, gone, key) != []
    ensures slices != [] && ViewOf(slices, instant) == ViewOf(WithoutSequence(slices, gone, key), instant)
  {
    hide IsWinner, GroupOf, WithoutSequence, ViewOf, LiveOf;
    WinnerLives(slices, gone, key, winner, instant);
    ViewWithout(slices, key, gone, instant);
  }

  // ------------------------------------------------------------ a lower correction is irrelevant

  lemma GroupOfSnoc(slices: seq<Slice>, late: Slice, interpretation: Interpretation, key: Key)
    ensures GroupOf(slices + [late], interpretation, key)
         == GroupOf(slices, interpretation, key) + if InGroup(interpretation, key)(late) then [late] else []
  {
    assert (slices + [late])[..|slices|] == slices;
  }

  lemma LiveOfLower(slices: seq<Slice>, late: Slice, winner: Slice, interpretation: Interpretation, key: Key,
                    instant: int)
    requires IsWinner(multiset(GroupOf(slices, late.interpretation, late.sequence)), winner)
    requires late.Rank() < winner.Rank()
    ensures LiveOf(slices + [late], interpretation, key, instant) == LiveOf(slices, interpretation, key, instant)
  {
    GroupOfSnoc(slices, late, interpretation, key);
    if InGroup(interpretation, key)(late) {
      hide GroupOf, EntryOf, LiveOf;
      StillWinner(GroupOf(slices, interpretation, key), late, winner);
      WinnerLives(slices, interpretation, key, winner, instant);
      WinnerLives(slices + [late], interpretation, key, winner, instant);
    } else {
      assert GroupOf(slices, interpretation, key) + [] == GroupOf(slices, interpretation, key);
    }
  }

  lemma StillWinner(group: seq<Slice>, late: Slice, winner: Slice)
    requires IsWinner(multiset(group), winner) && late.Rank() < winner.Rank()
    ensures IsWinner(multiset(group + [late]), winner)
  {
    assert forall t :: t in multiset(group + [late]) <==> t in multiset(group) || t == late;
  }

  /** A correction with a lower number than the valid one, received at any time, changes nothing in
      the view. */
  lemma LowerCorrectionIrrelevant(slices: seq<Slice>, late: Slice, winner: Slice, instant: int)
    requires OneElement(slices)
    requires IsWinner(multiset(GroupOf(slices, late.interpretation, late.sequence)), winner)
    requires late.Rank() < winner.Rank()
    ensures slices != [] && ViewOf(slices + [late], instant) == ViewOf(slices, instant)
  {
    hide LiveOf, ViewOf, Decide;
    assert winner in GroupOf(slices, late.interpretation, late.sequence) by {
      assert winner in multiset(GroupOf(slices, late.interpretation, late.sequence));
    }
    ViewIsLive(slices, instant);
    ViewIsLive(slices + [late], instant);
    LiveInLower(slices, late, winner, BASELINE, instant);
    LiveInLower(slices, late, winner, TEMPDELTA, instant);
  }

  lemma LiveInLower(slices: seq<Slice>, late: Slice, winner: Slice, interpretation: Interpretation, instant: int)
    requires IsWinner(multiset(GroupOf(slices, late.interpretation, late.sequence)), winner)
    requires late.Rank() < winner.Rank()
    ensures LiveIn(slices + [late], interpretation, instant) == LiveIn(slices, interpretation, instant)
  {
    hide KeysOf, LiveOf, LiveAt;
    var keys := KeysOf(slices, interpretation);
    forall k
      ensures k in keys <==> k in KeysOf(slices + [late], interpretation)
    {
      hide KeysOf;
      GroupNonEmpty(slices, interpretation, k);
      GroupNonEmpty(slices + [late], interpretation, k);
      GroupOfSnoc(slices, late, interpretation, k);
      assert winner in multiset(GroupOf(slices, late.interpretation, late.sequence));
    }
    AscendingUnique(keys, KeysOf(slices + [late], interpretation));
    forall k | k in keys
      ensures LiveOf(slices, interpretation, k, instant) == LiveOf(slices + [late], interpretation, k, instant)
    {
      LiveOfLower(slices, late, winner, interpretation, k, instant);
    }
    SameLive(keys, slices, slices + [late], interpretation, instant);
  }

  // ------------------------------------------------------------------------- the record stands

  /** Every slice a history names, valid or superseded. */
  function Recorded(history: seq<HistoryEntry>): seq<Slice> {
    if history == [] then []
    else
      var last := history[|history| - 1];
      Recorded(history[..|history| - 1]) + SlicesOf(Entry(last.valid, last.superseded))
  }

  lemma {:induction false} RecordedOfConcat(a: seq<HistoryEntry>, b: seq<HistoryEntry>)
    ensures Recorded(a + b) == Recorded(a) + Recorded(b)
  {
    hide SlicesOf;
    if b == [] {
      assert a + b == a;
    } else {
      var n := |b| - 1;
      RecordedOfConcat(a, b[..n]);
      assert (a + b)[..|a| + n] == a + b[..n];
    }
  }

  function InKeys(interpretation: Interpretation, keys: seq<Key>): Slice -> bool {
    (s: Slice) => s.interpretation == interpretation && s.sequence in keys
  }

  lemma {:induction false} EntriesRecorded(keys: seq<Key>, slices: seq<Slice>, interpretation: Interpretation,
                                           instant: int, applied: set<Slice>)
    requires Ascending(keys) && forall k :: k in keys ==> k in KeysOf(slices, interpretation)
    ensures multiset(Recorded(HistoryOf(EntriesOf(keys, slices, interpretation), instant, applied)))
         == multiset(Filter(slices, InKeys(interpretation, keys)))
  {
    hide KeysOf, EntryOf, Filter, InKeys, SlicesOf, DispositionOf;
    if keys == [] {
      NothingRecorded(slices, interpretation);
    } else {
      var n := |keys| - 1;
      var entries := EntriesOf(keys, slices, interpretation);
      assert keys[n] in keys;
      GroupNonEmpty(slices, interpretation, keys[n]);
      EntriesRecorded(keys[..n], slices, interpretation, instant, applied);
      LastRecorded(entries, instant, applied);
      assert entries[..|entries| - 1] == EntriesOf(keys[..n], slices, interpretation);
      EntryConserves(GroupOf(slices, interpretation, keys[n]));
      GroupsJoin(slices, interpretation, keys);
    }
  }

  lemma NothingRecorded(slices: seq<Slice>, interpretation: Interpretation)
    ensures multiset(Filter(slices, InKeys(interpretation, []))) == multiset{}
  {
    forall s
      ensures multiset(Filter(slices, InKeys(interpretation, [])))[s] == 0
    {
      FilterCount(slices, InKeys(interpretation, []), s);
    }
  }

  lemma LastRecorded(entries: seq<Entry>, instant: int, applied: set<Slice>)
    requires entries != []
    ensures var n := |entries| - 1;
            Recorded(HistoryOf(entries, instant, applied))
              == Recorded(HistoryOf(entries[..n], instant, applied)) + SlicesOf(entries[n])
  {
    hide DispositionOf, SlicesOf;
    var history := HistoryOf(entries, instant, applied);
    assert history[..|entries| - 1] == HistoryOf(entries[..|entries| - 1], instant, applied);
  }

  lemma GroupsJoin(slices: seq<Slice>, interpretation: Interpretation, keys: seq<Key>)
    requires keys != [] && Ascending(keys)
    ensures var n := |keys| - 1;
            multiset(Filter(slices, InKeys(interpretation, keys[..n])))
              + multiset(GroupOf(slices, interpretation, keys[n]))
              == multiset(Filter(slices, InKeys(interpretation, keys)))
  {
    hide Filter;
    var n := |keys| - 1;
    var a := multiset(Filter(slices, InKeys(interpretation, keys[..n])));
    var b := multiset(GroupOf(slices, interpretation, keys[n]));
    var c := multiset(Filter(slices, InKeys(interpretation, keys)));
    forall s
      ensures (a + b)[s] == c[s]
    {
      FilterCount(slices, InKeys(interpretation, keys[..n]), s);
      FilterCount(slices, InGroup(interpretation, keys[n]), s);
      FilterCount(slices, InKeys(interpretation, keys), s);
      assert s.sequence in keys <==> s.sequence in keys[..n] || s.sequence == keys[n];
      assert keys[n] in keys[..n] ==> Before(keys[n], keys[n]);
    }
  }

  function IsRecorded(): Slice -> bool {
    (s: Slice) => s.interpretation != OTHER
  }

  /** Nothing is lost: the history holds every BASELINE, PERMDELTA and TEMPDELTA slice of the feature
      exactly once, valid or superseded, at every instant. */
  lemma RecordStands(slices: seq<Slice>, instant: int, applied: set<Slice>)
    ensures multiset(Recorded(HistoryOfFeature(slices, instant, applied))) == multiset(Filter(slices, IsRecorded()))
  {
    hide Filter, KeysOf, HistoryOf, Recorded;
    var b := HistoryOf(SequencesOf(slices, BASELINE), instant, applied);
    var p := HistoryOf(SequencesOf(slices, PERMDELTA), instant, applied);
    var t := HistoryOf(SequencesOf(slices, TEMPDELTA), instant, applied);
    RecordedOfConcat(b, p);
    RecordedOfConcat(b + p, t);
    forall s
      ensures multiset(Recorded(b))[s] + multiset(Recorded(p))[s] + multiset(Recorded(t))[s]
                == multiset(Filter(slices, IsRecorded()))[s]
    {
      RecordedCount(slices, BASELINE, instant, applied, s);
      RecordedCount(slices, PERMDELTA, instant, applied, s);
      RecordedCount(slices, TEMPDELTA, instant, applied, s);
      FilterCount(slices, IsRecorded(), s);
    }
  }

  lemma RecordedCount(slices: seq<Slice>, interpretation: Interpretation, instant: int, applied: set<Slice>, s: Slice)
    ensures multiset(Recorded(HistoryOf(SequencesOf(slices, interpretation), instant, applied)))[s]
         == if s.interpretation == interpretation then multiset(slices)[s] else 0
  {
    var keys := KeysOf(slices, interpretation);
    EntriesRecorded(keys, slices, interpretation, instant, applied);
    FilterCount(slices, InKeys(interpretation, keys), s);
    assert s in slices <==> s in multiset(slices);
  }

  // ---------------------------------------------------------------------- time moves one way

  /** Not yet, now, over; the other dispositions do not move. */
  predicate MovesForward(before: Disposition, after: Disposition) {
    match before
    case Future => after.Future? || after.Applied? || after.InForce? || after.Expired?
    case Applied => after.Applied? || after.InForce? || after.Expired?
    case InForce => after.Applied? || after.InForce? || after.Expired?
    case Expired => after.Expired?
    case Cancelled => after.Cancelled?
    case Conflict => after.Conflict?
    case NotApplicable => after.NotApplicable?
  }

  /** As the instant advances every sequence goes from future to in force to expired and never back,
      and a cancelled, conflicting or inapplicable one stays what it is. */
  lemma TimeMovesOneWay(slices: seq<Slice>, earlier: int, later: int, i: nat)
    requires slices != [] && earlier <= later
    requires i < |HistoryOfFeature(slices, earlier, AppliedOf(ViewOf(slices, earlier)))|
    ensures var h1 := HistoryOfFeature(slices, earlier, AppliedOf(ViewOf(slices, earlier)));
            var h2 := HistoryOfFeature(slices, later, AppliedOf(ViewOf(slices, later)));
            && |h1| == |h2|
            && h1[i].valid == h2[i].valid && h1[i].superseded == h2[i].superseded
            && MovesForward(h1[i].disposition, h2[i].disposition)
  {
    hide ViewOf, SequencesOf;
  }

  // ----------------------------------------------------------------------- what is asserted

  /** The outcome says exactly how many baselines and how many changes of the property compete. */
  lemma OutcomeCounts(slices: seq<Slice>, instant: int)
    requires slices != []
    ensures var view := ViewOf(slices, instant);
            var baselines := |LiveIn(slices, BASELINE, instant)|;
            var changes := |Filter(LiveIn(slices, TEMPDELTA, instant), StatesProperty(slices[0].element))|;
            && (view.outcome.Resolved? <==> baselines == 1 && changes <= 1)
            && (view.outcome.Unresolved? <==> baselines == 0 && changes <= 1)
            && (view.source.FromDelta? <==> baselines <= 1 && changes == 1)
            && (view.outcome.Ambiguous? ==> view.reading.state.AmbiguousState? && view.reading.asserted.None?)
  {
    ViewIsLive(slices, instant);
  }

  /** The state "unknown" is never reported. */
  lemma NeverUnknown(slices: seq<Slice>, instant: int)
    requires slices != []
    ensures !ViewOf(slices, instant).reading.state.Unknown?
  {
    hide InForceOf, SequencesOf, PerSignal, ClosedBranch, Filter;
  }

  /** Structures from which no code can be read: some are not nil, they are not one for each signal, and those
      that are operative are unscheduled and state no code. */
  predicate SayNothing(statuses: seq<Structure>, statusElement: StatusElement) {
    var stated := Filter(statuses, NotNil());
    && stated != []
    && !(statusElement.NavaidStatus? && |stated| > 1 && PerSignal(stated))
    && forall s :: s in ClosedBranch(stated, statusElement) ==> !s.scheduled && s.codeState.AbsentCode?
  }

  /** Without a baseline in force the status is "not stated" exactly when no temporary change of the property
      is in force, or one is and says nothing. */
  lemma NotStatedIff(slices: seq<Slice>, instant: int)
    requires slices != [] && ViewOf(slices, instant).outcome.Unresolved?
    ensures var view := ViewOf(slices, instant);
            var changes := Filter(LiveIn(slices, TEMPDELTA, instant), StatesProperty(slices[0].element));
            view.reading.state.NotStated? <==>
              |changes| == 0
              || (|changes| == 1 && SayNothing(StructuresOf(changes[0], slices[0].element),
                                               StatusElementOf(slices[0].element)))
  {
    hide LiveIn, PerSignal, StructuresOf, InForceOf, SequencesOf;
    ViewIsLive(slices, instant);
    var element := slices[0].element;
    var changes := Filter(LiveIn(slices, TEMPDELTA, instant), StatesProperty(element));
    if |changes| == 1 {
      assert changes[0] in changes && StructuresOf(changes[0], element) != [];
      SayNothingIff(StructuresOf(changes[0], element), StatusElementOf(element));
    }
  }

  lemma SayNothingIff(statuses: seq<Structure>, statusElement: StatusElement)
    requires statuses != []
    ensures Operative(statuses, FromDelta, statusElement).state.NotStated? <==> SayNothing(statuses, statusElement)
  {
    hide PerSignal;
    var stated := Filter(statuses, NotNil());
    var operative := ClosedBranch(stated, statusElement);
    var coded := Filter(operative, HasCode());
    if stated != [] {
      assert operative != [] && operative[0] in operative;
      if coded != [] {
        assert coded[0] in coded;
      }
    }
  }

  /** An input: one PERMDELTA slice. There is no baseline, the view is unresolved, and its state is "not
      stated". */
  lemma UnresolvedIsNotStated(instant: int) returns (slices: seq<Slice>)
    ensures slices != [] && ViewOf(slices, instant).outcome.Unresolved?
    ensures ViewOf(slices, instant).reading.state.NotStated?
  {
    slices := [Slice("", "", Airspace, PERMDELTA, Some(1), None, Period, Some(0), None, [], [])];
    NoSequences(slices, BASELINE, instant);
    NoSequences(slices, TEMPDELTA, instant);
  }

  lemma NoSequences(slices: seq<Slice>, interpretation: Interpretation, instant: int)
    requires forall s :: s in slices ==> s.interpretation != interpretation
    ensures InForceOf(SequencesOf(slices, interpretation), instant) == []
  {
    AscendingUnique(KeysOf(slices, interpretation), []);
  }

  /** A status is asserted only from a structure that the applied slice states, and that slice is the
      unique highest correction of its sequence, is not cancelled and covers the instant. */
  lemma AssertedHasSource(slices: seq<Slice>, instant: int)
    requires slices != [] && ViewOf(slices, instant).reading.asserted.Some?
    ensures var view := ViewOf(slices, instant);
            exists s, x ::
              && s in AppliedOf(view) && s.InForceAt(instant)
              && IsWinner(multiset(GroupOf(slices, s.interpretation, s.sequence)), s)
              && x in StructuresOf(s, slices[0].element)
              && !x.nil && !x.scheduled && x.codeState.Stated? && Some(x.code) == view.reading.asserted
  {
    hide LiveAt, KeysOf, Operative, AnyScheduled, IsWinner, StructuresOf, ViewOf, Filter, GroupOf;
    ViewIsLive(slices, instant);
    var element := slices[0].element;
    var view := ViewOf(slices, instant);
    var deltas := LiveIn(slices, TEMPDELTA, instant);
    OperativeAsserts(view.statuses, view.source, StatusElementOf(element));
    var x :| x in view.statuses && !x.nil && !x.scheduled && x.codeState.Stated?
      && Some(x.code) == view.reading.asserted;
    if view.delta.Some? {
      assert view.delta.value in Filter(deltas, StatesProperty(element));
      LiveIsWinner(KeysOf(slices, TEMPDELTA), slices, TEMPDELTA, view.delta.value, instant);
    } else {
      LiveIsWinner(KeysOf(slices, BASELINE), slices, BASELINE, view.baseline.value, instant);
    }
  }

  lemma OperativeAsserts(statuses: seq<Structure>, source: Source, statusElement: StatusElement)
    ensures var reading := Operative(statuses, source, statusElement);
            reading.asserted.Some? ==>
              exists x :: x in statuses && !x.nil && !x.scheduled && x.codeState.Stated?
                && Some(x.code) == reading.asserted
  {
    var reading := Operative(statuses, source, statusElement);
    if reading.asserted.Some? {
      var stated := Filter(statuses, NotNil());
      var operative := ClosedBranch(stated, statusElement);
      var coded := Filter(operative, HasCode());
      assert coded[0] in coded;
      assert coded[0] in operative && coded[0] in stated;
    }
  }

  lemma {:induction false} LiveIsWinner(keys: seq<Key>, slices: seq<Slice>, interpretation: Interpretation, s: Slice,
                                        instant: int)
    requires s in LiveAt(keys, slices, interpretation, instant)
    ensures s.InForceAt(instant) && IsWinner(multiset(GroupOf(slices, s.interpretation, s.sequence)), s)
  {
    hide GroupOf, EntryOf;
    var n := |keys| - 1;
    if s in LiveAt(keys[..n], slices, interpretation, instant) {
      LiveIsWinner(keys[..n], slices, interpretation, s, instant);
    } else {
      var group := GroupOf(slices, interpretation, keys[n]);
      assert s in LiveOf(slices, interpretation, keys[n], instant);
      ValidIsWinner(group, s);
      assert s in multiset(group);
      GroupMember(slices, interpretation, keys[n], s);
    }
  }

  lemma GroupMember(slices: seq<Slice>, interpretation: Interpretation, key: Key, s: Slice)
    requires s in GroupOf(slices, interpretation, key)
    ensures s.interpretation == interpretation && s.sequence == key
  {
  }

  /** On a runway or an airport, one unscheduled CLOSED structure beside others that are not CLOSED is
      asserted: a copied NORMAL branch never hides a closure. */
  lemma ClosureIsAsserted(statuses: seq<Structure>, source: Source, statusElement: StatusElement, closure: Structure)
    requires statusElement.ManoeuvringArea? || statusElement.AirportStatus?
    requires !source.NoSource?
    requires closure in statuses && !closure.nil && !closure.scheduled && closure.codeState.Stated?
              && closure.code == CLOSED
    requires multiset(Filter(Filter(statuses, NotNil()), IsCode(CLOSED))) == multiset{closure}
    ensures Operative(statuses, source, statusElement) == Reading(Asserted, Some(CLOSED), [closure], map[])
  {
    hide PerSignal, SignalCodes, ClosedBranch, ReadCodes, Filter;
    var stated := Filter(statuses, NotNil());
    assert closure in stated;
    OnlyClosure(stated, statusElement, closure);
    OnlyCode(closure);
    assert Operative(statuses, source, statusElement) == ReadCodes([closure]);
  }

  lemma OnlyClosure(stated: seq<Structure>, statusElement: StatusElement, closure: Structure)
    requires statusElement.ManoeuvringArea? || statusElement.AirportStatus?
    requires multiset(Filter(stated, IsCode(CLOSED))) == multiset{closure}
    ensures ClosedBranch(stated, statusElement) == [closure]
  {
    OneMember(Filter(stated, IsCode(CLOSED)), closure);
    ShorterFilter(stated, IsCode(CLOSED));
  }

  lemma OneMember(structures: seq<Structure>, x: Structure)
    requires multiset(structures) == multiset{x}
    ensures structures == [x]
  {
    assert |structures| == |multiset(structures)| == 1;
    assert structures[0] in multiset(structures);
  }

  lemma OnlyCode(x: Structure)
    requires !x.scheduled && x.codeState.Stated?
    ensures ReadCodes([x]) == Reading(Asserted, Some(x.code), [x], map[])
  {
    assert [x][..0] == [];
    assert Filter([x], HasCode()) == [x];
  }

  lemma {:induction false} ShorterFilter(structures: seq<Structure>, p: Structure -> bool)
    ensures |Filter(structures, p)| <= |structures|
    ensures |Filter(structures, p)| == |structures| ==> Filter(structures, p) == structures
  {
    if structures != [] {
      ShorterFilter(structures[..|structures| - 1], p);
    }
  }

  // ---------------------------------------------------------------------- the Event feature

  datatype EventState = Active | NotYet | Ended | CalledOff | NoValid | SeveralActive

  /** The valid slices of the sequences that have one. */
  function ValidOf(entries: seq<Entry>): seq<Slice> {
    if entries == [] then []
    else
      var last := entries[|entries| - 1];
      ValidOf(entries[..|entries| - 1]) + if last.valid.Some? then [last.valid.value] else []
  }

  function IsLive(): Slice -> bool {
    (s: Slice) => !s.Cancelled() && s.Begin().Some?
  }

  function IsInForceAt(instant: int): Slice -> bool {
    (s: Slice) => s.InForceAt(instant)
  }

  /** `event_state`: the state of an Event from the valid slices of its BASELINE sequences. */
  function EventStateOf(valid: seq<Slice>, instant: int): EventState {
    var covering := Filter(valid, IsInForceAt(instant));
    if |covering| > 1 then SeveralActive
    else if |covering| == 1 then Active
    else
      var live := Filter(valid, IsLive());
      if valid == [] then NoValid
      else if live == [] then CalledOff
      else if forall v :: v in live && v.Begin().Some? ==> instant < v.Begin().value then NotYet
      else if forall v :: v in live ==> v.End().Some? && instant >= v.End().value then Ended
      else NotYet
  }

  /** An Event that has ended stays ended, and one that is called off stays called off, whatever the
      later instant; the order of the objects plays no part. */
  lemma EventEndIsFinal(slices: seq<Slice>, other: seq<Slice>, earlier: int, later: int)
    requires earlier <= later && multiset(slices) == multiset(other)
    ensures var valid := ValidOf(SequencesOf(slices, BASELINE));
            && valid == ValidOf(SequencesOf(other, BASELINE))
            && (EventStateOf(valid, earlier).Ended? ==> EventStateOf(valid, later).Ended?)
            && (EventStateOf(valid, earlier).CalledOff? <==> EventStateOf(valid, later).CalledOff?)
            && (EventStateOf(valid, earlier).NoValid? <==> EventStateOf(valid, later).NoValid?)
  {
    hide SequencesOf, EventStateOf;
    ValidsOfPermutation(slices, other, BASELINE);
    ValidOfSame(SequencesOf(slices, BASELINE), SequencesOf(other, BASELINE));
    StateMovesOn(ValidOf(SequencesOf(slices, BASELINE)), earlier, later);
  }

  lemma {:induction false} ValidOfSame(a: seq<Entry>, b: seq<Entry>)
    requires |a| == |b| && forall i :: 0 <= i < |a| ==> a[i].valid == b[i].valid
    ensures ValidOf(a) == ValidOf(b)
  {
    if a != [] {
      ValidOfSame(a[..|a| - 1], b[..|b| - 1]);
    }
  }

  lemma StateMovesOn(valid: seq<Slice>, earlier: int, later: int)
    requires earlier <= later
    ensures EventStateOf(valid, earlier).Ended? ==> EventStateOf(valid, later).Ended?
    ensures EventStateOf(valid, earlier).CalledOff? <==> EventStateOf(valid, later).CalledOff?
    ensures EventStateOf(valid, earlier).NoValid? <==> EventStateOf(valid, later).NoValid?
  {
    NoneLiveNoneCovers(valid, earlier);
    NoneLiveNoneCovers(valid, later);
    if EventStateOf(valid, earlier).Ended? {
      var live := Filter(valid, IsLive());
      forall v | v in valid
        ensures !v.InForceAt(later)
      {
        assert v.InForceAt(later) ==> v in live;
      }
      FilterNone(valid, IsInForceAt(later));
    }
  }

  lemma NoneLiveNoneCovers(valid: seq<Slice>, instant: int)
    ensures Filter(valid, IsLive()) == [] ==> Filter(valid, IsInForceAt(instant)) == []
    ensures valid == [] ==> Filter(valid, IsInForceAt(instant)) == []
  {
    if Filter(valid, IsLive()) == [] {
      forall v | v in valid
        ensures !v.InForceAt(instant)
      {
        assert v.InForceAt(instant) ==> v in Filter(valid, IsLive());
      }
      FilterNone(valid, IsInForceAt(instant));
    }
  }
}
