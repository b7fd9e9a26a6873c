/**
 The time slices of one AIXM feature, grouped into sequences: which correction of a sequence is
 valid, which are superseded, and that neither depends on the order the slices arrived in
 (Temporality Concept 1.1, sections 3.6 and 4.4; TS_005, TS_017, TS_019).

 The position of an object in the caller's list is left out: it breaks ties between equal
 correction numbers, which a stable sort does here.
 */
module AixmSequences {
  import opened Wrappers
  import opened Lists

  datatype Interpretation = BASELINE | TEMPDELTA | PERMDELTA | OTHER
  datatype TimeForm = Period | Instant | NilTime | AbsentTime

  datatype CodeState = Stated | NilCode | AbsentCode

  /** One availability or activation structure; `signal` is its signalType, "" when it has none. */
  datatype Structure = Structure(nil: bool, code: string, codeState: CodeState, scheduled: bool, signal: string)

  /** The feature classes the rules tell apart. */
  datatype Element = RunwayDirection | Airspace | Navaid | AirportHeliport | EventElement | OtherElement(name: string)

  type Key = Option<int>

  datatype Slice = Slice(
    name: string,
    identifier: string,
    element: Element,
    interpretation: Interpretation,
    sequence: Key,
    correction: Option<int>,
    form: TimeForm,
    beginPosition: Option<int>,
    endPosition: Option<int>,
    availability: seq<Structure>,
    activation: seq<Structure>)
  {
    function Begin(): Option<int> {
      if form.Period? || form.Instant? then beginPosition else None
    }

    function End(): Option<int> {
      if form.Period? then endPosition else None
    }

    function Rank(): int {
      if correction.Some? then correction.value else 0
    }

    predicate Cancelled() {
      form.NilTime? || form.AbsentTime?
    }

    /** Begin included, end excluded; no end is open. */
    predicate Covers(instant: int) {
      match Begin()
      case None => false
      case Some(begin) => begin <= instant && (End().None? || instant < End().value)
    }

    predicate InForceAt(instant: int) {
      !Cancelled() && Covers(instant)
    }
  }

  // ----------------------------------------------------------------------- sequence numbers

  /** The order sequence numbers are visited in: a missing number last. */
  predicate Before(a: Key, b: Key) {
    a.Some? && (b.None? || a.value < b.value)
  }

  predicate Ascending(keys: seq<Key>) {
    forall i, j :: 0 <= i < j < |keys| ==> Before(keys[i], keys[j])
  }

  function InsertKey(keys: seq<Key>, key: Key): (r: seq<Key>)
    requires Ascending(keys)
    ensures Ascending(r)
    ensures forall k :: k in r <==> k in keys || k == key
  {
    if keys == [] then [key]
    else if keys[0] == key then keys
    else if Before(key, keys[0]) then [key] + keys
    else
      var rest := InsertKey(keys[1..], key);
      assert forall k :: k in keys <==> k == keys[0] || k in keys[1..];
      assert forall k :: k in rest ==> Before(keys[0], k) by {
        assert forall k :: k in keys[1..] ==> Before(keys[0], k);
      }
      [keys[0]] + rest
  }

  /** The sequence numbers of one interpretation, each once, in order. */
  function KeysOf(slices: seq<Slice>, interpretation: Interpretation): (r: seq<Key>)
    ensures Ascending(r)
    ensures forall k :: k in r <==> exists s :: s in slices && s.interpretation == interpretation && s.sequence == k
  {
    if slices == [] then []
    else
      var n := |slices| - 1;
      var before := KeysOf(slices[..n], interpretation);
      assert forall s :: s in slices <==> s in slices[..n] || s == slices[n];
      if slices[n].interpretation == interpretation then InsertKey(before, slices[n].sequence) else before
  }

  /** A strictly ordered list is determined by its members. */
  lemma {:induction false} AscendingUnique(a: seq<Key>, b: seq<Key>)
    requires Ascending(a) && Ascending(b)
    requires forall k :: k in a <==> k in b
    ensures a == b
  {
    assert b != [] ==> b[0] in b;
    if a != [] {
      assert a[0] in b;
      assert b[0] in a;
      assert a[0] == b[0];
      assert a == [a[0]] + a[1..] && b == [b[0]] + b[1..];
      forall k
        ensures k in a[1..] <==> k in b[1..]
      {
        if k in a[1..] {
          assert k in a && Before(a[0], k);
        }
        if k in b[1..] {
          assert k in b && Before(b[0], k);
        }
      }
      AscendingUnique(a[1..], b[1..]);
    }
  }

  // -------------------------------------------------------------------- the valid correction

  function InGroup(interpretation: Interpretation, key: Key): Slice -> bool {
    (s: Slice) => s.interpretation == interpretation && s.sequence == key
  }

  function GroupOf(slices: seq<Slice>, interpretation: Interpretation, key: Key): seq<Slice> {
    Filter(slices, InGroup(interpretation, key))
  }

  predicate ByRank(slices: seq<Slice>) {
    forall i, j :: 0 <= i < j < |slices| ==> slices[i].Rank() <= slices[j].Rank()
  }

  /** A stable sort by correction number. */
  function InsertByRank(sorted: seq<Slice>, s: Slice): (r: seq<Slice>)
    ensures |r| == |sorted| + 1
  {
    if sorted == [] || sorted[|sorted| - 1].Rank() <= s.Rank() then sorted + [s]
    else InsertByRank(sorted[..|sorted| - 1], s) + [sorted[|sorted| - 1]]
  }

  function SortByRank(group: seq<Slice>): (r: seq<Slice>)
    ensures |r| == |group|
  {
    if group == [] then [] else InsertByRank(SortByRank(group[..|group| - 1]), group[|group| - 1])
  }

  lemma {:induction false} InsertMembers(sorted: seq<Slice>, s: Slice)
    ensures multiset(InsertByRank(sorted, s)) == multiset(sorted) + multiset{s}
  {
    if sorted != [] && sorted[|sorted| - 1].Rank() > s.Rank() {
      InsertMembers(sorted[..|sorted| - 1], s);
      assert sorted == sorted[..|sorted| - 1] + [sorted[|sorted| - 1]];
    }
  }

  lemma {:induction false} InsertKeepsOrder(sorted: seq<Slice>, s: Slice)
    requires ByRank(sorted)
    ensures ByRank(InsertByRank(sorted, s))
  {
    if sorted != [] && sorted[|sorted| - 1].Rank() > s.Rank() {
      var n := |sorted| - 1;
      var rest := InsertByRank(sorted[..n], s);
      InsertKeepsOrder(sorted[..n], s);
      InsertMembers(sorted[..n], s);
      forall i | 0 <= i < |rest|
        ensures rest[i].Rank() <= sorted[n].Rank()
      {
        assert rest[i] in multiset(rest);
        assert rest[i] in sorted[..n] || rest[i] == s;
      }
    }
  }

  lemma {:induction false} SortIsSorted(group: seq<Slice>)
    ensures ByRank(SortByRank(group))
    ensures multiset(SortByRank(group)) == multiset(group)
  {
    if group != [] {
      var n := |group| - 1;
      SortIsSorted(group[..n]);
      InsertKeepsOrder(SortByRank(group[..n]), group[n]);
      InsertMembers(SortByRank(group[..n]), group[n]);
      assert group == group[..n] + [group[n]];
    }
  }

  /** One sequence: its valid slice, or none when two slices claim its highest correction. */
  datatype Entry = Entry(valid: Option<Slice>, superseded: seq<Slice>)

  function RankIs(rank: int): Slice -> bool {
    (s: Slice) => s.Rank() == rank
  }

  function EntryOf(group: seq<Slice>): Entry
    requires group != []
  {
    var sorted := SortByRank(group);
    var top := sorted[|sorted| - 1];
    var twins := Filter(sorted, RankIs(top.Rank()));
    if |twins| > 1 then Entry(None, sorted) else Entry(Some(top), sorted[..|sorted| - 1])
  }

  /** The slice that is there once and outranks every other. */
  ghost predicate IsWinner(group: multiset<Slice>, s: Slice) {
    group[s] == 1 && forall t :: t in group && t != s ==> t.Rank() < s.Rank()
  }

  /** The valid slice of a sequence is its winner, whatever the order: an entry has a valid slice
      exactly when the multiset of its slices has a winner, and it is that one. */
  lemma ValidIsWinner(group: seq<Slice>, s: Slice)
    requires group != []
    ensures EntryOf(group).valid == Some(s) <==> IsWinner(multiset(group), s)
  {
    SortIsSorted(group);
    var sorted := SortByRank(group);
    var top := sorted[|sorted| - 1];
    var twins := Filter(sorted, RankIs(top.Rank()));
    FilterCount(sorted, RankIs(top.Rank()), top);
    assert top in twins;
    if |twins| == 1 {
      SingleTwinWins(sorted, top);
      assert s in multiset(group) ==> s in sorted;
    }
    if IsWinner(multiset(sorted), s) {
      assert s in multiset(sorted) && s in sorted;
      WinnerHasNoTwin(sorted, top, s);
    }
  }

  lemma SingleTwinWins(sorted: seq<Slice>, top: Slice)
    requires sorted != [] && ByRank(sorted) && top == sorted[|sorted| - 1]
    requires |Filter(sorted, RankIs(top.Rank()))| == 1
    ensures IsWinner(multiset(sorted), top)
  {
    var twins := Filter(sorted, RankIs(top.Rank()));
    FilterCount(sorted, RankIs(top.Rank()), top);
    assert twins == [twins[0]] && top in twins;
    forall t | t in multiset(sorted) && t != top
      ensures t.Rank() < top.Rank()
    {
      assert t in sorted;
      assert t !in twins;
    }
  }

  lemma WinnerHasNoTwin(sorted: seq<Slice>, top: Slice, s: Slice)
    requires sorted != [] && top == sorted[|sorted| - 1] && top.Rank() >= s.Rank()
    requires IsWinner(multiset(sorted), s)
    ensures |Filter(sorted, RankIs(top.Rank()))| == 1
  {
    var twins := Filter(sorted, RankIs(top.Rank()));
    assert top in multiset(sorted);
    FilterCount(sorted, RankIs(top.Rank()), s);
    forall t | t in twins
      ensures t == s
    {
      assert t in multiset(sorted);
    }
    AllOne(twins, s);
  }

  lemma {:induction false} AllOne(slices: seq<Slice>, s: Slice)
    requires forall t :: t in slices ==> t == s
    ensures multiset(slices)[s] == |slices|
  {
    if slices != [] {
      var n := |slices| - 1;
      assert slices == slices[..n] + [slices[n]];
      assert slices[n] in slices && forall t :: t in slices[..n] ==> t in slices;
      AllOne(slices[..n], s);
    }
  }

  /** Two permutations of a sequence have the same valid slice. */
  lemma ValidOfPermutation(a: seq<Slice>, b: seq<Slice>)
    requires a != [] && b != [] && multiset(a) == multiset(b)
    ensures EntryOf(a).valid == EntryOf(b).valid
  {
    if EntryOf(a).valid.Some? {
      ValidIsWinner(a, EntryOf(a).valid.value);
      ValidIsWinner(b, EntryOf(a).valid.value);
    }
    if EntryOf(b).valid.Some? {
      ValidIsWinner(a, EntryOf(b).valid.value);
      ValidIsWinner(b, EntryOf(b).valid.value);
    }
  }

  function SlicesOf(entry: Entry): seq<Slice> {
    match entry.valid
    case None => entry.superseded
    case Some(s) => entry.superseded + [s]
  }

  /** An entry holds every slice of its sequence exactly once. */
  lemma EntryConserves(group: seq<Slice>)
    requires group != []
    ensures multiset(SlicesOf(EntryOf(group))) == multiset(group)
  {
    hide SortByRank, Filter;
    SortIsSorted(group);
    var sorted := SortByRank(group);
    assert sorted == sorted[..|sorted| - 1] + [sorted[|sorted| - 1]];
  }

  // ----------------------------------------------------------------------- all the sequences

  function EntriesOf(keys: seq<Key>, slices: seq<Slice>, interpretation: Interpretation): seq<Entry>
    requires forall k :: k in keys ==> k in KeysOf(slices, interpretation)
  {
    if keys == [] then []
    else
      var n := |keys| - 1;
      assert keys[n] in keys;
      GroupNonEmpty(slices, interpretation, keys[n]);
      EntriesOf(keys[..n], slices, interpretation) + [EntryOf(GroupOf(slices, interpretation, keys[n]))]
  }

  lemma GroupNonEmpty(slices: seq<Slice>, interpretation: Interpretation, key: Key)
    ensures key in KeysOf(slices, interpretation) <==> GroupOf(slices, interpretation, key) != []
  {
    var group := GroupOf(slices, interpretation, key);
    if key in KeysOf(slices, interpretation) {
      var s :| s in slices && s.interpretation == interpretation && s.sequence == key;
      assert s in group;
    }
    if group != [] {
      assert group[0] in group;
    }
  }

  function SequencesOf(slices: seq<Slice>, interpretation: Interpretation): seq<Entry> {
    EntriesOf(KeysOf(slices, interpretation), slices, interpretation)
  }

  /** What the findings name; the wording is left out. */
  datatype Finding =
    | DuplicateCorrection(interpretation: Interpretation, sequence: Key, rank: int)
    | Reinstated(interpretation: Interpretation, sequence: Key, cancelledAt: int, rank: int)
    | BeginMoved(interpretation: Interpretation, sequence: Key, rank: int, was: int, becomes: Option<int>)
    | OverlappingBaselines(count: nat)
    | OverlappingDeltas(count: nat)

  function IsCancelled(): Slice -> bool {
    (s: Slice) => s.Cancelled()
  }

  /** The findings about one sequence, from its slices sorted by correction. */
  function FindingsOf(interpretation: Interpretation, key: Key, entry: Entry): seq<Finding> {
    OrderFindings(interpretation, key, entry) + BeginFindings(interpretation, key, entry)
  }

  /** TS_005 and TS_019: a correction number claimed twice, a sequence that goes on after a cancellation. */
  function OrderFindings(interpretation: Interpretation, key: Key, entry: Entry): seq<Finding> {
    match entry.valid
    case None =>
      if entry.superseded == [] then []
      else [DuplicateCorrection(interpretation, key, entry.superseded[|entry.superseded| - 1].Rank())]
    case Some(top) =>
      var cancelling := Filter(entry.superseded, IsCancelled());
      if cancelling == [] then [] else [Reinstated(interpretation, key, cancelling[0].Rank(), top.Rank())]
  }

  /** TS_017: an active slice whose begin is corrected. */
  function BeginFindings(interpretation: Interpretation, key: Key, entry: Entry): seq<Finding> {
    if entry.valid.None? || entry.superseded == [] || entry.valid.value.Cancelled() then []
    else BeginFinding(interpretation, key, entry.valid.value, entry.superseded[|entry.superseded| - 1])
  }

  function BeginFinding(interpretation: Interpretation, key: Key, top: Slice, previous: Slice): seq<Finding> {
    if previous.Begin().Some? && top.Begin() != previous.Begin()
    then [BeginMoved(interpretation, key, top.Rank(), previous.Begin().value, top.Begin())]
    else []
  }

  function AllFindings(keys: seq<Key>, entries: seq<Entry>, interpretation: Interpretation): seq<Finding>
    requires |keys| == |entries|
  {
    if keys == [] then []
    else
      var n := |keys| - 1;
      AllFindings(keys[..n], entries[..n], interpretation) + FindingsOf(interpretation, keys[n], entries[n])
  }

  /** `_sequences`: one pass over the sequence numbers, findings appended on the way. */
  method Sequences(slices: seq<Slice>, interpretation: Interpretation, earlier: seq<Finding>)
      returns (out: seq<Entry>, findings: seq<Finding>)
    ensures out == SequencesOf(slices, interpretation)
    ensures |out| == |KeysOf(slices, interpretation)|
    ensures findings == earlier + AllFindings(KeysOf(slices, interpretation), out, interpretation)
  {
    hide KeysOf, FindingsOf, Filter, SortByRank, EntryOf, EntriesOf, AllFindings;
    var keys := KeysOf(slices, interpretation);
    NoKeys(slices, interpretation);
    out := [];
    findings := earlier;
    for i := 0 to |keys|
      invariant forall k :: k in keys[..i] ==> k in keys
      invariant out == EntriesOf(keys[..i], slices, interpretation) && |out| == i
      invariant findings == earlier + AllFindings(keys[..i], out, interpretation)
    {
      GroupNonEmpty(slices, interpretation, keys[i]);
      var entry := Classify(GroupOf(slices, interpretation, keys[i]));
      OneMoreEntry(keys, i, slices, interpretation, out, entry);
      out := out + [entry];
      findings := findings + FindingsOf(interpretation, keys[i], entry);
    }
    assert keys[..|keys|] == keys;
  }

  lemma NoKeys(slices: seq<Slice>, interpretation: Interpretation)
    ensures EntriesOf([], slices, interpretation) == [] && AllFindings([], [], interpretation) == []
  {
  }

  lemma OneMoreEntry(keys: seq<Key>, i: nat, slices: seq<Slice>, interpretation: Interpretation, out: seq<Entry>,
                     entry: Entry)
    requires i < |keys| && forall k :: k in keys ==> k in KeysOf(slices, interpretation)
    requires out == EntriesOf(keys[..i], slices, interpretation) && |out| == i
    requires GroupOf(slices, interpretation, keys[i]) != []
    requires entry == EntryOf(GroupOf(slices, interpretation, keys[i]))
    ensures out + [entry] == EntriesOf(keys[..i + 1], slices, interpretation)
    ensures AllFindings(keys[..i + 1], out + [entry], interpretation)
         == AllFindings(keys[..i], out, interpretation) + FindingsOf(interpretation, keys[i], entry)
  {
    hide KeysOf, FindingsOf, Filter, SortByRank, EntryOf;
    assert keys[..i + 1][..i] == keys[..i];
    assert (out + [entry])[..i] == out;
  }

  /** The body of the loop: the highest correction, its twins, and what they supersede. */
  method Classify(group: seq<Slice>) returns (entry: Entry)
    requires group != []
    ensures entry == EntryOf(group)
  {
    var sorted := SortByRank(group);
    var top := sorted[|sorted| - 1];
    var twins: seq<Slice> := [];
    for i := 0 to |sorted|
      invariant twins == Filter(sorted[..i], RankIs(top.Rank()))
    {
      assert sorted[..i + 1][..i] == sorted[..i];
      if sorted[i].Rank() == top.Rank() {
        twins := twins + [sorted[i]];
      }
    }
    assert sorted[..|sorted|] == sorted;
    if |twins| > 1 {
      entry := Entry(None, sorted);
    } else {
      entry := Entry(Some(top), sorted[..|sorted| - 1]);
    }
  }
}
