/**
 The strict JSON loader of the DIS 7 host. A repeated key is found in two stages: while decoding,
 bottom-up, an object that repeats a key becomes a marker and its members are lost; afterwards a
 walk with an explicit stack looks for the first marker. `WalkFindsFirstRepeat` says what the two
 stages find together, in terms of the tree before anything was lost.
 */
module RepeatedKeys {
  import opened Decimals
  import opened JsonDepth
  import opened Wrappers

  /** What `json.loads` returns under the `_pairs` hook. */
  datatype Field = Field(key: string, value: Decoded)
  datatype Decoded = Repeated | Scalar(text: string) | Listed(items: seq<Decoded>) | Mapped(fields: seq<Field>)

  /** `_pairs`: the hook sees the members already decoded. */
  function HookResult(fields: seq<Field>): Decoded {
    if |set f | f in fields :: f.key| != |fields| then Repeated else Mapped(fields)
  }

  function Decode(raw: Raw): Decoded {
    match raw
    case RawLeaf(text) => Scalar(text)
    case RawList(items) => Listed(DecodeAll(items))
    case RawObject(pairs) => HookResult(DecodePairs(pairs))
  }

  function DecodeAll(items: seq<Raw>): (r: seq<Decoded>)
    ensures |r| == |items|
  {
    if items == [] then [] else [Decode(items[0])] + DecodeAll(items[1..])
  }

  function DecodePairs(pairs: seq<Pair>): (r: seq<Field>)
    ensures |r| == |pairs|
    ensures forall i :: 0 <= i < |pairs| ==> r[i].key == pairs[i].key
  {
    if pairs == [] then [] else [Field(pairs[0].key, Decode(pairs[0].value))] + DecodePairs(pairs[1..])
  }

  // ------------------------------------------------------------------------------- the paths

  const ROOT := "$"

  /** A key is written into a path only when it has this shape: `[a-z][a-z0-9_]{0,31}`. */
  predicate IsSpellable(key: string) {
    && 1 <= |key| <= 32
    && 'a' <= key[0] <= 'z'
    && forall c :: c in key ==> 'a' <= c <= 'z' || '0' <= c <= '9' || c == '_'
  }

  function KeyPath(path: string, key: string): string {
    if path == ROOT then key else path + "." + key
  }

  function IndexPath(path: string, index: nat): string {
    if path == ROOT then "[" + Decimal(index) + "]" else path + "[" + Decimal(index) + "]"
  }

  /** A node on the stack, with the path to report for it and whether that path is frozen. */
  datatype Visit = Visit(node: Decoded, path: string, frozen: bool)

  function FieldVisit(field: Field, path: string, frozen: bool): Visit {
    if frozen || !IsSpellable(field.key) then Visit(field.value, path, true)
    else Visit(field.value, KeyPath(path, field.key), false)
  }

  function ItemVisit(item: Decoded, index: nat, path: string, frozen: bool): Visit {
    if frozen then Visit(item, path, true) else Visit(item, IndexPath(path, index), false)
  }

  // ---------------------------------------------------------------------- the stack walk

  function VisitsOfItems(items: seq<Decoded>, from: nat, path: string, frozen: bool): (r: seq<Visit>)
    ensures |r| == |items|
    ensures forall i :: 0 <= i < |r| ==> r[i] == ItemVisit(items[i], from + i, path, frozen)
  {
    seq(|items|, i requires 0 <= i < |items| => ItemVisit(items[i], from + i, path, frozen))
  }

  function VisitsOfFields(fields: seq<Field>, path: string, frozen: bool): (r: seq<Visit>)
    ensures |r| == |fields|
    ensures forall i :: 0 <= i < |r| ==> r[i] == FieldVisit(fields[i], path, frozen)
  {
    seq(|fields|, i requires 0 <= i < |fields| => FieldVisit(fields[i], path, frozen))
  }

  function VisitsBelow(v: Visit): seq<Visit> {
    match v.node
    case Repeated => []
    case Scalar(_) => []
    case Listed(items) => VisitsOfItems(items, 0, v.path, v.frozen)
    case Mapped(fields) => VisitsOfFields(fields, v.path, v.frozen)
  }

  function NodeCount(node: Decoded): nat {
    match node
    case Repeated => 1
    case Scalar(_) => 1
    case Listed(items) => 1 + NodeCountOfItems(items)
    case Mapped(fields) => 1 + NodeCountOfFields(fields)
  }

  function NodeCountOfItems(items: seq<Decoded>): nat {
    if items == [] then 0 else NodeCount(items[0]) + NodeCountOfItems(items[1..])
  }

  function NodeCountOfFields(fields: seq<Field>): nat {
    if fields == [] then 0 else NodeCount(fields[0].value) + NodeCountOfFields(fields[1..])
  }

  function VisitCount(visits: seq<Visit>): nat {
    if visits == [] then 0 else NodeCount(visits[0].node) + VisitCount(visits[1..])
  }

  function OrElse(a: Option<string>, b: Option<string>): Option<string> {
    if a.Some? then a else b
  }

  /** The path of the first marker under a list of visits, in their order, members and items
      visited in theirs. */
  function FirstMarker(visits: seq<Visit>): Option<string>
    decreases VisitCount(visits)
  {
    if visits == [] then None
    else if visits[0].node.Repeated? then Some(visits[0].path)
    else
      VisitsBelowCount(visits[0]);
      OrElse(FirstMarker(VisitsBelow(visits[0])), FirstMarker(visits[1..]))
  }

  lemma VisitsBelowCount(v: Visit)
    ensures VisitCount(VisitsBelow(v)) < NodeCount(v.node)
  {
    match v.node
    case Repeated =>
    case Scalar(_) =>
    case Listed(items) => ItemVisitsCount(items, 0, v.path, v.frozen);
    case Mapped(fields) => FieldVisitsCount(fields, v.path, v.frozen);
  }

  lemma {:induction false} ItemVisitsCount(items: seq<Decoded>, from: nat, path: string, frozen: bool)
    ensures VisitCount(VisitsOfItems(items, from, path, frozen)) == NodeCountOfItems(items)
  {
    if items != [] {
      ItemVisitsCount(items[1..], from + 1, path, frozen);
      ItemVisitsSplit(items, from, path, frozen);
    }
  }

  lemma ItemVisitsSplit(items: seq<Decoded>, from: nat, path: string, frozen: bool)
    requires items != []
    ensures VisitsOfItems(items, from, path, frozen)
         == [ItemVisit(items[0], from, path, frozen)] + VisitsOfItems(items[1..], from + 1, path, frozen)
  {
  }

  lemma FieldVisitsSplit(fields: seq<Field>, path: string, frozen: bool)
    requires fields != []
    ensures VisitsOfFields(fields, path, frozen)
         == [FieldVisit(fields[0], path, frozen)] + VisitsOfFields(fields[1..], path, frozen)
  {
  }

  lemma {:induction false} FieldVisitsCount(fields: seq<Field>, path: string, frozen: bool)
    ensures VisitCount(VisitsOfFields(fields, path, frozen)) == NodeCountOfFields(fields)
  {
    if fields != [] {
      FieldVisitsCount(fields[1..], path, frozen);
      FieldVisitsSplit(fields, path, frozen);
    }
  }

  lemma {:induction false} VisitCountOfConcat(a: seq<Visit>, b: seq<Visit>)
    ensures VisitCount(a + b) == VisitCount(a) + VisitCount(b)
  {
    if a == [] {
      assert a + b == b;
    } else {
      VisitCountOfConcat(a[1..], b);
      assert (a + b)[1..] == a[1..] + b;
    }
  }

  lemma {:induction false} FirstMarkerOfConcat(a: seq<Visit>, b: seq<Visit>)
    ensures FirstMarker(a + b) == OrElse(FirstMarker(a), FirstMarker(b))
    decreases |a|
  {
    if a == [] {
      assert a + b == b;
    } else {
      FirstMarkerOfConcat(a[1..], b);
      assert (a + b)[1..] == a[1..] + b;
    }
  }

  function Reversed(visits: seq<Visit>): seq<Visit> {
    if visits == [] then [] else Reversed(visits[1..]) + [visits[0]]
  }

  lemma {:induction false} ReversedOfSnoc(visits: seq<Visit>, last: Visit)
    ensures Reversed(visits + [last]) == [last] + Reversed(visits)
  {
    if visits == [] {
      assert [last][1..] == [];
    } else {
      ReversedOfSnoc(visits[1..], last);
      assert (visits + [last])[1..] == visits[1..] + [last];
    }
  }

  /** A stack with its top last, and the children of the node just popped pushed in reverse, reads
      from the top: the children in order, then what was below. */
  lemma {:induction false} ReversedPush(below: seq<Visit>, children: seq<Visit>)
    ensures Reversed(below + Reversed(children)) == children + Reversed(below)
  {
    if children == [] {
      assert below + [] == below;
    } else {
      ReversedPush(below, children[1..]);
      ReversedOfSnoc(below + Reversed(children[1..]), children[0]);
      assert below + Reversed(children) == (below + Reversed(children[1..])) + [children[0]];
      assert [children[0]] + (children[1..] + Reversed(below)) == children + Reversed(below);
    }
  }

  /** `_repeated_key_path`: the walk ends, and finds the first marker in document order. */
  method RepeatedKeyPath(document: Decoded) returns (path: Option<string>)
    ensures path == FirstMarker([Visit(document, ROOT, false)])
  {
    var stack := [Visit(document, ROOT, false)];
    assert Reversed(stack) == stack by {
      ReversedOfSnoc([], stack[0]);
      assert [] + stack == stack;
    }
    while stack != []
      invariant FirstMarker(Reversed(stack)) == FirstMarker([Visit(document, ROOT, false)])
      decreases VisitCount(Reversed(stack))
    {
      var visit := stack[|stack| - 1];
      var below := stack[..|stack| - 1];
      ReversedOfSnoc(below, visit);
      assert stack == below + [visit];
      assert ([visit] + Reversed(below))[1..] == Reversed(below);
      if visit.node.Repeated? {
        return Some(visit.path);
      }
      var children := Expand(visit);
      VisitsBelowCount(visit);
      ReversedPush(below, children);
      VisitCountOfConcat(children, Reversed(below));
      FirstMarkerOfConcat(children, Reversed(below));
      stack := below + Reversed(children);
    }
    path := None;
  }

  /** The walk's inner loops. */
  method Expand(visit: Visit) returns (children: seq<Visit>)
    ensures children == VisitsBelow(visit)
  {
    children := [];
    match visit.node {
      case Repeated =>
      case Scalar(_) =>
      case Mapped(fields) =>
        for i := 0 to |fields|
          invariant children == VisitsOfFields(fields, visit.path, visit.frozen)[..i]
        {
          var field := fields[i];
          if visit.frozen || !IsSpellable(field.key) {
            children := children + [Visit(field.value, visit.path, true)];
          } else {
            var path := if visit.path == ROOT then field.key else visit.path + "." + field.key;
            children := children + [Visit(field.value, path, false)];
          }
        }
      case Listed(items) =>
        for i := 0 to |items|
          invariant children == VisitsOfItems(items, 0, visit.path, visit.frozen)[..i]
        {
          if visit.frozen {
            children := children + [Visit(items[i], visit.path, true)];
          } else {
            var path := if visit.path == ROOT then "[" + Decimal(i) + "]" else visit.path + "[" + Decimal(i) + "]";
            children := children + [Visit(items[i], path, false)];
          }
        }
    }
  }

  // -------------------------------------------------------------- the reference definition

  datatype Step = Key(name: string) | Index(index: nat)

  /** Where, in document order, the objects that repeat a key stand in the tree: an object before
      its members, members and items in text order. */
  function Locations(raw: Raw): seq<seq<Step>> {
    match raw
    case RawLeaf(_) => []
    case RawList(items) => LocationsInItems(items, 0)
    case RawObject(pairs) => (if DistinctKeys(pairs) then [] else [[]]) + LocationsInPairs(pairs)
  }

  function LocationsInItems(items: seq<Raw>, from: nat): seq<seq<Step>> {
    if items == [] then [] else Under(Index(from), Locations(items[0])) + LocationsInItems(items[1..], from + 1)
  }

  function LocationsInPairs(pairs: seq<Pair>): seq<seq<Step>> {
    if pairs == [] then [] else Under(Key(pairs[0].key), Locations(pairs[0].value)) + LocationsInPairs(pairs[1..])
  }

  function Under(step: Step, locations: seq<seq<Step>>): (r: seq<seq<Step>>)
    ensures |r| == |locations|
    ensures forall i :: 0 <= i < |r| ==> r[i] == [step] + locations[i]
  {
    seq(|locations|, i requires 0 <= i < |locations| => [step] + locations[i])
  }

  /** A location as the diagnostic spells it: up to the first key that is not spellable. */
  function Spelled(path: string, location: seq<Step>): string
    decreases |location|
  {
    if location == [] then path
    else
      match location[0]
      case Index(i) => Spelled(IndexPath(path, i), location[1..])
      case Key(k) => if IsSpellable(k) then Spelled(KeyPath(path, k), location[1..]) else path
  }

  /** The path of the first of some locations, as reached through `path`. */
  function PathOfFirst(locations: seq<seq<Step>>, path: string, frozen: bool): Option<string> {
    if locations == [] then None else Some(if frozen then path else Spelled(path, locations[0]))
  }

  lemma PathOfFirstOfConcat(a: seq<seq<Step>>, b: seq<seq<Step>>, path: string, frozen: bool)
    ensures PathOfFirst(a + b, path, frozen) == OrElse(PathOfFirst(a, path, frozen), PathOfFirst(b, path, frozen))
  {
    if a == [] {
      assert a + b == b;
    }
  }

  lemma PathUnderIndex(locations: seq<seq<Step>>, i: nat, path: string, frozen: bool)
    ensures PathOfFirst(Under(Index(i), locations), path, frozen)
         == PathOfFirst(locations, if frozen then path else IndexPath(path, i), frozen)
  {
    if locations != [] {
      assert ([Index(i)] + locations[0])[1..] == locations[0];
    }
  }

  lemma PathUnderKey(locations: seq<seq<Step>>, key: string, path: string, frozen: bool)
    ensures PathOfFirst(Under(Key(key), locations), path, frozen)
         == PathOfFirst(locations, if frozen || !IsSpellable(key) then path else KeyPath(path, key),
                        frozen || !IsSpellable(key))
  {
    if locations != [] {
      assert ([Key(key)] + locations[0])[1..] == locations[0];
    }
  }

  lemma {:induction false} WalkFindsFirst(raw: Raw, path: string, frozen: bool)
    ensures FirstMarker([Visit(Decode(raw), path, frozen)]) == PathOfFirst(Locations(raw), path, frozen)
    decreases raw, 0
  {
    hide FirstMarker, VisitsOfItems, VisitsOfFields, LocationsInItems, LocationsInPairs;
    hide DecodeAll, DecodePairs, KeyPath, IndexPath, HookResult;
    OneMarker(Visit(Decode(raw), path, frozen));
    match raw
    case RawLeaf(_) =>
      NoVisits(path, frozen);
    case RawList(items) =>
      WalkFindsFirstItem(items, 0, path, frozen);
    case RawObject(pairs) =>
      HookCounts(pairs);
      if DistinctKeys(pairs) {
        assert [] + LocationsInPairs(pairs) == LocationsInPairs(pairs);
        WalkFindsFirstPair(pairs, path, frozen);
      } else {
        assert Locations(raw)[0] == [];
      }
  }

  // The marker under one visit is at it or below it.
  lemma OneMarker(v: Visit)
    ensures FirstMarker([v]) == if v.node.Repeated? then Some(v.path) else FirstMarker(VisitsBelow(v))
  {
    assert [v][1..] == [];
    assert FirstMarker([]) == None;
  }

  lemma HookCounts(pairs: seq<Pair>)
    ensures HookResult(DecodePairs(pairs)) == if DistinctKeys(pairs) then Mapped(DecodePairs(pairs)) else Repeated
  {
    KeysCounted(DecodePairs(pairs));
  }

  lemma NoVisits(path: string, frozen: bool)
    ensures FirstMarker([]) == PathOfFirst([], path, frozen)
  {
  }

  lemma {:induction false} WalkFindsFirstItem(items: seq<Raw>, from: nat, path: string, frozen: bool)
    ensures FirstMarker(VisitsOfItems(DecodeAll(items), from, path, frozen))
         == PathOfFirst(LocationsInItems(items, from), path, frozen)
    decreases items, 0
  {
    hide IndexPath, FirstMarker, Decode, Locations, PathOfFirst;
    if items == [] {
      NoVisits(path, frozen);
    } else {
      ItemVisitsSplit(DecodeAll(items), from, path, frozen);
      var first := ItemVisit(Decode(items[0]), from, path, frozen);
      FirstMarkerOfConcat([first], VisitsOfItems(DecodeAll(items[1..]), from + 1, path, frozen));
      WalkFindsFirst(items[0], first.path, first.frozen);
      PathUnderIndex(Locations(items[0]), from, path, frozen);
      PathOfFirstOfConcat(Under(Index(from), Locations(items[0])), LocationsInItems(items[1..], from + 1), path,
                          frozen);
      WalkFindsFirstItem(items[1..], from + 1, path, frozen);
    }
  }

  lemma {:induction false} WalkFindsFirstPair(pairs: seq<Pair>, path: string, frozen: bool)
    ensures FirstMarker(VisitsOfFields(DecodePairs(pairs), path, frozen))
         == PathOfFirst(LocationsInPairs(pairs), path, frozen)
    decreases pairs, 0
  {
    hide KeyPath, IsSpellable, FirstMarker, Decode, Locations, PathOfFirst;
    if pairs == [] {
      NoVisits(path, frozen);
    } else {
      FieldVisitsSplit(DecodePairs(pairs), path, frozen);
      var first := FieldVisit(DecodePairs(pairs)[0], path, frozen);
      FirstMarkerOfConcat([first], VisitsOfFields(DecodePairs(pairs[1..]), path, frozen));
      WalkFindsFirst(pairs[0].value, first.path, first.frozen);
      PathUnderKey(Locations(pairs[0].value), pairs[0].key, path, frozen);
      PathOfFirstOfConcat(Under(Key(pairs[0].key), Locations(pairs[0].value)), LocationsInPairs(pairs[1..]), path,
                          frozen);
      WalkFindsFirstPair(pairs[1..], path, frozen);
    }
  }

  predicate DistinctFields(fields: seq<Field>) {
    forall i, j :: 0 <= i < j < |fields| ==> fields[i].key != fields[j].key
  }

  /** Counting the distinct keys is comparing them pairwise. */
  lemma {:induction false} KeysCounted(fields: seq<Field>)
    ensures |set f | f in fields :: f.key| <= |fields|
    ensures |set f | f in fields :: f.key| == |fields| <==> DistinctFields(fields)
  {
    if fields != [] {
      var n := |fields| - 1;
      var before := set f | f in fields[..n] :: f.key;
      KeysCounted(fields[..n]);
      assert fields == fields[..n] + [fields[n]];
      assert (set f | f in fields :: f.key) == before + {fields[n].key};
      KeyOfLast(fields);
    }
  }

  lemma KeyOfLast(fields: seq<Field>)
    requires fields != []
    ensures var n := |fields| - 1;
            DistinctFields(fields) <==>
              DistinctFields(fields[..n]) && fields[n].key !in set f | f in fields[..n] :: f.key
  {
    var n := |fields| - 1;
    if fields[n].key in set f | f in fields[..n] :: f.key {
      var f :| f in fields[..n] && f.key == fields[n].key;
    } else {
      assert forall i :: 0 <= i < n ==> fields[i] in fields[..n];
    }
  }

  /** The two stages report nothing exactly when no object at any depth repeats a key, and otherwise
      the path of the first object, in document order, that does. */
  lemma WalkFindsFirstRepeat(raw: Raw)
    ensures FirstMarker([Visit(Decode(raw), ROOT, false)])
         == PathOfFirst(Locations(raw), ROOT, false)
    ensures FirstMarker([Visit(Decode(raw), ROOT, false)]).None? <==> NoRepeats(raw)
  {
    WalkFindsFirst(raw, ROOT, false);
    NoLocations(raw);
  }

  lemma {:induction false} NoLocations(raw: Raw)
    ensures Locations(raw) == [] <==> NoRepeats(raw)
    decreases raw, 0
  {
    match raw
    case RawLeaf(_) =>
    case RawList(items) => NoLocationsInItems(items, 0);
    case RawObject(pairs) => NoLocationsInPairs(pairs);
  }

  lemma {:induction false} NoLocationsInItems(items: seq<Raw>, from: nat)
    ensures LocationsInItems(items, from) == [] <==> forall r :: r in items ==> NoRepeats(r)
    decreases items, 0
  {
    if items != [] {
      NoLocations(items[0]);
      NoLocationsInItems(items[1..], from + 1);
      assert forall r :: r in items <==> r == items[0] || r in items[1..];
    }
  }

  lemma {:induction false} NoLocationsInPairs(pairs: seq<Pair>)
    ensures LocationsInPairs(pairs) == [] <==> forall p :: p in pairs ==> NoRepeats(p.value)
    decreases pairs, 0
  {
    if pairs != [] {
      NoLocations(pairs[0].value);
      NoLocationsInPairs(pairs[1..]);
      assert forall p :: p in pairs <==> p == pairs[0] || p in pairs[1..];
    }
  }

  /** Following a location from the root: the first member of a given name, the item of an index. */
  function Follow(raw: Raw, location: seq<Step>): Option<Raw>
    decreases |location|
  {
    if location == [] then Some(raw)
    else
      match (raw, location[0])
      case (RawList(items), Index(i)) => if i < |items| then Follow(items[i], location[1..]) else None
      case (RawObject(pairs), Key(k)) =>
        (match FindKey(pairs, k)
         case Some(i) => if i < |pairs| then Follow(pairs[i].value, location[1..]) else None
         case None => None)
      case _ => None
  }

  function FindKey(pairs: seq<Pair>, key: string): Option<nat> {
    if pairs == [] then None
    else if pairs[0].key == key then Some(0)
    else
      match FindKey(pairs[1..], key)
      case Some(i) => Some(i + 1)
      case None => None
  }

  predicate IsRepeatingObject(raw: Option<Raw>) {
    raw.Some? && raw.value.RawObject? && !DistinctKeys(raw.value.pairs)
  }

  /** The first location leads, unambiguously, to an object that repeats a key: the objects passed
      on the way repeat none. */
  lemma {:induction false} FirstLocationIsRepeat(raw: Raw)
    requires !NoRepeats(raw)
    ensures Locations(raw) != [] && IsRepeatingObject(Follow(raw, Locations(raw)[0]))
    decreases raw, 1, 0
  {
    NoLocations(raw);
    match raw
    case RawLeaf(_) =>
    case RawList(items) =>
      FirstLocationInItems(items, 0);
    case RawObject(pairs) =>
      if DistinctKeys(pairs) {
        FirstLocationInPairs(pairs, 0);
        assert pairs[0..] == pairs;
        assert [] + LocationsInPairs(pairs) == LocationsInPairs(pairs);
      }
  }

  lemma {:induction false} FirstLocationInItems(items: seq<Raw>, from: nat)
    requires from <= |items| && LocationsInItems(items[from..], from) != []
    ensures IsRepeatingObject(Follow(RawList(items), LocationsInItems(items[from..], from)[0]))
    decreases RawList(items), 0, |items| - from
  {
    var item := items[from];
    NoLocations(item);
    if NoRepeats(item) {
      assert items[from..][1..] == items[from + 1..];
      FirstLocationInItems(items, from + 1);
    } else {
      FirstLocationIsRepeat(item);
      var location := Locations(item)[0];
      assert LocationsInItems(items[from..], from)[0] == [Index(from)] + location;
      assert ([Index(from)] + location)[1..] == location;
    }
  }

  lemma {:induction false} FirstLocationInPairs(pairs: seq<Pair>, from: nat)
    requires DistinctKeys(pairs)
    requires from <= |pairs| && LocationsInPairs(pairs[from..]) != []
    ensures IsRepeatingObject(Follow(RawObject(pairs), LocationsInPairs(pairs[from..])[0]))
    decreases RawObject(pairs), 0, |pairs| - from
  {
    var pair := pairs[from];
    NoLocations(pair.value);
    if NoRepeats(pair.value) {
      assert pairs[from..][1..] == pairs[from + 1..];
      FirstLocationInPairs(pairs, from + 1);
    } else {
      FirstLocationIsRepeat(pair.value);
      var location := Locations(pair.value)[0];
      assert LocationsInPairs(pairs[from..])[0] == [Key(pair.key)] + location;
      assert ([Key(pair.key)] + location)[1..] == location;
      KeyFound(pairs, from);
    }
  }

  lemma {:induction false} KeyFound(pairs: seq<Pair>, i: nat)
    requires i < |pairs| && forall j :: 0 <= j < i ==> pairs[j].key != pairs[i].key
    ensures FindKey(pairs, pairs[i].key) == Some(i)
  {
    if i > 0 {
      KeyFound(pairs[1..], i - 1);
    }
  }

  // ------------------------------------------------------------------------ the whole loader

  /** The decoded document without its markers' type: a plain value. */
  function AsValue(decoded: Decoded): Value {
    match decoded
    case Repeated => Leaf("")
    case Scalar(text) => Leaf(text)
    case Listed(items) => List(AsValues(items))
    case Mapped(fields) => Dict(AsEntries(fields))
  }

  function AsValues(items: seq<Decoded>): seq<Value> {
    if items == [] then [] else [AsValue(items[0])] + AsValues(items[1..])
  }

  function AsEntries(fields: seq<Field>): seq<Entry> {
    if fields == [] then [] else [Entry(fields[0].key, AsValue(fields[0].value))] + AsEntries(fields[1..])
  }

  /** On a document without repeated keys the hook changes nothing. */
  lemma {:induction false} HookIsInvisible(raw: Raw)
    requires NoRepeats(raw)
    ensures AsValue(Decode(raw)) == Load(raw)
    decreases raw, 0
  {
    match raw
    case RawLeaf(_) =>
    case RawList(items) => HookIsInvisibleInItems(items);
    case RawObject(pairs) =>
      KeysCounted(DecodePairs(pairs));
      HookIsInvisibleInPairs(pairs);
  }

  lemma {:induction false} HookIsInvisibleInItems(items: seq<Raw>)
    requires forall r :: r in items ==> NoRepeats(r)
    ensures AsValues(DecodeAll(items)) == LoadAll(items)
    decreases items, 0
  {
    if items != [] {
      HookIsInvisible(items[0]);
      HookIsInvisibleInItems(items[1..]);
    }
  }

  lemma {:induction false} HookIsInvisibleInPairs(pairs: seq<Pair>)
    requires DistinctKeys(pairs) && forall p :: p in pairs ==> NoRepeats(p.value)
    ensures AsEntries(DecodePairs(pairs)) == LoadPairs(pairs)
    decreases pairs, 0
  {
    if pairs == [] {
    } else {
      hide Decode, Load, AsValue, Insert, AsEntries, DecodePairs;
      var n := |pairs| - 1;
      var last := pairs[n];
      HookIsInvisible(last.value);
      HookIsInvisibleInPairs(pairs[..n]);
      assert pairs == pairs[..n] + [last];
      DecodePairsOfSnoc(pairs[..n], last);
      AsEntriesOfSnoc(DecodePairs(pairs[..n]), Field(last.key, Decode(last.value)));
      LastKeyIsNew(pairs);
      InsertNew(LoadPairs(pairs[..n]), last.key, Load(last.value));
    }
  }

  lemma {:induction false} DecodePairsOfSnoc(pairs: seq<Pair>, last: Pair)
    ensures DecodePairs(pairs + [last]) == DecodePairs(pairs) + [Field(last.key, Decode(last.value))]
    decreases |pairs|
  {
    if pairs != [] {
      DecodePairsOfSnoc(pairs[1..], last);
      assert (pairs + [last])[1..] == pairs[1..] + [last];
    }
  }

  lemma {:induction false} AsEntriesOfSnoc(fields: seq<Field>, last: Field)
    ensures AsEntries(fields + [last]) == AsEntries(fields) + [Entry(last.key, AsValue(last.value))]
    decreases |fields|
  {
    if fields != [] {
      AsEntriesOfSnoc(fields[1..], last);
      assert (fields + [last])[1..] == fields[1..] + [last];
    }
  }

  lemma {:induction false} InsertNew(entries: seq<Entry>, key: string, value: Value)
    requires forall e :: e in entries ==> e.key != key
    ensures Insert(entries, key, value) == entries + [Entry(key, value)]
  {
    if entries != [] {
      InsertNew(entries[1..], key, value);
    }
  }

  const MAX_JSON_DEPTH := 16

  datatype Refusal = TooDeep | RepeatedKey(path: string)

  /** `parse_json_text` on text that decodes: the depth bound, then the two stages. `raw` is the tree
      the decoder reads in `text`. */
  method ParseJsonText(text: string, raw: Raw) returns (r: Result<Decoded, Refusal>)
    ensures r == if Run(START, text).deepest > MAX_JSON_DEPTH then Err(TooDeep)
                 else
                   match FirstMarker([Visit(Decode(raw), ROOT, false)])
                   case Some(path) => Err(RepeatedKey(path))
                   case None => Ok(Decode(raw))
  {
    var depth := JsonNestingDepth(text);
    if depth > MAX_JSON_DEPTH {
      return Err(TooDeep);
    }
    var document := Decode(raw);
    var path := RepeatedKeyPath(document);
    if path.Some? {
      return Err(RepeatedKey(path.value));
    }
    r := Ok(document);
  }

  /** What the loader returns for every JSON document, however it is spelled: refused exactly when
      it nests too deep, or else repeats a key; otherwise the value a plain decoder returns, whose
      container depth is within the bound. */
  method LoadDocument(lead: string, doc: Doc, trail: string, spell: seq<Piece> -> string)
      returns (r: Result<Decoded, Refusal>)
    requires IsSpaces(lead) && IsJson(doc) && IsSpaces(trail)
    ensures r == Err(TooDeep) <==> Depth(doc) > 16
    ensures r.Ok? <==> Depth(doc) <= 16 && NoRepeats(Read(doc, spell))
    ensures r.Ok? ==> AsValue(r.value) == Load(Read(doc, spell)) && ContainerDepth(AsValue(r.value)) == Depth(doc)
    ensures r.Err? && r.error.RepeatedKey? ==>
              var raw := Read(doc, spell);
              && Locations(raw) != []
              && r.error.path == Spelled(ROOT, Locations(raw)[0])
              && IsRepeatingObject(Follow(raw, Locations(raw)[0]))
  {
    var raw := Read(doc, spell);
    ScanIsDepth(lead, doc, trail);
    ScanBoundsDecoded(lead, doc, trail, spell);
    WalkFindsFirstRepeat(raw);
    if NoRepeats(raw) {
      HookIsInvisible(raw);
    } else {
      FirstLocationIsRepeat(raw);
    }
    r := ParseJsonText(lead + Render(doc) + trail, raw);
  }
}
