/**
 What the strict loader says of a repeated key, said of the tree alone: which object it is, by the places of
 the members and items on the way to it (`FirstRepeatMeans`), and how its path is written (`PathMeans`).
 */
module RepeatedPaths {
  import opened Decimals
  import opened JsonDepth
  import opened RepeatedKeys
  import opened Wrappers

  // ------------------------------------------------------------------------------ the path's text

  /** `[a-z][a-z0-9_]{0,31}` */
  predicate IsWritable(key: string) {
    && 1 <= |key| <= 32 && key[0] in "abcdefghijklmnopqrstuvwxyz"
    && forall i :: 0 <= i < |key| ==> key[i] in "abcdefghijklmnopqrstuvwxyz0123456789_"
  }

  /** The steps down to the first key that is not written: keys with a dot in front, but for the first step,
      and indices in brackets. */
  function Steps(location: seq<Step>, first: bool): string {
    if location == [] then ""
    else
      match location[0]
      case Index(i) => "[" + Decimal(i) + "]" + Steps(location[1..], false)
      case Key(k) => if IsWritable(k) then (if first then "" else ".") + k + Steps(location[1..], false) else ""
  }

  /** The root's own name stands for no step. */
  function Written(location: seq<Step>): string {
    if Steps(location, true) == "" then "$" else Steps(location, true)
  }

  lemma Letters(c: char)
    ensures c in "abcdefghijklmnopqrstuvwxyz" <==> 'a' <= c <= 'z'
  {
    var letters := "abcdefghijklmnopqrstuvwxyz";
    assert forall i :: 0 <= i < 26 ==> letters[i] == 'a' + i as char;
    if 'a' <= c <= 'z' {
      assert letters[c as int - 'a' as int] == c;
    }
  }

  lemma Tails(c: char)
    ensures c in "abcdefghijklmnopqrstuvwxyz0123456789_" <==> 'a' <= c <= 'z' || '0' <= c <= '9' || c == '_'
  {
    assert "abcdefghijklmnopqrstuvwxyz0123456789_" == "abcdefghijklmnopqrstuvwxyz" + "0123456789" + "_";
    var digits := "0123456789";
    assert forall i :: 0 <= i < 10 ==> digits[i] == '0' + i as char;
    Letters(c);
    if '0' <= c <= '9' {
      assert digits[c as int - '0' as int] == c;
    }
  }

  lemma WritableIs(key: string)
    ensures IsWritable(key) <==> IsSpellable(key)
  {
    if 1 <= |key| {
      Letters(key[0]);
      forall i | 0 <= i < |key|
        ensures key[i] in "abcdefghijklmnopqrstuvwxyz0123456789_" <==>
                  'a' <= key[i] <= 'z' || '0' <= key[i] <= '9' || key[i] == '_'
      {
        Tails(key[i]);
      }
      assert forall i :: 0 <= i < |key| ==> key[i] in key;
    }
  }

  lemma IndexOneMore(path: string, i: nat, rest: string)
    requires path != "$" && path != ""
    ensures IndexPath(path, i) != "$" && IndexPath(path, i) != ""
    ensures IndexPath(path, i) + rest == path + ("[" + Decimal(i) + "]" + rest)
  {
    var text := "[" + Decimal(i) + "]";
    assert IndexPath(path, i) == path + text;
    assert path + text + rest == path + (text + rest);
    assert |path + text| > 1;
  }

  lemma KeyOneMore(path: string, k: string, rest: string)
    requires path != "$" && path != "" && k != ""
    ensures KeyPath(path, k) != "$" && KeyPath(path, k) != ""
    ensures KeyPath(path, k) + rest == path + ("." + k + rest)
  {
    assert KeyPath(path, k) == path + ("." + k);
    assert path + ("." + k) + rest == path + ("." + k + rest);
    assert |path + ("." + k)| > 1;
  }

  lemma {:induction false} StepsBelow(path: string, location: seq<Step>)
    requires path != "$" && path != ""
    ensures Spelled(path, location) == path + Steps(location, false)
    decreases |location|
  {
    hide IsWritable, IsSpellable, Decimal, IndexPath, KeyPath;
    if location == [] {
      assert path + "" == path;
    } else {
      match location[0] {
        case Index(i) =>
          IndexOneMore(path, i, Steps(location[1..], false));
          StepsBelow(IndexPath(path, i), location[1..]);
        case Key(k) =>
          WritableIs(k);
          if IsSpellable(k) {
            KeyIsNotRoot(k);
            KeyOneMore(path, k, Steps(location[1..], false));
            StepsBelow(KeyPath(path, k), location[1..]);
          } else {
            assert path + "" == path;
          }
      }
    }
  }

  lemma NotRoot(path: string, i: nat)
    requires i < |path| && path[i] != '$'
    ensures path != "$"
  {
  }

  /** The path that is reported is written so. */
  lemma PathMeans(location: seq<Step>)
    ensures Spelled("$", location) == Written(location)
  {
    hide IsWritable, IsSpellable, Decimal;
    if location != [] {
      match location[0] {
        case Index(i) =>
          var path := "[" + Decimal(i) + "]";
          NotRoot(path, 0);
          StepsBelow(path, location[1..]);
        case Key(k) =>
          WritableIs(k);
          if IsSpellable(k) {
            KeyIsNotRoot(k);
            StepsBelow(k, location[1..]);
          }
      }
    }
  }

  lemma KeyIsNotRoot(key: string)
    requires IsSpellable(key)
    ensures key != "" && key != "$"
  {
  }

  // ------------------------------------------------------------------------------ the first object

  /** The item or the member's value at a place, one of several below the other. */
  function At(raw: Raw, places: seq<nat>): Option<Raw>
    decreases |places|
  {
    if places == [] then Some(raw)
    else
      match raw
      case RawLeaf(_) => None
      case RawList(items) => if places[0] < |items| then At(items[places[0]], places[1..]) else None
      case RawObject(pairs) => if places[0] < |pairs| then At(pairs[places[0]].value, places[1..]) else None
  }

  /** The indices and keys passed on the way there. */
  function StepsTo(raw: Raw, places: seq<nat>): seq<Step>
    decreases |places|
  {
    if places == [] then []
    else
      match raw
      case RawLeaf(_) => []
      case RawList(items) =>
        if places[0] < |items| then [Index(places[0])] + StepsTo(items[places[0]], places[1..]) else []
      case RawObject(pairs) =>
        if places[0] < |pairs| then [Key(pairs[places[0]].key)] + StepsTo(pairs[places[0]].value, places[1..]) else []
  }

  /** An object is before what is in it, and what stands earlier in it before what stands later. */
  predicate IsBefore(a: seq<nat>, b: seq<nat>)
    decreases |a|
  {
    a == [] || (b != [] && (a[0] < b[0] || (a[0] == b[0] && IsBefore(a[1..], b[1..]))))
  }

  /** An object at this place has two members of one key. */
  predicate RepeatsAt(raw: Raw, places: seq<nat>) {
    var o := At(raw, places);
    && o.Some? && o.value.RawObject?
    && exists i, j :: 0 <= i < j < |o.value.pairs| && o.value.pairs[i].key == o.value.pairs[j].key
  }

  lemma {:induction false} NoneRepeats(raw: Raw, places: seq<nat>)
    requires NoRepeats(raw)
    ensures !RepeatsAt(raw, places)
    decreases |places|
  {
    if places != [] {
      match raw {
        case RawLeaf(_) =>
        case RawList(items) =>
          if places[0] < |items| {
            NoneRepeats(items[places[0]], places[1..]);
          }
        case RawObject(pairs) =>
          if places[0] < |pairs| {
            assert pairs[places[0]] in pairs;
            NoneRepeats(pairs[places[0]].value, places[1..]);
          }
      }
    }
  }

  /** The first of some items with a repeated key in it. */
  lemma {:induction false} FirstItem(items: seq<Raw>, from: nat) returns (i: nat)
    requires !forall r :: r in items ==> NoRepeats(r)
    ensures i < |items| && !NoRepeats(items[i]) && forall j :: 0 <= j < i ==> NoRepeats(items[j])
    ensures Locations(items[i]) != [] && LocationsInItems(items, from) != []
    ensures LocationsInItems(items, from)[0] == [Index(from + i)] + Locations(items[i])[0]
  {
    hide Locations, NoRepeats;
    NoLocations(items[0]);
    if NoRepeats(items[0]) {
      assert forall r :: r in items <==> r == items[0] || r in items[1..];
      var k := FirstItem(items[1..], from + 1);
      i := k + 1;
    } else {
      i := 0;
    }
  }

  lemma {:induction false} FirstPair(pairs: seq<Pair>) returns (i: nat)
    requires !forall p :: p in pairs ==> NoRepeats(p.value)
    ensures i < |pairs| && !NoRepeats(pairs[i].value) && forall j :: 0 <= j < i ==> NoRepeats(pairs[j].value)
    ensures Locations(pairs[i].value) != [] && LocationsInPairs(pairs) != []
    ensures LocationsInPairs(pairs)[0] == [Key(pairs[i].key)] + Locations(pairs[i].value)[0]
  {
    hide Locations, NoRepeats;
    NoLocations(pairs[0].value);
    if NoRepeats(pairs[0].value) {
      assert forall p :: p in pairs <==> p == pairs[0] || p in pairs[1..];
      var k := FirstPair(pairs[1..]);
      i := k + 1;
    } else {
      i := 0;
    }
  }

  /** Where a key is repeated at all, the object that is reported stands at a place no other such object is
      before, and its location is the steps that lead there. */
  lemma {:induction false} FirstRepeatMeans(raw: Raw) returns (places: seq<nat>)
    requires !NoRepeats(raw)
    ensures RepeatsAt(raw, places) && Locations(raw) != [] && Locations(raw)[0] == StepsTo(raw, places)
    ensures forall other :: RepeatsAt(raw, other) ==> IsBefore(places, other)
    decreases raw
  {
    hide LocationsInItems, LocationsInPairs;
    match raw {
      case RawList(items) =>
        var i := FirstItem(items, 0);
        var below := FirstRepeatMeans(items[i]);
        places := [i] + below;
        assert places[1..] == below;
        forall other | RepeatsAt(raw, other)
          ensures IsBefore(places, other)
        {
          if other[0] < i {
            NoneRepeats(items[other[0]], other[1..]);
          }
        }
      case RawObject(pairs) =>
        if DistinctKeys(pairs) {
          var i := FirstPair(pairs);
          assert pairs[i] in pairs;
          var below := FirstRepeatMeans(pairs[i].value);
          places := [i] + below;
          assert places[1..] == below;
          assert [] + LocationsInPairs(pairs) == LocationsInPairs(pairs);
          forall other | RepeatsAt(raw, other)
            ensures IsBefore(places, other)
          {
            if other != [] && other[0] < i {
              NoneRepeats(pairs[other[0]].value, other[1..]);
            }
          }
        } else {
          places := [];
        }
    }
  }

  /** Nothing is reported exactly when there is no such object. */
  lemma RepeatsIff(raw: Raw)
    ensures NoRepeats(raw) <==> forall places :: !RepeatsAt(raw, places)
  {
    if NoRepeats(raw) {
      forall places
        ensures !RepeatsAt(raw, places)
      {
        NoneRepeats(raw, places);
      }
    } else {
      var places := FirstRepeatMeans(raw);
    }
  }

  // ---------------------------------------------------------------------------------- the depth

  /** A list or an object stands at this place. */
  predicate IsContainerAt(raw: Raw, places: seq<nat>) {
    var o := At(raw, places);
    o.Some? && (o.value.RawList? || o.value.RawObject?)
  }

  /** A document is deeper than `n` exactly when a list or an object stands below `n` others. */
  lemma {:induction false} DepthMeans(raw: Raw, n: nat)
    ensures RawDepth(raw) > n <==> exists places :: |places| == n && IsContainerAt(raw, places)
    decreases raw
  {
    if n == 0 {
      assert raw.RawList? || raw.RawObject? ==> IsContainerAt(raw, []);
    } else {
      match raw {
        case RawLeaf(_) =>
        case RawList(items) =>
          DeepestItem(items, n - 1);
          forall i | 0 <= i < |items|
            ensures RawDepth(items[i]) > n - 1 <==>
                      exists places :: |places| == n - 1 && IsContainerAt(items[i], places)
          {
            DepthMeans(items[i], n - 1);
          }
          if i :| 0 <= i < |items| && RawDepth(items[i]) > n - 1 {
            var below :| |below| == n - 1 && IsContainerAt(items[i], below);
            assert ([i as nat] + below)[1..] == below;
            assert IsContainerAt(raw, [i as nat] + below);
          }
          if places :| |places| == n && IsContainerAt(raw, places) {
            assert IsContainerAt(items[places[0]], places[1..]);
          }
        case RawObject(pairs) =>
          DeepestPair(pairs, n - 1);
          forall i | 0 <= i < |pairs|
            ensures RawDepth(pairs[i].value) > n - 1 <==>
                      exists places :: |places| == n - 1 && IsContainerAt(pairs[i].value, places)
          {
            assert pairs[i] in pairs;
            DepthMeans(pairs[i].value, n - 1);
          }
          if i :| 0 <= i < |pairs| && RawDepth(pairs[i].value) > n - 1 {
            var below :| |below| == n - 1 && IsContainerAt(pairs[i].value, below);
            assert ([i as nat] + below)[1..] == below;
            assert IsContainerAt(raw, [i as nat] + below);
          }
          if places :| |places| == n && IsContainerAt(raw, places) {
            assert IsContainerAt(pairs[places[0]].value, places[1..]);
          }
      }
    }
  }

  lemma {:induction false} DeepestItem(items: seq<Raw>, n: nat)
    ensures RawDepthOfAll(items) > n <==> exists i :: 0 <= i < |items| && RawDepth(items[i]) > n
  {
    if items != [] {
      DeepestItem(items[1..], n);
      if i :| 0 <= i < |items[1..]| && RawDepth(items[1..][i]) > n {
        assert RawDepth(items[i + 1]) > n;
      }
      if i :| 0 <= i < |items| && RawDepth(items[i]) > n {
        assert i > 0 ==> RawDepth(items[1..][i - 1]) > n;
      }
    }
  }

  lemma {:induction false} DeepestPair(pairs: seq<Pair>, n: nat)
    ensures RawDepthOfPairs(pairs) > n <==> exists i :: 0 <= i < |pairs| && RawDepth(pairs[i].value) > n
  {
    if pairs != [] {
      DeepestPair(pairs[1..], n);
      if i :| 0 <= i < |pairs[1..]| && RawDepth(pairs[1..][i].value) > n {
        assert RawDepth(pairs[i + 1].value) > n;
      }
      if i :| 0 <= i < |pairs| && RawDepth(pairs[i].value) > n {
        assert i > 0 ==> RawDepth(pairs[1..][i - 1].value) > n;
      }
    }
  }
}
