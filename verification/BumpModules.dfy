/**
 One shipped module across an arc, unit by unit. `ClassifyModule` adds exactly the verdicts that
 `ModuleDue` names: one for every unit that is added, removed or changed, but for the two of the version
 file that are judged elsewhere (`EveryChangedUnitIsJudged`).
 */
module BumpModules {
  import opened BumpFindings
  import opened Lists
  import opened Sorting
  import opened Wrappers

  /** A parsed module: each top-level unit with the dump of its code. */
  type Units = map<string, string>

  /** The rosters that the table's rows are about, at one end. */
  datatype Rosters = Rosters(
    adapters: set<string>, adaptersByModule: map<string, set<string>>,
    flags: set<string>, checks: set<string>, exitCodes: set<string>, schemaVersion: Option<string>)

  const HARNESS := "synapse_cdm/harness.py"
  const ADAPTERS := "synapse_cdm/adapters/"
  const VERSION_FILE := "synapse_cdm/version.py"
  const DECLARATION := "synapse_cdm/version.py:PACKAGE_VERSION"
  const SCHEMA := "SCHEMA_VERSION"
  const CHECK := "_check_"

  function Named(path: string, unit: string): string {
    path + ":" + unit
  }

  /** The signals of one roster, a member added and a member removed. */
  function RosterMoves(was: set<string>, now: set<string>, what: string): seq<Signal> {
    (if now - was != {} then [Signal(Minor, what)] else [])
    + (if was - now != {} then [Signal(Major, what)] else [])
  }

  function MineAt(rosters: Rosters, path: string): set<string> {
    if path in rosters.adaptersByModule then rosters.adaptersByModule[path] else {}
  }

  /** The adapters that join the roster and are this module's to declare. */
  function AdaptersAdded(path: string, was: Rosters, now: Rosters): set<string> {
    (now.adapters - was.adapters) * (MineAt(now, path) - MineAt(was, path))
  }

  function ModuleMoves(path: string, was: Rosters, now: Rosters): seq<Signal> {
    (if path == HARNESS then
       RosterMoves(was.flags, now.flags, Named(path, "flag"))
       + RosterMoves(was.checks, now.checks, Named(path, "check"))
       + RosterMoves(was.exitCodes, now.exitCodes, Named(path, "exit code"))
     else [])
    + (if ADAPTERS <= path then
         (if AdaptersAdded(path, was, now) != {} then [Signal(Minor, Named(path, "registry"))] else [])
         + (if AdaptersAdded(path, now, was) != {} then [Signal(Major, Named(path, "registry"))] else [])
       else [])
  }

  function IsMajor(): Signal -> bool {
    (s: Signal) => s.kind == Major
  }

  function IsMinor(): Signal -> bool {
    (s: Signal) => s.kind == Minor
  }

  /** Strongest first, and in the order found among equals; a move is never of another kind. */
  function StrongestFirst(moves: seq<Signal>): seq<Signal> {
    Filter(moves, IsMajor()) + Filter(moves, IsMinor())
  }

  /** What a roster says of a body that changed in its module. */
  function Explanation(path: string, was: Rosters, now: Rosters): Option<Kind> {
    var moves := StrongestFirst(ModuleMoves(path, was, now));
    if moves == [] then None else Some(moves[0].kind)
  }

  /** A member of a roster that belongs to the module came or went. */
  predicate Lost(path: string, was: Rosters, now: Rosters) {
    || (path == HARNESS && !(was.flags <= now.flags && was.checks <= now.checks && was.exitCodes <= now.exitCodes))
    || (ADAPTERS <= path && exists a :: a in was.adapters && a !in now.adapters
                                        && a in MineAt(was, path) && a !in MineAt(now, path))
  }

  lemma DifferenceEmpty(a: set<string>, b: set<string>)
    ensures a - b != {} <==> !(a <= b)
  {
    if a <= b {
      assert a - b == {};
    } else {
      var x :| x in a && x !in b;
      assert x in a - b;
    }
  }

  lemma AdaptersAddedIff(path: string, was: Rosters, now: Rosters)
    ensures AdaptersAdded(path, was, now) != {} <==>
              exists a :: a in now.adapters && a !in was.adapters && a in MineAt(now, path) && a !in MineAt(was, path)
  {
    if AdaptersAdded(path, was, now) != {} {
      var a :| a in AdaptersAdded(path, was, now);
    }
    if a :| a in now.adapters && a !in was.adapters && a in MineAt(now, path) && a !in MineAt(was, path) {
      assert a in AdaptersAdded(path, was, now);
    }
  }

  lemma RosterMovesHold(was: set<string>, now: set<string>, what: string)
    ensures (exists s :: s in RosterMoves(was, now, what) && s.kind == Major) <==> !(was <= now)
    ensures (exists s :: s in RosterMoves(was, now, what) && s.kind == Minor) <==> !(now <= was)
    ensures forall s :: s in RosterMoves(was, now, what) ==> s.kind in {Minor, Major}
  {
    DifferenceEmpty(was, now);
    DifferenceEmpty(now, was);
    var moves := RosterMoves(was, now, what);
    assert now - was != {} ==> Signal(Minor, what) in moves;
    assert was - now != {} ==> Signal(Major, what) in moves;
  }

  lemma MovesHold(path: string, was: Rosters, now: Rosters)
    ensures (exists s :: s in ModuleMoves(path, was, now) && s.kind == Major) <==> Lost(path, was, now)
    ensures (exists s :: s in ModuleMoves(path, was, now) && s.kind == Minor) <==> Lost(path, now, was)
    ensures forall s :: s in ModuleMoves(path, was, now) ==> s.kind in {Minor, Major}
  {
    hide RosterMoves, AdaptersAdded;
    var flags := RosterMoves(was.flags, now.flags, Named(path, "flag"));
    var checks := RosterMoves(was.checks, now.checks, Named(path, "check"));
    var codes := RosterMoves(was.exitCodes, now.exitCodes, Named(path, "exit code"));
    RosterMovesHold(was.flags, now.flags, Named(path, "flag"));
    RosterMovesHold(was.checks, now.checks, Named(path, "check"));
    RosterMovesHold(was.exitCodes, now.exitCodes, Named(path, "exit code"));
    AdaptersAddedIff(path, was, now);
    AdaptersAddedIff(path, now, was);
    var harness := if path == HARNESS then flags + checks + codes else [];
    var gained := if AdaptersAdded(path, was, now) != {} then [Signal(Minor, Named(path, "registry"))] else [];
    var gone := if AdaptersAdded(path, now, was) != {} then [Signal(Major, Named(path, "registry"))] else [];
    var registry := if ADAPTERS <= path then gained + gone else [];
    assert ModuleMoves(path, was, now) == harness + registry;
    assert forall s :: s in harness <==> path == HARNESS && (s in flags || s in checks || s in codes);
    assert AdaptersAdded(path, was, now) != {} ==> Signal(Minor, Named(path, "registry")) in gained;
    assert AdaptersAdded(path, now, was) != {} ==> Signal(Major, Named(path, "registry")) in gone;
    assert forall s :: s in registry <==> ADAPTERS <= path && (s in gained || s in gone);
  }

  /** A changed body is explained as MAJOR exactly when a member of one of its module's rosters went, and as
      MINOR exactly when one came and none went. */
  lemma ExplanationIff(path: string, was: Rosters, now: Rosters)
    ensures Explanation(path, was, now) == Some(Major) <==> Lost(path, was, now)
    ensures Explanation(path, was, now) == Some(Minor) <==> Lost(path, now, was) && !Lost(path, was, now)
    ensures Explanation(path, was, now) == None <==> !Lost(path, now, was) && !Lost(path, was, now)
  {
    hide Lost, ModuleMoves;
    MovesHold(path, was, now);
    var moves := ModuleMoves(path, was, now);
    var majors, minors := Filter(moves, IsMajor()), Filter(moves, IsMinor());
    if |majors| > 0 {
      assert majors[0] in majors && StrongestFirst(moves)[0] == majors[0];
    } else if |minors| > 0 {
      assert minors[0] in minors && StrongestFirst(moves)[0] == minors[0];
    }
  }

  /** A name a consumer can import. */
  predicate Public(name: string) {
    name == "" || (name[0] != '_' && name[0] != '<')
  }

  function AddedKind(path: string, unit: string): Kind {
    if path == HARNESS && CHECK <= unit then Minor else if Public(unit) then Minor else Patch
  }

  function RemovedKind(path: string, unit: string): Kind {
    if path == HARNESS && CHECK <= unit then Major else if Public(unit) then Major else Patch
  }

  /** Judged elsewhere: the number under judgement, and the schema version, which the surface signals. */
  predicate JudgedElsewhere(path: string, unit: string) {
    Named(path, unit) == DECLARATION || (path == VERSION_FILE && unit == SCHEMA)
  }

  /** The verdict a unit of a module is due. */
  function UnitDue(path: string, before: Units, after: Units, explained: Option<Kind>, unit: string):
    multiset<Verdict>
  {
    if unit in after && unit !in before then multiset{Says(AddedKind(path, unit))}
    else if unit in before && unit !in after then multiset{Says(RemovedKind(path, unit))}
    else if unit in before && before[unit] != after[unit] && !JudgedElsewhere(path, unit) then
      multiset{if explained.Some? then Says(explained.value) else Asks}
    else multiset{}
  }

  predicate IsUnitOf(path: string, full: string) {
    Named(path, "") <= full
  }

  function UnitOf(path: string, full: string): string
    requires IsUnitOf(path, full)
  {
    full[|path| + 1..]
  }

  lemma UnitOfNamed(path: string, unit: string)
    ensures IsUnitOf(path, Named(path, unit)) && UnitOf(path, Named(path, unit)) == unit
    ensures Named(path, unit) != path
  {
    assert |Named(path, unit)| > |path|;
  }

  lemma NamedOfUnit(path: string, full: string)
    requires IsUnitOf(path, full)
    ensures Named(path, UnitOf(path, full)) == full
  {
  }

  /** The verdicts due to the units among the given ones. */
  function UnitsDue(path: string, before: Units, after: Units, explained: Option<Kind>,
                    units: set<string>, full: string): multiset<Verdict>
  {
    if IsUnitOf(path, full) && UnitOf(path, full) in units
    then UnitDue(path, before, after, explained, UnitOf(path, full)) else multiset{}
  }

  /** A module as it stands at one end: not shipped, shipped and not parsed, or parsed. */
  datatype End = Missing | Broken | Parsed(units: Units)
  {
    function Read(): Units {
      if Parsed? then units else map[]
    }
  }

  /** What the module adds about `full`. */
  function ModuleDue(path: string, before: End, after: End, was: Rosters, now: Rosters, full: string):
    multiset<Verdict>
  {
    if before.Broken? || after.Broken? then One(full == path, Asks)
    else if before.Read() == after.Read() then One(full == path, Says(Patch))
    else if IsUnitOf(path, full) then
      UnitDue(path, before.Read(), after.Read(), Explanation(path, was, now), UnitOf(path, full))
    else multiset{}
  }

  // One more unit of the worklist is judged.
  lemma NextUnit(path: string, before: Units, after: Units, explained: Option<Kind>, done: set<string>,
                 unit: string, full: string)
    requires unit !in done
    ensures UnitsDue(path, before, after, explained, done + {unit}, full)
         == UnitsDue(path, before, after, explained, done, full)
            + if full == Named(path, unit) then UnitDue(path, before, after, explained, unit) else multiset{}
  {
    hide UnitDue;
    UnitOfNamed(path, unit);
    if IsUnitOf(path, full) {
      NamedOfUnit(path, full);
    }
  }

  /** A unit that appears. */
  method JudgeAddedUnit(path: string, unit: string, derived: Derivation)
    modifies derived
    ensures forall full :: VerdictsOn(derived.Value(), full)
                        == VerdictsOn(old(derived.Value()), full)
                          + One(full == Named(path, unit), Says(AddedKind(path, unit)))
  {
    hide VerdictsOn, Named, Public, One;
    if path == HARNESS && CHECK <= unit {
      derived.Say(Minor, Named(path, unit));
    } else if Public(unit) {
      derived.Say(Minor, Named(path, unit));
    } else {
      derived.Say(Patch, Named(path, unit));
    }
  }

  /** The units that appear. */
  method JudgeAdded(path: string, before: Units, after: Units, explained: Option<Kind>, derived: Derivation)
    modifies derived
    ensures forall full :: VerdictsOn(derived.Value(), full)
                        == VerdictsOn(old(derived.Value()), full)
                           + UnitsDue(path, before, after, explained, after.Keys - before.Keys, full)
  {
    hide VerdictsOn, UnitsDue, Named, AddedKind, RemovedKind;
    var order := SortedSet(after.Keys - before.Keys);
    ghost var done: set<string> := {};
    NoneDue(path, before, after, explained);
    for i := 0 to |order|
      invariant done == set u | u in order[..i]
      invariant forall full :: VerdictsOn(derived.Value(), full)
                            == VerdictsOn(old(derived.Value()), full)
                               + UnitsDue(path, before, after, explained, done, full)
    {
      var unit := order[i];
      assert unit in order && unit !in order[..i];
      JudgeAddedUnit(path, unit, derived);
      assert UnitDue(path, before, after, explained, unit) == One(true, Says(AddedKind(path, unit)));
      forall full {
        NextUnit(path, before, after, explained, done, unit, full);
      }
      done := done + {unit};
      assert order[..i + 1] == order[..i] + [unit];
    }
    assert order[..|order|] == order;
    assert done == after.Keys - before.Keys;
  }

  lemma NoneDue(path: string, before: Units, after: Units, explained: Option<Kind>)
    ensures forall full :: UnitsDue(path, before, after, explained, {}, full) == multiset{}
  {
  }

  /** A unit that disappears. */
  method JudgeRemovedUnit(path: string, unit: string, derived: Derivation)
    modifies derived
    ensures forall full :: VerdictsOn(derived.Value(), full)
                        == VerdictsOn(old(derived.Value()), full)
                          + One(full == Named(path, unit), Says(RemovedKind(path, unit)))
  {
    hide VerdictsOn, Named, Public, One;
    if path == HARNESS && CHECK <= unit {
      derived.Say(Major, Named(path, unit));
    } else if Public(unit) {
      derived.Say(Major, Named(path, unit));
    } else {
      derived.Say(Patch, Named(path, unit));
    }
  }

  /** The units that disappear. */
  method JudgeRemoved(path: string, before: Units, after: Units, explained: Option<Kind>, derived: Derivation)
    modifies derived
    ensures forall full :: VerdictsOn(derived.Value(), full)
                        == VerdictsOn(old(derived.Value()), full)
                           + UnitsDue(path, before, after, explained, before.Keys - after.Keys, full)
  {
    hide VerdictsOn, UnitsDue, Named, AddedKind, RemovedKind;
    var order := SortedSet(before.Keys - after.Keys);
    ghost var done: set<string> := {};
    NoneDue(path, before, after, explained);
    for i := 0 to |order|
      invariant done == set u | u in order[..i]
      invariant forall full :: VerdictsOn(derived.Value(), full)
                            == VerdictsOn(old(derived.Value()), full)
                               + UnitsDue(path, before, after, explained, done, full)
    {
      var unit := order[i];
      assert unit in order && unit !in order[..i];
      JudgeRemovedUnit(path, unit, derived);
      assert UnitDue(path, before, after, explained, unit) == One(true, Says(RemovedKind(path, unit)));
      forall full {
        NextUnit(path, before, after, explained, done, unit, full);
      }
      done := done + {unit};
      assert order[..i + 1] == order[..i] + [unit];
    }
    assert order[..|order|] == order;
    assert done == before.Keys - after.Keys;
  }

  /** The units that stay, changed or not. */
  method JudgeKept(path: string, before: Units, after: Units, explained: Option<Kind>, derived: Derivation)
    modifies derived
    ensures forall full :: VerdictsOn(derived.Value(), full)
                        == VerdictsOn(old(derived.Value()), full)
                           + UnitsDue(path, before, after, explained, before.Keys * after.Keys, full)
  {
    hide VerdictsOn, UnitsDue, UnitDue, Named;
    var order := SortedSet(before.Keys * after.Keys);
    ghost var done: set<string> := {};
    NoneDue(path, before, after, explained);
    for i := 0 to |order|
      invariant done == set u | u in order[..i]
      invariant forall full :: VerdictsOn(derived.Value(), full)
                            == VerdictsOn(old(derived.Value()), full)
                               + UnitsDue(path, before, after, explained, done, full)
    {
      var unit := order[i];
      assert unit in order && unit !in order[..i];
      JudgeKeptUnit(path, before, after, explained, unit, derived);
      forall full {
        NextUnit(path, before, after, explained, done, unit, full);
      }
      done := done + {unit};
      assert order[..i + 1] == order[..i] + [unit];
    }
    assert order[..|order|] == order;
    assert done == before.Keys * after.Keys;
  }

  /** The body of the loop. */
  method JudgeKeptUnit(path: string, before: Units, after: Units, explained: Option<Kind>, unit: string,
                       derived: Derivation)
    requires unit in before && unit in after
    modifies derived
    ensures forall full :: VerdictsOn(derived.Value(), full)
                        == VerdictsOn(old(derived.Value()), full)
                           + if full == Named(path, unit) then UnitDue(path, before, after, explained, unit)
                             else multiset{}
  {
    hide VerdictsOn, Named;
    if before[unit] == after[unit] {
      return;
    }
    if Named(path, unit) == DECLARATION {
      return;
    }
    if path == VERSION_FILE && unit == SCHEMA {
      return;
    }
    if explained.Some? {
      derived.Say(explained.value, Named(path, unit));
      return;
    }
    derived.Ask(Named(path, unit));
  }

  lemma AllUnits(path: string, before: Units, after: Units, explained: Option<Kind>, full: string)
    ensures UnitsDue(path, before, after, explained, after.Keys - before.Keys, full)
            + UnitsDue(path, before, after, explained, before.Keys - after.Keys, full)
            + UnitsDue(path, before, after, explained, before.Keys * after.Keys, full)
         == if IsUnitOf(path, full) then UnitDue(path, before, after, explained, UnitOf(path, full)) else multiset{}
  {
  }

  method ClassifyModule(path: string, before: End, after: End, was: Rosters, now: Rosters, derived: Derivation)
    modifies derived
    ensures forall full :: VerdictsOn(derived.Value(), full)
                        == VerdictsOn(old(derived.Value()), full) + ModuleDue(path, before, after, was, now, full)
  {
    hide VerdictsOn, UnitsDue, UnitDue, Explanation;
    if before.Broken? || after.Broken? {
      derived.Ask(path);
      return;
    }
    if before.Read() == after.Read() {
      derived.Say(Patch, path);
      return;
    }
    var explained := Explanation(path, was, now);
    JudgeAdded(path, before.Read(), after.Read(), explained, derived);
    JudgeRemoved(path, before.Read(), after.Read(), explained, derived);
    JudgeKept(path, before.Read(), after.Read(), explained, derived);
    forall full {
      AllUnits(path, before.Read(), after.Read(), explained, full);
    }
  }

  /** A unit that differs between two parsed ends gets exactly one verdict, unless it is judged elsewhere;
      and then, or where it does not differ, none. */
  lemma EveryChangedUnitIsJudged(path: string, before: End, after: End, was: Rosters, now: Rosters, unit: string)
    requires !before.Broken? && !after.Broken?
    ensures var b, a := before.Read(), after.Read();
            var differs := (unit in b) != (unit in a) || (unit in b && b[unit] != a[unit]);
            |ModuleDue(path, before, after, was, now, Named(path, unit))|
              == if differs && !(unit in b && unit in a && JudgedElsewhere(path, unit)) then 1 else 0
  {
    UnitOfNamed(path, unit);
  }
}
