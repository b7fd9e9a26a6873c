/**
 What an arc between two snapshots of the distribution proves. `Derive` finds, about every unit, exactly
 what the fixture sets, the changed files and the schema version are due; a file that changed is never
 passed over (`ChangedPathCounts`), and nothing is found where nothing changed (`QuietArc`).
 */
module BumpDerive {
  import opened BumpFindings
  import opened BumpModules
  import opened Sorting
  import opened Wrappers

  /** The shipped files at one end, and the rosters read from them. */
  datatype Snapshot = Snapshot(files: map<string, string>, rosters: Rosters)

  /** The readers the gate is given: the units of a module's text, none where it does not parse, and the
      findings about the metadata file. */
  datatype Readers = Readers(units: string -> Option<Units>, metadata: (string, string) -> Findings)

  const PYPROJECT := "pyproject.toml"
  const FIXTURES := "synapse_cdm/fixtures/"
  const SCHEMA_UNIT := "synapse_cdm/version.py:SCHEMA_VERSION"

  predicate EndsWith(s: string, suffix: string) {
    |suffix| <= |s| && s[|s| - |suffix|..] == suffix
  }

  predicate IsPython(path: string) {
    EndsWith(path, ".py")
  }

  predicate IsDocument(path: string) {
    EndsWith(path, ".md") || FIXTURES <= path || path == "LICENSE" || path == "NOTICE"
  }

  function UpToSlash(s: string): string {
    if s == "" || s[0] == '/' then "" else [s[0]] + UpToSlash(s[1..])
  }

  /** The name after the fixtures directory. */
  function SetName(path: string): string {
    if FIXTURES <= path then UpToSlash(path[|FIXTURES|..]) else ""
  }

  /** A file below the directory of a fixture set. */
  predicate InSet(path: string) {
    FIXTURES <= path && '/' in path[|FIXTURES|..]
  }

  function FixtureSets(files: map<string, string>): set<string> {
    set path | path in files && InSet(path) :: SetName(path)
  }

  function BlobAt(files: map<string, string>, path: string): Option<string> {
    if path in files then Some(files[path]) else None
  }

  function EndOf(readers: Readers, files: map<string, string>, path: string): End {
    if path !in files then Missing
    else match readers.units(files[path])
         case None => Broken
         case Some(units) => Parsed(units)
  }

  /** The fixture sets that come or go. */
  function MovedSets(before: Snapshot, after: Snapshot): set<string> {
    (FixtureSets(before.files) - FixtureSets(after.files)) + (FixtureSets(after.files) - FixtureSets(before.files))
  }

  /** What a path of the arc adds about `full`. */
  function PathDue(readers: Readers, before: Snapshot, after: Snapshot, path: string, full: string): multiset<Verdict> {
    var was, now := BlobAt(before.files, path), BlobAt(after.files, path);
    if was == now then multiset{}
    else if path == PYPROJECT then
      if was.None? || now.None? then One(full == PYPROJECT, Asks)
      else VerdictsOn(readers.metadata(was.value, now.value), full)
    else if IsDocument(path) then
      One(full == path && (SetName(path) == "" || SetName(path) !in MovedSets(before, after)), Says(Patch))
    else if IsPython(path) then
      ModuleDue(path, EndOf(readers, before.files, path), EndOf(readers, after.files, path),
                before.rosters, after.rosters, full)
    else One(full == path, Asks)
  }

  function PathsDue(readers: Readers, before: Snapshot, after: Snapshot, paths: seq<string>, full: string):
    multiset<Verdict>
  {
    if paths == [] then multiset{}
    else
      var n := |paths| - 1;
      PathsDue(readers, before, after, paths[..n], full) + PathDue(readers, before, after, paths[n], full)
  }

  /** What sets of fixtures add about `full`. */
  function SetsDue(sets: set<string>, kind: Kind, full: string): multiset<Verdict> {
    One(FIXTURES <= full && full[|FIXTURES|..] in sets, Says(kind))
  }

  predicate SchemaMoves(before: Rosters, after: Rosters) {
    before.schemaVersion.Some? && after.schemaVersion.Some? && before.schemaVersion != after.schemaVersion
  }

  /** Everything the arc proves about `full`. */
  function ArcDue(readers: Readers, before: Snapshot, after: Snapshot, paths: seq<string>, full: string):
    multiset<Verdict>
  {
    SetsDue(FixtureSets(after.files) - FixtureSets(before.files), Minor, full)
    + SetsDue(FixtureSets(before.files) - FixtureSets(after.files), Major, full)
    + PathsDue(readers, before, after, paths, full)
    + One(SchemaMoves(before.rosters, after.rosters) && full == SCHEMA_UNIT, Says(Minor))
  }

  /** The paths of an arc: those of either end, once each. */
  ghost predicate ArePaths(paths: seq<string>, before: Snapshot, after: Snapshot) {
    Ordered(paths) && NoRepeats(paths) && forall path :: path in paths <==> path in before.files || path in after.files
  }

  method JudgeSets(sets: set<string>, kind: Kind, derived: Derivation)
    modifies derived
    ensures forall full :: VerdictsOn(derived.Value(), full)
                        == VerdictsOn(old(derived.Value()), full) + SetsDue(sets, kind, full)
  {
    hide VerdictsOn;
    var order := SortedSet(sets);
    ghost var done: set<string> := {};
    for i := 0 to |order|
      invariant done == set u | u in order[..i]
      invariant forall full :: VerdictsOn(derived.Value(), full)
                            == VerdictsOn(old(derived.Value()), full) + SetsDue(done, kind, full)
    {
      assert order[i] !in order[..i];
      derived.Say(kind, FIXTURES + order[i]);
      forall full {
        NextSet(done, order[i], kind, full);
      }
      done := done + {order[i]};
      assert order[..i + 1] == order[..i] + [order[i]];
    }
    assert order[..|order|] == order;
    assert done == sets;
  }

  lemma NextSet(done: set<string>, name: string, kind: Kind, full: string)
    requires name !in done
    ensures SetsDue(done + {name}, kind, full)
         == SetsDue(done, kind, full) + One(FIXTURES + name == full, Says(kind))
  {
    assert (FIXTURES + name)[|FIXTURES|..] == name;
    if FIXTURES <= full {
      assert FIXTURES + full[|FIXTURES|..] == full;
    }
  }

  /** One path of the arc. */
  method JudgePath(readers: Readers, before: Snapshot, after: Snapshot, path: string, derived: Derivation)
    modifies derived
    ensures forall full :: VerdictsOn(derived.Value(), full)
                        == VerdictsOn(old(derived.Value()), full) + PathDue(readers, before, after, path, full)
  {
    hide VerdictsOn, ModuleDue, IsDocument, IsPython, SetName, MovedSets, EndOf;
    var was, now := BlobAt(before.files, path), BlobAt(after.files, path);
    if was == now {
      return;
    }
    if path == PYPROJECT {
      if was.None? || now.None? {
        derived.Ask(PYPROJECT);
      } else {
        derived.Absorb(readers.metadata(was.value, now.value));
      }
      return;
    }
    if IsDocument(path) {
      if SetName(path) != "" && SetName(path) in MovedSets(before, after) {
        return;
      }
      derived.Say(Patch, path);
      return;
    }
    if IsPython(path) {
      ClassifyModule(path, EndOf(readers, before.files, path), EndOf(readers, after.files, path),
                     before.rosters, after.rosters, derived);
      return;
    }
    derived.Ask(path);
  }

  method JudgePaths(readers: Readers, before: Snapshot, after: Snapshot, paths: seq<string>, derived: Derivation)
    modifies derived
    ensures forall full :: VerdictsOn(derived.Value(), full)
                        == VerdictsOn(old(derived.Value()), full) + PathsDue(readers, before, after, paths, full)
  {
    hide VerdictsOn, PathDue;
    for i := 0 to |paths|
      invariant forall full :: VerdictsOn(derived.Value(), full)
                            == VerdictsOn(old(derived.Value()), full)
                              + PathsDue(readers, before, after, paths[..i], full)
    {
      assert paths[..i + 1][..i] == paths[..i];
      JudgePath(readers, before, after, paths[i], derived);
    }
    assert paths[..|paths|] == paths;
  }

  method Derive(readers: Readers, before: Snapshot, after: Snapshot)
    returns (derived: Derivation, ghost paths: seq<string>)
    ensures fresh(derived)
    ensures ArePaths(paths, before, after)
    ensures forall full :: VerdictsOn(derived.Value(), full) == ArcDue(readers, before, after, paths, full)
  {
    hide VerdictsOn, PathsDue, SetsDue, Ordered, NoRepeats, SchemaMoves, FixtureSets, One;
    derived := JudgeAllSets(before.files, after.files);
    var order := SortedSet(before.files.Keys + after.files.Keys);
    JudgePaths(readers, before, after, order, derived);
    JudgeSchema(before.rosters, after.rosters, derived);
    paths := order;
  }

  method JudgeAllSets(before: map<string, string>, after: map<string, string>) returns (derived: Derivation)
    ensures fresh(derived)
    ensures forall full :: VerdictsOn(derived.Value(), full)
                        == SetsDue(FixtureSets(after) - FixtureSets(before), Minor, full)
                           + SetsDue(FixtureSets(before) - FixtureSets(after), Major, full)
  {
    hide VerdictsOn, SetsDue, FixtureSets;
    derived := new Derivation();
    NothingFound();
    JudgeSets(FixtureSets(after) - FixtureSets(before), Minor, derived);
    JudgeSets(FixtureSets(before) - FixtureSets(after), Major, derived);
  }

  method JudgeSchema(before: Rosters, after: Rosters, derived: Derivation)
    modifies derived
    ensures forall full :: VerdictsOn(derived.Value(), full)
                        == VerdictsOn(old(derived.Value()), full)
                           + One(SchemaMoves(before, after) && full == SCHEMA_UNIT, Says(Minor))
  {
    hide VerdictsOn;
    if SchemaMoves(before, after) {
      derived.Say(Minor, SCHEMA_UNIT);
    }
  }

  lemma NothingFound()
    ensures forall full :: VerdictsOn(Findings([], []), full) == multiset{}
  {
  }

  lemma {:induction false} PathsHoldPath(readers: Readers, before: Snapshot, after: Snapshot, paths: seq<string>,
                                         path: string, full: string)
    requires path in paths
    ensures PathDue(readers, before, after, path, full) <= PathsDue(readers, before, after, paths, full)
    decreases |paths|
  {
    hide PathDue;
    var n := |paths| - 1;
    if paths[n] != path {
      assert path in paths[..n];
      PathsHoldPath(readers, before, after, paths[..n], path, full);
    }
  }

  lemma {:induction false} PathsHoldNoMore(readers: Readers, before: Snapshot, after: Snapshot, paths: seq<string>,
                                           full: string, verdict: Verdict)
    ensures verdict in PathsDue(readers, before, after, paths, full) ==>
              exists path :: path in paths && verdict in PathDue(readers, before, after, path, full)
    decreases |paths|
  {
    hide PathDue;
    if paths != [] {
      var n := |paths| - 1;
      PathsHoldNoMore(readers, before, after, paths[..n], full, verdict);
      assert forall p :: p in paths[..n] ==> p in paths;
      assert paths[n] in paths;
    }
  }

  /** The arc proves this about the unit: a fixture set that came or went, a schema version that moved, or a
      path that is due the verdict. */
  ghost predicate InArc(readers: Readers, before: Snapshot, after: Snapshot, unit: string, verdict: Verdict) {
    || verdict in SetsDue(FixtureSets(after.files) - FixtureSets(before.files), Minor, unit)
    || verdict in SetsDue(FixtureSets(before.files) - FixtureSets(after.files), Major, unit)
    || (SchemaMoves(before.rosters, after.rosters) && unit == SCHEMA_UNIT && verdict == Says(Minor))
    || PathProves(readers, before, after, unit, verdict)
  }

  ghost predicate PathProves(readers: Readers, before: Snapshot, after: Snapshot, unit: string, verdict: Verdict) {
    exists path :: (path in before.files || path in after.files)
      && verdict in PathDue(readers, before, after, path, unit)
  }

  lemma PathsDueIff(readers: Readers, before: Snapshot, after: Snapshot, paths: seq<string>, unit: string,
                    verdict: Verdict)
    requires ArePaths(paths, before, after)
    ensures verdict in PathsDue(readers, before, after, paths, unit) <==>
              PathProves(readers, before, after, unit, verdict)
  {
    hide PathDue, PathsDue, Ordered, NoRepeats;
    PathsHoldNoMore(readers, before, after, paths, unit, verdict);
    if PathProves(readers, before, after, unit, verdict) {
      var path :| (path in before.files || path in after.files)
        && verdict in PathDue(readers, before, after, path, unit);
      PathIsHeld(readers, before, after, paths, path, unit, verdict);
    }
  }

  lemma PathIsHeld(readers: Readers, before: Snapshot, after: Snapshot, paths: seq<string>, path: string, unit: string,
                   verdict: Verdict)
    requires path in paths && verdict in PathDue(readers, before, after, path, unit)
    ensures verdict in PathsDue(readers, before, after, paths, unit)
  {
    hide PathDue, PathsDue;
    PathsHoldPath(readers, before, after, paths, path, unit);
  }

  /** What is found about a unit is exactly what the arc proves about it. */
  lemma FoundIff(readers: Readers, before: Snapshot, after: Snapshot, paths: seq<string>, unit: string,
                 verdict: Verdict)
    requires ArePaths(paths, before, after)
    ensures verdict in ArcDue(readers, before, after, paths, unit) <==> InArc(readers, before, after, unit, verdict)
  {
    hide PathsDue, SetsDue, ArePaths;
    PathsDueIff(readers, before, after, paths, unit, verdict);
  }

  /** A path whose bytes moved says something of its own: about the path or about a unit of it. The two
      exceptions are a document of a fixture set that came or went, which the set's own signal covers, and
      the metadata file, whose reader may have nothing to say. */
  lemma ChangedPathCounts(readers: Readers, before: Snapshot, after: Snapshot, path: string) returns (full: string)
    requires BlobAt(before.files, path) != BlobAt(after.files, path)
    requires path != PYPROJECT
    requires IsDocument(path) ==> SetName(path) == "" || SetName(path) !in MovedSets(before, after)
    requires !IsDocument(path) && IsPython(path) ==>
               !OnlyElsewhere(path, EndOf(readers, before.files, path), EndOf(readers, after.files, path))
    ensures |PathDue(readers, before, after, path, full)| > 0
  {
    full := path;
    if !IsDocument(path) && IsPython(path) {
      var was, now := EndOf(readers, before.files, path), EndOf(readers, after.files, path);
      if !was.Broken? && !now.Broken? && was.Read() != now.Read() {
        var unit :| Differs(was.Read(), now.Read(), unit) && !IsExempt(path, was.Read(), now.Read(), unit);
        full := Named(path, unit);
        EveryChangedUnitIsJudged(path, was, now, before.rosters, after.rosters, unit);
      }
    }
  }

  predicate Differs(before: Units, after: Units, unit: string) {
    (unit in before) != (unit in after) || (unit in before && before[unit] != after[unit])
  }

  predicate IsExempt(path: string, before: Units, after: Units, unit: string) {
    unit in before && unit in after && JudgedElsewhere(path, unit)
  }

  /** The module's code moved, and in nothing but the version file's two exempt units. */
  ghost predicate OnlyElsewhere(path: string, before: End, after: End) {
    && !before.Broken? && !after.Broken? && before.Read() != after.Read()
    && forall unit :: Differs(before.Read(), after.Read(), unit) ==> IsExempt(path, before.Read(), after.Read(), unit)
  }

  /** An arc over the same files and the same schema version proves nothing, about any unit. */
  lemma QuietArc(readers: Readers, before: Snapshot, after: Snapshot, paths: seq<string>, full: string)
    requires before.files == after.files && before.rosters.schemaVersion == after.rosters.schemaVersion
    ensures |ArcDue(readers, before, after, paths, full)| == 0
  {
    forall verdict
      ensures verdict !in PathsDue(readers, before, after, paths, full)
    {
      PathsHoldNoMore(readers, before, after, paths, full, verdict);
    }
    assert FixtureSets(after.files) - FixtureSets(before.files) == {};
    assert FixtureSets(before.files) - FixtureSets(after.files) == {};
    assert PathsDue(readers, before, after, paths, full) == multiset{};
  }

  /** A changed `SCHEMA_VERSION` is judged exactly when both ends state it by a plain assignment of a constant
      and the constants differ: the module's own reading leaves it to the surface, and the surface reads
      nothing else. */
  lemma SchemaJudgedIff(before: Units, after: Units, was: Rosters, now: Rosters)
    requires SCHEMA in before && SCHEMA in after && before[SCHEMA] != after[SCHEMA]
    ensures |ModuleDue(VERSION_FILE, Parsed(before), Parsed(after), was, now, Named(VERSION_FILE, SCHEMA))
             + One(SchemaMoves(was, now), Says(Minor))| > 0
        <==> was.schemaVersion.Some? && now.schemaVersion.Some? && was.schemaVersion != now.schemaVersion
  {
    UnitOfNamed(VERSION_FILE, SCHEMA);
  }

  /** So a schema version that is no longer assigned so, by a call or with an annotation, moves nothing, though
      its unit changed. */
  lemma SchemaMoveUnseen(full: string)
    ensures var was := Rosters({}, map[], {}, {}, {}, Some("3.0.0"));
            var now := was.(schemaVersion := None);
            |ModuleDue(VERSION_FILE, Parsed(map[SCHEMA := "Constant"]), Parsed(map[SCHEMA := "Call"]), was, now, full)
             + One(SchemaMoves(was, now), Says(Minor))| == 0
  {
    var before: Units, after: Units := map[SCHEMA := "Constant"], map[SCHEMA := "Call"];
    assert |"Constant"| != |"Call"|;
    assert before[SCHEMA] != after[SCHEMA] && before != after;
    if IsUnitOf(VERSION_FILE, full) {
      var unit := UnitOf(VERSION_FILE, full);
      assert unit != SCHEMA ==> unit !in before && unit !in after;
    }
  }
}
