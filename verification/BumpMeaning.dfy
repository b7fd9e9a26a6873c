/**
 What the gate holds a version to, said of the files at both ends of the judged arc: what a gain, a loss, a
 changed body and an unreadable file each make of the number, and which arcs are worth a PATCH and no more.
 */
module BumpMeaning {
  import opened BumpDerive
  import opened BumpFindings
  import opened BumpGate
  import opened BumpModules
  import opened Decimals
  import opened Wrappers

  // ------------------------------------------------------------------------ the ends of the arc

  /** The file is at one end only, or differs. */
  predicate Moves(arc: Arc, path: string) {
    var was, now := arc.before.files, arc.after.files;
    (path in was) != (path in now) || (path in was && was[path] != now[path])
  }

  predicate Unreadable(readers: Readers, files: map<string, string>, path: string) {
    path in files && readers.units(files[path]) == None
  }

  predicate HasUnit(readers: Readers, files: map<string, string>, path: string, unit: string) {
    path in files && readers.units(files[path]).Some? && unit in readers.units(files[path]).value
  }

  /** A shipped module: `.py`, and not below the fixtures. */
  predicate IsModule(path: string) {
    |path| >= 3 && path[|path| - 3..] == ".py" && !("synapse_cdm/fixtures/" <= path)
  }

  /** A shipped document: `.md`, anything below the fixtures, and the two licence files. */
  predicate IsShippedDocument(path: string) {
    || (|path| >= 3 && path[|path| - 3..] == ".md")
    || "synapse_cdm/fixtures/" <= path
    || path == "LICENSE" || path == "NOTICE"
  }

  /** A name without a leading underscore, and not the place of an unnamed statement. */
  predicate IsOpenName(name: string) {
    !("_" <= name) && !("<" <= name)
  }

  predicate IsCheck(path: string, unit: string) {
    path == "synapse_cdm/harness.py" && "_check_" <= unit
  }

  /** The set has a file below its own directory. */
  ghost predicate HasSet(files: map<string, string>, name: string) {
    '/' !in name && exists rest :: "synapse_cdm/fixtures/" + name + "/" + rest in files
  }

  /** A shipped module that changed and is readable wherever it is shipped. */
  predicate IsRead(arc: Arc, path: string) {
    && Moves(arc, path) && IsModule(path)
    && !Unreadable(arc.readers, arc.before.files, path) && !Unreadable(arc.readers, arc.after.files, path)
  }

  predicate Gained(arc: Arc, path: string, unit: string) {
    !HasUnit(arc.readers, arc.before.files, path, unit) && HasUnit(arc.readers, arc.after.files, path, unit)
  }

  predicate Gone(arc: Arc, path: string, unit: string) {
    HasUnit(arc.readers, arc.before.files, path, unit) && !HasUnit(arc.readers, arc.after.files, path, unit)
  }

  /** The unit is at both ends, with another body. */
  predicate Rewritten(arc: Arc, path: string, unit: string) {
    && HasUnit(arc.readers, arc.before.files, path, unit) && HasUnit(arc.readers, arc.after.files, path, unit)
    && arc.readers.units(arc.before.files[path]).value[unit] != arc.readers.units(arc.after.files[path]).value[unit]
  }

  predicate IsMajorOf(base: Version, version: Version) {
    version == Version(base.major + 1, 0, 0)
  }

  predicate IsMinorOf(base: Version, version: Version) {
    version == Version(base.major, base.minor + 1, 0)
  }

  predicate IsPatchOf(base: Version, version: Version) {
    version == Version(base.major, base.minor, base.patch + 1)
  }

  // --------------------------------------------------------------------- from verdicts to numbers

  /** A version that passes is one of three, by its kind. */
  lemma PassingNumber(c: Candidate, base: Version, kind: Kind, floor: Kind)
    requires c.Passes(base, kind, floor)
    ensures match kind
            case Nothing => false
            case Patch => IsPatchOf(base, c.version)
            case Minor => IsMinorOf(base, c.version)
            case Major => IsMajorOf(base, c.version)
  {
    hide Arc.IsFloor, Arc.Open, Dotted;
  }

  /** A version as it is written in a ruling: three numerals with points between them. */
  lemma DottedMeans(v: Version) returns (major: string, minor: string, patch: string, digits: seq<seq<nat>>)
    ensures Dotted(v) == major + "." + minor + "." + patch
    ensures |digits| == 3 && Writes(major, digits[0]) && Writes(minor, digits[1]) && Writes(patch, digits[2])
    ensures Tens(digits[0]) == v.major && Tens(digits[1]) == v.minor && Tens(digits[2]) == v.patch
  {
    hide Tens, Writes, Decimal;
    var a := DecimalWrites(v.major);
    var b := DecimalWrites(v.minor);
    var c := DecimalWrites(v.patch);
    major, minor, patch, digits := Decimal(v.major), Decimal(v.minor), Decimal(v.patch), [a, b, c];
  }

  /** The section a version is judged by: its own once it is released, the unreleased one before; no rulings
      where there is no such section. */
  lemma NotesMean(c: Candidate)
    ensures var heading := if c.version in c.tags then c.declared else "Unreleased";
            if heading in c.notes then c.Notes() == c.notes[heading]
            else c.Notes().rulings == map[] && c.Notes().versionRulings == []
  {
  }

  lemma SaidIsKept(c: Candidate, base: Version, kind: Kind, floor: Kind, unit: string, said: Kind)
    requires c.Passes(base, kind, floor) && c.Judged(base).Proves(unit, Says(said))
    ensures said == Major ==> IsMajorOf(base, c.version)
    ensures said == Minor ==> IsMinorOf(base, c.version) || IsMajorOf(base, c.version)
  {
    hide Candidate.Passes, InArc;
    AcceptedIsEnough(c, base, kind, floor, unit, Says(said));
    PassingNumber(c, base, kind, floor);
  }

  lemma AskedIsRuled(c: Candidate, base: Version, kind: Kind, floor: Kind, unit: string)
    requires c.Passes(base, kind, floor) && c.Judged(base).Proves(unit, Asks)
    ensures IsRuled(c, base, unit)
  {
    hide Candidate.Passes, InArc;
    AcceptedIsEnough(c, base, kind, floor, unit, Asks);
    PassingNumber(c, base, kind, floor);
  }

  /** A person ruled the unit, and the version is no weaker than the ruling. */
  predicate IsRuled(c: Candidate, base: Version, unit: string) {
    var ruled := c.Notes().rulings;
    && unit in ruled
    && (ruled[unit] == Major ==> IsMajorOf(base, c.version))
    && (ruled[unit] == Minor ==> IsMinorOf(base, c.version) || IsMajorOf(base, c.version))
  }

  // ----------------------------------------------------------------------------- fixture sets

  lemma {:induction false} UpToSlashIs(name: string, rest: string)
    requires '/' !in name
    ensures UpToSlash(name + "/" + rest) == name
  {
    if name == "" {
      assert ("" + "/" + rest)[0] == '/';
    } else {
      UpToSlashIs(name[1..], rest);
      assert (name + "/" + rest)[1..] == name[1..] + "/" + rest;
    }
  }

  lemma {:induction false} UpToSlashSplits(s: string) returns (rest: string)
    requires '/' in s
    ensures '/' !in UpToSlash(s) && s == UpToSlash(s) + "/" + rest
  {
    if s[0] == '/' {
      rest := s[1..];
    } else {
      rest := UpToSlashSplits(s[1..]);
    }
  }

  lemma SetOfPath(files: map<string, string>, name: string, rest: string)
    requires '/' !in name && "synapse_cdm/fixtures/" + name + "/" + rest in files
    ensures name in FixtureSets(files)
  {
    hide UpToSlash;
    var path := "synapse_cdm/fixtures/" + name + "/" + rest;
    assert path == FIXTURES + (name + "/" + rest);
    assert path[|FIXTURES|..] == name + "/" + rest;
    assert (name + "/" + rest)[|name|] == '/';
    UpToSlashIs(name, rest);
    assert path in files && InSet(path) && SetName(path) == name;
  }

  lemma PathOfSet(files: map<string, string>, name: string) returns (rest: string)
    requires name in FixtureSets(files)
    ensures '/' !in name && "synapse_cdm/fixtures/" + name + "/" + rest in files
  {
    hide UpToSlash;
    var path :| path in files && InSet(path) && SetName(path) == name;
    rest := UpToSlashSplits(path[|FIXTURES|..]);
    assert path == FIXTURES + path[|FIXTURES|..];
    assert path == FIXTURES + name + "/" + rest;
  }

  lemma HasSetIff(files: map<string, string>, name: string)
    ensures HasSet(files, name) <==> name in FixtureSets(files)
  {
    hide FixtureSets;
    if HasSet(files, name) {
      var rest :| "synapse_cdm/fixtures/" + name + "/" + rest in files;
      SetOfPath(files, name, rest);
    }
    if name in FixtureSets(files) {
      var rest := PathOfSet(files, name);
    }
  }

  /** A fixture set that came makes a version that passes at least a MINOR, and one that went a MAJOR. */
  lemma MovedSetCounts(c: Candidate, base: Version, kind: Kind, floor: Kind, name: string)
    requires c.Passes(base, kind, floor)
    ensures var was, now := c.Judged(base).before.files, c.Judged(base).after.files;
            && (!HasSet(was, name) && HasSet(now, name) ==> IsMinorOf(base, c.version) || IsMajorOf(base, c.version))
            && (HasSet(was, name) && !HasSet(now, name) ==> IsMajorOf(base, c.version))
  {
    hide FixtureSets, HasSet;
    var arc := c.Judged(base);
    var was, now := FixtureSets(arc.before.files), FixtureSets(arc.after.files);
    HasSetIff(arc.before.files, name);
    HasSetIff(arc.after.files, name);
    assert (FIXTURES + name)[|FIXTURES|..] == name;
    if name in now && name !in was {
      assert Says(Minor) in SetsDue(now - was, Minor, FIXTURES + name);
      SaidIsKept(c, base, kind, floor, FIXTURES + name, Minor);
    }
    if name in was && name !in now {
      assert Says(Major) in SetsDue(was - now, Major, FIXTURES + name);
      SaidIsKept(c, base, kind, floor, FIXTURES + name, Major);
    }
  }

  // --------------------------------------------------------------------------------- modules

  lemma ModuleIsRead(path: string)
    requires IsModule(path)
    ensures path != PYPROJECT && !IsDocument(path) && IsPython(path)
  {
    assert path[|path| - 1] == path[|path| - 3..][2] == 'y';
    assert path != "LICENSE" && path != "NOTICE" && path != PYPROJECT;
  }

  /** The verdict a changed module owes one of its units. */
  lemma UnitProved(arc: Arc, path: string, unit: string, verdict: Verdict)
    requires IsRead(arc, path)
    requires Gained(arc, path, unit) || Gone(arc, path, unit) || Rewritten(arc, path, unit)
    requires verdict in UnitDue(path, EndOf(arc.readers, arc.before.files, path).Read(),
                                EndOf(arc.readers, arc.after.files, path).Read(),
                                Explanation(path, arc.before.rosters, arc.after.rosters), unit)
    ensures arc.Proves(Named(path, unit), verdict)
  {
    hide IsModule, IsDocument, IsPython, UnitDue, Explanation;
    UnitOfNamed(path, unit);
    ModuleIsRead(path);
    assert verdict in PathDue(arc.readers, arc.before, arc.after, path, Named(path, unit));
  }

  /** A shipped module that gained a public name, or the harness a check, makes it at least a MINOR. */
  lemma GainedIsMinor(c: Candidate, base: Version, kind: Kind, floor: Kind, path: string, unit: string)
    requires c.Passes(base, kind, floor)
    requires IsRead(c.Judged(base), path) && Gained(c.Judged(base), path, unit)
    requires IsOpenName(unit) || IsCheck(path, unit)
    ensures IsMinorOf(base, c.version) || IsMajorOf(base, c.version)
  {
    hide IsRead, InArc, Explanation;
    UnitProved(c.Judged(base), path, unit, Says(Minor));
    SaidIsKept(c, base, kind, floor, Named(path, unit), Minor);
  }

  /** A shipped module that lost a public name, or went with one, or a harness that lost a check, makes it a
      MAJOR. */
  lemma LostIsMajor(c: Candidate, base: Version, kind: Kind, floor: Kind, path: string, unit: string)
    requires c.Passes(base, kind, floor)
    requires IsRead(c.Judged(base), path) && Gone(c.Judged(base), path, unit)
    requires IsOpenName(unit) || IsCheck(path, unit)
    ensures IsMajorOf(base, c.version)
  {
    hide IsRead, InArc, Explanation;
    UnitProved(c.Judged(base), path, unit, Says(Major));
    SaidIsKept(c, base, kind, floor, Named(path, unit), Major);
  }

  /** Something that belongs to the module is in the first surface and not in the second: a flag, a check or an
      exit code of the harness, or an adapter that the module declares. */
  predicate Drops(path: string, was: Rosters, now: Rosters) {
    || (path == "synapse_cdm/harness.py"
        && ((exists x :: x in was.flags && x !in now.flags) || (exists x :: x in was.checks && x !in now.checks)
            || (exists x :: x in was.exitCodes && x !in now.exitCodes)))
    || ("synapse_cdm/adapters/" <= path
        && exists x :: x in was.adapters && x !in now.adapters && Declares(was, path, x) && !Declares(now, path, x))
  }

  predicate Declares(rosters: Rosters, path: string, adapter: string) {
    path in rosters.adaptersByModule && adapter in rosters.adaptersByModule[path]
  }

  lemma DropsIsLost(path: string, was: Rosters, now: Rosters)
    ensures Drops(path, was, now) <==> Lost(path, was, now)
  {
  }

  /** Which of the units judged elsewhere it is: the number itself, and the schema version. */
  predicate IsExemptUnit(path: string, unit: string) {
    path == "synapse_cdm/version.py" && (unit == "PACKAGE_VERSION" || unit == "SCHEMA_VERSION")
  }

  /** A body that changed is worth what a surface of its module makes it, a MAJOR where one lost a member and a
      MINOR where one gained; and where none moved it passes only under a person's ruling. */
  lemma RewrittenCounts(c: Candidate, base: Version, kind: Kind, floor: Kind, path: string, unit: string)
    requires c.Passes(base, kind, floor)
    requires IsRead(c.Judged(base), path) && Rewritten(c.Judged(base), path, unit)
    requires !IsExemptUnit(path, unit)
    ensures var was, now := c.Judged(base).before.rosters, c.Judged(base).after.rosters;
            if Drops(path, was, now) then IsMajorOf(base, c.version)
            else if Drops(path, now, was) then IsMinorOf(base, c.version) || IsMajorOf(base, c.version)
            else IsRuled(c, base, path + ":" + unit)
  {
    hide IsRead, InArc, Explanation, Lost, Drops, IsExemptUnit;
    var was, now := c.Judged(base).before.rosters, c.Judged(base).after.rosters;
    NotElsewhere(path, unit);
    DropsIsLost(path, was, now);
    DropsIsLost(path, now, was);
    ExplanationIff(path, was, now);
    if Drops(path, was, now) {
      UnitProved(c.Judged(base), path, unit, Says(Major));
      SaidIsKept(c, base, kind, floor, Named(path, unit), Major);
    } else if Drops(path, now, was) {
      UnitProved(c.Judged(base), path, unit, Says(Minor));
      SaidIsKept(c, base, kind, floor, Named(path, unit), Minor);
    } else {
      UnitProved(c.Judged(base), path, unit, Asks);
      AskedIsRuled(c, base, kind, floor, Named(path, unit));
    }
  }

  lemma NotElsewhere(path: string, unit: string)
    ensures JudgedElsewhere(path, unit) <==> IsExemptUnit(path, unit)
  {
    if Named(path, unit) == DECLARATION {
      OneColon(path, unit, "synapse_cdm/version.py", "PACKAGE_VERSION");
    }
  }

  lemma OneColon(path: string, unit: string, file: string, name: string)
    requires ':' !in file && ':' !in name && path + ":" + unit == file + ":" + name
    ensures path == file && unit == name
  {
    var s := path + ":" + unit;
    assert s[|path|] == ':';
    assert forall i :: 0 <= i < |file| ==> s[i] == file[i];
    assert forall i :: 0 <= i < |name| ==> s[|file| + 1 + i] == name[i];
    assert |path| == |file|;
    assert path == s[..|path|] == file;
    assert unit == s[|path| + 1..] == name;
  }

  // ------------------------------------------------------------------------------ open questions

  /** A module that does not parse, a file of no class and a metadata file that came or went each pass only
      under a ruling. */
  lemma UnclassedIsRuled(c: Candidate, base: Version, kind: Kind, floor: Kind, path: string)
    requires c.Passes(base, kind, floor) && Moves(c.Judged(base), path)
    requires var arc := c.Judged(base);
             || (IsModule(path)
                 && (Unreadable(arc.readers, arc.before.files, path) || Unreadable(arc.readers, arc.after.files, path)))
             || (!IsModule(path) && !IsShippedDocument(path) && path != "pyproject.toml")
             || (path == "pyproject.toml" && (path in arc.before.files) != (path in arc.after.files))
    ensures IsRuled(c, base, path)
  {
    var arc := c.Judged(base);
    if IsModule(path) {
      ModuleIsRead(path);
    }
    assert Asks in PathDue(arc.readers, arc.before, arc.after, path, path);
    AskedIsRuled(c, base, kind, floor, path);
  }

  /** What the reader of the metadata finds is answered. */
  lemma MetadataCounts(c: Candidate, base: Version, kind: Kind, floor: Kind, signal: Signal)
    requires c.Passes(base, kind, floor)
    requires var was, now := c.Judged(base).before.files, c.Judged(base).after.files;
             && "pyproject.toml" in was && "pyproject.toml" in now && was["pyproject.toml"] != now["pyproject.toml"]
             && signal in c.readers.metadata(was["pyproject.toml"], now["pyproject.toml"]).signals
    ensures signal.kind == Major ==> IsMajorOf(base, c.version)
    ensures signal.kind == Minor ==> IsMinorOf(base, c.version) || IsMajorOf(base, c.version)
  {
    hide VerdictsOn;
    var arc := c.Judged(base);
    var was, now := arc.before.files[PYPROJECT], arc.after.files[PYPROJECT];
    VerdictIsFound(c.readers.metadata(was, now), signal.unit, Says(signal.kind));
    assert Says(signal.kind) in PathDue(arc.readers, arc.before, arc.after, PYPROJECT, signal.unit);
    SaidIsKept(c, base, kind, floor, signal.unit, signal.kind);
  }

  /** A schema version that both ends state, and that differs, makes it at least a MINOR. */
  lemma SchemaMoveIsMinor(c: Candidate, base: Version, kind: Kind, floor: Kind)
    requires c.Passes(base, kind, floor)
    requires var was, now := c.Judged(base).before.rosters.schemaVersion, c.Judged(base).after.rosters.schemaVersion;
             was.Some? && now.Some? && was.value != now.value
    ensures IsMinorOf(base, c.version) || IsMajorOf(base, c.version)
  {
    SaidIsKept(c, base, kind, floor, SCHEMA_UNIT, Minor);
  }

  // ------------------------------------------------------------------- arcs worth a PATCH or nothing

  /** No fixture set comes or goes, and no schema version moves between two ends that state it. */
  ghost predicate StandsStill(arc: Arc) {
    && (forall name :: HasSet(arc.before.files, name) <==> HasSet(arc.after.files, name))
    && var was, now := arc.before.rosters.schemaVersion, arc.after.rosters.schemaVersion;
       was == None || now == None || was == now
  }

  predicate IsHidden(path: string, unit: string) {
    !IsOpenName(unit) && !IsCheck(path, unit)
  }

  predicate UnitMoves(arc: Arc, path: string, unit: string) {
    Gained(arc, path, unit) || Gone(arc, path, unit) || Rewritten(arc, path, unit)
  }

  /** The file changed in nothing that a consumer can reach: a document, or a module none of whose units
      moved, but for private ones that came or went. */
  ghost predicate IsSmall(arc: Arc, path: string) {
    || IsShippedDocument(path)
    || (IsRead(arc, path)
        && forall unit :: UnitMoves(arc, path, unit) ==> !Rewritten(arc, path, unit) && IsHidden(path, unit))
  }

  /** Nothing but the number under judgement changed. */
  ghost predicate IsDeclarationOnly(arc: Arc, path: string) {
    && path == "synapse_cdm/version.py" && IsRead(arc, path)
    && (exists unit :: UnitMoves(arc, path, unit))
    && forall unit :: UnitMoves(arc, path, unit) ==> Rewritten(arc, path, unit) && unit == "PACKAGE_VERSION"
  }

  lemma NoSetMoves(arc: Arc)
    requires StandsStill(arc)
    ensures FixtureSets(arc.before.files) == FixtureSets(arc.after.files)
  {
    hide HasSet, FixtureSets;
    forall name
      ensures name in FixtureSets(arc.before.files) <==> name in FixtureSets(arc.after.files)
    {
      HasSetIff(arc.before.files, name);
      HasSetIff(arc.after.files, name);
    }
  }

  /** What an arc without sets and schema moves proves, some path proves. */
  lemma OnlyPathsProve(arc: Arc, unit: string, verdict: Verdict)
    requires StandsStill(arc) && arc.Proves(unit, verdict)
    ensures exists path :: Moves(arc, path) && verdict in PathDue(arc.readers, arc.before, arc.after, path, unit)
  {
    hide FixtureSets, StandsStill, ModuleDue;
    NoSetMoves(arc);
    SchemaStands(arc);
    assert PathProves(arc.readers, arc.before, arc.after, unit, verdict);
  }

  lemma SchemaStands(arc: Arc)
    requires StandsStill(arc)
    ensures !SchemaMoves(arc.before.rosters, arc.after.rosters)
  {
  }

  lemma DocumentIs(path: string)
    ensures IsShippedDocument(path) <==> IsDocument(path)
    ensures IsDocument(path) ==> path != PYPROJECT
  {
  }

  /** A module's units differ where its ends do. */
  lemma EndsDiffer(arc: Arc, path: string) returns (unit: string)
    requires IsRead(arc, path)
    ensures EndOf(arc.readers, arc.before.files, path).Read() != EndOf(arc.readers, arc.after.files, path).Read() <==>
              UnitMoves(arc, path, unit)
    ensures (exists unit :: UnitMoves(arc, path, unit)) <==> UnitMoves(arc, path, unit)
  {
    var was, now := EndOf(arc.readers, arc.before.files, path).Read(), EndOf(arc.readers, arc.after.files, path).Read();
    if unit' :| UnitMoves(arc, path, unit') {
      unit := unit';
    } else {
      unit := "";
      forall u: string
        ensures (u in was <==> u in now) && (u in was ==> was[u] == now[u])
      {
        assert !UnitMoves(arc, path, u);
      }
    }
  }

  /** A small change is worth a PATCH, and there is one. */
  lemma SmallPath(arc: Arc, path: string) returns (at: string)
    requires StandsStill(arc) && Moves(arc, path) && IsSmall(arc, path)
    ensures forall unit, verdict :: verdict in PathDue(arc.readers, arc.before, arc.after, path, unit) ==>
                                      verdict == Says(Patch)
    ensures Says(Patch) in PathDue(arc.readers, arc.before, arc.after, path, at)
  {
    hide FixtureSets, StandsStill, IsShippedDocument, IsDocument, IsModule, ModuleDue;
    NoSetMoves(arc);
    DocumentIs(path);
    at := path;
    if !IsDocument(path) {
      ModuleIsRead(path);
      at := SmallModule(arc, path);
    }
  }

  /** The verdict that a small module owes a unit is a PATCH where the unit moved, and none elsewhere. */
  lemma SmallUnit(arc: Arc, path: string, unit: string, explained: Option<Kind>)
    requires UnitMoves(arc, path, unit) ==> !Rewritten(arc, path, unit) && IsHidden(path, unit)
    requires IsRead(arc, path)
    ensures UnitDue(path, EndOf(arc.readers, arc.before.files, path).Read(),
                    EndOf(arc.readers, arc.after.files, path).Read(), explained, unit)
         == if UnitMoves(arc, path, unit) then multiset{Says(Patch)} else multiset{}
  {
    hide IsModule;
  }

  lemma SmallModule(arc: Arc, path: string) returns (at: string)
    requires IsRead(arc, path)
    requires forall unit :: UnitMoves(arc, path, unit) ==> !Rewritten(arc, path, unit) && IsHidden(path, unit)
    ensures var was, now := EndOf(arc.readers, arc.before.files, path), EndOf(arc.readers, arc.after.files, path);
            && Says(Patch) in ModuleDue(path, was, now, arc.before.rosters, arc.after.rosters, at)
            && forall full, verdict :: verdict in ModuleDue(path, was, now, arc.before.rosters, arc.after.rosters, full)
                                       ==> verdict == Says(Patch)
  {
    hide Explanation, IsModule, UnitDue, UnitMoves, IsHidden, Rewritten;
    var was, now := EndOf(arc.readers, arc.before.files, path), EndOf(arc.readers, arc.after.files, path);
    var explained := Explanation(path, arc.before.rosters, arc.after.rosters);
    forall full, verdict | verdict in ModuleDue(path, was, now, arc.before.rosters, arc.after.rosters, full)
      ensures verdict == Says(Patch)
    {
      if IsUnitOf(path, full) {
        SmallUnit(arc, path, UnitOf(path, full), explained);
      }
    }
    var unit := EndsDiffer(arc, path);
    if UnitMoves(arc, path, unit) {
      at := Named(path, unit);
      UnitOfNamed(path, unit);
      SmallUnit(arc, path, unit, explained);
    } else {
      at := path;
    }
  }

  /** An arc of small changes, one at least, has the floor PATCH, whatever is ruled: a version over it passes as
      the next patch number, or under a person's ruling on the number. */
  lemma SmallArcIsPatch(c: Candidate, base: Version, kind: Kind, floor: Kind, some: string)
    requires c.Passes(base, kind, floor)
    requires var arc := c.Judged(base);
             StandsStill(arc) && Moves(arc, some) && forall path :: Moves(arc, path) ==> IsSmall(arc, path)
    ensures floor == Patch
    ensures IsPatchOf(base, c.version) || |c.Notes().versionRulings| == 1
  {
    hide StandsStill, IsSmall, PathDue, Moves, InArc;
    var arc, ruled := c.Judged(base), c.Notes().rulings;
    forall unit, verdict | arc.Proves(unit, verdict)
      ensures verdict == Says(Patch)
    {
      OnlyPathsProve(arc, unit, verdict);
      var path :| Moves(arc, path) && verdict in PathDue(arc.readers, arc.before, arc.after, path, unit);
      var at := SmallPath(arc, path);
    }
    var at := SmallPath(arc, some);
    PathIsProved(arc, some, at, Says(Patch));
    assert arc.Gives(ruled, at, Patch);
    assert floor != Nothing;
    var unit :| arc.Gives(ruled, unit, floor);
  }

  lemma PathIsProved(arc: Arc, path: string, unit: string, verdict: Verdict)
    requires Moves(arc, path) && verdict in PathDue(arc.readers, arc.before, arc.after, path, unit)
    ensures arc.Proves(unit, verdict)
  {
    hide PathDue;
  }

  /** An arc on which only the number under judgement moved proves nothing: no version over it passes but under a
      person's ruling on the number. */
  lemma DeclarationProvesNothing(c: Candidate, base: Version, kind: Kind, floor: Kind)
    requires c.Passes(base, kind, floor)
    requires var arc := c.Judged(base);
             StandsStill(arc) && forall path :: Moves(arc, path) ==> IsDeclarationOnly(arc, path)
    ensures floor == Nothing && |c.Notes().versionRulings| == 1
  {
    hide StandsStill, IsDeclarationOnly, PathDue, Moves, InArc;
    var arc, ruled := c.Judged(base), c.Notes().rulings;
    forall unit, verdict
      ensures !arc.Proves(unit, verdict)
    {
      if arc.Proves(unit, verdict) {
        OnlyPathsProve(arc, unit, verdict);
        var path :| Moves(arc, path) && verdict in PathDue(arc.readers, arc.before, arc.after, path, unit);
        DeclarationIsQuiet(arc, path, unit);
      }
    }
    assert forall unit, given :: !arc.Gives(ruled, unit, given);
  }

  lemma DeclarationIsQuiet(arc: Arc, path: string, unit: string)
    requires IsDeclarationOnly(arc, path)
    ensures PathDue(arc.readers, arc.before, arc.after, path, unit) == multiset{}
  {
    hide Explanation, IsModule, IsDocument, IsPython;
    ModuleIsRead(path);
    var moved := EndsDiffer(arc, path);
    if IsUnitOf(path, unit) {
      var own := UnitOf(path, unit);
      NotElsewhere(path, own);
      assert !UnitMoves(arc, path, own) || own == "PACKAGE_VERSION";
    }
  }
}
