/**
 The release gate over an arc: rulings are folded in, the declared version is held to one step from the
 last release, and the step to the floor. `Candidate.Passes` says what a version must be, in terms of what
 the arc proves, and `Measure` lets a version through exactly when it passes. Such a version answers
 everything the arc proves (`AcceptedIsEnough`).
 */
module BumpGate {
  import opened BumpDerive
  import opened BumpFindings
  import opened BumpModules
  import opened Decimals
  import opened Wrappers

  datatype Version = Version(major: nat, minor: nat, patch: nat)

  predicate Less(a: Version, b: Version) {
    a.major < b.major
    || (a.major == b.major && (a.minor < b.minor || (a.minor == b.minor && a.patch < b.patch)))
  }

  function Successor(base: Version, kind: Kind): Version {
    match kind
    case Nothing => base
    case Patch => base.(patch := base.patch + 1)
    case Minor => Version(base.major, base.minor + 1, 0)
    case Major => Version(base.major + 1, 0, 0)
  }

  /** The kind of the step from `base`, or none where it is not one step. */
  function SingleStep(base: Version, declared: Version): Option<Kind> {
    if declared == Version(base.major, base.minor, base.patch + 1) then Some(Patch)
    else if declared == Version(base.major, base.minor + 1, 0) then Some(Minor)
    else if declared == Version(base.major + 1, 0, 0) then Some(Major)
    else None
  }

  /** A step is read back as the kind that makes it. */
  lemma SingleStepIff(base: Version, declared: Version, kind: Kind)
    ensures SingleStep(base, declared) == Some(kind) <==> kind != Nothing && declared == Successor(base, kind)
  {
  }

  /** A stronger kind steps further. */
  lemma SuccessorGrows(base: Version, weaker: Kind, stronger: Kind)
    ensures Rank(weaker) < Rank(stronger) <==> Less(Successor(base, weaker), Successor(base, stronger))
  {
  }

  function Dotted(v: Version): string {
    Decimal(v.major) + "." + Decimal(v.minor) + "." + Decimal(v.patch)
  }

  /** A person's ruling on the number: both ends of the arc as written, and the kind. */
  datatype VersionRuling = VersionRuling(base: string, declared: string, kind: Kind)

  /** What one section of the migration notes rules. */
  datatype Section = Section(rulings: map<string, Kind>, versionRulings: seq<VersionRuling>)

  datatype Refusal =
    | NoBase
    | StaleRuling(unit: string)
    | NotOneStep
    | TwoVersionRulings
    | Unruled(unit: string)
    | OtherArc
    | Exceeds
    | Undershoots

  /** The signals that rulings make of ambiguities, in order. */
  function RuledSignals(ambiguities: seq<string>, ruled: map<string, Kind>): seq<Signal> {
    if ambiguities == [] then []
    else
      var n := |ambiguities| - 1;
      RuledSignals(ambiguities[..n], ruled)
      + if ambiguities[n] in ruled then [Signal(ruled[ambiguities[n]], ambiguities[n])] else []
  }

  /** The ambiguities that no ruling names. */
  function Standing(ambiguities: seq<string>, ruled: map<string, Kind>): seq<string> {
    if ambiguities == [] then []
    else
      var n := |ambiguities| - 1;
      Standing(ambiguities[..n], ruled) + if ambiguities[n] in ruled then [] else [ambiguities[n]]
  }

  function Folded(found: Findings, ruled: map<string, Kind>): Findings {
    Findings(found.signals + RuledSignals(found.ambiguities, ruled), Standing(found.ambiguities, ruled))
  }

  /** A ruling that names no ambiguity is refused; otherwise the rulings are folded into a new derivation. */
  method ApplyRulings(derived: Derivation, ruled: map<string, Kind>) returns (r: Result<Derivation, Refusal>)
    ensures r.Ok? <==> forall unit :: unit in ruled ==> unit in derived.ambiguities
    ensures r.Ok? ==> fresh(r.value) && r.value.Value() == Folded(derived.Value(), ruled)
    ensures r.Err? ==> r.error.StaleRuling? && r.error.unit in ruled && r.error.unit !in derived.ambiguities
  {
    var stale := set unit | unit in ruled && unit !in derived.ambiguities;
    if stale != {} {
      var unit :| unit in stale;
      return Err(StaleRuling(unit));
    }
    assert forall unit :: unit in ruled && unit !in derived.ambiguities ==> unit in stale;
    var kept := new Derivation();
    var asked := derived.ambiguities;
    kept.signals := derived.signals;
    for i := 0 to |asked|
      invariant kept.Value() == Folded(Findings(derived.signals, asked[..i]), ruled)
      invariant derived.Value() == old(derived.Value()) && derived.ambiguities == asked
    {
      assert asked[..i + 1][..i] == asked[..i];
      if asked[i] in ruled {
        kept.Say(ruled[asked[i]], asked[i]);
      } else {
        kept.Ask(asked[i]);
      }
    }
    assert asked[..|asked|] == asked;
    r := Ok(kept);
  }

  /** Rulings never lower the floor. */
  lemma RulingsNeverLower(found: Findings, ruled: map<string, Kind>)
    ensures Rank(FloorOf(found.signals)) <= Rank(FloorOf(Folded(found, ruled).signals))
  {
    FloorGrows(found.signals, Folded(found, ruled).signals);
  }

  lemma {:induction false} RuledMembers(ambiguities: seq<string>, ruled: map<string, Kind>)
    ensures forall s :: s in RuledSignals(ambiguities, ruled) <==>
              s.unit in ambiguities && s.unit in ruled && s.kind == ruled[s.unit]
    ensures forall unit :: unit in Standing(ambiguities, ruled) <==> unit in ambiguities && unit !in ruled
  {
    if ambiguities != [] {
      var n := |ambiguities| - 1;
      RuledMembers(ambiguities[..n], ruled);
      assert forall u :: u in ambiguities <==> u in ambiguities[..n] || u == ambiguities[n];
    }
  }

  lemma {:induction false} RuledCount(ambiguities: seq<string>, ruled: map<string, Kind>)
    ensures |RuledSignals(ambiguities, ruled)| + |Standing(ambiguities, ruled)| == |ambiguities|
  {
    if ambiguities != [] {
      RuledCount(ambiguities[..|ambiguities| - 1], ruled);
    }
  }

  /** Nothing is lost or invented by the folding: signals stay, and each ambiguity either becomes a signal of
      the kind ruled for its unit or stands. */
  lemma FoldingConserves(found: Findings, ruled: map<string, Kind>)
    ensures var kept := Folded(found, ruled);
            && |kept.signals| + |kept.ambiguities| == |found.signals| + |found.ambiguities|
            && (forall s :: s in kept.signals <==>
                  s in found.signals || (s.unit in found.ambiguities && s.unit in ruled && s.kind == ruled[s.unit]))
            && forall unit :: unit in kept.ambiguities <==> unit in found.ambiguities && unit !in ruled
  {
    RuledMembers(found.ambiguities, ruled);
    RuledCount(found.ambiguities, ruled);
  }

  /** The refusals, in their order; none when the version may stand. */
  method RefuseUnlessClean(derived: Derivation, base: Version, declared: string, kind: Kind,
                           ruling: Option<VersionRuling>)
    returns (refusal: Option<Refusal>)
    ensures refusal.None? <==>
              && derived.ambiguities == []
              && (ruling.None? || (ruling.value.base == Dotted(base) && ruling.value.declared == declared))
              && Rank(kind) >= Rank(FloorOf(derived.signals))
              && (kind == FloorOf(derived.signals) || (ruling.Some? && ruling.value.kind == kind))
    ensures refusal.Some? ==>
              match refusal.value
              case Unruled(unit) => unit in derived.ambiguities
              case OtherArc => ruling.Some? && (ruling.value.base != Dotted(base) || ruling.value.declared != declared)
              case Undershoots => Rank(kind) < Rank(FloorOf(derived.signals))
              case Exceeds =>
                Rank(kind) > Rank(FloorOf(derived.signals)) && (ruling.None? || ruling.value.kind != kind)
              case _ => false
  {
    if derived.ambiguities != [] {
      return Some(Unruled(derived.ambiguities[0]));
    }
    if ruling.Some? && (ruling.value.base, ruling.value.declared) != (Dotted(base), declared) {
      return Some(OtherArc);
    }
    var floor := derived.Floor();
    if kind != floor {
      if Rank(kind) > Rank(floor) && ruling.Some? && ruling.value.kind == kind {
        return None;
      }
      return Some(if Rank(kind) > Rank(floor) then Exceeds else Undershoots);
    }
    refusal := None;
  }

  /** The last release before a version. */
  predicate IsLastBefore(tags: set<Version>, version: Version, base: Version) {
    && base in tags && Less(base, version)
    && forall v :: v in tags && Less(v, version) ==> v == base || Less(v, base)
  }

  method LastBefore(tags: set<Version>, version: Version) returns (base: Option<Version>)
    ensures base.Some? ==> IsLastBefore(tags, version, base.value)
    ensures base.None? ==> forall v :: v in tags ==> !Less(v, version)
  {
    base := None;
    var left := tags;
    while left != {}
      invariant left <= tags
      invariant base.Some? ==> base.value in tags && Less(base.value, version)
      invariant base.Some? ==>
                  forall v :: v in tags - left && Less(v, version) ==> v == base.value || Less(v, base.value)
      invariant base.None? ==> forall v :: v in tags - left ==> !Less(v, version)
    {
      var v :| v in left;
      left := left - {v};
      if Less(v, version) && (base.None? || Less(base.value, v)) {
        base := Some(v);
      }
    }
  }

  /** An arc: two snapshots and the readers they are read by. */
  datatype Arc = Arc(readers: Readers, before: Snapshot, after: Snapshot)
  {
    ghost predicate Proves(unit: string, verdict: Verdict) {
      InArc(readers, before, after, unit, verdict)
    }

    /** A ruling for a unit the arc does not ask about. */
    ghost predicate Stale(ruled: map<string, Kind>, unit: string) {
      unit in ruled && !Proves(unit, Asks)
    }

    /** A unit the arc asks about and no ruling names. */
    ghost predicate Open(ruled: map<string, Kind>, unit: string) {
      Proves(unit, Asks) && unit !in ruled
    }

    /** The arc says so, or a ruling answers so what it asks. */
    ghost predicate Gives(ruled: map<string, Kind>, unit: string, kind: Kind) {
      Proves(unit, Says(kind)) || (Proves(unit, Asks) && unit in ruled && ruled[unit] == kind)
    }

    /** The strongest kind that is given; nothing where none is. */
    ghost predicate IsFloor(ruled: map<string, Kind>, floor: Kind) {
      && (forall unit, kind :: Gives(ruled, unit, kind) ==> Rank(kind) <= Rank(floor))
      && (floor == Nothing || exists unit :: Gives(ruled, unit, floor))
    }

    /** These findings are those of the arc. */
    ghost predicate Holds(found: Findings) {
      forall unit, verdict :: verdict in VerdictsOn(found, unit) <==> Proves(unit, verdict)
    }
  }

  /** An arc has one floor. */
  lemma FloorUnique(arc: Arc, ruled: map<string, Kind>, one: Kind, other: Kind)
    requires arc.IsFloor(ruled, one) && arc.IsFloor(ruled, other)
    ensures one == other
  {
    assert Rank(one) == Rank(other);
  }

  method DeriveArc(arc: Arc) returns (derived: Derivation)
    ensures fresh(derived) && arc.Holds(derived.Value())
  {
    ghost var paths;
    derived, paths := Derive(arc.readers, arc.before, arc.after);
    forall unit, verdict
      ensures verdict in VerdictsOn(derived.Value(), unit) <==> arc.Proves(unit, verdict)
    {
      FoundIff(arc.readers, arc.before, arc.after, paths, unit, verdict);
    }
  }

  lemma AskedIff(arc: Arc, found: Findings)
    requires arc.Holds(found)
    ensures forall unit :: unit in found.ambiguities <==> arc.Proves(unit, Asks)
  {
    hide VerdictsOn, InArc;
    forall unit
      ensures unit in found.ambiguities <==> arc.Proves(unit, Asks)
    {
      VerdictIsFound(found, unit, Asks);
    }
  }

  /** The findings with the rulings folded in: what they say is what is given, and what they ask is open. */
  lemma FoldedIff(arc: Arc, found: Findings, ruled: map<string, Kind>)
    requires arc.Holds(found)
    ensures forall unit, kind :: Signal(kind, unit) in Folded(found, ruled).signals <==> arc.Gives(ruled, unit, kind)
    ensures forall unit :: unit in Folded(found, ruled).ambiguities <==> arc.Open(ruled, unit)
    ensures arc.IsFloor(ruled, FloorOf(Folded(found, ruled).signals))
  {
    hide VerdictsOn, InArc, Folded, FloorOf;
    FoldingConserves(found, ruled);
    AskedIff(arc, found);
    var signals := Folded(found, ruled).signals;
    forall unit, kind
      ensures Signal(kind, unit) in signals <==> arc.Gives(ruled, unit, kind)
    {
      VerdictIsFound(found, unit, Says(kind));
    }
    FloorIsStrongest(signals);
    if FloorOf(signals) != Nothing {
      var s :| s in signals && s.kind == FloorOf(signals);
      assert Signal(s.kind, s.unit) == s;
      assert arc.Gives(ruled, s.unit, FloorOf(signals));
    }
  }

  function SectionAt(notes: map<string, Section>, heading: string): Section {
    if heading in notes then notes[heading] else Section(map[], [])
  }

  const UNRELEASED := "Unreleased"

  /** A declared version with what it is judged by: the tagged releases, the working tree and the migration
      notes. */
  datatype Candidate = Candidate(readers: Readers, tags: map<Version, Snapshot>, worktree: Snapshot,
                                 version: Version, declared: string, notes: map<string, Section>)
  {
    /** The section that describes the judged arc. */
    function Notes(): Section {
      SectionAt(notes, if version in tags then declared else UNRELEASED)
    }

    /** The judged arc ends at the version's own tag, or at the working tree while there is none. */
    function Judged(base: Version): Arc
      requires base in tags
    {
      Arc(readers, tags[base], if version in tags then tags[version] else worktree)
    }

    /** From the released version to the working tree. */
    function PendingArc(): Arc
      requires version in tags
    {
      Arc(readers, tags[version], worktree)
    }

    /** No ruling is stale, on the judged arc or on the pending one. */
    ghost predicate NoneStale(base: Version)
      requires base in tags
    {
      && (forall unit :: !Judged(base).Stale(Notes().rulings, unit))
      && (version in tags ==> forall unit :: !PendingArc().Stale(SectionAt(notes, UNRELEASED).rulings, unit))
    }

    predicate NamesArc(ruling: VersionRuling, base: Version) {
      ruling.base == Dotted(base) && ruling.declared == declared
    }

    /** The version may stand: one step of that kind from the last release, over an arc of that floor. */
    ghost predicate Passes(base: Version, kind: Kind, floor: Kind) {
      && IsLastBefore(tags.Keys, version, base)
      && kind != Nothing && version == Successor(base, kind)
      && NoneStale(base)
      && (forall unit :: !Judged(base).Open(Notes().rulings, unit))
      && Judged(base).IsFloor(Notes().rulings, floor)
      && |Notes().versionRulings| <= 1
      && (forall ruling :: ruling in Notes().versionRulings ==> NamesArc(ruling, base))
      && (kind == floor
          || (Rank(kind) > Rank(floor) && Notes().versionRulings == [VersionRuling(Dotted(base), declared, kind)]))
    }

    /** What each refusal means. */
    ghost predicate RefusedFor(refusal: Refusal, base: Version) {
      && IsLastBefore(tags.Keys, version, base)
      && match refusal
         case NoBase => false
         case StaleRuling(unit) =>
           || Judged(base).Stale(Notes().rulings, unit)
           || (version in tags && PendingArc().Stale(SectionAt(notes, UNRELEASED).rulings, unit))
         case NotOneStep => SingleStep(base, version) == None
         case TwoVersionRulings => |Notes().versionRulings| > 1
         case Unruled(unit) => Judged(base).Open(Notes().rulings, unit)
         case OtherArc => exists ruling :: ruling in Notes().versionRulings && !NamesArc(ruling, base)
         case Exceeds =>
           exists kind, floor ::
             && SingleStep(base, version) == Some(kind) && Judged(base).IsFloor(Notes().rulings, floor)
             && Rank(kind) > Rank(floor)
             && forall ruling :: ruling in Notes().versionRulings ==> ruling.kind != kind
         case Undershoots =>
           exists kind, floor ::
             && SingleStep(base, version) == Some(kind) && Judged(base).IsFloor(Notes().rulings, floor)
             && Rank(kind) < Rank(floor)
    }
  }

  lemma LastIsOne(tags: set<Version>, version: Version, one: Version, other: Version)
    requires IsLastBefore(tags, version, one) && IsLastBefore(tags, version, other)
    ensures one == other
  {
  }

  /** A version that is refused for one of these reasons does not pass, whatever the base, kind and floor. */
  lemma RefusedDoesNotPass(c: Candidate, refusal: Refusal, at: Version, base: Version, kind: Kind, floor: Kind)
    requires c.RefusedFor(refusal, at)
    ensures !c.Passes(base, kind, floor)
  {
    hide InArc, Dotted;
    if c.Passes(base, kind, floor) {
      LastIsOne(c.tags.Keys, c.version, base, at);
      SingleStepIff(base, c.version, kind);
      RefusedNotPassed(c, refusal, base, kind, floor);
    }
  }

  lemma RefusedNotPassed(c: Candidate, refusal: Refusal, base: Version, kind: Kind, floor: Kind)
    requires c.Passes(base, kind, floor) && SingleStep(base, c.version) == Some(kind)
    ensures !c.RefusedFor(refusal, base)
  {
    hide InArc, Dotted, SingleStep, Successor, Less;
    var arc, ruled := c.Judged(base), c.Notes().rulings;
    forall other | arc.IsFloor(ruled, other)
      ensures other == floor
    {
      FloorUnique(arc, ruled, other, floor);
    }
  }

  datatype Report = Report(base: Version, kind: Kind, floor: Kind, pendingKind: Option<Kind>,
                           pendingNumber: Option<Version>)

  /** The gate: a version is let through exactly when it passes, with the base, the kind and the floor it
      passes by; each refusal has its reason. */
  method Measure(c: Candidate) returns (r: Result<Report, Refusal>)
    ensures r.Ok? ==> c.Passes(r.value.base, r.value.kind, r.value.floor)
    ensures r.Ok? ==> if c.version in c.tags
                      then r.value.pendingKind.Some?
                           && r.value.pendingNumber == Some(Successor(c.version, r.value.pendingKind.value))
                           && c.PendingArc().IsFloor(SectionAt(c.notes, UNRELEASED).rulings, r.value.pendingKind.value)
                      else r.value.pendingKind == None && r.value.pendingNumber == None
    ensures r == Err(NoBase) <==> forall base :: !IsLastBefore(c.tags.Keys, c.version, base)
    ensures r.Err? && r.error != NoBase ==> exists base :: c.RefusedFor(r.error, base)
    ensures r.Err? ==> forall base, kind, floor :: !c.Passes(base, kind, floor)
  {
    var last := LastBefore(c.tags.Keys, c.version);
    if last.None? {
      return Err(NoBase);
    }
    var refusal, report := MeasureFrom(c, last.value);
    if refusal.Some? {
      forall base, kind, floor
        ensures !c.Passes(base, kind, floor)
      {
        RefusedDoesNotPass(c, refusal.value, last.value, base, kind, floor);
      }
      return Err(refusal.value);
    }
    r := Ok(report);
  }

  /** An arc with the rulings of a section folded in: the findings that stand, or a stale ruling. */
  method Judge(arc: Arc, ruled: map<string, Kind>) returns (r: Result<Derivation, Refusal>)
    ensures r.Ok? ==> forall unit :: !arc.Stale(ruled, unit)
    ensures r.Ok? ==> fresh(r.value) && arc.IsFloor(ruled, FloorOf(r.value.signals))
    ensures r.Ok? ==> forall unit :: unit in r.value.ambiguities <==> arc.Open(ruled, unit)
    ensures r.Err? ==> r.error.StaleRuling? && arc.Stale(ruled, r.error.unit)
  {
    hide VerdictsOn, InArc, Folded, FloorOf;
    var derived := DeriveArc(arc);
    ghost var found := derived.Value();
    AskedIff(arc, found);
    r := ApplyRulings(derived, ruled);
    FoldedIff(arc, found, ruled);
  }

  /** The kind and the number that the arc from a released version to the working tree supports, or a stale
      ruling. */
  method Pending(c: Candidate) returns (kind: Option<Kind>, number: Option<Version>, stale: Option<Refusal>)
    ensures c.version !in c.tags ==> kind == None && number == None && stale == None
    ensures c.version in c.tags && stale == None ==>
              && kind.Some? && number == Some(Successor(c.version, kind.value))
              && c.PendingArc().IsFloor(SectionAt(c.notes, UNRELEASED).rulings, kind.value)
              && forall unit :: !c.PendingArc().Stale(SectionAt(c.notes, UNRELEASED).rulings, unit)
    ensures stale.Some? ==> stale.value.StaleRuling? && c.version in c.tags
                            && c.PendingArc().Stale(SectionAt(c.notes, UNRELEASED).rulings, stale.value.unit)
  {
    hide InArc, FloorOf;
    kind, number, stale := None, None, None;
    if c.version in c.tags {
      var judged := Judge(c.PendingArc(), SectionAt(c.notes, UNRELEASED).rulings);
      if judged.Err? {
        stale := Some(judged.error);
        return;
      }
      var floor := judged.value.Floor();
      kind, number := Some(floor), Some(Successor(c.version, floor));
    }
  }

  method MeasureFrom(c: Candidate, base: Version) returns (refusal: Option<Refusal>, report: Report)
    requires IsLastBefore(c.tags.Keys, c.version, base)
    ensures refusal.Some? ==> c.RefusedFor(refusal.value, base)
    ensures refusal.None? ==>
              && report.base == base && c.Passes(base, report.kind, report.floor)
              && if c.version in c.tags
                 then report.pendingKind.Some?
                      && report.pendingNumber == Some(Successor(c.version, report.pendingKind.value))
                      && c.PendingArc().IsFloor(SectionAt(c.notes, UNRELEASED).rulings, report.pendingKind.value)
                 else report.pendingKind == None && report.pendingNumber == None
  {
    hide InArc, FloorOf, Dotted, SingleStep, Successor, Less, Arc.IsFloor, Arc.Open, Arc.Stale;
    report := Report(base, Nothing, Nothing, None, None);
    var judged := Judge(c.Judged(base), c.Notes().rulings);
    if judged.Err? {
      return Some(judged.error), report;
    }
    var pendingKind, pendingNumber, stale := Pending(c);
    if stale.Some? {
      return stale, report;
    }
    var step := SingleStep(base, c.version);
    if step.None? {
      return Some(NotOneStep), report;
    }
    var rulings := c.Notes().versionRulings;
    if |rulings| > 1 {
      return Some(TwoVersionRulings), report;
    }
    var ruling := if rulings == [] then None else Some(rulings[0]);
    var floor := judged.value.Floor();
    refusal := RefuseUnlessClean(judged.value, base, c.declared, step.value, ruling);
    assert ruling.Some? ==> rulings == [ruling.value] && ruling.value in rulings;
    assert c.Judged(base).IsFloor(c.Notes().rulings, floor) && SingleStep(base, c.version) == Some(step.value);
    SingleStepIff(base, c.version, step.value);
    report := Report(base, step.value, floor, pendingKind, pendingNumber);
  }

  /** A version that passes is no earlier than the successor by the floor, and is it unless it is ruled. */
  lemma PassesIsEnough(c: Candidate, base: Version, kind: Kind, floor: Kind)
    requires c.Passes(base, kind, floor)
    ensures !Less(c.version, Successor(base, floor))
    ensures c.version == Successor(base, floor) || |c.Notes().versionRulings| == 1
  {
    SuccessorGrows(base, kind, floor);
  }

  /** A verdict that a version of this kind answers: a signal no stronger, or a question that a ruling no
      stronger answers. */
  predicate Answered(verdict: Verdict, unit: string, ruled: map<string, Kind>, kind: Kind) {
    match verdict
    case Says(said) => Rank(said) <= Rank(kind)
    case Asks => unit in ruled && Rank(ruled[unit]) <= Rank(kind)
  }

  /** A version that passes answers everything the arc proves: units, files, fixture sets and the schema
      version. */
  lemma AcceptedIsEnough(c: Candidate, base: Version, kind: Kind, floor: Kind, unit: string, verdict: Verdict)
    requires c.Passes(base, kind, floor) && c.Judged(base).Proves(unit, verdict)
    ensures Answered(verdict, unit, c.Notes().rulings, kind)
  {
    hide InArc;
    var arc, ruled := c.Judged(base), c.Notes().rulings;
    match verdict
    case Says(said) =>
      assert arc.Gives(ruled, unit, said);
    case Asks =>
      assert !arc.Open(ruled, unit);
      assert arc.Gives(ruled, unit, ruled[unit]);
  }
}
