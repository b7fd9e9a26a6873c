/**
 What an arc between two snapshots proves: signals, each a bump kind about a unit, and ambiguities, units
 nothing decides. The floor is the strongest kind signalled (`FloorIsStrongest`).
 */
module BumpFindings {

  /** Weakest to strongest. */
  datatype Kind = Nothing | Patch | Minor | Major

  function Rank(kind: Kind): nat {
    match kind
    case Nothing => 0
    case Patch => 1
    case Minor => 2
    case Major => 3
  }

  function Stronger(left: Kind, right: Kind): Kind {
    if Rank(left) >= Rank(right) then left else right
  }

  datatype Signal = Signal(kind: Kind, unit: string)

  /** An ambiguity is held as the unit it is about. */
  datatype Findings = Findings(signals: seq<Signal>, ambiguities: seq<string>)

  function FloorOf(signals: seq<Signal>): Kind {
    if signals == [] then Nothing
    else Stronger(FloorOf(signals[..|signals| - 1]), signals[|signals| - 1].kind)
  }

  /** The floor bounds every signal, and some signal reaches it unless nothing was signalled. */
  lemma {:induction false} FloorIsStrongest(signals: seq<Signal>)
    ensures forall s :: s in signals ==> Rank(s.kind) <= Rank(FloorOf(signals))
    ensures FloorOf(signals) == Nothing || exists s :: s in signals && s.kind == FloorOf(signals)
  {
    if signals != [] {
      var before := signals[..|signals| - 1];
      var last := signals[|signals| - 1];
      FloorIsStrongest(before);
      assert forall s :: s in signals <==> s in before || s == last;
      if FloorOf(signals) == last.kind {
        assert last in signals;
      }
    }
  }

  /** More signals never lower the floor. */
  lemma FloorGrows(fewer: seq<Signal>, more: seq<Signal>)
    requires forall s :: s in fewer ==> s in more
    ensures Rank(FloorOf(fewer)) <= Rank(FloorOf(more))
  {
    FloorIsStrongest(fewer);
    FloorIsStrongest(more);
  }

  datatype Verdict = Says(kind: Kind) | Asks

  function One(applies: bool, verdict: Verdict): multiset<Verdict> {
    if applies then multiset{verdict} else multiset{}
  }

  function SignalsOn(signals: seq<Signal>, unit: string): multiset<Verdict> {
    if signals == [] then multiset{}
    else
      var last := signals[|signals| - 1];
      SignalsOn(signals[..|signals| - 1], unit) + One(last.unit == unit, Says(last.kind))
  }

  function AsksOn(ambiguities: seq<string>, unit: string): multiset<Verdict> {
    if ambiguities == [] then multiset{}
    else AsksOn(ambiguities[..|ambiguities| - 1], unit) + One(ambiguities[|ambiguities| - 1] == unit, Asks)
  }

  /** Everything that is found about a unit, each finding once for every time it is listed. */
  function VerdictsOn(found: Findings, unit: string): multiset<Verdict> {
    SignalsOn(found.signals, unit) + AsksOn(found.ambiguities, unit)
  }

  lemma SignalsOfNext(signals: seq<Signal>, signal: Signal, unit: string)
    ensures SignalsOn(signals + [signal], unit)
         == SignalsOn(signals, unit) + One(signal.unit == unit, Says(signal.kind))
  {
    assert (signals + [signal])[..|signals|] == signals;
  }

  lemma AsksOfNext(ambiguities: seq<string>, ambiguity: string, unit: string)
    ensures AsksOn(ambiguities + [ambiguity], unit) == AsksOn(ambiguities, unit) + One(ambiguity == unit, Asks)
  {
    assert (ambiguities + [ambiguity])[..|ambiguities|] == ambiguities;
  }

  lemma SignalsOfNone(unit: string)
    ensures SignalsOn([], unit) == multiset{}
  {
  }

  lemma {:induction false} SignalsOfConcat(a: seq<Signal>, b: seq<Signal>, unit: string)
    ensures SignalsOn(a + b, unit) == SignalsOn(a, unit) + SignalsOn(b, unit)
    decreases |b|
  {
    hide One, SignalsOn;
    if b == [] {
      assert a + b == a;
      SignalsOfNone(unit);
    } else {
      var before, last := b[..|b| - 1], b[|b| - 1];
      SignalsOfConcat(a, before, unit);
      SignalsOfNext(a + before, last, unit);
      SignalsOfNext(before, last, unit);
      assert a + b == a + before + [last] && b == before + [last];
    }
  }

  lemma AsksOfNone(unit: string)
    ensures AsksOn([], unit) == multiset{}
  {
  }

  lemma {:induction false} AsksOfConcat(a: seq<string>, b: seq<string>, unit: string)
    ensures AsksOn(a + b, unit) == AsksOn(a, unit) + AsksOn(b, unit)
    decreases |b|
  {
    hide One, AsksOn;
    if b == [] {
      assert a + b == a;
      AsksOfNone(unit);
    } else {
      var before, last := b[..|b| - 1], b[|b| - 1];
      AsksOfConcat(a, before, unit);
      AsksOfNext(a + before, last, unit);
      AsksOfNext(before, last, unit);
      assert a + b == a + before + [last] && b == before + [last];
    }
  }

  lemma {:induction false} SignalSpeaks(signals: seq<Signal>, signal: Signal)
    ensures SignalsOn(signals, signal.unit)[Says(signal.kind)] > 0 <==> signal in signals
    ensures Asks !in SignalsOn(signals, signal.unit)
  {
    if signals != [] {
      SignalSpeaks(signals[..|signals| - 1], signal);
      assert signals == signals[..|signals| - 1] + [signals[|signals| - 1]];
    }
  }

  lemma {:induction false} AskSpeaks(ambiguities: seq<string>, unit: string)
    ensures AsksOn(ambiguities, unit)[Asks] > 0 <==> unit in ambiguities
    ensures forall kind :: Says(kind) !in AsksOn(ambiguities, unit)
  {
    if ambiguities != [] {
      AskSpeaks(ambiguities[..|ambiguities| - 1], unit);
      assert ambiguities == ambiguities[..|ambiguities| - 1] + [ambiguities[|ambiguities| - 1]];
    }
  }

  /** A verdict stands for a finding in the lists, and back. */
  lemma VerdictIsFound(found: Findings, unit: string, verdict: Verdict)
    ensures verdict in VerdictsOn(found, unit) <==>
              match verdict
              case Says(kind) => Signal(kind, unit) in found.signals
              case Asks => unit in found.ambiguities
  {
    AskSpeaks(found.ambiguities, unit);
    match verdict {
      case Says(kind) => SignalSpeaks(found.signals, Signal(kind, unit));
      case Asks => SignalSpeaks(found.signals, Signal(Nothing, unit));
    }
  }

  /** The growing lists. */
  class Derivation {
    var signals: seq<Signal>
    var ambiguities: seq<string>

    constructor ()
      ensures Value() == Findings([], [])
    {
      signals, ambiguities := [], [];
    }

    function Value(): Findings
      reads this
    {
      Findings(signals, ambiguities)
    }

    /** Appending a signal says one thing more about its unit and nothing about another. */
    method Say(kind: Kind, unit: string)
      modifies this
      ensures Value() == Findings(old(signals) + [Signal(kind, unit)], old(ambiguities))
      ensures forall u :: VerdictsOn(Value(), u) == VerdictsOn(old(Value()), u) + One(u == unit, Says(kind))
    {
      forall u {
        SignalsOfNext(signals, Signal(kind, unit), u);
      }
      signals := signals + [Signal(kind, unit)];
    }

    method Ask(unit: string)
      modifies this
      ensures Value() == Findings(old(signals), old(ambiguities) + [unit])
      ensures forall u :: VerdictsOn(Value(), u) == VerdictsOn(old(Value()), u) + One(u == unit, Asks)
    {
      forall u {
        AsksOfNext(ambiguities, unit, u);
      }
      ambiguities := ambiguities + [unit];
    }

    /** Everything another reading found. */
    method Absorb(found: Findings)
      modifies this
      ensures Value() == Findings(old(signals) + found.signals, old(ambiguities) + found.ambiguities)
      ensures forall u :: VerdictsOn(Value(), u) == VerdictsOn(old(Value()), u) + VerdictsOn(found, u)
    {
      forall u
        ensures SignalsOn(signals + found.signals, u) == SignalsOn(signals, u) + SignalsOn(found.signals, u)
        ensures AsksOn(ambiguities + found.ambiguities, u) == AsksOn(ambiguities, u) + AsksOn(found.ambiguities, u)
      {
        SignalsOfConcat(signals, found.signals, u);
        AsksOfConcat(ambiguities, found.ambiguities, u);
      }
      signals, ambiguities := signals + found.signals, ambiguities + found.ambiguities;
    }

    /** `floor`. */
    method Floor() returns (kind: Kind)
      ensures kind == FloorOf(signals)
    {
      kind := Nothing;
      for i := 0 to |signals|
        invariant kind == FloorOf(signals[..i])
      {
        assert signals[..i + 1][..i] == signals[..i];
        kind := Stronger(kind, signals[i].kind);
      }
      assert signals[..|signals|] == signals;
    }
  }
}
