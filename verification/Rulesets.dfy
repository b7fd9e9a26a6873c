/**
 The comparable form of a ruleset. Rules and bypass actors are held as their dumps with sorted keys, the
 form they are sorted and compared by. Two canonical forms are equal exactly when the single-valued
 fields are and the rules and actors are the same up to order (`CanonicalIff`).
 */
module Rulesets {
  import opened Sorting
  import opened Wrappers

  /** A key of a JSON object: `get` cannot tell an absent key from a null one. */
  datatype Field<+T> = Absent | Null | Value(value: T)
  {
    function Get(): Option<T> {
      if Value? then Some(value) else None
    }
  }

  /** A JSON object through the keys the gate reads; `other` holds if any further key is there. */
  datatype Object = Object(
    name: Field<string>, target: Field<string>, enforcement: Field<string>, conditions: Field<string>,
    rules: Option<seq<string>>, actors: Field<seq<string>>,
    id: Field<string>, defaultBranch: Field<string>, other: bool)
  {
    predicate Empty() {
      name.Absent? && target.Absent? && enforcement.Absent? && conditions.Absent? && rules.None?
      && actors.Absent? && id.Absent? && defaultBranch.Absent? && !other
    }

    /** Every key that a write takes is there. */
    predicate Complete() {
      !name.Absent? && !target.Absent? && !enforcement.Absent? && !conditions.Absent? && rules.Some?
      && !actors.Absent?
    }

    /** The six keys the API accepts on write. */
    function Body(): Object {
      Object(name, target, enforcement, conditions, rules, actors, Absent, Absent, false)
    }

    function Rules(): seq<string> {
      if rules.Some? then rules.value else []
    }

    function Actors(): seq<string> {
      if actors.Value? then actors.value else []
    }
  }

  datatype Canonical = Canonical(
    name: Option<string>, target: Option<string>, enforcement: Option<string>,
    actors: seq<string>, conditions: Option<string>, rules: seq<string>)

  function CanonicalOf(o: Object): Canonical {
    Canonical(o.name.Get(), o.target.Get(), o.enforcement.Get(),
              Sorted(o.Actors()), o.conditions.Get(), Sorted(o.Rules()))
  }

  /** What the comparison means: the same ruleset, but for the order of its rules and of its actors. */
  lemma CanonicalIff(a: Object, b: Object)
    ensures CanonicalOf(a) == CanonicalOf(b) <==>
              (&& a.name.Get() == b.name.Get() && a.target.Get() == b.target.Get()
               && a.enforcement.Get() == b.enforcement.Get() && a.conditions.Get() == b.conditions.Get()
               && multiset(a.Rules()) == multiset(b.Rules())
               && multiset(a.Actors()) == multiset(b.Actors()))
  {
    SortedIff(a.Rules(), b.Rules());
    SortedIff(a.Actors(), b.Actors());
  }

  datatype Key = Name | Target | Enforcement | BypassActors | Conditions | Rules

  function When(key: Key, differs: bool): seq<Key> {
    if differs then [key] else []
  }

  /** The keys an update would change. */
  function Changes(have: Canonical, wanted: Canonical): (r: seq<Key>)
    ensures r == [] <==> have == wanted
  {
    When(Name, have.name != wanted.name) + When(Target, have.target != wanted.target)
    + When(Enforcement, have.enforcement != wanted.enforcement)
    + When(BypassActors, have.actors != wanted.actors)
    + When(Conditions, have.conditions != wanted.conditions) + When(Rules, have.rules != wanted.rules)
  }
}
