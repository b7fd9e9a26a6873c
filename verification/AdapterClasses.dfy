/**
 The classes that subclass `Adapter`, across the modules of a snapshot. `Derived` computes the least set
 that holds `Adapter` and every class with a base in the set.
 */
module AdapterClasses {

  /** A class statement: its name and the bare names of its bases. */
  datatype ClassDef = ClassDef(name: string, bases: set<string>)

  const ADAPTER := "Adapter"

  /** The classes of that name in the snapshot have this base among them. */
  predicate HasBase(classes: seq<ClassDef>, name: string, base: string) {
    exists k :: 0 <= k < |classes| && classes[k].name == name && base in classes[k].bases
  }

  /** The bases of every class name; a name stated twice has the bases of both. */
  method ClassBases(classes: seq<ClassDef>) returns (bases: map<string, set<string>>)
    ensures forall name :: name in bases <==> exists k :: 0 <= k < |classes| && classes[k].name == name
    ensures forall name, base :: name in bases ==> (base in bases[name] <==> HasBase(classes, name, base))
  {
    bases := map[];
    for i := 0 to |classes|
      invariant forall name :: name in bases <==> exists k :: 0 <= k < i && classes[k].name == name
      invariant forall name, base :: name in bases ==>
                  (base in bases[name] <==> HasBase(classes[..i], name, base))
    {
      var c := classes[i];
      bases := bases[c.name := (if c.name in bases then bases[c.name] else {}) + c.bases];
    }
  }

  /** A set that holds `Adapter` and every class with a base in it. */
  ghost predicate IsClosed(bases: map<string, set<string>>, s: set<string>) {
    ADAPTER in s && forall name :: name in bases && bases[name] * s != {} ==> name in s
  }

  /** A line of descent: each class has the next as a base, and the last is `Adapter`. */
  ghost predicate IsDescent(bases: map<string, set<string>>, line: seq<string>) {
    && |line| > 0 && line[|line| - 1] == ADAPTER
    && forall k :: 0 <= k < |line| - 1 ==> line[k] in bases && line[k + 1] in bases[line[k]]
  }

  method Derived(bases: map<string, set<string>>) returns (derived: set<string>)
    ensures IsClosed(bases, derived) && "Adapter" in derived
    ensures forall s :: IsClosed(bases, s) ==> derived <= s
    ensures forall name :: name in derived <==> exists line :: IsDescent(bases, line) && line[0] == name
  {
    derived := {ADAPTER};
    assert IsDescent(bases, [ADAPTER]) && [ADAPTER][0] == ADAPTER;
    while true
      invariant ADAPTER in derived && derived <= bases.Keys + {ADAPTER}
      invariant forall name :: name in derived ==> exists line :: IsDescent(bases, line) && line[0] == name
      decreases bases.Keys + {ADAPTER} - derived
    {
      var grown := (set name | name in bases && bases[name] * derived != {}) + derived;
      if grown == derived {
        break;
      }
      forall name | name in grown
        ensures exists line :: IsDescent(bases, line) && line[0] == name
      {
        if name !in derived {
          var base :| base in bases[name] * derived;
          LongerDescent(bases, name, base);
        }
      }
      assert exists name :: name in grown && name !in derived;
      derived := grown;
    }
    assert IsClosed(bases, derived);
    forall s, line | IsClosed(bases, s) && IsDescent(bases, line)
      ensures line[0] in s
    {
      DescentIsHeld(bases, line, s);
    }
  }

  lemma LongerDescent(bases: map<string, set<string>>, name: string, base: string)
    requires name in bases && base in bases[name]
    requires exists line :: IsDescent(bases, line) && line[0] == base
    ensures exists line :: IsDescent(bases, line) && line[0] == name
  {
    var line :| IsDescent(bases, line) && line[0] == base;
    assert IsDescent(bases, [name] + line) && ([name] + line)[0] == name;
  }

  lemma {:induction false} DescentIsHeld(bases: map<string, set<string>>, line: seq<string>, s: set<string>)
    requires IsClosed(bases, s) && IsDescent(bases, line)
    ensures line[0] in s
    decreases |line|
  {
    if |line| > 1 {
      DescentIsHeld(bases, line[1..], s);
      assert line[1] in bases[line[0]] * s;
    }
  }
}
