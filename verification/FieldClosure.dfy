/**
 The messages a field table covers: a worklist from the roots over message-typed fields. `Closure`
 returns exactly the messages that a path of fields reaches and exactly the enums they name, and raises
 exactly when such a path meets a message that is undefined or cannot be read.
 */
module FieldClosure {
  import opened Sorting
  import opened Wrappers

  datatype Kind = MessageKind | EnumKind | OtherKind

  /** A field of a message: every `type_name` and every `type` printed in it. */
  datatype Field = Field(typeNames: seq<string>, kinds: seq<Kind>)

  type Message = seq<Field>

  /** One value or none of each, and a message or enum says its type. */
  predicate Readable(f: Field) {
    && |f.typeNames| <= 1 && |f.kinds| <= 1
    && (|f.kinds| == 1 && f.kinds[0] != OtherKind ==> |f.typeNames| == 1)
  }

  predicate Refers(f: Field, kind: Kind) {
    f.kinds == [kind] && |f.typeNames| == 1
  }

  /** `lstrip(".")`. */
  function Stripped(name: string): (r: string)
    ensures r == "" || r[0] != '.'
    ensures exists k :: 0 <= k <= |name| && r == name[k..] && forall j :: 0 <= j < k ==> name[j] == '.'
  {
    if name == "" || name[0] != '.' then
      assert name[0..] == name;
      name
    else
      var rest := Stripped(name[1..]);
      assert exists k :: 0 <= k <= |name| && rest == name[k..] && forall j :: 0 <= j < k ==> name[j] == '.' by {
        var k :| 0 <= k <= |name[1..]| && rest == name[1..][k..] && forall j :: 0 <= j < k ==> name[1..][j] == '.';
        assert name[1..][k..] == name[k + 1..];
        assert forall j :: 1 <= j < k + 1 ==> name[j] == name[1..][j - 1];
      }
      rest
  }

  /** The names that a message's fields of that kind refer to. */
  function Targets(message: Message, kind: Kind): set<string> {
    set f | f in message && Refers(f, kind) :: Stripped(f.typeNames[0])
  }

  predicate AllReadable(message: Message) {
    forall k :: 0 <= k < |message| ==> Readable(message[k])
  }

  /** A chain of message-typed fields from a root to the message `name`. */
  ghost predicate IsPath(messages: map<string, Message>, roots: seq<string>, path: seq<string>, name: string) {
    && |path| > 0 && path[0] in roots && path[|path| - 1] == name
    && forall k :: 0 <= k < |path| - 1 ==>
         path[k] in messages && path[k + 1] in Targets(messages[path[k]], MessageKind)
  }

  ghost predicate Reachable(messages: map<string, Message>, roots: seq<string>, name: string) {
    exists path :: IsPath(messages, roots, path, name)
  }

  lemma RootReachable(messages: map<string, Message>, roots: seq<string>, name: string)
    requires name in roots
    ensures Reachable(messages, roots, name)
  {
    assert IsPath(messages, roots, [name], name);
  }

  lemma NextReachable(messages: map<string, Message>, roots: seq<string>, name: string, next: string)
    requires Reachable(messages, roots, name)
    requires name in messages && next in Targets(messages[name], MessageKind)
    ensures Reachable(messages, roots, next)
  {
    hide Targets;
    var path :| IsPath(messages, roots, path, name);
    assert IsPath(messages, roots, path + [next], next);
  }

  /** A set that holds the roots and what its members refer to holds all that is reachable. */
  lemma {:induction false} ClosedHoldsPath(messages: map<string, Message>, roots: seq<string>, s: set<string>,
                                           path: seq<string>, name: string)
    requires forall root :: root in roots ==> root in s
    requires forall n :: n in s && n in messages ==> Targets(messages[n], MessageKind) <= s
    requires IsPath(messages, roots, path, name)
    ensures name in s
    decreases |path|
  {
    if |path| > 1 {
      var before := path[..|path| - 1];
      assert IsPath(messages, roots, before, before[|before| - 1]);
      ClosedHoldsPath(messages, roots, s, before, before[|before| - 1]);
    }
  }

  lemma ClosedHoldsReachable(messages: map<string, Message>, roots: seq<string>, s: set<string>)
    requires forall root :: root in roots ==> root in s
    requires forall n :: n in s && n in messages ==> Targets(messages[n], MessageKind) <= s
    ensures forall name :: Reachable(messages, roots, name) ==> name in s
  {
    forall name | Reachable(messages, roots, name)
      ensures name in s
    {
      var path :| IsPath(messages, roots, path, name);
      ClosedHoldsPath(messages, roots, s, path, name);
    }
  }

  datatype Trouble = Undefined(name: string) | Unreadable(name: string)

  /** The loop over one message's fields: what it appends to the worklist and adds to the enums. */
  method ReadFields(message: Message) returns (next: seq<string>, enums: set<string>, readable: bool)
    ensures readable <==> AllReadable(message)
    ensures readable ==> enums == Targets(message, EnumKind)
    ensures readable ==> forall n :: n in next <==> n in Targets(message, MessageKind)
  {
    next, enums := [], {};
    for i := 0 to |message|
      invariant AllReadable(message[..i])
      invariant enums == Targets(message[..i], EnumKind)
      invariant forall n :: n in next <==> n in Targets(message[..i], MessageKind)
    {
      var f := message[i];
      assert message[..i + 1] == message[..i] + [f];
      if !Readable(f) {
        return next, enums, false;
      }
      if f.kinds == [MessageKind] {
        next := next + [Stripped(f.typeNames[0])];
      } else if f.kinds == [EnumKind] {
        enums := enums + {Stripped(f.typeNames[0])};
      }
      TargetsOfNext(message[..i], f);
    }
    assert message[..|message|] == message;
    readable := true;
  }

  lemma TargetsOfNext(before: Message, f: Field)
    ensures forall kind :: Targets(before + [f], kind)
                        == Targets(before, kind) + if Refers(f, kind) then {Stripped(f.typeNames[0])} else {}
  {
    forall kind
      ensures Targets(before + [f], kind)
           == Targets(before, kind) + if Refers(f, kind) then {Stripped(f.typeNames[0])} else {}
    {
      assert forall g :: g in before + [f] <==> g in before || g == f;
    }
  }

  /** The enums that the messages of a set name. */
  ghost function EnumsOf(messages: map<string, Message>, names: set<string>): set<string> {
    set n, e | n in names && n in messages && e in Targets(messages[n], EnumKind) :: e
  }

  /** What the loop keeps. What has been seen or waits is reachable, what has been seen is defined and
      readable, and the roots and whatever a seen message refers to have been seen or wait. */
  ghost predicate Keeps(messages: map<string, Message>, roots: seq<string>, seen: set<string>,
                        pending: seq<string>, enums: set<string>)
  {
    && (forall n :: n in pending ==> Reachable(messages, roots, n))
    && (forall n :: n in seen ==> Reachable(messages, roots, n) && n in messages && AllReadable(messages[n]))
    && (forall n :: n in roots ==> n in seen || n in pending)
    && (forall n, m ::
          n in seen && n in messages && m in Targets(messages[n], MessageKind) ==> m in seen || m in pending)
    && enums == EnumsOf(messages, seen)
  }

  lemma KeptAtStart(messages: map<string, Message>, roots: seq<string>)
    ensures Keeps(messages, roots, {}, roots, {})
  {
    forall name | name in roots
      ensures Reachable(messages, roots, name)
    {
      RootReachable(messages, roots, name);
    }
  }

  lemma LastOrBefore(pending: seq<string>)
    requires |pending| > 0
    ensures forall n :: n in pending <==> n in pending[..|pending| - 1] || n == pending[|pending| - 1]
  {
    assert pending == pending[..|pending| - 1] + [pending[|pending| - 1]];
  }

  // A name that has been seen before is dropped.
  lemma KeptOnSkip(messages: map<string, Message>, roots: seq<string>, seen: set<string>,
                   pending: seq<string>, enums: set<string>)
    requires Keeps(messages, roots, seen, pending, enums)
    requires |pending| > 0 && pending[|pending| - 1] in seen
    ensures Keeps(messages, roots, seen, pending[..|pending| - 1], enums)
  {
    hide Reachable, Targets, AllReadable, EnumsOf;
    LastOrBefore(pending);
  }

  // A message is seen: its targets wait, its enums are added.
  lemma KeptOnVisit(messages: map<string, Message>, roots: seq<string>, seen: set<string>,
                    pending: seq<string>, enums: set<string>, next: seq<string>)
    requires Keeps(messages, roots, seen, pending, enums)
    requires |pending| > 0 && pending[|pending| - 1] in messages
    requires AllReadable(messages[pending[|pending| - 1]])
    requires forall n :: n in next <==> n in Targets(messages[pending[|pending| - 1]], MessageKind)
    ensures var name := pending[|pending| - 1];
            Keeps(messages, roots, seen + {name}, pending[..|pending| - 1] + next,
                  enums + Targets(messages[name], EnumKind))
  {
    hide Reachable, Targets, AllReadable;
    var name := pending[|pending| - 1];
    LastOrBefore(pending);
    forall n | n in next
      ensures Reachable(messages, roots, n)
    {
      NextReachable(messages, roots, name, n);
    }
    assert EnumsOf(messages, seen + {name}) == EnumsOf(messages, seen) + Targets(messages[name], EnumKind);
  }

  lemma KeptAtEnd(messages: map<string, Message>, roots: seq<string>, seen: set<string>, enums: set<string>)
    requires Keeps(messages, roots, seen, [], enums)
    ensures forall n :: n in seen <==> Reachable(messages, roots, n)
  {
    hide Reachable, Targets, AllReadable;
    ClosedHoldsReachable(messages, roots, seen);
  }

  lemma EnumsNamed(messages: map<string, Message>, names: seq<string>, seen: set<string>)
    requires forall n :: n in names <==> n in seen
    ensures forall e :: e in EnumsOf(messages, seen) <==>
              exists n :: n in names && n in messages && e in Targets(messages[n], EnumKind)
  {
    hide Targets;
  }

  method Closure(messages: map<string, Message>, roots: seq<string>)
    returns (r: Result<(seq<string>, seq<string>), Trouble>)
    ensures r.Ok? ==> Ordered(r.value.0) && NoRepeats(r.value.0) && Ordered(r.value.1) && NoRepeats(r.value.1)
    ensures r.Ok? ==> forall n :: n in r.value.0 <==> Reachable(messages, roots, n)
    ensures r.Ok? ==> forall n :: n in r.value.0 ==> n in messages && AllReadable(messages[n])
    ensures r.Ok? ==> forall e :: e in r.value.1 <==>
              exists n :: n in r.value.0 && n in messages && e in Targets(messages[n], EnumKind)
    ensures r.Err? ==> Reachable(messages, roots, r.error.name)
    ensures r.Err? ==>
              if r.error.Undefined? then r.error.name !in messages
              else r.error.name in messages && !AllReadable(messages[r.error.name])
  {
    hide Reachable, Targets, AllReadable, EnumsOf, Ordered, NoRepeats;
    var seen: set<string>, enums: set<string>, pending := {}, {}, roots;
    KeptAtStart(messages, roots);
    while |pending| > 0
      invariant Keeps(messages, roots, seen, pending, enums)
      decreases messages.Keys - seen, |pending|
    {
      var name := pending[|pending| - 1];
      if name in seen {
        KeptOnSkip(messages, roots, seen, pending, enums);
        pending := pending[..|pending| - 1];
        continue;
      }
      if name !in messages {
        return Err(Undefined(name));
      }
      var next, more, readable := ReadFields(messages[name]);
      if !readable {
        return Err(Unreadable(name));
      }
      KeptOnVisit(messages, roots, seen, pending, enums, next);
      ghost var left := messages.Keys - seen;
      seen, enums, pending := seen + {name}, enums + more, pending[..|pending| - 1] + next;
      assert name in left && messages.Keys - seen == left - {name};
    }
    assert pending == [];
    KeptAtEnd(messages, roots, seen, enums);
    var names := SortedSet(seen);
    var enumNames := SortedSet(enums);
    EnumsNamed(messages, names, seen);
    r := Ok((names, enumNames));
  }

  // ------------------------------------------------------------------ a field, entry by entry

  /** Some field of the message has this kind alone and one type name, which is `name` behind any dots. */
  ghost predicate IsNamed(message: Message, kind: Kind, name: string) {
    exists i: nat, dots: nat ::
      && i < |message| && message[i].kinds == [kind] && |message[i].typeNames| == 1
      && IsUndotted(message[i].typeNames[0], dots, name)
  }

  predicate IsUndotted(whole: string, dots: nat, name: string) {
    && dots <= |whole| && whole[dots..] == name && (name != "" ==> name[0] != '.')
    && forall k :: 0 <= k < dots ==> whole[k] == '.'
  }

  lemma {:induction false} UndottedIs(whole: string, dots: nat, name: string)
    requires IsUndotted(whole, dots, name)
    ensures Stripped(whole) == name
    decreases dots
  {
    if dots == 0 {
      assert whole[0..] == whole;
    } else {
      assert whole[1..][dots - 1..] == whole[dots..];
      UndottedIs(whole[1..], dots - 1, name);
    }
  }

  /** What a message refers to. */
  lemma TargetsMean(message: Message, kind: Kind, name: string)
    ensures name in Targets(message, kind) <==> IsNamed(message, kind, name)
  {
    if name in Targets(message, kind) {
      var f :| f in message && Refers(f, kind) && name == Stripped(f.typeNames[0]);
      var i :| 0 <= i < |message| && message[i] == f;
      var whole := f.typeNames[0];
      var k :| 0 <= k <= |whole| && Stripped(whole) == whole[k..] && forall j :: 0 <= j < k ==> whole[j] == '.';
      assert IsUndotted(message[i].typeNames[0], k, name);
    }
    if IsNamed(message, kind, name) {
      var i: nat, dots: nat :|
        && i < |message| && message[i].kinds == [kind] && |message[i].typeNames| == 1
        && IsUndotted(message[i].typeNames[0], dots, name);
      UndottedIs(message[i].typeNames[0], dots, name);
      assert message[i] in message && Refers(message[i], kind);
    }
  }

  /** A message cannot be read when a field of it says a type or a type name twice, or says that it is a message
      or an enum and names none. */
  lemma UnreadableMeans(message: Message)
    ensures !AllReadable(message) <==>
              exists i :: 0 <= i < |message|
                          && (|message[i].typeNames| >= 2 || |message[i].kinds| >= 2
                              || (message[i].typeNames == []
                                  && (message[i].kinds == [MessageKind] || message[i].kinds == [EnumKind])))
  {
    forall i | 0 <= i < |message|
      ensures !Readable(message[i]) <==>
                (|message[i].typeNames| >= 2 || |message[i].kinds| >= 2
                 || (message[i].typeNames == []
                     && (message[i].kinds == [MessageKind] || message[i].kinds == [EnumKind])))
    {
      var kinds := message[i].kinds;
      assert |kinds| == 1 ==> kinds == [kinds[0]];
    }
  }
}
