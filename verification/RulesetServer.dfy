/**
 `apply` against a server that keeps what it is given. The server may list the rulesets in any order and
 hand back rules and actors in any order. After one run it holds the proposal under its name and nothing
 else has changed (`Converges`); a second run writes nothing (`SecondRunIsSilent`).
 */
module RulesetServer {
  import opened Wrappers
  import opened Rulesets
  import opened RulesetApply
  import opened Sorting

  type Store = map<string, Object>

  /** What the server holds after a history, from what it held at the start. */
  function Stored(server: Server, base: Store, log: seq<Request>): Store {
    if log == [] then base
    else Effect(Stored(server, base, log[..|log| - 1]), log[|log| - 1], server(log))
  }

  function Effect(before: Store, request: Request, answer: Response): Store {
    match request
    case Get(_) => before
    case Post(body) =>
      if answer.status in {200, 201} && answer.payload.Record? && answer.payload.fields.id.Value?
      then before[answer.payload.fields.id.value := body] else before
    case Put(id, body) =>
      if answer.status in {200, 201} && id in before then before[id := body] else before
  }

  predicate Named(store: Store, id: string, name: Option<string>) {
    id in store && store[id].name.Get() == name
  }

  /** No two rulesets of the store have that name. */
  ghost predicate OneOfName(store: Store, name: Option<string>) {
    forall i, j :: Named(store, i, name) && Named(store, j, name) ==> i == j
  }

  /** The listing names each stored ruleset, and nothing else. */
  ghost predicate Lists(items: seq<Json>, store: Store) {
    && (forall k :: 0 <= k < |items| ==>
         items[k].Record? && items[k].fields.id.Value? && items[k].fields.id.value in store)
    && (forall id :: id in store ==> exists k :: Names(items, k, id))
  }

  predicate Names(items: seq<Json>, k: int, id: string) {
    0 <= k < |items| && items[k].Record? && items[k].fields.id == Value(id)
  }

  /** A ruleset as the server shows it: the stored one under its identifier, rules and actors in any
      order. */
  predicate Shows(payload: Json, id: string, stored: Object) {
    payload.Record? && payload.fields.id == Value(id) && CanonicalOf(payload.fields) == CanonicalOf(stored)
  }

  /** The answer to the last request of a history is the one a server that keeps its store gives. */
  ghost predicate Honest(server: Server, base: Store, log: seq<Request>)
    requires |log| > 0
  {
    HonestAnswer(Stored(server, base, log[..|log| - 1]), log[|log| - 1], server(log))
  }

  ghost predicate HonestAnswer(before: Store, request: Request, answer: Response) {
    match request
    case Get(Repository) => answer.status == 200 ==> answer.payload.Record?
    case Get(RulesetList) => answer.status == 200 && answer.payload.Listing? && Lists(answer.payload.items, before)
    case Get(RulesetById(id)) => id in before ==> answer.status == 200 && Shows(answer.payload, id, before[id])
    case Get(_) => true
    case Post(body) =>
      (forall id :: !Named(before, id, body.name.Get())) ==>
        && answer.status in {200, 201} && answer.payload.Record? && answer.payload.fields.id.Value?
        && answer.payload.fields.id.value !in before
    case Put(id, body) =>
      id in before ==>
        answer.status in {200, 201} && answer.payload.Record? && answer.payload.fields.id in {Absent, Value(id)}
  }

  ghost predicate Faithful(server: Server, base: Store) {
    forall log :: |log| > 0 ==> Honest(server, base, log)
  }

  lemma StoredAfter(server: Server, base: Store, log: seq<Request>, request: Request)
    ensures request.Get? ==> Stored(server, base, log + [request]) == Stored(server, base, log)
    ensures Faithful(server, base) ==> Honest(server, base, log + [request])
    ensures (log + [request])[..|log|] == log && (log + [request])[|log|] == request
  {
    hide HonestAnswer, Effect;
    var longer := log + [request];
    assert longer[..|log|] == log && longer[|log|] == request;
    GetChangesNothing(Stored(server, base, log), request, server(longer));
  }

  lemma GetChangesNothing(before: Store, request: Request, answer: Response)
    ensures request.Get? ==> Effect(before, request, answer) == before
  {
  }

  /** Reading changes nothing. */
  lemma {:induction false} StoredOfGets(server: Server, base: Store, log: seq<Request>, gets: seq<Request>)
    requires OnlyGets(gets)
    ensures Stored(server, base, log + gets) == Stored(server, base, log)
  {
    if gets == [] {
      assert log + gets == log;
    } else {
      var n := |gets| - 1;
      StoredOfGets(server, base, log, gets[..n]);
      StoredAfter(server, base, log + gets[..n], gets[n]);
      assert log + gets == log + gets[..n] + [gets[n]];
    }
  }

  /** The answers to the questions about the listed rulesets, one for each entry, in the listing's order. */
  predicate AllShown(details: seq<Json>, items: seq<Json>, store: Store) {
    |details| == |items|
    && forall k :: 0 <= k < |items| ==>
         && items[k].Record? && items[k].fields.id.Value? && items[k].fields.id.value in store
         && Shows(details[k], items[k].fields.id.value, store[items[k].fields.id.value])
  }

  lemma {:induction false} DetailsShow(server: Server, base: Store, log: seq<Request>, items: seq<Json>, store: Store)
    requires Faithful(server, base) && store == Stored(server, base, log)
    requires forall k :: 0 <= k < |items| ==>
               items[k].Record? && items[k].fields.id.Value? && items[k].fields.id.value in store
    ensures !Details(server, log, items).raised && AllShown(Details(server, log, items).details, items, store)
    decreases |items|
  {
    hide Stored, Honest, Faithful, CanonicalOf;
    if items != [] {
      var n := |items| - 1;
      DetailsShow(server, base, log, items[..n], store);
      var before := Details(server, log, items[..n]);
      var gets := DetailsAreAnswers(server, log, items[..n]);
      StoredOfGets(server, base, log, gets);
      OneShown(server, base, before.log, items[n].fields.id.value);
    }
  }

  lemma OneShown(server: Server, base: Store, log: seq<Request>, id: string)
    requires Faithful(server, base) && id in Stored(server, base, log)
    ensures var answer := server(log + [Get(RulesetById(id))]);
            answer.status == 200 && Shows(answer.payload, id, Stored(server, base, log)[id])
  {
    StoredAfter(server, base, log, Get(RulesetById(id)));
  }

  /** The whole reading: it does not raise, and it shows the store, each ruleset at least once. */
  lemma ReadAllShows(server: Server, base: Store, log: seq<Request>) returns (items: seq<Json>)
    requires Faithful(server, base)
    ensures !ReadAll(server, log).raised
    ensures Lists(items, Stored(server, base, log))
    ensures AllShown(ReadAll(server, log).details, items, Stored(server, base, log))
  {
    hide AllShown, CanonicalOf, Stored;
    var first := log + [Get(Repository)];
    StoredAfter(server, base, log, Get(Repository));
    assert BranchOf(server(first).Read()).Some?;
    var second := first + [Get(RulesetList)];
    StoredAfter(server, base, first, Get(RulesetList));
    items := server(second).payload.items;
    assert EntriesOf(server(second).Read()) == Some(items);
    DetailsShow(server, base, second, items, Stored(server, base, log));
  }

  lemma {:induction false} FindShown(details: seq<Json>, items: seq<Json>, store: Store, name: Option<string>)
    requires AllShown(details, items, store)
    ensures FindRuleset(details, name).Ok?
    ensures match FindRuleset(details, name).value
            case None => forall k :: 0 <= k < |items| ==> !Named(store, items[k].fields.id.value, name)
            case Some(found) => found.id.Value? && Named(store, found.id.value, name)
                                && CanonicalOf(found) == CanonicalOf(store[found.id.value])
  {
    if |details| > 0 {
      var id := items[0].fields.id.value;
      assert Shows(details[0], id, store[id]);
      assert details[0].fields.name.Get() == CanonicalOf(details[0].fields).name == store[id].name.Get();
      if details[0].fields.name.Get() != name {
        FindShown(details[1..], items[1..], store, name);
        forall k | 0 <= k < |items| && FindRuleset(details[1..], name).value.None?
          ensures !Named(store, items[k].fields.id.value, name)
        {
          if k > 0 {
            assert items[1..][k - 1] == items[k];
          }
        }
      }
    }
  }

  /** The step that a store calls for: to create when no ruleset has the proposal's name, to write to the one
      that has it when it differs, and to do nothing when it is equal. */
  ghost predicate IsRight(step: Step, store: Store, proposal: Object) {
    match step
    case Create => forall id :: !Named(store, id, proposal.name.Get())
    case Update(id, _) => id.Value? && Named(store, id.value, proposal.name.Get())
                          && CanonicalOf(store[id.value]) != CanonicalOf(proposal)
    case Noop(id) => id.Value? && Named(store, id.value, proposal.name.Get())
                     && CanonicalOf(store[id.value]) == CanonicalOf(proposal)
    case Raises => false
  }

  /** The plan against a faithful server is the right one. */
  lemma PlanIsRight(server: Server, base: Store, log: seq<Request>, proposal: Object)
    requires Faithful(server, base)
    ensures !ReadAll(server, log).raised
    ensures IsRight(Plan(ReadAll(server, log).details, proposal), Stored(server, base, log), proposal)
  {
    hide Stored, CanonicalOf, Faithful, AllShown, ReadAll;
    var store := Stored(server, base, log);
    var items := ReadAllShows(server, base, log);
    var details := ReadAll(server, log).details;
    FindShown(details, items, store, proposal.name.Get());
    if FindRuleset(details, proposal.name.Get()).value.None? {
      forall id
        ensures !Named(store, id, proposal.name.Get())
      {
        if id in store {
          var k :| Names(items, k, id);
        }
      }
    }
  }

  /** The store holds the proposal as the only ruleset of its name, and every other ruleset as before. */
  ghost predicate Settled(after: Store, before: Store, id: string, proposal: Object) {
    && id in after && CanonicalOf(after[id]) == CanonicalOf(proposal)
    && OneOfName(after, proposal.name.Get())
    && (forall other :: other != id ==> (other in after <==> other in before))
    && (forall other :: other != id && other in before ==> after[other] == before[other])
  }

  lemma BodyIsProposal(proposal: Object)
    ensures CanonicalOf(proposal.Body()) == CanonicalOf(proposal)
    ensures proposal.Body().name.Get() == proposal.name.Get()
  {
  }

  lemma ReplacedSettles(store: Store, id: string, proposal: Object)
    requires OneOfName(store, proposal.name.Get())
    requires forall other :: Named(store, other, proposal.name.Get()) ==> other == id
    ensures Settled(store[id := proposal.Body()], store, id, proposal)
  {
    BodyIsProposal(proposal);
    var after := store[id := proposal.Body()];
    forall other | Named(after, other, proposal.name.Get())
      ensures other == id
    {
      assert other != id ==> Named(store, other, proposal.name.Get());
    }
  }

  /** Writing to a faithful server, by a plan that is right, and reading back. */
  lemma WrittenSettles(server: Server, base: Store, log: seq<Request>, step: Step, proposal: Object)
    returns (id: string)
    requires Faithful(server, base) && OneOfName(Stored(server, base, log), proposal.name.Get())
    requires (step.Create? || step.Update?) && IsRight(step, Stored(server, base, log), proposal)
    ensures var run := Written(server, log, step, proposal);
            run.outcome == Exit(0)
            && Settled(Stored(server, base, run.log), Stored(server, base, log), id, proposal)
  {
    hide CanonicalOf, Faithful;
    var request := WriteOf(step, proposal);
    var wrote := log + [request];
    StoredAfter(server, base, log, request);
    BodyIsProposal(proposal);
    var answer := server(wrote);
    id := if step.Create? then answer.payload.fields.id.value else step.id.value;
    assert Stored(server, base, wrote) == Stored(server, base, log)[id := proposal.Body()];
    assert WrittenId(step, answer.payload.fields) == id;
    ReplacedSettles(Stored(server, base, log), id, proposal);
    OneShown(server, base, wrote, id);
    StoredAfter(server, base, wrote, Get(RulesetById(id)));
  }

  /** One run against a faithful server returns 0 and leaves the proposal in force under its name, with
      every other ruleset untouched. */
  lemma Converges(server: Server, base: Store, log: seq<Request>, proposal: Object) returns (id: string)
    requires Faithful(server, base) && proposal.Complete()
    requires OneOfName(Stored(server, base, log), proposal.name.Get())
    ensures var run := Applied(server, log, proposal, false);
            run.outcome == Exit(0)
            && Settled(Stored(server, base, run.log), Stored(server, base, log), id, proposal)
  {
    hide CanonicalOf, Faithful, Stored, ReadAll, Written;
    PlanIsRight(server, base, log, proposal);
    var gets := ReadAllIsGets(server, log);
    StoredOfGets(server, base, log, gets);
    var reading := ReadAll(server, log);
    var step := Plan(reading.details, proposal);
    if step.Noop? {
      id := step.id.value;
    } else {
      id := WrittenSettles(server, base, reading.log, step, proposal);
    }
  }

  /** The verb is idempotent: after a run against a faithful server, a second run with the same proposal
      sends only readings, returns 0 and leaves the store as it is. */
  lemma SecondRunIsSilent(server: Server, base: Store, log: seq<Request>, proposal: Object)
    returns (gets: seq<Request>)
    requires Faithful(server, base) && proposal.Complete()
    requires OneOfName(Stored(server, base, log), proposal.name.Get())
    ensures var first := Applied(server, log, proposal, false);
            var second := Applied(server, first.log, proposal, false);
            && first.outcome == second.outcome == Exit(0)
            && second.log == first.log + gets && OnlyGets(gets)
            && Stored(server, base, second.log) == Stored(server, base, first.log)
  {
    hide CanonicalOf, Faithful, Stored, ReadAll, Written;
    var id := Converges(server, base, log, proposal);
    var first := Applied(server, log, proposal, false);
    PlanIsRight(server, base, first.log, proposal);
    SettledName(Stored(server, base, first.log), Stored(server, base, log), id, proposal);
    gets := ReadAllIsGets(server, first.log);
    StoredOfGets(server, base, first.log, gets);
    assert Plan(ReadAll(server, first.log).details, proposal).Noop?;
  }

  lemma SettledName(after: Store, before: Store, id: string, proposal: Object)
    requires Settled(after, before, id, proposal)
    ensures Named(after, id, proposal.name.Get())
  {
    assert CanonicalOf(after[id]).name == after[id].name.Get();
    assert CanonicalOf(proposal).name == proposal.name.Get();
  }

  // A server of this kind, from any starting store, so that the two results above are about something.

  lemma {:induction false} LongerThanAll(ids: set<string>) returns (id: string)
    ensures forall other :: other in ids ==> |other| < |id|
    decreases |ids|
  {
    if |ids| == 0 {
      id := "";
    } else {
      var some :| some in ids;
      var longer := LongerThanAll(ids - {some});
      id := longer + some + "0";
    }
  }

  ghost function Fresh(store: Store): (id: string)
    ensures id !in store
  {
    assert exists id: string :: id !in store by {
      var id := LongerThanAll(store.Keys);
      assert id !in store.Keys;
    }
    var id: string :| id !in store;
    id
  }

  ghost function Listed(ids: set<string>): (r: seq<string>)
    ensures forall id :: id in ids <==> id in r
    decreases |ids|
  {
    if |ids| == 0 then []
    else
      var id :| id in ids;
      [id] + Listed(ids - {id})
  }

  function Bare(id: Field<string>): Object {
    Object(Absent, Absent, Absent, Absent, None, Absent, id, Absent, false)
  }

  ghost function KeptAnswer(before: Store, request: Request): Response {
    match request
    case Get(Repository) => Response(200, Record(Bare(Absent)))
    case Get(RulesetList) =>
      var ids := Listed(before.Keys);
      Response(200, Listing(seq(|ids|, k requires 0 <= k < |ids| => Record(Bare(Value(ids[k]))))))
    case Get(RulesetById(id)) =>
      if id in before then Response(200, Record(before[id].(id := Value(id)))) else Response(404, Nothing)
    case Get(_) => Response(404, Nothing)
    case Post(body) => Response(201, Record(body.(id := Value(Fresh(before)))))
    case Put(id, body) =>
      if id in before then Response(200, Record(body.(id := Value(id)))) else Response(404, Nothing)
  }

  ghost function KeptStore(base: Store, log: seq<Request>): Store {
    if log == [] then base
    else
      var before := KeptStore(base, log[..|log| - 1]);
      Effect(before, log[|log| - 1], KeptAnswer(before, log[|log| - 1]))
  }

  /** A server that keeps its store, and answers 403 to one reading if it is told to hide it. */
  ghost function Keeper(base: Store, hidden: Option<Path>): Server {
    (log: seq<Request>) =>
      if |log| == 0 then Response(404, Nothing)
      else if hidden.Some? && log[|log| - 1] == Get(hidden.value) then Response(403, Nothing)
      else KeptAnswer(KeptStore(base, log[..|log| - 1]), log[|log| - 1])
  }

  lemma {:induction false} KeeperKeeps(base: Store, hidden: Option<Path>, log: seq<Request>)
    ensures Stored(Keeper(base, hidden), base, log) == KeptStore(base, log)
    decreases |log|
  {
    if log != [] {
      KeeperKeeps(base, hidden, log[..|log| - 1]);
    }
  }

  lemma ListedIsListing(before: Store)
    ensures Lists(KeptAnswer(before, Get(RulesetList)).payload.items, before)
  {
    var ids := Listed(before.Keys);
    var items := KeptAnswer(before, Get(RulesetList)).payload.items;
    forall k | 0 <= k < |items|
      ensures items[k].fields.id.value in before
    {
      assert ids[k] in ids;
    }
    forall id | id in before
      ensures exists k :: Names(items, k, id)
    {
      assert id in ids;
      var k :| 0 <= k < |ids| && ids[k] == id;
      assert Names(items, k, id);
    }
  }

  lemma KeptIsHonest(before: Store, request: Request)
    ensures HonestAnswer(before, request, KeptAnswer(before, request))
  {
    hide Lists, Listed, Sorted;
    ListedIsListing(before);
  }

  /** There is a faithful server for every store to start from. */
  lemma FaithfulExists(base: Store)
    ensures Faithful(Keeper(base, None), base)
  {
    hide KeptStore, Stored, HonestAnswer, KeptAnswer;
    forall log: seq<Request> | |log| > 0
      ensures Honest(Keeper(base, None), base, log)
    {
      KeeperKeeps(base, None, log[..|log| - 1]);
      KeptIsHonest(KeptStore(base, log[..|log| - 1]), log[|log| - 1]);
    }
  }
}
