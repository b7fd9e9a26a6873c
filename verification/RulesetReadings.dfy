/**
 Planning over readings that may fail. `plan` takes what could not be read for what is not there. Against a
 server that shows only what it holds, and may refuse any reading, the plan is the one its store calls for
 exactly when no ruleset has the proposal's name or one that has it was listed and its detail read
 (`PlanRightIff`); otherwise the run creates a second one (`UnseenIsCreated`). Both ways to miss it are
 shown: a listing that cannot be read and a detail that cannot (`HiddenListingCreates`,
 `HiddenDetailCreates`).
 */
module RulesetReadings {
  import opened Wrappers
  import opened Rulesets
  import opened RulesetApply
  import opened RulesetServer
  import opened Sorting

  /** An answer that says nothing untrue; any reading may be refused. */
  ghost predicate TrueAnswer(before: Store, request: Request, answer: Response) {
    match request
    case Get(Repository) => answer.status == 200 ==> answer.payload.Record?
    case Get(RulesetList) =>
      answer.status == 200 ==> answer.payload.Listing? && NamesStored(answer.payload.items, before)
    case Get(RulesetById(id)) => answer.status == 200 ==> id in before && Shows(answer.payload, id, before[id])
    case _ => true
  }

  predicate NamesStored(items: seq<Json>, store: Store) {
    forall k :: 0 <= k < |items| ==>
      items[k].Record? && items[k].fields.id.Value? && items[k].fields.id.value in store
  }

  ghost predicate Truthful(server: Server, base: Store) {
    forall log: seq<Request> :: |log| > 0 ==> TrueAt(server, base, log)
  }

  ghost predicate TrueAt(server: Server, base: Store, log: seq<Request>)
    requires |log| > 0
  {
    TrueAnswer(Stored(server, base, log[..|log| - 1]), log[|log| - 1], server(log))
  }

  /** What the listing of a run names; nothing where it cannot be read. */
  function ListedItems(server: Server, log: seq<Request>): seq<Json> {
    var listing := server(log + [Get(Repository), Get(RulesetList)]).Read();
    if listing.Listing? then listing.items else []
  }

  /** The entry is of a stored ruleset of that name, and the question about it was answered. */
  predicate SeenAt(server: Server, log: seq<Request>, items: seq<Json>, store: Store, name: Option<string>, k: int) {
    && 0 <= k < |items| && items[k].Record? && items[k].fields.id.Value?
    && Named(store, items[k].fields.id.value, name)
    && server(Details(server, log, items[..k]).log + [Get(RulesetById(items[k].fields.id.value))]).status == 200
  }

  /** A ruleset of that name was listed and its detail read. */
  ghost predicate Seen(server: Server, log: seq<Request>, store: Store, name: Option<string>) {
    exists k :: SeenAt(server, log + [Get(Repository), Get(RulesetList)], ListedItems(server, log), store, name, k)
  }

  /** A detail that shows a stored ruleset. */
  ghost predicate IsTrue(detail: Json, store: Store) {
    exists id :: id in store && Shows(detail, id, store[id])
  }

  predicate HasName(details: seq<Json>, k: int, name: Option<string>) {
    0 <= k < |details| && details[k].Record? && details[k].fields.name.Get() == name
  }

  lemma AnswerIsTrue(server: Server, base: Store, log: seq<Request>, request: Request)
    requires Truthful(server, base)
    ensures TrueAnswer(Stored(server, base, log), request, server(log + [request]))
  {
    hide TrueAnswer, Stored;
    var longer := log + [request];
    assert TrueAt(server, base, longer);
    assert longer[..|log|] == log && longer[|log|] == request;
  }

  lemma ShownName(detail: Json, id: string, stored: Object, name: Option<string>)
    requires Shows(detail, id, stored)
    ensures detail.Record? && detail.fields.name.Get() == stored.name.Get()
  {
    assert CanonicalOf(detail.fields).name == CanonicalOf(stored).name;
  }

  /** One more entry: its detail is added, and true, if the question about it is answered. */
  lemma OneMoreDetail(server: Server, base: Store, log: seq<Request>, items: seq<Json>, store: Store)
    requires |items| > 0 && Truthful(server, base) && store == Stored(server, base, log) && NamesStored(items, store)
    requires !Details(server, log, items[..|items| - 1]).raised
    ensures var n := |items| - 1;
            var id := items[n].fields.id.value;
            var before := Details(server, log, items[..n]);
            var after := Details(server, log, items);
            var answer := server(before.log + [Get(RulesetById(id))]);
            && !after.raised
            && (answer.status != 200 ==> after.details == before.details)
            && (answer.status == 200 ==>
                  Shows(answer.payload, id, store[id]) && after.details == before.details + [answer.payload])
  {
    hide Stored, Truthful, CanonicalOf;
    var n := |items| - 1;
    var before := Details(server, log, items[..n]);
    var gets := DetailsAreAnswers(server, log, items[..n]);
    StoredOfGets(server, base, log, gets);
    AnswerIsTrue(server, base, before.log, Get(RulesetById(items[n].fields.id.value)));
  }

  lemma OneMoreName(details: seq<Json>, last: Json, name: Option<string>)
    ensures (exists k :: HasName(details + [last], k, name))
       <==> (exists k :: HasName(details, k, name)) || (last.Record? && last.fields.name.Get() == name)
  {
    var longer := details + [last];
    forall k | 0 <= k < |details|
      ensures HasName(longer, k, name) <==> HasName(details, k, name)
    {
    }
    assert HasName(longer, |details|, name) <==> last.Record? && last.fields.name.Get() == name;
  }

  lemma OneMoreSeen(server: Server, log: seq<Request>, items: seq<Json>, store: Store, name: Option<string>)
    requires |items| > 0
    ensures var n := |items| - 1;
            (exists k :: SeenAt(server, log, items, store, name, k)) <==>
              (exists k :: SeenAt(server, log, items[..n], store, name, k))
              || SeenAt(server, log, items, store, name, n)
  {
    hide Details, Named;
    var n := |items| - 1;
    forall k | 0 <= k < n
      ensures SeenAt(server, log, items, store, name, k) <==> SeenAt(server, log, items[..n], store, name, k)
    {
      assert items[..n][..k] == items[..k];
    }
  }

  /** The details of truthful answers: all true, and one has the name exactly when an entry was seen. */
  lemma {:induction false} DetailsAreTrue(server: Server, base: Store, log: seq<Request>, items: seq<Json>,
                                          store: Store, name: Option<string>)
    requires Truthful(server, base) && store == Stored(server, base, log) && NamesStored(items, store)
    ensures !Details(server, log, items).raised
    ensures forall j :: j in Details(server, log, items).details ==> IsTrue(j, store)
    ensures (exists k :: HasName(Details(server, log, items).details, k, name))
       <==> exists k :: SeenAt(server, log, items, store, name, k)
    decreases |items|
  {
    hide Stored, Truthful, Shows, SeenAt, HasName, Details;
    if items == [] {
      NoEntries(server, log, store, name);
    } else {
      var n := |items| - 1;
      var id := items[n].fields.id.value;
      var before := Details(server, log, items[..n]);
      var answer := server(before.log + [Get(RulesetById(id))]);
      DetailsAreTrue(server, base, log, items[..n], store, name);
      OneMoreDetail(server, base, log, items, store);
      OneMoreSeen(server, log, items, store, name);
      SeenIff(server, log, items, store, name, n);
      if answer.status == 200 {
        OneMoreName(before.details, answer.payload, name);
        ShownName(answer.payload, id, store[id], name);
        assert IsTrue(answer.payload, store);
      }
    }
  }

  lemma NoEntries(server: Server, log: seq<Request>, store: Store, name: Option<string>)
    ensures Details(server, log, []) == Reading(log, [], false)
    ensures forall k :: !SeenAt(server, log, [], store, name, k) && !HasName([], k, name)
  {
  }

  lemma SeenIff(server: Server, log: seq<Request>, items: seq<Json>, store: Store, name: Option<string>, k: nat)
    requires NamesStored(items, store) && k < |items|
    ensures SeenAt(server, log, items, store, name, k) <==>
              && server(Details(server, log, items[..k]).log + [Get(RulesetById(items[k].fields.id.value))]).status
                == 200
              && store[items[k].fields.id.value].name.Get() == name
  {
  }

  /** A search over true details finds one of the name, and a true one, exactly when there is one. */
  lemma {:induction false} FindTrue(details: seq<Json>, store: Store, name: Option<string>)
    requires forall j :: j in details ==> IsTrue(j, store)
    ensures FindRuleset(details, name).Ok?
    ensures match FindRuleset(details, name).value
            case None => forall k :: !HasName(details, k, name)
            case Some(found) => Record(found) in details && found.name.Get() == name
  {
    hide CanonicalOf;
    if details != [] {
      assert details[0] in details;
      assert details[0].Record?;
      if details[0].fields.name.Get() != name {
        FindTrue(details[1..], store, name);
        forall k | FindRuleset(details[1..], name).value.None?
          ensures !HasName(details, k, name)
        {
          if 0 < k < |details| {
            assert !HasName(details[1..], k - 1, name);
          }
        }
      }
    }
  }

  /** The whole reading against a truthful server. */
  lemma ReadAllIsTrue(server: Server, base: Store, log: seq<Request>, name: Option<string>)
    requires Truthful(server, base)
    ensures var store := Stored(server, base, log);
            var reading := ReadAll(server, log);
            && !reading.raised
            && (forall j :: j in reading.details ==> IsTrue(j, store))
            && ((exists k :: HasName(reading.details, k, name)) <==> Seen(server, log, store, name))
  {
    hide Stored, Truthful, SeenAt, HasName, Details, IsTrue;
    var first := log + [Get(Repository)];
    var second := first + [Get(RulesetList)];
    assert second == log + [Get(Repository), Get(RulesetList)];
    AnswerIsTrue(server, base, log, Get(Repository));
    StoredAfter(server, base, log, Get(Repository));
    AnswerIsTrue(server, base, first, Get(RulesetList));
    StoredAfter(server, base, first, Get(RulesetList));
    assert BranchOf(server(first).Read()).Some?;
    assert EntriesOf(server(second).Read()) == Some(ListedItems(server, log));
    DetailsAreTrue(server, base, second, ListedItems(server, log), Stored(server, base, log), name);
  }

  /** The plan is the one that the store calls for exactly when no stored ruleset has the proposal's name, or
      one that has it was seen; and where it is not, it is to create. */
  lemma PlanRightIff(server: Server, base: Store, log: seq<Request>, proposal: Object)
    requires Truthful(server, base)
    ensures var store := Stored(server, base, log);
            var step := Plan(ReadAll(server, log).details, proposal);
            && !ReadAll(server, log).raised
            && (IsRight(step, store, proposal) <==>
                  (forall id :: !Named(store, id, proposal.name.Get()))
                    || Seen(server, log, store, proposal.name.Get()))
            && (!IsRight(step, store, proposal) ==> step == Create)
  {
    hide Stored, Truthful, Seen, ReadAll, CanonicalOf;
    var store := Stored(server, base, log);
    var name := proposal.name.Get();
    var details := ReadAll(server, log).details;
    ReadAllIsTrue(server, base, log, name);
    FindTrue(details, store, name);
    var found := FindRuleset(details, name).value;
    if found.Some? {
      TrueIsRight(found.value, store, proposal);
      var k :| 0 <= k < |details| && details[k] == Record(found.value);
      assert HasName(details, k, name);
    }
  }

  lemma TrueIsRight(found: Object, store: Store, proposal: Object)
    requires IsTrue(Record(found), store) && found.name.Get() == proposal.name.Get()
    ensures IsRight(if Changes(CanonicalOf(found), CanonicalOf(proposal)) == [] then Noop(found.id)
                    else Update(found.id, Changes(CanonicalOf(found), CanonicalOf(proposal))), store, proposal)
  {
    hide CanonicalOf;
    var id :| id in store && Shows(Record(found), id, store[id]);
    ShownName(Record(found), id, store[id], proposal.name.Get());
  }

  /** A run that did not see the ruleset it is about creates another of its name. */
  lemma UnseenIsCreated(server: Server, base: Store, log: seq<Request>, proposal: Object, id: string)
    requires Truthful(server, base) && proposal.Complete()
    requires Named(Stored(server, base, log), id, proposal.name.Get())
    requires !Seen(server, log, Stored(server, base, log), proposal.name.Get())
    ensures Post(proposal.Body()) in Applied(server, log, proposal, false).log
  {
    hide Stored, Truthful, Seen, ReadAll, CanonicalOf;
    PlanRightIff(server, base, log, proposal);
    var reading := ReadAll(server, log);
    assert !IsRight(Plan(reading.details, proposal), Stored(server, base, log), proposal);
    var run := Written(server, reading.log, Create, proposal);
    assert run.log[|reading.log|] == Post(proposal.Body());
  }

  /** The server that hides one reading is truthful. */
  lemma HiddenIsTruthful(base: Store, hidden: Option<Path>)
    ensures Truthful(Keeper(base, hidden), base)
  {
    hide KeptStore, Stored, TrueAnswer, KeptAnswer;
    forall log: seq<Request> | |log| > 0
      ensures TrueAt(Keeper(base, hidden), base, log)
    {
      var before := KeptStore(base, log[..|log| - 1]);
      KeeperKeeps(base, hidden, log[..|log| - 1]);
      KeptIsTrue(before, log[|log| - 1]);
      RefusalIsTrue(before, log[|log| - 1], Response(403, Nothing));
    }
  }

  lemma RefusalIsTrue(before: Store, request: Request, answer: Response)
    requires answer.status != 200
    ensures TrueAnswer(before, request, answer)
  {
  }

  lemma KeptIsTrue(before: Store, request: Request)
    ensures TrueAnswer(before, request, KeptAnswer(before, request))
  {
    hide Listed, Sorted;
    ListedIsListing(before);
  }

  /** The listing cannot be read: whatever is stored under the proposal's name, another is created. */
  lemma HiddenListingCreates(base: Store, id: string, proposal: Object)
    requires proposal.Complete() && Named(base, id, proposal.name.Get())
    ensures Post(proposal.Body()) in Applied(Keeper(base, Some(RulesetList)), [], proposal, false).log
  {
    var server := Keeper(base, Some(RulesetList));
    HiddenIsTruthful(base, Some(RulesetList));
    assert ListedItems(server, []) == [] by {
      var requests := [] + [Get(Repository), Get(RulesetList)];
      assert requests[|requests| - 1] == Get(RulesetList);
    }
    UnseenIsCreated(server, base, [], proposal, id);
  }

  /** The listing is read and names the ruleset, and its detail cannot be read: another is created. */
  lemma HiddenDetailCreates(base: Store, id: string, proposal: Object)
    requires proposal.Complete() && Named(base, id, proposal.name.Get()) && OneOfName(base, proposal.name.Get())
    ensures exists k :: Names(ListedItems(Keeper(base, Some(RulesetById(id))), []), k, id)
    ensures Post(proposal.Body()) in Applied(Keeper(base, Some(RulesetById(id))), [], proposal, false).log
  {
    hide KeptAnswer, Details, CanonicalOf;
    var server := Keeper(base, Some(RulesetById(id)));
    HiddenIsTruthful(base, Some(RulesetById(id)));
    ListingIsKept(base, id);
    var items := ListedItems(server, []);
    var second := [] + [Get(Repository), Get(RulesetList)];
    forall k
      ensures !SeenAt(server, second, items, base, proposal.name.Get(), k)
    {
      HiddenIsUnseen(base, id, second, items, proposal.name.Get(), k);
    }
    UnseenIsCreated(server, base, [], proposal, id);
  }

  lemma HiddenIsUnseen(base: Store, id: string, log: seq<Request>, items: seq<Json>, name: Option<string>, k: int)
    requires Named(base, id, name) && OneOfName(base, name)
    ensures !SeenAt(Keeper(base, Some(RulesetById(id))), log, items, base, name, k)
  {
    hide KeptAnswer, Details;
    if 0 <= k < |items| && items[k].Record? && items[k].fields.id == Value(id) {
      var asked := Details(Keeper(base, Some(RulesetById(id))), log, items[..k]).log + [Get(RulesetById(id))];
      assert asked[|asked| - 1] == Get(RulesetById(id));
    }
  }

  lemma ListingIsKept(base: Store, id: string)
    requires id in base
    ensures exists k :: Names(ListedItems(Keeper(base, Some(RulesetById(id))), []), k, id)
  {
    hide Listed, Effect;
    var second := [] + [Get(Repository), Get(RulesetList)];
    assert second == [Get(Repository), Get(RulesetList)] && second[..1] == [Get(Repository)];
    StoreAtStart(base);
    ListedIsListing(base);
    var k :| Names(KeptAnswer(base, Get(RulesetList)).payload.items, k, id);
    assert ListedItems(Keeper(base, Some(RulesetById(id))), []) == KeptAnswer(base, Get(RulesetList)).payload.items;
  }

  lemma StoreAtStart(base: Store)
    ensures KeptStore(base, [Get(Repository)]) == base
  {
    var log := [Get(Repository)];
    assert log[..0] == [];
    assert KeptStore(base, []) == base;
  }
}
