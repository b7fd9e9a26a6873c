/**
 The requests of a run and what it returns, said of the answers one by one: what is read and in which order,
 what is written and where to, what is read back, and when the run returns 0, returns 1 or raises.
 */
module RulesetMeaning {
  import opened RulesetApply
  import opened Rulesets
  import opened Wrappers

  /** A field as it is put into a path: its value, or the word for none. */
  function FieldText(field: Field<string>): string {
    match field
    case Value(text) => text
    case Null => "None"
    case Absent => "None"
  }

  /** The branch whose rules are asked for: the repository's own, "main" where it cannot be read, is empty or
      names none; and none where what is read has no keys. */
  function BranchName(reply: Response): Option<string> {
    if reply.status != 200 then Some("main")
    else
      match reply.payload
      case Nothing => Some("main")
      case Scalar(truthy) => if truthy then None else Some("main")
      case Listing(items) => if items == [] then Some("main") else None
      case Record(fields) =>
        (match fields.defaultBranch
         case Absent => Some("main")
         case named => Some(FieldText(named)))
  }

  lemma BranchMeans(reply: Response)
    ensures BranchOf(reply.Read()) == BranchName(reply)
  {
  }

  /** What the listing is taken to hold: nothing where it cannot be read or is empty, its entries where it is a
      list; and none where it is something else. */
  function Listed(reply: Response): Option<seq<Json>> {
    if reply.status != 200 then Some([])
    else
      match reply.payload
      case Nothing => Some([])
      case Scalar(truthy) => if truthy then None else Some([])
      case Listing(items) => Some(items)
      case Record(fields) => if fields.Empty() then Some([]) else None
  }

  lemma ListedMeans(reply: Response)
    ensures EntriesOf(reply.Read()) == Listed(reply)
  {
  }

  predicate AllRecords(items: seq<Json>) {
    forall k :: 0 <= k < |items| ==> items[k].Record?
  }

  /** One question for each entry, by its id. */
  function Questions(items: seq<Json>): seq<Request>
    requires AllRecords(items)
  {
    seq(|items|, k requires 0 <= k < |items| => Get(RulesetById(FieldText(items[k].fields.id))))
  }

  /** The answers with status 200 that hold something, in order. */
  function Answers(server: Server, log: seq<Request>, asked: seq<Request>): seq<Json> {
    if asked == [] then []
    else
      var n := |asked| - 1;
      var reply := server(log + asked);
      Answers(server, log, asked[..n])
      + if reply.status == 200 && reply.payload != Nothing then [reply.payload] else []
  }

  lemma {:induction false} DetailsMean(server: Server, log: seq<Request>, items: seq<Json>)
    requires AllRecords(items)
    ensures Details(server, log, items)
         == Reading(log + Questions(items), Answers(server, log, Questions(items)), false)
  {
    var asked := Questions(items);
    if items == [] {
      assert log + asked == log;
    } else {
      var n := |items| - 1;
      DetailsMean(server, log, items[..n]);
      assert Questions(items[..n]) == asked[..n];
      assert asked == asked[..n] + [asked[n]];
      assert log + asked[..n] + [asked[n]] == log + asked;
    }
  }

  lemma {:induction false} DetailsRaise(server: Server, log: seq<Request>, items: seq<Json>)
    ensures Details(server, log, items).raised <==> !AllRecords(items)
  {
    if items != [] {
      DetailsRaise(server, log, items[..|items| - 1]);
    }
  }

  /** Every request of the reading, in order: the repository, the listing, each listed ruleset, and four more. */
  function Questionnaire(branch: string, items: seq<Json>): seq<Request>
    requires AllRecords(items)
  {
    [Get(Repository), Get(RulesetList)] + Questions(items)
    + [Get(BranchRules(branch)), Get(ActionsPermissions), Get(WorkflowPermissions), Get(VulnerabilityAlerts)]
  }

  /** Both first answers can be walked, and so can every entry. */
  predicate IsReadable(server: Server, log: seq<Request>) {
    var items := Listed(server(log + [Get(Repository), Get(RulesetList)]));
    BranchName(server(log + [Get(Repository)])).Some? && items.Some? && AllRecords(items.value)
  }

  /** The reading, where it does not raise; and exactly when it does. */
  lemma ReadingMeans(server: Server, log: seq<Request>)
    ensures ReadAll(server, log).raised <==> !IsReadable(server, log)
    ensures IsReadable(server, log) ==>
              var branch := BranchName(server(log + [Get(Repository)])).value;
              var items := Listed(server(log + [Get(Repository), Get(RulesetList)])).value;
              && ReadAll(server, log).log == log + Questionnaire(branch, items)
              && ReadAll(server, log).details
                 == Answers(server, log + [Get(Repository), Get(RulesetList)], Questions(items))
  {
    hide Details, BranchOf, EntriesOf, Listed, BranchName, Answers;
    var first, second := log + [Get(Repository)], log + [Get(Repository), Get(RulesetList)];
    assert first + [Get(RulesetList)] == second;
    BranchMeans(server(first));
    ListedMeans(server(second));
    var items := Listed(server(second));
    if items.Some? {
      DetailsRaise(server, second, items.value);
      if AllRecords(items.value) {
        DetailsMean(server, second, items.value);
        if BranchName(server(first)).Some? {
          var branch := BranchName(server(first)).value;
          assert second + Questions(items.value) + Rest(branch) == log + Questionnaire(branch, items.value);
        }
      }
    }
  }

  // --------------------------------------------------------------------------------------- the run

  /** The key is there to be written. */
  predicate HasAllSix(o: Object) {
    o.name != Absent && o.target != Absent && o.enforcement != Absent && o.conditions != Absent
    && o.rules != None && o.actors != Absent
  }

  /** Same rulesets, but for the order of the rules and of the actors; a key that is not there is as a null. */
  predicate Equals(a: Object, b: Object) {
    && a.name.Get() == b.name.Get() && a.target.Get() == b.target.Get()
    && a.enforcement.Get() == b.enforcement.Get() && a.conditions.Get() == b.conditions.Get()
    && multiset(a.Rules()) == multiset(b.Rules()) && multiset(a.Actors()) == multiset(b.Actors())
  }

  /** No detail in front of it fits, and none is anything but an object. */
  predicate IsFirstNamed(details: seq<Json>, k: nat, name: Option<string>) {
    && k <= |details|
    && (forall i :: 0 <= i < k ==> details[i].Record? && details[i].fields.name.Get() != name)
    && (k < |details| && details[k].Record? ==> details[k].fields.name.Get() == name)
  }

  lemma {:induction false} FindMeans(details: seq<Json>, k: nat, name: Option<string>)
    requires IsFirstNamed(details, k, name)
    ensures FindRuleset(details, name) ==
              if k == |details| then Ok(None)
              else if details[k].Record? then Ok(Some(details[k].fields))
              else Err(details[k])
    decreases k
  {
    if k > 0 {
      FindMeans(details[1..], k - 1, name);
    }
  }

  /** What the run does with what was read: nothing where the first ruleset of the proposal's name equals it;
      otherwise it writes, to that ruleset or a new one. */
  lemma PlanMeans(details: seq<Json>, k: nat, proposal: Object)
    requires IsFirstNamed(details, k, proposal.name.Get())
    ensures var step := Plan(details, proposal);
            if k == |details| then step == Create
            else if !details[k].Record? then step == Raises
            else if Equals(details[k].fields, proposal) then step == Noop(details[k].fields.id)
            else step.Update? && step.id == details[k].fields.id
  {
    hide CanonicalOf, Changes, FindRuleset;
    FindMeans(details, k, proposal.name.Get());
    if k < |details| && details[k].Record? {
      CanonicalIff(details[k].fields, proposal);
    }
  }

  /** The two forms differ in this key. */
  predicate DifferIn(key: Key, have: Canonical, wanted: Canonical) {
    match key
    case Name => have.name != wanted.name
    case Target => have.target != wanted.target
    case Enforcement => have.enforcement != wanted.enforcement
    case BypassActors => have.actors != wanted.actors
    case Conditions => have.conditions != wanted.conditions
    case Rules => have.rules != wanted.rules
  }

  lemma WhenMeans(key: Key, other: Key, differs: bool)
    ensures key in When(other, differs) <==> key == other && differs
  {
  }

  /** The keys that an update would change are those that differ. */
  lemma ChangesMean(key: Key, have: Canonical, wanted: Canonical)
    ensures key in Changes(have, wanted) <==> DifferIn(key, have, wanted)
  {
    hide When;
    WhenMeans(key, Name, have.name != wanted.name);
    WhenMeans(key, Target, have.target != wanted.target);
    WhenMeans(key, Enforcement, have.enforcement != wanted.enforcement);
    WhenMeans(key, BypassActors, have.actors != wanted.actors);
    WhenMeans(key, Conditions, have.conditions != wanted.conditions);
    WhenMeans(key, Key.Rules, have.rules != wanted.rules);
  }

  /** The six keys and nothing else. */
  function SixKeys(o: Object): Object {
    o.(id := Absent, defaultBranch := Absent, other := false)
  }

  /** Writing and reading back, request by request: a new ruleset is posted, a present one is put at its id; the
      ruleset asked for afterwards is the one that the answer names, else the one written to. The run returns 0
      where the answer to it equals the proposal, raises where it is no object, and returns 1 for all else. */
  lemma WrittenMeans(server: Server, log: seq<Request>, step: Step, proposal: Object)
    requires step.Create? || step.Update?
    ensures var run := Written(server, log, step, proposal);
            var write := if step.Create? then Post(SixKeys(proposal)) else Put(FieldText(step.id), SixKeys(proposal));
            var answer := server(log + [write]);
            if !(answer.status == 200 || answer.status == 201) || !answer.payload.Record? then
              run == Run(log + [write], Exit(1))
            else
              var named := answer.payload.fields.id;
              var id := if named != Absent then FieldText(named)
                        else if step.Update? then FieldText(step.id)
                        else "None";
              var reply := server(log + [write, Get(RulesetById(id))]);
              && run.log == log + [write, Get(RulesetById(id))]
              && (run.outcome == Exit(0) <==>
                    reply.status == 200 && reply.payload.Record? && Equals(reply.payload.fields, proposal))
              && (run.outcome == Raised <==> reply.status == 200 && !reply.payload.Record?)
              && (run.outcome == Exit(1) <==>
                    reply.status != 200 || (reply.payload.Record? && !Equals(reply.payload.fields, proposal)))
  {
    hide CanonicalOf;
    var wrote := log + [WriteOf(step, proposal)];
    var answer := server(wrote);
    if answer.payload.Record? {
      var question := Get(RulesetById(WrittenId(step, answer.payload.fields)));
      assert wrote + [question] == log + [WriteOf(step, proposal), question];
      var reply := server(wrote + [question]);
      if reply.payload.Record? {
        CanonicalIff(reply.payload.fields, proposal);
      }
    }
  }

  /** The whole run. A proposal that lacks a key is not written: the run raises. */
  lemma RunMeans(server: Server, log: seq<Request>, proposal: Object)
    ensures var run := Applied(server, log, proposal, false);
            var reading := ReadAll(server, log);
            var step := Plan(reading.details, proposal);
            if !IsReadable(server, log) || step == Raises then run == Run(reading.log, Raised)
            else if step.Noop? then run == Run(reading.log, Exit(0))
            else if !HasAllSix(proposal) then run == Run(reading.log, Raised)
            else run == Written(server, reading.log, step, proposal)
  {
    hide ReadAll, Plan, Written, IsReadable;
    ReadingMeans(server, log);
  }
}
