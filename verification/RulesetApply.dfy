/**
 The `apply` verb: read the live rulesets, plan, write at most once, read back. The server is any
 function from the requests so far to an answer. Returning 0 means that the ruleset was seen, equal to
 the proposal, in an answer of the server (`ZeroIsVerified`); 4 means that nothing was sent
 (`FourIsSilent`). What becomes of the plan when readings are refused is in `RulesetReadings`.
 */
module RulesetApply {
  import opened Wrappers
  import opened Rulesets

  /** A JSON payload. `Scalar` is a string, a number or a truth value. */
  datatype Json = Nothing | Scalar(truthy: bool) | Listing(items: seq<Json>) | Record(fields: Object)
  {
    predicate Falsy() {
      match this
      case Nothing => true
      case Scalar(truthy) => !truthy
      case Listing(items) => items == []
      case Record(fields) => fields.Empty()
    }
  }

  datatype Path =
    | Repository
    | RulesetList
    | RulesetById(id: string)
    | BranchRules(branch: string)
    | ActionsPermissions
    | WorkflowPermissions
    | VulnerabilityAlerts

  datatype Request = Get(path: Path) | Post(body: Object) | Put(id: string, body: Object)

  datatype Response = Response(status: int, payload: Json)
  {
    /** The payload of a 200, else nothing. */
    function Read(): Json {
      if status == 200 then payload else Nothing
    }
  }

  /** Any server: what it answers to the last request of a history. */
  type Server = seq<Request> -> Response

  class Transport {
    const server: Server
    var log: seq<Request>

    constructor (server: Server)
      ensures this.server == server && log == []
    {
      this.server := server;
      log := [];
    }

    method Send(request: Request) returns (reply: Response)
      modifies this`log
      ensures log == old(log) + [request]
      ensures reply == server(log)
    {
      log := log + [request];
      reply := server(log);
    }
  }

  /** A field in an f-string. */
  function Shown(field: Field<string>): string {
    if field.Value? then field.value else "None"
  }

  /** The default branch, or none where reading it raises. */
  function BranchOf(payload: Json): Option<string> {
    if payload.Falsy() then Some("main")
    else if payload.Record? then
      Some(if payload.fields.defaultBranch.Absent? then "main" else Shown(payload.fields.defaultBranch))
    else None
  }

  /** The listed entries, or none where walking them raises. */
  function EntriesOf(payload: Json): Option<seq<Json>> {
    if payload.Falsy() then Some([])
    else if payload.Listing? then Some(payload.items)
    else None
  }

  /** How far a reading went, and whether it raised there. */
  datatype Reading = Reading(log: seq<Request>, details: seq<Json>, raised: bool)

  /** The details of the listed entries, in order, those that could be read. */
  function Details(server: Server, log: seq<Request>, items: seq<Json>): Reading {
    if items == [] then Reading(log, [], false)
    else
      var n := |items| - 1;
      var before := Details(server, log, items[..n]);
      if before.raised then before
      else if !items[n].Record? then before.(raised := true)
      else
        var asked := before.log + [Get(RulesetById(Shown(items[n].fields.id)))];
        var detail := server(asked).Read();
        Reading(asked, if detail == Nothing then before.details else before.details + [detail], false)
  }

  function Rest(branch: string): seq<Request> {
    [Get(BranchRules(branch)), Get(ActionsPermissions), Get(WorkflowPermissions), Get(VulnerabilityAlerts)]
  }

  function ReadAll(server: Server, log: seq<Request>): Reading {
    var first := log + [Get(Repository)];
    match BranchOf(server(first).Read())
    case None => Reading(first, [], true)
    case Some(branch) =>
      var second := first + [Get(RulesetList)];
      match EntriesOf(server(second).Read())
      case None => Reading(second, [], true)
      case Some(items) =>
        var details := Details(server, second, items);
        if details.raised then details else details.(log := details.log + Rest(branch))
  }

  datatype Step = Create | Update(id: Field<string>, changes: seq<Key>) | Noop(id: Field<string>) | Raises

  /** The first detail of that name, `None` where there is none; an error where a detail that is no object
      is met first. */
  function FindRuleset(details: seq<Json>, name: Option<string>): Result<Option<Object>, Json> {
    if details == [] then Ok(None)
    else if !details[0].Record? then Err(details[0])
    else if details[0].fields.name.Get() == name then Ok(Some(details[0].fields))
    else FindRuleset(details[1..], name)
  }

  function Plan(details: seq<Json>, proposal: Object): Step {
    match FindRuleset(details, proposal.name.Get())
    case Err(_) => Raises
    case Ok(None) => Create
    case Ok(Some(found)) =>
      var changes := Changes(CanonicalOf(found), CanonicalOf(proposal));
      if changes == [] then Noop(found.id) else Update(found.id, changes)
  }

  datatype Outcome = Exit(code: int) | Raised

  datatype Run = Run(log: seq<Request>, outcome: Outcome)

  function WriteOf(step: Step, proposal: Object): Request
    requires step.Create? || step.Update?
  {
    if step.Create? then Post(proposal.Body()) else Put(Shown(step.id), proposal.Body())
  }

  /** The identifier read back: the answer's own, else the one written to. */
  function WrittenId(step: Step, answer: Object): string {
    if !answer.id.Absent? then Shown(answer.id) else if step.Update? then Shown(step.id) else "None"
  }

  /** Writing and reading back. */
  function Written(server: Server, log: seq<Request>, step: Step, proposal: Object): Run
    requires step.Create? || step.Update?
  {
    var wrote := log + [WriteOf(step, proposal)];
    var answer := server(wrote);
    if answer.status !in {200, 201} || !answer.payload.Record? then Run(wrote, Exit(1))
    else
      var back := wrote + [Get(RulesetById(WrittenId(step, answer.payload.fields)))];
      var reply := server(back);
      if reply.status != 200 then Run(back, Exit(1))
      else if !reply.payload.Record? then Run(back, Raised)
      else if CanonicalOf(reply.payload.fields) != CanonicalOf(proposal) then Run(back, Exit(1))
      else Run(back, Exit(0))
  }

  function Applied(server: Server, log: seq<Request>, proposal: Object, refused: bool): Run {
    if refused then Run(log, Exit(4))
    else
      var reading := ReadAll(server, log);
      if reading.raised then Run(reading.log, Raised)
      else
        var step := Plan(reading.details, proposal);
        match step
        case Raises => Run(reading.log, Raised)
        case Noop(_) => Run(reading.log, Exit(0))
        case _ => if !proposal.Complete() then Run(reading.log, Raised)
                  else Written(server, reading.log, step, proposal)
  }

  /** The loop over the listed entries. */
  method FetchDetails(t: Transport, items: seq<Json>) returns (details: seq<Json>, raised: bool)
    modifies t`log
    ensures Reading(t.log, details, raised) == Details(t.server, old(t.log), items)
  {
    details, raised := [], false;
    var i := 0;
    while i < |items|
      invariant 0 <= i <= |items|
      invariant !raised && Reading(t.log, details, raised) == Details(t.server, old(t.log), items[..i])
    {
      assert items[..i + 1][..i] == items[..i];
      if !items[i].Record? {
        raised := true;
        RaisedStays(t.server, old(t.log), items, i + 1);
        return;
      }
      var reply := t.Send(Get(RulesetById(Shown(items[i].fields.id))));
      if reply.Read() != Nothing {
        details := details + [reply.payload];
      }
      i := i + 1;
    }
    assert items[..|items|] == items;
  }

  // Nothing is asked after the reading raised.
  lemma {:induction false} RaisedStays(server: Server, log: seq<Request>, items: seq<Json>, i: nat)
    requires i <= |items| && Details(server, log, items[..i]).raised
    ensures Details(server, log, items) == Details(server, log, items[..i])
    decreases |items|
  {
    if i == |items| {
      assert items[..i] == items;
    } else {
      var before := items[..|items| - 1];
      assert before[..i] == items[..i];
      RaisedStays(server, log, before, i);
    }
  }

  method ReadLive(t: Transport) returns (details: seq<Json>, raised: bool)
    modifies t`log
    ensures Reading(t.log, details, raised) == ReadAll(t.server, old(t.log))
  {
    details, raised := [], true;
    var repository := t.Send(Get(Repository));
    var branch := BranchOf(repository.Read());
    if branch.None? {
      return;
    }
    var listed := t.Send(Get(RulesetList));
    var items := EntriesOf(listed.Read());
    if items.None? {
      return;
    }
    details, raised := FetchDetails(t, items.value);
    if raised {
      return;
    }
    ghost var before := t.log;
    var _ := t.Send(Get(BranchRules(branch.value)));
    var _ := t.Send(Get(ActionsPermissions));
    var _ := t.Send(Get(WorkflowPermissions));
    var _ := t.Send(Get(VulnerabilityAlerts));
    assert t.log == before + Rest(branch.value);
  }

  /** Create or update one ruleset to match the proposal, then read it back. `standing` holds the sites that
      still carry the ruling the proposal would reverse. */
  method Apply(t: Transport, proposal: Object, requiresReversal: bool, standing: set<string>)
    returns (outcome: Outcome)
    modifies t`log
    ensures Run(t.log, outcome) == Applied(t.server, old(t.log), proposal, requiresReversal && standing != {})
  {
    if requiresReversal && standing != {} {
      return Exit(4);
    }
    var details, raised := ReadLive(t);
    if raised {
      return Raised;
    }
    var step := Plan(details, proposal);
    if step.Raises? {
      return Raised;
    }
    if step.Noop? {
      return Exit(0);
    }
    if !proposal.Complete() {
      return Raised;
    }
    var answer := t.Send(WriteOf(step, proposal));
    if answer.status !in {200, 201} || !answer.payload.Record? {
      return Exit(1);
    }
    var reply := t.Send(Get(RulesetById(WrittenId(step, answer.payload.fields))));
    if reply.status != 200 {
      return Exit(1);
    }
    if !reply.payload.Record? {
      return Raised;
    }
    return Exit(if CanonicalOf(reply.payload.fields) != CanonicalOf(proposal) then 1 else 0);
  }

  predicate OnlyGets(requests: seq<Request>) {
    forall k :: 0 <= k < |requests| ==> requests[k].Get?
  }

  /** The server answered a question about one ruleset, asked at or after `from`, with this payload. */
  predicate Answered(server: Server, log: seq<Request>, from: nat, payload: Json) {
    exists k :: from <= k < |log| && log[k].Get? && log[k].path.RulesetById?
                && server(log[..k + 1]) == Response(200, payload)
  }

  lemma AnsweredLonger(server: Server, log: seq<Request>, more: seq<Request>, from: nat, payload: Json)
    requires Answered(server, log, from, payload)
    ensures Answered(server, log + more, from, payload)
  {
    var k :| from <= k < |log| && log[k].Get? && log[k].path.RulesetById?
             && server(log[..k + 1]) == Response(200, payload);
    assert (log + more)[..k + 1] == log[..k + 1];
  }

  /** Every detail is an answer of the server, and nothing was written for it. */
  lemma {:induction false} DetailsAreAnswers(server: Server, log: seq<Request>, items: seq<Json>)
    returns (gets: seq<Request>)
    ensures Details(server, log, items).log == log + gets && OnlyGets(gets)
    ensures forall j :: j in Details(server, log, items).details ==>
              Answered(server, log + gets, |log|, j)
    decreases |items|
  {
    gets := [];
    if items == [] {
      assert log + gets == log;
    } else {
      var n := |items| - 1;
      var before := Details(server, log, items[..n]);
      gets := DetailsAreAnswers(server, log, items[..n]);
      if !before.raised && items[n].Record? {
        var request := Get(RulesetById(Shown(items[n].fields.id)));
        forall j | j in before.details
          ensures Answered(server, before.log + [request], |log|, j)
        {
          AnsweredLonger(server, before.log, [request], |log|, j);
        }
        LastAnswered(server, before.log, request, |log|);
        assert before.log + [request] == log + (gets + [request]);
        gets := gets + [request];
      }
    }
  }

  lemma LastAnswered(server: Server, log: seq<Request>, request: Request, from: nat)
    requires request.Get? && request.path.RulesetById? && from <= |log|
    ensures server(log + [request]).status == 200 ==>
              Answered(server, log + [request], from, server(log + [request]).payload)
  {
    var longer := log + [request];
    assert longer[..|log| + 1] == longer && longer[|log|] == request;
  }

  lemma ReadAllIsGets(server: Server, log: seq<Request>) returns (gets: seq<Request>)
    ensures ReadAll(server, log).log == log + gets && OnlyGets(gets)
    ensures forall j :: j in ReadAll(server, log).details ==> Answered(server, log + gets, |log|, j)
  {
    var first := log + [Get(Repository)];
    var branch := BranchOf(server(first).Read());
    gets := [Get(Repository)];
    if branch.Some? {
      var second := first + [Get(RulesetList)];
      var items := EntriesOf(server(second).Read());
      gets := gets + [Get(RulesetList)];
      assert second == log + gets;
      if items.Some? {
        var inner := DetailsAreAnswers(server, second, items.value);
        var details := Details(server, second, items.value);
        var more := if details.raised then [] else Rest(branch.value);
        assert details.log + more == log + (gets + inner + more);
        assert details.raised ==> details.log + more == details.log;
        forall j | j in details.details
          ensures Answered(server, details.log + more, |log|, j)
        {
          AnsweredLonger(server, details.log, more, |log| + 2, j);
        }
        gets := gets + inner + more;
      }
    }
  }

  lemma {:induction false} FoundIsDetail(details: seq<Json>, name: Option<string>)
    ensures FindRuleset(details, name).Ok? && FindRuleset(details, name).value.Some? ==>
              var found := FindRuleset(details, name).value.value;
              Record(found) in details && found.name.Get() == name
  {
    if details != [] && details[0].Record? && details[0].fields.name.Get() != name {
      FoundIsDetail(details[1..], name);
    }
  }

  /** 4 is returned exactly on the refusal, and then no request is made. */
  lemma FourIsSilent(server: Server, log: seq<Request>, proposal: Object, refused: bool)
    ensures Applied(server, log, proposal, refused).outcome == Exit(4) <==> refused
    ensures refused ==> Applied(server, log, proposal, refused).log == log
  {
  }

  /** Whatever the server answers, there is at most one write, of the proposal's own six keys, after every
      reading and followed by nothing but one reading back. */
  lemma OneWrite(server: Server, log: seq<Request>, proposal: Object, refused: bool)
    returns (gets: seq<Request>, write: Option<Request>, back: seq<Request>)
    ensures Applied(server, log, proposal, refused).log
         == log + gets + (if write.Some? then [write.value] else []) + back
    ensures OnlyGets(gets) && OnlyGets(back) && |back| <= 1
    ensures write.None? ==> back == []
    ensures write.Some? ==> !write.value.Get? && write.value.body == proposal.Body()
  {
    hide ReadAll, Plan, Written;
    gets, write, back := [], None, [];
    if !refused {
      gets := ReadAllIsGets(server, log);
      var reading := ReadAll(server, log);
      if !reading.raised {
        var step := Plan(reading.details, proposal);
        if (step.Create? || step.Update?) && proposal.Complete() {
          write := Some(WriteOf(step, proposal));
          back := WrittenLog(server, reading.log, step, proposal);
        }
      }
    }
  }

  lemma WrittenLog(server: Server, log: seq<Request>, step: Step, proposal: Object) returns (back: seq<Request>)
    requires step.Create? || step.Update?
    ensures Written(server, log, step, proposal).log == log + [WriteOf(step, proposal)] + back
    ensures OnlyGets(back) && |back| <= 1
    ensures !WriteOf(step, proposal).Get? && WriteOf(step, proposal).body == proposal.Body()
  {
    hide CanonicalOf;
    var wrote := log + [WriteOf(step, proposal)];
    back := Written(server, log, step, proposal).log[|wrote|..];
  }

  /** Returning 0 is never a guess. Either nothing was written, and the server showed a ruleset of the
      proposal's name that equals it; or there was one write, and the server's answer to the last request,
      the reading back, equals the proposal. */
  lemma ZeroIsVerified(server: Server, log: seq<Request>, proposal: Object, refused: bool)
    returns (gets: seq<Request>, write: Option<Request>, seen: Object)
    requires Applied(server, log, proposal, refused).outcome == Exit(0)
    ensures OnlyGets(gets) && CanonicalOf(seen) == CanonicalOf(proposal)
    ensures var end := Applied(server, log, proposal, refused).log;
            if write.None? then
              end == log + gets && Answered(server, end, |log|, Record(seen))
            else
              && !write.value.Get? && write.value.body == proposal.Body()
              && |end| >= 1 && end[..|end| - 1] == log + gets + [write.value]
              && end[|end| - 1].Get? && end[|end| - 1].path.RulesetById?
              && server(end) == Response(200, Record(seen))
  {
    gets := ReadAllIsGets(server, log);
    var reading := ReadAll(server, log);
    var step := Plan(reading.details, proposal);
    if step.Noop? {
      write := None;
      FoundIsDetail(reading.details, proposal.name.Get());
      seen := FindRuleset(reading.details, proposal.name.Get()).value.value;
    } else {
      write := Some(WriteOf(step, proposal));
      var end := Written(server, reading.log, step, proposal).log;
      seen := server(end).payload.fields;
      assert end[..|end| - 1] == reading.log + [write.value];
    }
  }

  /** Where the listing cannot be read, the run does not stop: it plans to create, as if there were no
      rulesets, and writes. */
  lemma UnreadableListingCreates(server: Server, log: seq<Request>, proposal: Object)
    requires proposal.Complete()
    requires BranchOf(server(log + [Get(Repository)]).Read()).Some?
    requires server(log + [Get(Repository), Get(RulesetList)]).status != 200
    ensures Post(proposal.Body()) in Applied(server, log, proposal, false).log
  {
    var first := log + [Get(Repository)];
    assert first + [Get(RulesetList)] == log + [Get(Repository), Get(RulesetList)];
    var reading := ReadAll(server, log);
    assert reading.details == [] && !reading.raised;
    var run := Written(server, reading.log, Create, proposal);
    assert run.log[|reading.log|] == Post(proposal.Body());
  }
}
