/**
 The `ExecuteRules` middleware: after the downstream handler has produced the
 baseline response, the rules run, a queued redirect replaces the response,
 every queued header is written onto the surviving response, and the
 collector is cleared for the next request.
 */
module ExecuteRules {
  import opened Wrappers
  import Assoc
  import Php
  import Http
  import RC = ResponseCollector
  import Actions

  /** The value of the last queued header whose name the header bag stores under `key`. */
  function LastForKey(hs: seq<(string, string)>, key: string): Option<string>
    decreases |hs|
  {
    if |hs| == 0 then None
    else if Http.HeaderKey(hs[|hs| - 1].0) == key then Some(hs[|hs| - 1].1)
    else LastForKey(hs[..|hs| - 1], key)
  }

  /** The `foreach` that sets every queued header on the response, in queue order. */
  function ApplyHeaders(r: Http.Response, hs: seq<(string, string)>): (r': Http.Response)
    ensures r'.status == r.status
    ensures forall k :: Http.HeaderAt(r', k) == if LastForKey(hs, k).Some? then LastForKey(hs, k) else Http.HeaderAt(r, k)
    decreases |hs|
  {
    if |hs| == 0 then r
    else Http.SetHeader(ApplyHeaders(r, hs[..|hs| - 1]), hs[|hs| - 1].0, hs[|hs| - 1].1)
  }

  datatype Outcome = Outcome(response: Http.Response, collector: RC.Collector)

  /**
   `handle()`: `baseline` is what `$next($request)` returned, `actions` are the
   actions the rule engine executes for this request, and `c` is the shared
   collector as the request found it.
   */
  function Handle(baseline: Http.Response, actions: seq<Actions.Action>, c: RC.Collector): (o: Outcome)
    ensures o.collector == RC.Fresh()
    ensures var q := Actions.RunActions(c, actions);
      && (RC.HasReplacement(q) ==> o.response.status == q.redirectStatus)
      && (!RC.HasReplacement(q) ==> o.response.status == baseline.status)
      && forall k :: Http.HeaderAt(o.response, k) ==
           if LastForKey(q.headers, k).Some? then LastForKey(q.headers, k)
           else if RC.HasReplacement(q) then (if k == Http.LocationHeader then q.redirectUrl else None)
           else Http.HeaderAt(baseline, k)
  {
    var q := Actions.RunActions(c, actions);
    var working := match RC.GetReplacement(q) case Some(redirect) => redirect case None => baseline;
    Outcome(ApplyHeaders(working, RC.GetHeaders(q)), RC.Clear(q))
  }

  /** A queued header lands on the final response under its header-bag key. */
  lemma QueuedHeaderApplied(baseline: Http.Response, actions: seq<Actions.Action>, c: RC.Collector, i: nat)
    requires var q := Actions.RunActions(c, actions); i < |q.headers|
    ensures var q := Actions.RunActions(c, actions);
      Http.HeaderKey(q.headers[i].0) in Handle(baseline, actions, c).response.headers
  {
    var q := Actions.RunActions(c, actions);
    var key := Http.HeaderKey(q.headers[i].0);
    LastForKeyPresent(q.headers, i);
    assert Http.HeaderAt(Handle(baseline, actions, c).response, key).Some?;
  }

  lemma {:induction false} LastForKeyPresent(hs: seq<(string, string)>, i: nat)
    requires i < |hs|
    ensures LastForKey(hs, Http.HeaderKey(hs[i].0)).Some?
    decreases |hs|
  {
    if i < |hs| - 1 && Http.HeaderKey(hs[|hs| - 1].0) != Http.HeaderKey(hs[i].0) {
      LastForKeyPresent(hs[..|hs| - 1], i);
    }
  }

  /**
   Starting from a fresh collector, the final response is determined by the
   actions alone: the last non-empty redirect (if any) replaces the baseline,
   and the header named by a non-empty SetHeader is set on it.
   */
  lemma HandleFromFresh(baseline: Http.Response, actions: seq<Actions.Action>)
    ensures var ops := Actions.AllOps(actions);
      var o := Handle(baseline, actions, RC.Fresh());
      && (RC.LastRedirect(ops).Some? ==> o.response.status == RC.LastRedirect(ops).value.1)
      && (RC.LastRedirect(ops).None? ==> o.response.status == baseline.status)
      && forall n :: RC.LastHeader(ops, n).Some? ==> Http.HeaderKey(n) in o.response.headers
  {
    var ops := Actions.AllOps(actions);
    var q := Actions.RunActions(RC.Fresh(), actions);
    Actions.RunActionsIsReplay(RC.Fresh(), actions);
    RC.ReplayRedirect(RC.Fresh(), ops);
    forall n | RC.LastHeader(ops, n).Some?
      ensures Http.HeaderKey(n) in Handle(baseline, actions, RC.Fresh()).response.headers
    {
      RC.ReplayHeaders(RC.Fresh(), ops, n);
      var i := KeyPosition(q.headers, n);
      QueuedHeaderApplied(baseline, actions, RC.Fresh(), i);
    }
  }

  lemma KeyPosition(hs: seq<(string, string)>, n: string) returns (i: nat)
    requires Assoc.Get(hs, n).Some?
    ensures i < |hs| && hs[i].0 == n
  {
    Assoc.GetDefined(hs, n);
    var j :| 0 <= j < |hs| && Assoc.Keys(hs)[j] == n;
    i := j;
  }

  /** A sequence of requests served one after another by one long-lived process. */
  datatype Request = Request(baseline: Http.Response, actions: seq<Actions.Action>)

  function Serve(c: RC.Collector, requests: seq<Request>): (rs: seq<Http.Response>)
    ensures |rs| == |requests|
    decreases |requests|
  {
    if |requests| == 0 then []
    else
      var o := Handle(requests[0].baseline, requests[0].actions, c);
      [o.response] + Serve(o.collector, requests[1..])
  }

  /**
   Request isolation: every request after the first is answered exactly as if
   it had been the first request served with a fresh collector.
   */
  lemma {:induction false} ServeIsolates(c: RC.Collector, requests: seq<Request>, i: nat)
    requires 0 < i < |requests|
    ensures Serve(c, requests)[i] == Handle(requests[i].baseline, requests[i].actions, RC.Fresh()).response
    decreases |requests|
  {
    var o := Handle(requests[0].baseline, requests[0].actions, c);
    if i > 1 {
      ServeIsolates(o.collector, requests[1..], i - 1);
    } else {
      assert Serve(c, requests)[1] == Serve(o.collector, requests[1..])[0];
    }
  }

  /**
   The collector keys headers by the name as written, the response by its
   normalised form. With two spellings of one header, the value that
   survives is the one whose spelling was queued first last, not the most
   recent call: here `X-A: 3` is queued after `x-a: 2`, yet `x-a` ends as 2.
   */
  lemma CaseVariantsFollowQueueOrder(baseline: Http.Response)
    ensures var actions := [
        Actions.SetHeader(Some("X-A"), Some("1")),
        Actions.SetHeader(Some("x-a"), Some("2")),
        Actions.SetHeader(Some("X-A"), Some("3"))];
      Http.HeaderAt(Handle(baseline, actions, RC.Fresh()).response, "x-a") == Some("2")
  {
    var actions := [
        Actions.SetHeader(Some("X-A"), Some("1")),
        Actions.SetHeader(Some("x-a"), Some("2")),
        Actions.SetHeader(Some("X-A"), Some("3"))];
    CaseVariantsQueue(actions);
    var q := Actions.RunActions(RC.Fresh(), actions);
    var hs := [("X-A", "3"), ("x-a", "2")];
    assert Http.HeaderKey("x-a") == "x-a";
    assert hs[..1] == [("X-A", "3")];
    assert LastForKey(q.headers, "x-a") == Some("2");
  }

  /** The queue the three calls leave: the second spelling is a separate entry; the third call overwrites the first. */
  lemma CaseVariantsQueue(actions: seq<Actions.Action>)
    requires actions == [
        Actions.SetHeader(Some("X-A"), Some("1")),
        Actions.SetHeader(Some("x-a"), Some("2")),
        Actions.SetHeader(Some("X-A"), Some("3"))]
    ensures Actions.RunActions(RC.Fresh(), actions).headers == [("X-A", "3"), ("x-a", "2")]
    ensures !RC.HasReplacement(Actions.RunActions(RC.Fresh(), actions))
  {
    var c1 := Actions.Execute(RC.Fresh(), actions[0]);
    assert c1.headers == [("X-A", "1")];
    var c2 := Actions.Execute(c1, actions[1]);
    assert c2.headers == [("X-A", "1"), ("x-a", "2")];
    var c3 := Actions.Execute(c2, actions[2]);
    assert c3.headers == [("X-A", "3"), ("x-a", "2")];
    assert actions[..2][..1] == actions[..1] && actions[..3] == actions;
    assert Actions.RunActions(RC.Fresh(), actions[..1]) == c1;
    assert Actions.RunActions(RC.Fresh(), actions[..2]) == c2;
  }

  /** What the rule engine did during one request: finished, or raised after running some actions. */
  datatype EngineRun = Completed(actions: seq<Actions.Action>) | Raised(actionsBefore: seq<Actions.Action>)

  /** How `handle()` leaves: with a response, or by letting the engine's exception propagate. */
  datatype Exit = Returned(response: Http.Response) | Propagated

  datatype RunOutcome = RunOutcome(exit: Exit, collector: RC.Collector)

  /** `handle()` as written: an exception from the engine skips `clear()`. */
  function HandleRun(baseline: Http.Response, run: EngineRun, c: RC.Collector): (o: RunOutcome)
    ensures run.Completed? ==> o == RunOutcome(Returned(Handle(baseline, run.actions, c).response), RC.Fresh())
    ensures run.Raised? ==> o.exit.Propagated? && o.collector == Actions.RunActions(c, run.actionsBefore)
  {
    match run
    case Completed(actions) =>
      var o := Handle(baseline, actions, c);
      RunOutcome(Returned(o.response), o.collector)
    case Raised(before) =>
      RunOutcome(Propagated, Actions.RunActions(c, before))
  }

  /** `handle()` with the clear in a `finally` block, as the reset comment intends. */
  function HandleRunGuarded(baseline: Http.Response, run: EngineRun, c: RC.Collector): (o: RunOutcome)
    ensures o.collector == RC.Fresh()
    ensures run.Completed? ==> o.exit == Returned(Handle(baseline, run.actions, c).response)
    ensures run.Raised? ==> o.exit.Propagated?
  {
    match run
    case Completed(actions) => RunOutcome(Returned(Handle(baseline, actions, c).response), RC.Fresh())
    case Raised(before) => RunOutcome(Propagated, RC.Clear(Actions.RunActions(c, before)))
  }

  datatype RunRequest = RunRequest(baseline: Http.Response, run: EngineRun)

  function ServeRuns(c: RC.Collector, requests: seq<RunRequest>): (xs: seq<Exit>)
    ensures |xs| == |requests|
    decreases |requests|
  {
    if |requests| == 0 then []
    else
      var o := HandleRun(requests[0].baseline, requests[0].run, c);
      [o.exit] + ServeRuns(o.collector, requests[1..])
  }

  function ServeRunsGuarded(c: RC.Collector, requests: seq<RunRequest>): (xs: seq<Exit>)
    ensures |xs| == |requests|
    decreases |requests|
  {
    if |requests| == 0 then []
    else
      var o := HandleRunGuarded(requests[0].baseline, requests[0].run, c);
      [o.exit] + ServeRunsGuarded(o.collector, requests[1..])
  }

  /**
   As written, a header queued by a request whose rule execution raised is
   sent with the next request's response: here the second request runs no
   action at all, yet its response carries `x-debug: 1`.
   */
  lemma LeakAfterRaise()
    ensures var requests := [
        RunRequest(Http.Response(200, map[]), Raised([Actions.SetHeader(Some("x-debug"), Some("1"))])),
        RunRequest(Http.Response(200, map[]), Completed([]))];
      ServeRuns(RC.Fresh(), requests)[1] == Returned(Http.Response(200, map["x-debug" := "1"]))
  {
    var a := Actions.SetHeader(Some("x-debug"), Some("1"));
    var requests := [
        RunRequest(Http.Response(200, map[]), Raised([a])),
        RunRequest(Http.Response(200, map[]), Completed([]))];
    var base := Http.Response(200, map[]);
    var dirty := Actions.RunActions(RC.Fresh(), [a]);
    var first := HandleRun(base, Raised([a]), RC.Fresh());
    assert first.collector == dirty;
    var rest := requests[1..];
    assert rest == [RunRequest(base, Completed([]))];
    assert ServeRuns(RC.Fresh(), requests)[1] == ServeRuns(dirty, rest)[0];
    assert ServeRuns(dirty, rest)[0] == HandleRun(base, Completed([]), dirty).exit;
    DebugQueued();
    LeakedResponse(dirty);
  }

  /** Running the one `x-debug` action on a fresh collector queues exactly that header and no redirect. */
  lemma DebugQueued()
    ensures var dirty := Actions.RunActions(RC.Fresh(), [Actions.SetHeader(Some("x-debug"), Some("1"))]);
      dirty.headers == [("x-debug", "1")] && dirty.redirectUrl.None?
  {
    var a := Actions.SetHeader(Some("x-debug"), Some("1"));
    assert [a][..0] == [];
    assert Actions.RunActions(RC.Fresh(), []) == RC.Fresh();
    assert Actions.RunActions(RC.Fresh(), [a]) == Actions.Execute(RC.Fresh(), a);
  }

  /** A collector still holding one header answers an action-free request with exactly that header. */
  lemma LeakedResponse(dirty: RC.Collector)
    requires dirty.headers == [("x-debug", "1")] && dirty.redirectUrl.None?
    ensures Handle(Http.Response(200, map[]), [], dirty).response == Http.Response(200, map["x-debug" := "1"])
  {
    var hs := dirty.headers;
    var q := Actions.RunActions(dirty, []);
    assert q == dirty;
    assert hs[..0] == [];
    assert ApplyHeaders(Http.Response(200, map[]), []) == Http.Response(200, map[]);
    var applied := ApplyHeaders(Http.Response(200, map[]), hs);
    assert applied == Http.SetHeader(Http.Response(200, map[]), "x-debug", "1");
    assert applied == Http.Response(200, map[Http.HeaderKey("x-debug") := "1"]);
    DebugKey();
  }

  /** `x-debug` is already in header-bag form. */
  lemma DebugKey()
    ensures Http.HeaderKey("x-debug") == "x-debug"
  {
    var name := "x-debug";
    var k := Http.HeaderKey(name);
    forall i | 0 <= i < |name| ensures k[i] == name[i] {
      assert name[i] != '_' && !('A' <= name[i] <= 'Z');
    }
  }

  /** With the clear guarded, every request after the first is isolated, even after an exception. */
  lemma {:induction false} ServeRunsGuardedIsolates(c: RC.Collector, requests: seq<RunRequest>, i: nat)
    requires 0 < i < |requests|
    ensures ServeRunsGuarded(c, requests)[i] == HandleRunGuarded(requests[i].baseline, requests[i].run, RC.Fresh()).exit
    decreases |requests|
  {
    var o := HandleRunGuarded(requests[0].baseline, requests[0].run, c);
    if i > 1 {
      ServeRunsGuardedIsolates(o.collector, requests[1..], i - 1);
    } else {
      assert ServeRunsGuarded(c, requests)[1] == ServeRunsGuarded(o.collector, requests[1..])[0];
    }
  }
}
