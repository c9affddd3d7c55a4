/**
 The two actions that write to the response collector. Their arguments reach
 them already resolved by the rule engine (placeholders substituted and
 converted); an absent argument is `None` and takes the action's default.
 */
module Actions {
  import opened Wrappers
  import Assoc
  import Http
  import RC = ResponseCollector

  datatype Action =
    | SetHeader(name: Option<string>, value: Option<string>)
    | Redirect(url: Option<string>, status: Option<int>)

  /** `get_type()` of each action class. */
  function TypeOf(a: Action): (t: string)
    ensures a.SetHeader? <==> t == "set_header"
    ensures a.Redirect? <==> t == "redirect"
  {
    match a
    case SetHeader(_, _) => "set_header"
    case Redirect(_, _) => "redirect"
  }

  /** The collector calls an action makes: none when its first argument is empty. */
  function Ops(a: Action): (ops: seq<RC.Op>)
    ensures |ops| <= 1
    ensures |ops| == 1 <==> if a.SetHeader? then a.name.GetOr("") != "" else a.url.GetOr("") != ""
  {
    match a
    case SetHeader(name, value) =>
      if name.GetOr("") == "" then [] else [RC.AddHeaderOp(name.value, value.GetOr(""))]
    case Redirect(url, status) =>
      if url.GetOr("") == "" then [] else [RC.SetRedirectOp(url.value, status.GetOr(RC.DefaultRedirectStatus))]
  }

  /** `execute()` of an action against the collector. */
  function Execute(c: RC.Collector, a: Action): (r: RC.Collector)
    ensures a.SetHeader? && a.name.GetOr("") == "" ==> r == c
    ensures a.SetHeader? && a.name.GetOr("") != "" ==>
      && Assoc.Get(r.headers, a.name.value) == Some(a.value.GetOr(""))
      && (forall n :: n != a.name.value ==> Assoc.Get(r.headers, n) == Assoc.Get(c.headers, n))
    ensures a.SetHeader? ==> r.redirectUrl == c.redirectUrl && r.redirectStatus == c.redirectStatus
    ensures a.Redirect? && a.url.GetOr("") == "" ==> r == c
    ensures a.Redirect? && a.url.GetOr("") != "" ==>
      RC.GetReplacement(r) == Some(Http.Redirect(a.url.value, a.status.GetOr(302)))
    ensures a.Redirect? ==> r.headers == c.headers
  {
    if |Ops(a)| == 0 then c else RC.Step(c, Ops(a)[0])
  }

  /** The actions of the matching rules, run in order. */
  function RunActions(c: RC.Collector, actions: seq<Action>): RC.Collector
    decreases |actions|
  {
    if |actions| == 0 then c else Execute(RunActions(c, actions[..|actions| - 1]), actions[|actions| - 1])
  }

  /** All collector calls made by a sequence of actions, in order. */
  function AllOps(actions: seq<Action>): seq<RC.Op>
    decreases |actions|
  {
    if |actions| == 0 then [] else AllOps(actions[..|actions| - 1]) + Ops(actions[|actions| - 1])
  }

  /** Running actions is replaying exactly the collector calls they make, in order. */
  lemma {:induction false} RunActionsIsReplay(c: RC.Collector, actions: seq<Action>)
    ensures RunActions(c, actions) == RC.Replay(c, AllOps(actions))
    decreases |actions|
  {
    if |actions| > 0 {
      var init := actions[..|actions| - 1];
      var last := actions[|actions| - 1];
      RunActionsIsReplay(c, init);
      var ops := AllOps(init) + Ops(last);
      if |Ops(last)| == 1 {
        assert ops[..|ops| - 1] == AllOps(init);
      } else {
        assert ops == AllOps(init);
      }
    }
  }

  predicate RedirectTargetNonEmpty(c: RC.Collector) {
    c.redirectUrl.Some? ==> c.redirectUrl.value != ""
  }

  /** Through the actions, an empty redirect URL is never queued. */
  lemma {:induction false} RunActionsKeepsTargetNonEmpty(c: RC.Collector, actions: seq<Action>)
    requires RedirectTargetNonEmpty(c)
    ensures RedirectTargetNonEmpty(RunActions(c, actions))
    decreases |actions|
  {
    if |actions| > 0 {
      RunActionsKeepsTargetNonEmpty(c, actions[..|actions| - 1]);
    }
  }
}
