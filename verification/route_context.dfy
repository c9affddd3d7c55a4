/**
 The `route` context: the matched route's name, parameters, controller,
 action, URI pattern and middleware, as rule conditions read them.
 */
module RouteContext {
  import opened Wrappers
  import Php

  /** What the router reports about the matched route. `uses` is a string or, for closure routes, an object. */
  datatype RouteInfo = RouteInfo(
    name: Option<string>,
    parameters: Option<seq<(Php.Key, Php.Value)>>,
    uses: Php.Value,
    uri: string,
    middleware: seq<Php.Value>)

  /** The six fields of the context; a record, so the key set is fixed. */
  datatype RouteData = RouteData(
    name: string,
    parameters: seq<(Php.Key, Php.Value)>,
    controller: string,
    action: string,
    uri: string,
    middleware: seq<Php.Value>)

  /** `get_key()`. */
  function GetKey(): (k: string)
    ensures k == "route"
  {
    "route"
  }

  function IndexOf(s: string, c: char): (i: nat)
    requires c in s
    ensures i < |s| && s[i] == c && c !in s[..i]
  {
    if s[0] == c then 0 else 1 + IndexOf(s[1..], c)
  }

  /** `explode('@', $uses, 2)` when `$uses` contains `@`: split at the first `@`. */
  function SplitAtFirst(s: string, c: char): (parts: (string, string))
    requires c in s
    ensures parts.0 + [c] + parts.1 == s
    ensures c !in parts.0
  {
    var i := IndexOf(s, c);
    assert s == s[..i] + [c] + s[i + 1..];
    (s[..i], s[i + 1..])
  }

  /** The split is the only way to write `s` as controller, `@`, action with no `@` in the controller. */
  lemma SplitAtFirstUnique(s: string, c: char, before: string, after: string)
    requires before + [c] + after == s
    requires c !in before
    ensures c in s
    ensures SplitAtFirst(s, c) == (before, after)
  {
    assert s[|before|] == c;
    var parts := SplitAtFirst(s, c);
    var i := |parts.0|;
    assert parts.0 == s[..i] == before;
    assert parts.1 == s[i + 1..] == after;
  }

  /** `emptyRoute()`. */
  function EmptyRoute(): (d: RouteData)
    ensures d.name == "" && d.controller == "" && d.action == "" && d.uri == ""
    ensures d.parameters == [] && d.middleware == []
  {
    RouteData("", [], "", "", "", [])
  }

  /**
   `build()`: the context data for the current route, or the empty structure
   when there is none. `build()` wraps this record under the key `GetKey()`;
   the model returns the record itself.
   */
  function Build(route: Option<RouteInfo>): (d: RouteData)
    ensures route.None? ==> d == EmptyRoute()
    ensures route.Some? ==> var r := route.value;
      && d.name == r.name.GetOr("")
      && d.parameters == r.parameters.GetOr([])
      && d.uri == r.uri
      && d.middleware == r.middleware
      && (r.uses.Str? && '@' in r.uses.s ==>
            d.controller + "@" + d.action == r.uses.s && '@' !in d.controller)
      && (r.uses.Str? && '@' !in r.uses.s ==> d.controller == r.uses.s && d.action == "")
      && (!r.uses.Str? ==> d.controller == "" && d.action == "")
  {
    match route
    case None => EmptyRoute()
    case Some(r) =>
      var (controller, action) :=
        if r.uses.Str? && '@' in r.uses.s then SplitAtFirst(r.uses.s, '@')
        else if r.uses.Str? then (r.uses.s, "")
        else ("", "");
      RouteData(r.name.GetOr(""), r.parameters.GetOr([]), controller, action, r.uri, r.middleware)
  }
}
