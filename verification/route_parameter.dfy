/**
 The `route_parameter` condition. With a configured `value` it defers to the
 engine's generic comparison; without one it is an existence check on the
 named route parameter.
 */
module RouteParameter {
  import opened Wrappers
  import Php

  /** `get_argument_mapping()`: builder arguments fill `name`, then `value`. */
  function GetArgumentMapping(): (m: seq<string>)
    ensures |m| == 2 && m[0] == "name" && m[1] == "value"
  {
    ["name", "value"]
  }

  /** `get_type()`. */
  function GetType(): (t: string)
    ensures t == "route_parameter"
  {
    "route_parameter"
  }

  /** The context path of a route parameter. */
  function ParameterPath(name: string): string {
    "route.parameters." + name
  }

  /**
   `get_actual_value()`: `config` is the condition's configuration array and
   `context` the loaded context, keyed by dotted path; a missing path reads as ''.
   */
  function ActualValue(config: seq<(Php.Key, Php.Value)>, context: map<string, Php.Value>): (r: string)
    ensures var name := Php.Coalesce(Php.Arr(config), "name", Php.Str(""));
      && (!name.Str? || name.s == "" ==> r == "")
      && (name.Str? && name.s != "" && ParameterPath(name.s) !in context ==> r == "")
      && (name.Str? && name.s != "" && ParameterPath(name.s) in context ==>
            var v := context[ParameterPath(name.s)];
            r == if Php.IsScalar(v) then Php.CastToString(v).value else "")
  {
    var name := Php.Coalesce(Php.Arr(config), "name", Php.Str(""));
    if !name.Str? || name.s == "" then ""
    else
      var v := if ParameterPath(name.s) in context then context[ParameterPath(name.s)] else Php.Str("");
      if Php.IsScalar(v) then Php.CastToString(v).value else ""
  }

  const ExistsOperators: set<string> := {"EXISTS", "=", "IS"}
  const NotExistsOperators: set<string> := {"NOT EXISTS", "!=", "IS NOT"}

  /**
   `matches()`: `operator` is the condition's operator and `baseMatches` the
   verdict of the engine's generic comparison, which this model does not open.
   */
  function Matches(config: seq<(Php.Key, Php.Value)>, operator: string,
                   context: map<string, Php.Value>, baseMatches: bool): (r: bool)
    ensures Php.KeyExists(Php.Arr(config), "value") ==> r == baseMatches
    ensures !Php.KeyExists(Php.Arr(config), "value") ==>
      (r <==> if operator in NotExistsOperators then ActualValue(config, context) == ""
              else ActualValue(config, context) != "")
  {
    if !Php.KeyExists(Php.Arr(config), "value") then
      var actual := ActualValue(config, context);
      if operator in ExistsOperators then actual != ""
      else if operator in NotExistsOperators then actual == ""
      else actual != ""
    else baseMatches
  }

  /** Without a `value`, a negated existence operator is exactly the opposite of `EXISTS`. */
  lemma ExistenceChecksComplementary(config: seq<(Php.Key, Php.Value)>, context: map<string, Php.Value>,
                                     positive: string, negative: string, base: bool)
    requires !Php.KeyExists(Php.Arr(config), "value")
    requires negative in NotExistsOperators && positive !in NotExistsOperators
    ensures Matches(config, negative, context, base) == !Matches(config, positive, context, base)
  {
  }
}
