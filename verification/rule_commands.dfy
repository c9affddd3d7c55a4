/**
 The rule listings: `rules:list` over the loaded packages (flattening WP's
 hook-grouped rules), its unregistered variant over the engine's flat rule list,
 and `rules:show` for a single rule.
 */
module RuleCommands {
  import opened Wrappers
  import Assoc
  import Php
  import Registry
  import Console

  // ---- flattening ----

  /** An entry the WP flattening keeps: an array with a set `id`. */
  predicate IsRule(v: Php.Value) {
    v.Arr? && Php.Isset(v, "id")
  }

  function RulesIn(vs: seq<Php.Value>): (r: seq<Php.Value>)
    ensures forall v :: v in r <==> v in vs && IsRule(v)
    ensures |r| <= |vs|
  {
    if |vs| == 0 then []
    else (if IsRule(vs[0]) then [vs[0]] else []) + RulesIn(vs[1..])
  }

  /** Whether a top-level WP entry is a hook group (a string key holding an array). */
  predicate IsHookGroup(e: (Php.Key, Php.Value)) {
    e.0.StrKey? && e.1.Arr?
  }

  /** The filter keeps the rules of a concatenation in input order: those of `a`, then those of `b`. */
  lemma {:induction false} RulesInAppend(a: seq<Php.Value>, b: seq<Php.Value>)
    ensures RulesIn(a + b) == RulesIn(a) + RulesIn(b)
    ensures RulesIn([]) == []
    decreases |a|
  {
    if |a| == 0 {
      assert a + b == b;
    } else {
      assert (a + b)[0] == a[0];
      assert (a + b)[1..] == a[1..] + b;
      RulesInAppend(a[1..], b);
    }
  }

  /** A single value is kept exactly when it is a rule. */
  lemma RulesInSingle(v: Php.Value)
    ensures RulesIn([v]) == if IsRule(v) then [v] else []
  {
    assert [v][1..] == [];
  }

  /** What one top-level WP entry contributes. */
  function Contribution(e: (Php.Key, Php.Value)): seq<Php.Value> {
    if IsHookGroup(e) then RulesIn(Assoc.Values(e.1.entries))
    else if IsRule(e.1) then [e.1]
    else []
  }

  function FlattenWp(rules: seq<(Php.Key, Php.Value)>): seq<Php.Value>
    decreases |rules|
  {
    if |rules| == 0 then [] else Contribution(rules[0]) + FlattenWp(rules[1..])
  }

  /** The flattening of a concatenation is the flattening of its parts, in order. */
  lemma {:induction false} FlattenWpAppend(a: seq<(Php.Key, Php.Value)>, b: seq<(Php.Key, Php.Value)>)
    ensures FlattenWp(a + b) == FlattenWp(a) + FlattenWp(b)
    decreases |a|
  {
    if |a| == 0 {
      assert a + b == b;
    } else {
      assert (a + b)[0] == a[0];
      assert (a + b)[1..] == a[1..] + b;
      FlattenWpAppend(a[1..], b);
    }
  }

  /** Appending one entry appends its contribution: the loop's step. */
  lemma FlattenWpSnoc(a: seq<(Php.Key, Php.Value)>, e: (Php.Key, Php.Value))
    ensures FlattenWp(a + [e]) == FlattenWp(a) + Contribution(e)
  {
    FlattenWpAppend(a, [e]);
    FlattenWpSingle(e);
  }

  /** A single top-level entry flattens to its contribution. */
  lemma FlattenWpSingle(e: (Php.Key, Php.Value))
    ensures FlattenWp([e]) == Contribution(e)
  {
    assert [e][1..] == [];
    assert Contribution(e) + [] == Contribution(e);
  }

  /** `flattenRules()`, shared verbatim by `rules:list` and `rules:show`. */
  function FlattenRules(rules: seq<(Php.Key, Php.Value)>, packageName: string): (r: seq<Php.Value>)
    ensures packageName != "WP" ==> r == Assoc.Values(rules)
  {
    if packageName == "WP" then FlattenWp(rules) else Assoc.Values(rules)
  }

  /** Where a rule may come from in WP's structure: inside a hook group, or as a top-level entry. */
  predicate ComesFrom(e: (Php.Key, Php.Value), v: Php.Value) {
    if IsHookGroup(e) then v in Assoc.Values(e.1.entries) else e.1 == v
  }

  /** The WP flattening keeps exactly the rules found in hook groups or at the top level. */
  lemma {:induction false} FlattenWpMembers(rules: seq<(Php.Key, Php.Value)>, v: Php.Value)
    ensures v in FlattenWp(rules) <==> IsRule(v) && exists i :: 0 <= i < |rules| && ComesFrom(rules[i], v)
    decreases |rules|
  {
    if |rules| > 0 {
      var init := rules[..|rules| - 1];
      FlattenWpMembers(init, v);
      ContributionMembers(rules[|rules| - 1], v);
      assert rules == init + [rules[|rules| - 1]];
      FlattenWpSnoc(init, rules[|rules| - 1]);
      if exists i :: 0 <= i < |init| && ComesFrom(init[i], v) {
        var i :| 0 <= i < |init| && ComesFrom(init[i], v);
        assert rules[i] == init[i];
      }
      if exists i :: 0 <= i < |rules| && ComesFrom(rules[i], v) {
        var i :| 0 <= i < |rules| && ComesFrom(rules[i], v);
        if i < |init| {
          assert init[i] == rules[i];
        }
      }
    }
  }

  /** One top-level entry contributes exactly the rules that come from it. */
  lemma ContributionMembers(e: (Php.Key, Php.Value), v: Php.Value)
    ensures v in Contribution(e) <==> IsRule(v) && ComesFrom(e, v)
  {
  }

  // ---- rows ----

  datatype RuleRow = RuleRow(
    id: Php.Value,
    package: Php.Value,
    order: Php.Value,
    enabled: string,
    matchType: Php.Value,
    conditions: nat,
    actions: nat)

  function RuleId(rule: Php.Value): Php.Value {
    Php.Coalesce(rule, "id", Php.Str("unnamed"))
  }

  function Metadata(rule: Php.Value): Php.Value {
    Php.Coalesce(rule, "_metadata", Php.Arr([]))
  }

  /** `isset($rule['enabled']) && $rule['enabled'] === false ? 'No' : 'Yes'`. */
  function EnabledCell(rule: Php.Value): (s: string)
    ensures s == "No" <==> Php.Field(rule, "enabled") == Some(Php.Bool(false))
    ensures s == "No" || s == "Yes"
  {
    if Php.Isset(rule, "enabled") && Php.Field(rule, "enabled").value == Php.Bool(false) then "No" else "Yes"
  }

  /** A rule's table row; `count()` raises for conditions or actions that are not arrays. */
  function MakeRow(rule: Php.Value, package: Php.Value): (r: Result<RuleRow, Php.Error>)
    ensures r.Success? <==> Php.Coalesce(rule, "conditions", Php.Arr([])).Arr? && Php.Coalesce(rule, "actions", Php.Arr([])).Arr?
    ensures r.Success? ==>
      && r.value.id == RuleId(rule)
      && r.value.package == package
      && r.value.order == (if Php.Isset(Metadata(rule), "order") then Php.Field(Metadata(rule), "order").value else Php.Int(10))
      && r.value.matchType == (if Php.Isset(rule, "match_type") then Php.Field(rule, "match_type").value else Php.Str("all"))
      && r.value.conditions == (if Php.Isset(rule, "conditions") then |Php.Field(rule, "conditions").value.entries| else 0)
      && r.value.actions == (if Php.Isset(rule, "actions") then |Php.Field(rule, "actions").value.entries| else 0)
  {
    var conditions :- Php.Count(Php.Coalesce(rule, "conditions", Php.Arr([])));
    var actions :- Php.Count(Php.Coalesce(rule, "actions", Php.Arr([])));
    Success(RuleRow(
      RuleId(rule),
      package,
      Php.Coalesce(Metadata(rule), "order", Php.Int(10)),
      EnabledCell(rule),
      Php.Coalesce(rule, "match_type", Php.Str("all")),
      conditions,
      actions))
  }

  /** `$idFilter && ! str_contains($ruleId, $idFilter)`, negated: whether the row survives the id filter. */
  function IdPasses(id: Php.Value, idFilter: Option<string>): (r: Result<bool, Php.Error>)
    ensures !Php.TruthyOption(idFilter) ==> r == Success(true)
    ensures Php.TruthyOption(idFilter) ==>
      (r.Failure? <==> Php.CoerceStringArg(id).Failure?)
      && (r.Success? ==> (r.value <==> Php.Contains(Php.CoerceStringArg(id).value, idFilter.value)))
  {
    if !Php.TruthyOption(idFilter) then Success(true)
    else
      var s :- Php.CoerceStringArg(id);
      Success(Php.Contains(s, idFilter.value))
  }

  /** `$packageFilter && $packageName !== $packageFilter`, negated. */
  predicate PackagePasses(package: Php.Value, packageFilter: Option<string>) {
    !Php.TruthyOption(packageFilter) || package == Php.Str(packageFilter.value)
  }

  /** One rule's contribution to a listing: nothing if a filter drops it, else its row. */
  function RowOf(rule: Php.Value, packageOf: Php.Value -> Php.Value,
                 packageFilter: Option<string>, idFilter: Option<string>): (r: Result<seq<RuleRow>, Php.Error>)
    ensures r.Success? ==> |r.value| <= 1
    ensures r.Success? && |r.value| == 1 ==>
      && PackagePasses(packageOf(rule), packageFilter)
      && IdPasses(RuleId(rule), idFilter) == Success(true)
      && MakeRow(rule, packageOf(rule)) == Success(r.value[0])
    ensures packageFilter.None? && Displayable(rule, idFilter) ==>
      r.Success? && (|r.value| == 1 <==> IdPasses(RuleId(rule), idFilter) == Success(true))
    ensures r.Success? ==>
      (|r.value| == 1 <==> PackagePasses(packageOf(rule), packageFilter) && IdPasses(RuleId(rule), idFilter) == Success(true))
    ensures r.Failure? <==>
      && PackagePasses(packageOf(rule), packageFilter)
      && (|| IdPasses(RuleId(rule), idFilter).Failure?
          || (IdPasses(RuleId(rule), idFilter) == Success(true) && MakeRow(rule, packageOf(rule)).Failure?))
  {
    if !PackagePasses(packageOf(rule), packageFilter) then Success([])
    else
      var keep :- IdPasses(RuleId(rule), idFilter);
      if !keep then Success([])
      else
        var row :- MakeRow(rule, packageOf(rule));
        Success([row])
  }

  /**
   The row loop shared by both listings: per rule, the package filter, then
   the id filter, then the row. `packageOf` gives a rule's package.
   */
  function Rows(rules: seq<Php.Value>, packageOf: Php.Value -> Php.Value,
                packageFilter: Option<string>, idFilter: Option<string>): Result<seq<RuleRow>, Php.Error>
    decreases |rules|
  {
    if |rules| == 0 then Success([])
    else Join(RowOf(rules[0], packageOf, packageFilter, idFilter), Rows(rules[1..], packageOf, packageFilter, idFilter))
  }

  /** Two consecutive parts of a listing: the first failure, else the first part's rows followed by the second's. */
  function Join(first: Result<seq<RuleRow>, Php.Error>, rest: Result<seq<RuleRow>, Php.Error>): Result<seq<RuleRow>, Php.Error> {
    if first.Failure? then first else if rest.Failure? then rest else Success(first.value + rest.value)
  }

  /** Joining is associative, with the empty listing as its unit. */
  lemma JoinAssociative(x: Result<seq<RuleRow>, Php.Error>, y: Result<seq<RuleRow>, Php.Error>, z: Result<seq<RuleRow>, Php.Error>)
    ensures Join(x, Join(y, z)) == Join(Join(x, y), z)
    ensures Join(Success([]), y) == y
  {
    if x.Success? && y.Success? && z.Success? {
      assert x.value + (y.value + z.value) == (x.value + y.value) + z.value;
    }
    if y.Success? {
      assert [] + y.value == y.value;
    }
  }

  /**
   The listing of a concatenation: the first failure, or the rows of `a`
   followed by the rows of `b`. With `RowsSingle`, the rows are an
   order-preserving filter-map of the rules.
   */
  lemma {:induction false} RowsAppend(a: seq<Php.Value>, b: seq<Php.Value>, packageOf: Php.Value -> Php.Value,
                                      packageFilter: Option<string>, idFilter: Option<string>)
    ensures Rows(a + b, packageOf, packageFilter, idFilter) == Join(Rows(a, packageOf, packageFilter, idFilter), Rows(b, packageOf, packageFilter, idFilter))
    decreases |a|
  {
    if |a| == 0 {
      assert a + b == b;
      JoinAssociative(Success([]), Rows(b, packageOf, packageFilter, idFilter), Success([]));
    } else {
      assert (a + b)[0] == a[0];
      assert (a + b)[1..] == a[1..] + b;
      RowsAppend(a[1..], b, packageOf, packageFilter, idFilter);
      JoinAssociative(RowOf(a[0], packageOf, packageFilter, idFilter), Rows(a[1..], packageOf, packageFilter, idFilter), Rows(b, packageOf, packageFilter, idFilter));
    }
  }

  /** A listing succeeds exactly when no rule's row raises. */
  lemma {:induction false} RowsSucceeds(rules: seq<Php.Value>, packageOf: Php.Value -> Php.Value,
                                        packageFilter: Option<string>, idFilter: Option<string>)
    ensures Rows(rules, packageOf, packageFilter, idFilter).Success? <==>
      forall i :: 0 <= i < |rules| ==> RowOf(rules[i], packageOf, packageFilter, idFilter).Success?
    decreases |rules|
  {
    if |rules| > 0 {
      var tail := rules[1..];
      RowsSucceeds(tail, packageOf, packageFilter, idFilter);
      assert Rows(rules, packageOf, packageFilter, idFilter).Success? <==>
        RowOf(rules[0], packageOf, packageFilter, idFilter).Success? && Rows(tail, packageOf, packageFilter, idFilter).Success?;
      if forall i :: 0 <= i < |rules| ==> RowOf(rules[i], packageOf, packageFilter, idFilter).Success? {
        forall i | 0 <= i < |tail| ensures RowOf(tail[i], packageOf, packageFilter, idFilter).Success? {
          assert tail[i] == rules[i + 1];
        }
      }
      if Rows(rules, packageOf, packageFilter, idFilter).Success? {
        forall i | 1 <= i < |rules| ensures RowOf(rules[i], packageOf, packageFilter, idFilter).Success? {
          assert rules[i] == tail[i - 1];
        }
      }
    }
  }

  /** The listing of one rule is that rule's contribution. */
  lemma RowsSingle(rule: Php.Value, packageOf: Php.Value -> Php.Value, packageFilter: Option<string>, idFilter: Option<string>)
    ensures Rows([rule], packageOf, packageFilter, idFilter) == RowOf(rule, packageOf, packageFilter, idFilter)
  {
    assert [rule][1..] == [];
    var first := RowOf(rule, packageOf, packageFilter, idFilter);
    if first.Success? {
      assert first.value + [] == first.value;
    }
  }

  /** Completeness: in a successful listing, every rule passing both filters has its row. */
  lemma {:induction false} RowsComplete(rules: seq<Php.Value>, packageOf: Php.Value -> Php.Value,
                                        packageFilter: Option<string>, idFilter: Option<string>, i: nat)
    requires i < |rules| && Rows(rules, packageOf, packageFilter, idFilter).Success?
    requires PackagePasses(packageOf(rules[i]), packageFilter) && IdPasses(RuleId(rules[i]), idFilter) == Success(true)
    ensures MakeRow(rules[i], packageOf(rules[i])).Success?
    ensures MakeRow(rules[i], packageOf(rules[i])).value in Rows(rules, packageOf, packageFilter, idFilter).value
    decreases |rules|
  {
    if i > 0 {
      assert rules[1..][i - 1] == rules[i];
      RowsComplete(rules[1..], packageOf, packageFilter, idFilter, i - 1);
    }
  }

  /** The rows of a successful listing come from rules passing both filters, in input order. */
  lemma {:induction false} RowsSound(rules: seq<Php.Value>, packageOf: Php.Value -> Php.Value,
                                     packageFilter: Option<string>, idFilter: Option<string>)
    requires Rows(rules, packageOf, packageFilter, idFilter).Success?
    ensures var rows := Rows(rules, packageOf, packageFilter, idFilter).value;
      forall row :: row in rows ==>
        && PackagePasses(row.package, packageFilter)
        && IdPasses(row.id, idFilter) == Success(true)
        && exists rule :: rule in rules && MakeRow(rule, packageOf(rule)) == Success(row)
    decreases |rules|
  {
    if |rules| > 0 {
      RowsSound(rules[1..], packageOf, packageFilter, idFilter);
    }
  }

  /** A rule the source can always display: countable conditions and actions, and an id the filter can read. */
  predicate Displayable(rule: Php.Value, idFilter: Option<string>) {
    && Php.Coalesce(rule, "conditions", Php.Arr([])).Arr?
    && Php.Coalesce(rule, "actions", Php.Arr([])).Arr?
    && (Php.TruthyOption(idFilter) ==> Php.CoerceStringArg(RuleId(rule)).Success?)
  }

  /** With no package filter and displayable rules, the listing succeeds with one row per rule whose id passes the id filter. */
  lemma {:induction false} RowsCount(rules: seq<Php.Value>, packageOf: Php.Value -> Php.Value, idFilter: Option<string>)
    requires forall rule :: rule in rules ==> Displayable(rule, idFilter)
    ensures Rows(rules, packageOf, None, idFilter).Success?
    ensures |Rows(rules, packageOf, None, idFilter).value| == |KeptIds(rules, idFilter)|
    decreases |rules|
  {
    if |rules| > 0 {
      assert rules[0] in rules;
      assert forall rule :: rule in rules[1..] ==> rule in rules;
      RowsCount(rules[1..], packageOf, idFilter);
    }
  }

  /** The rules whose id survives the id filter. */
  function KeptIds(rules: seq<Php.Value>, idFilter: Option<string>): seq<Php.Value>
    decreases |rules|
  {
    if |rules| == 0 then []
    else
      var rest := KeptIds(rules[1..], idFilter);
      if IdPasses(RuleId(rules[0]), idFilter) == Success(true) then [rules[0]] + rest else rest
  }

  function Listed(rows: Result<seq<RuleRow>, Php.Error>): Result<Console.Report<RuleRow>, Php.Error> {
    match rows
    case Failure(e) => Failure(e)
    case Success(rs) => Success(Console.Report(Console.SUCCESS, rs, if |rs| == 0 then Console.Info("No rules found.") else Console.Quiet))
  }

  // ---- rules:list ----

  function PackageRules(p: Registry.PackageInfo, packageFilter: Option<string>): seq<Php.Value> {
    if PackagePasses(Php.Str(p.name), packageFilter) then FlattenRules(p.rules, p.name) else []
  }

  /** `rules:list`'s rows for one package: its rules, when the package passes the filter, each tagged with the package's name. */
  function RowsOfPackage(p: Registry.PackageInfo, packageFilter: Option<string>, idFilter: Option<string>): Result<seq<RuleRow>, Php.Error> {
    Rows(PackageRules(p, packageFilter), NameTag(p), None, idFilter)
  }

  /** Every rule of a package is shown under the package's name. */
  function NameTag(p: Registry.PackageInfo): Php.Value -> Php.Value {
    _ => Php.Str(p.name)
  }

  /** The rows of `rules:list`, package by package in load order. */
  function RulesListRows(loaded: seq<Registry.PackageInfo>, packageFilter: Option<string>, idFilter: Option<string>): (r: Result<seq<RuleRow>, Php.Error>)
    ensures |loaded| == 0 ==> r == Success([])
    decreases |loaded|
  {
    if |loaded| == 0 then Success([])
    else Join(RowsOfPackage(loaded[0], packageFilter, idFilter), RulesListRows(loaded[1..], packageFilter, idFilter))
  }

  /**
   The rows for a concatenation of package lists: the first failure, or the
   rows of `a` followed by those of `b`. With `RulesListRowsSingle`, the
   listing is the packages' rows concatenated in load order.
   */
  lemma {:induction false} RulesListRowsAppend(a: seq<Registry.PackageInfo>, b: seq<Registry.PackageInfo>,
                                               packageFilter: Option<string>, idFilter: Option<string>)
    ensures RulesListRows(a + b, packageFilter, idFilter) == Join(RulesListRows(a, packageFilter, idFilter), RulesListRows(b, packageFilter, idFilter))
    decreases |a|
  {
    if |a| == 0 {
      assert a + b == b;
      JoinAssociative(Success([]), RulesListRows(b, packageFilter, idFilter), Success([]));
    } else {
      assert (a + b)[0] == a[0];
      assert (a + b)[1..] == a[1..] + b;
      RulesListRowsAppend(a[1..], b, packageFilter, idFilter);
      JoinAssociative(RowsOfPackage(a[0], packageFilter, idFilter), RulesListRows(a[1..], packageFilter, idFilter), RulesListRows(b, packageFilter, idFilter));
    }
  }

  /** `rules:list` succeeds exactly when every loaded package's rows do. */
  lemma {:induction false} RulesListRowsSucceeds(loaded: seq<Registry.PackageInfo>, packageFilter: Option<string>, idFilter: Option<string>)
    ensures RulesListRows(loaded, packageFilter, idFilter).Success? <==>
      forall i :: 0 <= i < |loaded| ==> RowsOfPackage(loaded[i], packageFilter, idFilter).Success?
    decreases |loaded|
  {
    if |loaded| > 0 {
      RulesListRowsSucceeds(loaded[1..], packageFilter, idFilter);
      assert RulesListRows(loaded, packageFilter, idFilter).Success? <==>
        RowsOfPackage(loaded[0], packageFilter, idFilter).Success? && RulesListRows(loaded[1..], packageFilter, idFilter).Success?;
      assert forall i :: 1 <= i < |loaded| ==> loaded[i] == loaded[1..][i - 1];
    }
  }

  /** One package's listing is its own rows. */
  lemma RulesListRowsSingle(p: Registry.PackageInfo, packageFilter: Option<string>, idFilter: Option<string>)
    ensures RulesListRows([p], packageFilter, idFilter) == RowsOfPackage(p, packageFilter, idFilter)
  {
    assert [p][1..] == [];
    var first := RowsOfPackage(p, packageFilter, idFilter);
    if first.Success? {
      assert first.value + [] == first.value;
    }
  }

  /** Completeness for one package: each of its rules whose id passes the id filter has its row. */
  lemma RowsOfPackageComplete(p: Registry.PackageInfo, packageFilter: Option<string>, idFilter: Option<string>, rule: Php.Value)
    requires RowsOfPackage(p, packageFilter, idFilter).Success?
    requires PackagePasses(Php.Str(p.name), packageFilter)
    requires rule in FlattenRules(p.rules, p.name)
    requires IdPasses(RuleId(rule), idFilter) == Success(true)
    ensures MakeRow(rule, Php.Str(p.name)).Success?
    ensures MakeRow(rule, Php.Str(p.name)).value in RowsOfPackage(p, packageFilter, idFilter).value
  {
    var rules := PackageRules(p, packageFilter);
    assert rules == FlattenRules(p.rules, p.name);
    var k :| 0 <= k < |rules| && rules[k] == rule;
    assert NameTag(p)(rule) == Php.Str(p.name);
    RowsComplete(rules, NameTag(p), None, idFilter, k);
  }

  /** Completeness: in a successful `rules:list`, every rule of a package passing the filter, with an id passing the id filter, has its row. */
  lemma {:induction false} RulesListComplete(loaded: seq<Registry.PackageInfo>, packageFilter: Option<string>, idFilter: Option<string>,
                                             i: nat, rule: Php.Value)
    requires i < |loaded| && RulesListRows(loaded, packageFilter, idFilter).Success?
    requires PackagePasses(Php.Str(loaded[i].name), packageFilter)
    requires rule in FlattenRules(loaded[i].rules, loaded[i].name)
    requires IdPasses(RuleId(rule), idFilter) == Success(true)
    ensures MakeRow(rule, Php.Str(loaded[i].name)).Success?
    ensures MakeRow(rule, Php.Str(loaded[i].name)).value in RulesListRows(loaded, packageFilter, idFilter).value
    decreases |loaded|
  {
    var first := RowsOfPackage(loaded[0], packageFilter, idFilter);
    var rest := RulesListRows(loaded[1..], packageFilter, idFilter);
    assert RulesListRows(loaded, packageFilter, idFilter) == Join(first, rest);
    if i == 0 {
      RowsOfPackageComplete(loaded[0], packageFilter, idFilter, rule);
    } else {
      assert loaded[1..][i - 1] == loaded[i];
      RulesListComplete(loaded[1..], packageFilter, idFilter, i - 1, rule);
    }
  }

  /** Every row of `rules:list` names a loaded package that passes the package filter. */
  lemma {:induction false} RulesListRowsPackages(loaded: seq<Registry.PackageInfo>, packageFilter: Option<string>, idFilter: Option<string>)
    requires RulesListRows(loaded, packageFilter, idFilter).Success?
    ensures forall row :: row in RulesListRows(loaded, packageFilter, idFilter).value ==>
      PackagePasses(row.package, packageFilter) && exists i :: 0 <= i < |loaded| && row.package == Php.Str(loaded[i].name)
    decreases |loaded|
  {
    if |loaded| > 0 {
      var p := loaded[0];
      var pkgOf := NameTag(p);
      RowsSound(PackageRules(p, packageFilter), pkgOf, None, idFilter);
      RulesListRowsPackages(loaded[1..], packageFilter, idFilter);
      var first := Rows(PackageRules(p, packageFilter), pkgOf, None, idFilter).value;
      var rest := RulesListRows(loaded[1..], packageFilter, idFilter).value;
      forall row | row in first ensures PackagePasses(row.package, packageFilter) && row.package == Php.Str(p.name) {
        var rule :| rule in PackageRules(p, packageFilter) && MakeRow(rule, pkgOf(rule)) == Success(row);
      }
      forall row | row in rest ensures exists i :: 0 <= i < |loaded| && row.package == Php.Str(loaded[i].name) {
        var i :| 0 <= i < |loaded[1..]| && row.package == Php.Str(loaded[1..][i].name);
        assert loaded[i + 1] == loaded[1..][i];
      }
    }
  }

  /** `rules:list`: the table, or the info line when it is empty; the exit code is SUCCESS. */
  function RulesList(loaded: seq<Registry.PackageInfo>, packageFilter: Option<string>, idFilter: Option<string>): (r: Result<Console.Report<RuleRow>, Php.Error>)
    ensures r.Success? ==> r.value.code == Console.SUCCESS
    ensures r.Success? ==> (r.value.notice == Console.Info("No rules found.") <==> |r.value.rows| == 0)
    ensures r.Success? ==> r.value.notice.Quiet? || r.value.notice == Console.Info("No rules found.")
    ensures r.Success? <==> RulesListRows(loaded, packageFilter, idFilter).Success?
    ensures r.Success? ==> r.value.rows == RulesListRows(loaded, packageFilter, idFilter).value
  {
    Listed(RulesListRows(loaded, packageFilter, idFilter))
  }

  // ---- the flat-list variant ----

  /** `$rule['_package'] ?? 'unknown'`. */
  function PackageOf(rule: Php.Value): Php.Value {
    Php.Coalesce(rule, "_package", Php.Str("unknown"))
  }

  /** The flat-list `rules:list`: one row per rule of the engine's list that passes both filters, in list order. */
  function ListRules(allRules: seq<Php.Value>, packageFilter: Option<string>, idFilter: Option<string>): (r: Result<Console.Report<RuleRow>, Php.Error>)
    ensures r.Success? ==> r.value.code == Console.SUCCESS
    ensures r.Success? ==> (r.value.notice == Console.Info("No rules found.") <==> |r.value.rows| == 0)
    ensures r.Success? <==> Rows(allRules, PackageOf, packageFilter, idFilter).Success?
    ensures r.Success? ==> r.value.rows == Rows(allRules, PackageOf, packageFilter, idFilter).value
  {
    Listed(Rows(allRules, PackageOf, packageFilter, idFilter))
  }

  /** Every row of the flat-list variant passes both filters and is the row of one of the listed rules. */
  lemma ListRulesRowsPass(allRules: seq<Php.Value>, packageFilter: Option<string>, idFilter: Option<string>)
    requires ListRules(allRules, packageFilter, idFilter).Success?
    ensures forall row :: row in ListRules(allRules, packageFilter, idFilter).value.rows ==>
      && PackagePasses(row.package, packageFilter)
      && IdPasses(row.id, idFilter) == Success(true)
      && exists rule :: rule in allRules && MakeRow(rule, PackageOf(rule)) == Success(row)
  {
    RowsSound(allRules, PackageOf, packageFilter, idFilter);
  }

  // ---- rules:show ----

  datatype Located = Located(rule: Php.Value, package: string)

  /** Every rule `rules:show` can see, tagged with its package, in search order. */
  function AllLocated(loaded: seq<Registry.PackageInfo>): seq<Located>
    decreases |loaded|
  {
    if |loaded| == 0 then []
    else Tag(FlattenRules(loaded[0].rules, loaded[0].name), loaded[0].name) + AllLocated(loaded[1..])
  }

  function Tag(rules: seq<Php.Value>, package: string): (r: seq<Located>)
    ensures |r| == |rules|
    ensures forall i :: 0 <= i < |rules| ==> r[i] == Located(rules[i], package)
  {
    if |rules| == 0 then [] else [Located(rules[0], package)] + Tag(rules[1..], package)
  }

  /** `($rule['id'] ?? null) === $ruleId`. */
  predicate HasId(rule: Php.Value, id: string) {
    Php.Coalesce(rule, "id", Php.Null) == Php.Str(id)
  }

  /** The search loop with its `break 2`: the first rule, in search order, whose id is `id`. */
  function FindFirst(rules: seq<Located>, id: string): (r: Option<nat>)
    ensures r.None? <==> forall i :: 0 <= i < |rules| ==> !HasId(rules[i].rule, id)
    ensures r.Some? ==> (r.value < |rules| && HasId(rules[r.value].rule, id)
      && forall j :: 0 <= j < r.value ==> !HasId(rules[j].rule, id))
  {
    if |rules| == 0 then None
    else if HasId(rules[0].rule, id) then Some(0)
    else
      var r := FindFirst(rules[1..], id);
      if r.None? then None else Some(r.value + 1)
  }

  /** A found rule is a non-empty array, so the `! $found` test fails exactly when nothing matched. */
  lemma FoundRuleIsTruthy(rule: Php.Value, id: string)
    requires HasId(rule, id)
    ensures Php.Truthy(rule)
    ensures RuleId(rule) == Php.Str(id)
  {
  }

  datatype ConditionLine = ConditionLine(typ: string, nameSuffix: string, operator: string, value: string)

  datatype ActionLine = ActionLine(typ: string, args: seq<(Php.Key, Php.Value)>)

  datatype Detail = Detail(
    id: Php.Value,
    package: string,
    order: string,
    enabled: string,
    matchType: Php.Value,
    hook: Option<(Php.Value, string)>,
    conditions: seq<ConditionLine>,
    actions: seq<ActionLine>)

  datatype Shown = Shown(code: int, detail: Option<Detail>, notice: Console.Notice)

  /** `formatValue()`: arrays as `[a, b, ...]`, anything else as its string form. */
  function FormatValue(v: Php.Value): (r: Result<string, Php.Error>)
    ensures !v.Arr? ==> r == Php.CastToString(v)
    ensures v.Arr? && r.Success? ==> |r.value| >= 2 && r.value[0] == '[' && r.value[|r.value| - 1] == ']'
    ensures v.Arr? ==> (r.Success? <==> forall i :: 0 <= i < |v.entries| ==> !v.entries[i].1.Obj?)
    ensures v.Arr? && r.Success? ==>
      r.value == "[" + Php.Implode(", ", StrVals(Assoc.Values(v.entries)).value) + "]"
  {
    if v.Arr? then
      var parts :- StrVals(Assoc.Values(v.entries));
      Success("[" + Php.Implode(", ", parts) + "]")
    else Php.CastToString(v)
  }

  /** `array_map('strval', ...)`. */
  function StrVals(vs: seq<Php.Value>): (r: Result<seq<string>, Php.Error>)
    ensures r.Success? ==> |r.value| == |vs| && forall i :: 0 <= i < |vs| ==> Php.CastToString(vs[i]) == Success(r.value[i])
    ensures r.Success? <==> forall i :: 0 <= i < |vs| ==> !vs[i].Obj?
  {
    if |vs| == 0 then Success([])
    else
      var first :- Php.CastToString(vs[0]);
      var rest :- StrVals(vs[1..]);
      Success([first] + rest)
  }

  /**
   A condition's display line: its type (default `unknown`), the name in
   brackets when set, its operator (default `=`) and its formatted value
   (default empty). String interpolation raises on an object.
   */
  function ConditionLineOf(condition: Php.Value): (r: Result<ConditionLine, Php.Error>)
    ensures r.Success? ==> (r.value.nameSuffix == "" <==> !Php.Isset(condition, "name"))
    ensures r.Success? <==>
      && !Php.Coalesce(condition, "type", Php.Null).Obj?
      && !Php.Coalesce(condition, "operator", Php.Null).Obj?
      && !Php.Coalesce(condition, "name", Php.Null).Obj?
      && FormatValue(Php.Coalesce(condition, "value", Php.Str(""))).Success?
    ensures r.Success? && !Php.Isset(condition, "type") ==> r.value.typ == "unknown"
    ensures r.Success? && Php.Isset(condition, "type") ==> Php.CastToString(Php.Field(condition, "type").value) == Success(r.value.typ)
    ensures r.Success? && !Php.Isset(condition, "operator") ==> r.value.operator == "="
    ensures r.Success? && Php.Isset(condition, "operator") ==> Php.CastToString(Php.Field(condition, "operator").value) == Success(r.value.operator)
    ensures r.Success? && !Php.Isset(condition, "value") ==> r.value.value == ""
    ensures r.Success? && Php.Isset(condition, "value") ==> FormatValue(Php.Field(condition, "value").value) == Success(r.value.value)
    ensures r.Success? && Php.Isset(condition, "name") ==>
      r.value.nameSuffix == " [" + Php.CastToString(Php.Field(condition, "name").value).value + "]"
  {
    var typ :- Php.CastToString(Php.Coalesce(condition, "type", Php.Str("unknown")));
    var operator :- Php.CastToString(Php.Coalesce(condition, "operator", Php.Str("=")));
    var value :- FormatValue(Php.Coalesce(condition, "value", Php.Str("")));
    var suffix :-
      if Php.Isset(condition, "name") then
        var n :- Php.CastToString(Php.Field(condition, "name").value);
        Success(" [" + n + "]")
      else Success("");
    Success(ConditionLine(typ, suffix, operator, value))
  }

  /** One line per condition, in order; the command aborts on the first condition it cannot print. */
  function ConditionLines(conditions: seq<Php.Value>): (r: Result<seq<ConditionLine>, Php.Error>)
    ensures r.Success? ==> |r.value| == |conditions|
    ensures r.Success? <==> forall i :: 0 <= i < |conditions| ==> ConditionLineOf(conditions[i]).Success?
    ensures r.Success? ==> forall i :: 0 <= i < |conditions| ==> ConditionLineOf(conditions[i]) == Success(r.value[i])
  {
    if |conditions| == 0 then Success([])
    else
      var first :- ConditionLineOf(conditions[0]);
      var rest :- ConditionLines(conditions[1..]);
      Success([first] + rest)
  }

  /** The arguments shown for an action: the action array without its `type` entry. */
  function WithoutType(entries: seq<(Php.Key, Php.Value)>): (r: seq<(Php.Key, Php.Value)>)
    ensures forall e :: e in r <==> e in entries && e.0 != Php.StrKey("type")
  {
    if |entries| == 0 then []
    else (if entries[0].0 == Php.StrKey("type") then [] else [entries[0]]) + WithoutType(entries[1..])
  }

  /** `unset` keeps the other entries in place: removing `type` from a concatenation removes it from each part. */
  lemma {:induction false} WithoutTypeAppend(a: seq<(Php.Key, Php.Value)>, b: seq<(Php.Key, Php.Value)>)
    ensures WithoutType(a + b) == WithoutType(a) + WithoutType(b)
    decreases |a|
  {
    if |a| == 0 {
      assert a + b == b;
    } else {
      assert (a + b)[0] == a[0];
      assert (a + b)[1..] == a[1..] + b;
      WithoutTypeAppend(a[1..], b);
    }
  }

  /** One entry is dropped exactly when its key is `type`. */
  lemma WithoutTypeSingle(e: (Php.Key, Php.Value))
    ensures WithoutType([e]) == if e.0 == Php.StrKey("type") then [] else [e]
  {
    assert [e][1..] == [];
  }

  /**
   An action's display line. `unset($args['type'])` is a no-op on null and
   false, and raises on strings and other scalars and on objects.
   */
  function ActionLineOf(action: Php.Value): (r: Result<ActionLine, Php.Error>)
    ensures r.Success? && action.Arr? ==> r.value.args == WithoutType(action.entries)
    ensures r.Success? ==> action.Arr? || action == Php.Null || action == Php.Bool(false)
    ensures (action.Arr? || action == Php.Null || action == Php.Bool(false)) ==>
      (r.Success? <==> Php.CastToString(Php.Coalesce(action, "type", Php.Str("unknown"))).Success?)
    ensures r.Success? && !Php.Isset(action, "type") ==> r.value.typ == "unknown"
    ensures r.Success? && Php.Isset(action, "type") ==> Php.CastToString(Php.Field(action, "type").value) == Success(r.value.typ)
  {
    var typ :- Php.CastToString(Php.Coalesce(action, "type", Php.Str("unknown")));
    if action.Arr? then Success(ActionLine(typ, WithoutType(action.entries)))
    else if action == Php.Null || action == Php.Bool(false) then Success(ActionLine(typ, []))
    else if action.Str? then Failure(Php.TypeError("Cannot unset string offsets"))
    else Failure(Php.TypeError("Cannot unset offset in a non-array variable"))
  }

  /** One line per action, in order; the command aborts on the first action it cannot print. */
  function ActionLines(actions: seq<Php.Value>): (r: Result<seq<ActionLine>, Php.Error>)
    ensures r.Success? ==> |r.value| == |actions|
    ensures r.Success? <==> forall i :: 0 <= i < |actions| ==> ActionLineOf(actions[i]).Success?
    ensures r.Success? ==> forall i :: 0 <= i < |actions| ==> ActionLineOf(actions[i]) == Success(r.value[i])
  {
    if |actions| == 0 then Success([])
    else
      var first :- ActionLineOf(actions[0]);
      var rest :- ActionLines(actions[1..]);
      Success([first] + rest)
  }

  /** `(string) ($metadata['order'] ?? 10)`. */
  function OrderCell(metadata: Php.Value): (r: Result<string, Php.Error>)
    ensures r.Success? <==> !Php.Coalesce(metadata, "order", Php.Null).Obj?
    ensures !Php.Isset(metadata, "order") ==> r == Success("10")
    ensures Php.Isset(metadata, "order") ==> r == Php.CastToString(Php.Field(metadata, "order").value)
  {
    assert Php.IntToString(10) == "10";
    Php.CastToString(Php.Coalesce(metadata, "order", Php.Int(10)))
  }

  /** The hook and its priority (default 10), shown only when the metadata names a non-empty hook. */
  function HookCells(metadata: Php.Value): (r: Result<Option<(Php.Value, string)>, Php.Error>)
    ensures r.Success? <==> (Php.Truthy(Php.Coalesce(metadata, "hook", Php.Null)) ==> !Php.Coalesce(metadata, "priority", Php.Null).Obj?)
    ensures r.Success? ==> (r.value.Some? <==> Php.Truthy(Php.Coalesce(metadata, "hook", Php.Null)))
    ensures r.Success? && r.value.Some? ==> r.value.value.0 == Php.Field(metadata, "hook").value
    ensures r.Success? && r.value.Some? && !Php.Isset(metadata, "priority") ==> r.value.value.1 == "10"
    ensures r.Success? && r.value.Some? && Php.Isset(metadata, "priority") ==>
      Php.CastToString(Php.Field(metadata, "priority").value) == Success(r.value.value.1)
  {
    assert Php.IntToString(10) == "10";
    if Php.Truthy(Php.Coalesce(metadata, "hook", Php.Null)) then
      var priority :- Php.CastToString(Php.Coalesce(metadata, "priority", Php.Int(10)));
      Success(Some((Php.Field(metadata, "hook").value, priority)))
    else Success(None)
  }

  /** The detail view of a found rule. */
  function DetailOf(found: Located): (r: Result<Detail, Php.Error>)
    ensures r.Success? ==> r.value.id == RuleId(found.rule)
    ensures r.Success? ==> r.value.package == found.package
    ensures r.Success? ==> r.value.enabled == EnabledCell(found.rule)
    ensures r.Success? ==> (r.value.hook.Some? <==> Php.Truthy(Php.Coalesce(Metadata(found.rule), "hook", Php.Null)))
    ensures var metadata := Metadata(found.rule);
      var conditions := Php.Coalesce(found.rule, "conditions", Php.Arr([]));
      var actions := Php.Coalesce(found.rule, "actions", Php.Arr([]));
      r.Success? <==>
        && !Php.Coalesce(metadata, "order", Php.Null).Obj?
        && (Php.Truthy(Php.Coalesce(metadata, "hook", Php.Null)) ==> !Php.Coalesce(metadata, "priority", Php.Null).Obj?)
        && conditions.Arr? && ConditionLines(Assoc.Values(conditions.entries)).Success?
        && actions.Arr? && ActionLines(Assoc.Values(actions.entries)).Success?
    ensures r.Success? && !Php.Isset(Metadata(found.rule), "order") ==> r.value.order == "10"
    ensures r.Success? && Php.Isset(Metadata(found.rule), "order") ==>
      Php.CastToString(Php.Field(Metadata(found.rule), "order").value) == Success(r.value.order)
    ensures r.Success? && !Php.Isset(found.rule, "match_type") ==> r.value.matchType == Php.Str("all")
    ensures r.Success? && Php.Isset(found.rule, "match_type") ==> r.value.matchType == Php.Field(found.rule, "match_type").value
    ensures r.Success? && r.value.hook.Some? ==> r.value.hook.value.0 == Php.Field(Metadata(found.rule), "hook").value
    ensures r.Success? && r.value.hook.Some? && !Php.Isset(Metadata(found.rule), "priority") ==> r.value.hook.value.1 == "10"
    ensures r.Success? && r.value.hook.Some? && Php.Isset(Metadata(found.rule), "priority") ==>
      Php.CastToString(Php.Field(Metadata(found.rule), "priority").value) == Success(r.value.hook.value.1)
    ensures r.Success? ==> Success(r.value.conditions) == ConditionLines(Assoc.Values(Php.Coalesce(found.rule, "conditions", Php.Arr([])).entries))
    ensures r.Success? ==> Success(r.value.actions) == ActionLines(Assoc.Values(Php.Coalesce(found.rule, "actions", Php.Arr([])).entries))
  {
    var metadata := Metadata(found.rule);
    var order :- OrderCell(metadata);
    var hook :- HookCells(metadata);
    var conditions := Php.Coalesce(found.rule, "conditions", Php.Arr([]));
    var _ :- Php.Count(conditions);
    var conditionLines :- ConditionLines(Assoc.Values(conditions.entries));
    var actions := Php.Coalesce(found.rule, "actions", Php.Arr([]));
    var _ :- Php.Count(actions);
    var actionLines :- ActionLines(Assoc.Values(actions.entries));
    Success(Detail(
      RuleId(found.rule),
      found.package,
      order,
      EnabledCell(found.rule),
      Php.Coalesce(found.rule, "match_type", Php.Str("all")),
      hook,
      conditionLines,
      actionLines))
  }

  /** `rules:show {id}`. */
  function RulesShow(loaded: seq<Registry.PackageInfo>, id: string): (r: Result<Shown, Php.Error>)
    ensures var found := FindFirst(AllLocated(loaded), id);
      && (found.None? ==> r == Success(Shown(Console.FAILURE, None, Console.ErrorMessage("Rule '" + id + "' not found."))))
      && (found.Some? && r.Success? ==>
            && r.value.code == Console.SUCCESS
            && r.value.detail.Some?
            && r.value.detail.value.id == Php.Str(id)
            && r.value.detail.value.package == AllLocated(loaded)[found.value].package)
    ensures var found := FindFirst(AllLocated(loaded), id);
      found.Some? ==>
        && (r.Success? <==> DetailOf(AllLocated(loaded)[found.value]).Success?)
        && (r.Success? ==> r.value == Shown(Console.SUCCESS, Some(DetailOf(AllLocated(loaded)[found.value]).value), Console.Quiet))
  {
    var all := AllLocated(loaded);
    var found := FindFirst(all, id);
    if found.None? then Success(Shown(Console.FAILURE, None, Console.ErrorMessage("Rule '" + id + "' not found.")))
    else
      FoundRuleIsTruthy(all[found.value].rule, id);
      var detail :- DetailOf(all[found.value]);
      Success(Shown(Console.SUCCESS, Some(detail), Console.Quiet))
  }
}
