/**
 `rules:packages` as registered, counting each loaded package's rules from the
 package itself, and its unregistered variant, counting from the engine's flat
 rule list.
 */
module PackageCommands {
  import opened Wrappers
  import Assoc
  import Php
  import Registry
  import Console
  import RuleCommands

  /** The Rules column: a count for loaded packages, `-` for the others. */
  datatype RulesCell = NotLoaded | RuleCount(n: nat)

  datatype PackageRow = PackageRow(name: string, available: bool, loaded: bool, dependencies: string, rules: RulesCell)

  /** `empty($dependencies) ? '-' : implode(', ', $dependencies)`. */
  function DependencyCell(dependencies: seq<string>): (r: string)
    ensures |dependencies| == 0 ==> r == "-"
    ensures |dependencies| > 0 ==> r == Php.Implode(", ", dependencies)
  {
    if |dependencies| == 0 then "-" else Php.Implode(", ", dependencies)
  }

  function Row(p: Registry.PackageInfo, loaded: set<string>, count: nat): (r: PackageRow)
    ensures r.name == p.name && r.available == p.available && r.loaded == (p.name in loaded)
    ensures r.rules.NotLoaded? <==> p.name !in loaded
    ensures r.rules.RuleCount? ==> r.rules.n == count
    ensures r.dependencies == (if |p.dependencies| == 0 then "-" else Php.Implode(", ", p.dependencies))
  {
    PackageRow(p.name, p.available, p.name in loaded, DependencyCell(p.dependencies),
               if p.name in loaded then RuleCount(count) else NotLoaded)
  }

  function Reported(rows: seq<PackageRow>): (r: Console.Report<PackageRow>)
    ensures r.code == Console.SUCCESS && r.rows == rows
    ensures r.notice == Console.Warn("No packages registered.") <==> |rows| == 0
    ensures r.notice.Quiet? || r.notice.Warn?
  {
    Console.Report(Console.SUCCESS, rows, if |rows| == 0 then Console.Warn("No packages registered.") else Console.Quiet)
  }

  // ---- counting from the packages ----

  /** WP's count as written: the sum of `count()` over every array among the top-level entries. */
  function WpRuleCount(rules: seq<(Php.Key, Php.Value)>): nat
    decreases |rules|
  {
    if |rules| == 0 then 0
    else
      var last := rules[|rules| - 1].1;
      WpRuleCount(rules[..|rules| - 1]) + (if last.Arr? then |last.entries| else 0)
  }

  /** The count shown for a loaded package, as written. */
  function RuleCountAsWritten(p: Registry.PackageInfo): nat {
    if p.name == "WP" then WpRuleCount(p.rules) else |p.rules|
  }

  function PackageRows(packages: seq<Registry.PackageInfo>, loaded: set<string>, count: Registry.PackageInfo -> nat): (rows: seq<PackageRow>)
    ensures |rows| == |packages|
    ensures forall i :: 0 <= i < |packages| ==> rows[i] == Row(packages[i], loaded, count(packages[i]))
  {
    if |packages| == 0 then [] else [Row(packages[0], loaded, count(packages[0]))] + PackageRows(packages[1..], loaded, count)
  }

  /** `rules:packages`, counting from the packages, as written. */
  function RulesPackages(packages: seq<Registry.PackageInfo>, loaded: set<string>): (r: Console.Report<PackageRow>)
    ensures r.code == Console.SUCCESS
    ensures |r.rows| == |packages|
    ensures r.notice == Console.Warn("No packages registered.") <==> |packages| == 0
    ensures forall i :: 0 <= i < |packages| ==>
      && r.rows[i].name == packages[i].name
      && r.rows[i].available == packages[i].available
      && (r.rows[i].rules.NotLoaded? <==> packages[i].name !in loaded)
      && (packages[i].name != "WP" && packages[i].name in loaded ==> r.rows[i].rules == RuleCount(|packages[i].rules|))
      && (packages[i].name == "WP" && packages[i].name in loaded ==> r.rows[i].rules == RuleCount(WpRuleCount(packages[i].rules)))
      && r.rows[i].loaded == (packages[i].name in loaded)
      && r.rows[i].dependencies == DependencyCell(packages[i].dependencies)
  {
    Reported(PackageRows(packages, loaded, RuleCountAsWritten))
  }

  /** The rules of a package that is not loaded are never read. */
  lemma UnloadedRulesUnread(packages: seq<Registry.PackageInfo>, other: seq<Registry.PackageInfo>, loaded: set<string>)
    requires |packages| == |other|
    requires forall i :: 0 <= i < |packages| ==>
      other[i].name == packages[i].name && other[i].available == packages[i].available
      && other[i].dependencies == packages[i].dependencies
      && (packages[i].name in loaded ==> other[i].rules == packages[i].rules)
    ensures RulesPackages(packages, loaded) == RulesPackages(other, loaded)
  {
    var a := RulesPackages(packages, loaded).rows;
    var b := RulesPackages(other, loaded).rows;
    assert forall i :: 0 <= i < |a| ==> a[i] == b[i];
  }

  /** Every rule `rules:list` shows for WP is counted by the as-written sum, so it never undercounts. */
  lemma {:induction false} WpCountBoundsFlattened(rules: seq<(Php.Key, Php.Value)>)
    ensures |RuleCommands.FlattenRules(rules, "WP")| <= WpRuleCount(rules)
    decreases |rules|
  {
    if |rules| > 0 {
      var init := rules[..|rules| - 1];
      var e := rules[|rules| - 1];
      WpCountBoundsFlattened(init);
      assert rules == init + [e];
      RuleCommands.FlattenWpSnoc(init, e);
      if RuleCommands.IsHookGroup(e) {
        assert |RuleCommands.Contribution(e)| <= |Assoc.Values(e.1.entries)|;
      } else if RuleCommands.IsRule(e.1) {
        assert Assoc.Get(e.1.entries, Php.StrKey("id")).Some?;
        assert |e.1.entries| >= 1;
      }
    }
  }

  /** A WP rule registered at the top level, not under a hook. */
  const TopLevelRule: Php.Value := Php.Arr([(Php.StrKey("id"), Php.Str("r")), (Php.StrKey("enabled"), Php.Bool(true))])

  const WpWithTopLevelRule: Registry.PackageInfo := Registry.PackageInfo("WP", [], true, [], [(Php.IntKey(0), TopLevelRule)])

  /**
   As written, a top-level WP rule is counted as its number of fields: the
   package shows 2 rules while `rules:list` shows 1.
   */
  lemma TopLevelRuleMiscounted()
    ensures RulesPackages([WpWithTopLevelRule], {"WP"}).rows[0].rules == RuleCount(2)
    ensures RuleCommands.RulesListRows([WpWithTopLevelRule], None, None).Success?
    ensures |RuleCommands.RulesListRows([WpWithTopLevelRule], None, None).value| == 1
  {
    var rules := WpWithTopLevelRule.rules;
    assert WpRuleCount(rules[..0]) == 0;
    assert WpRuleCount(rules) == 2;
    assert RuleCommands.IsRule(TopLevelRule);
    assert !RuleCommands.IsHookGroup(rules[0]);
    assert RuleCommands.FlattenWp(rules[..0]) == [];
    assert RuleCommands.FlattenWp(rules) == [TopLevelRule];
    var pkgOf: Php.Value -> Php.Value := _ => Php.Str("WP");
    assert RuleCommands.Displayable(TopLevelRule, None);
    RuleCommands.RowsCount([TopLevelRule], pkgOf, None);
    assert RuleCommands.PackageRules(WpWithTopLevelRule, None) == [TopLevelRule];
    assert [WpWithTopLevelRule][1..] == [];
    RulesListCountsFlattened(WpWithTopLevelRule);
  }

  /** The count shown for a loaded package: the number of rules `rules:list` flattens out of it. */
  function RuleCountCorrected(p: Registry.PackageInfo): nat {
    |RuleCommands.FlattenRules(p.rules, p.name)|
  }

  /** `rules:packages` with each loaded package counted as `rules:list` would list it. */
  function RulesPackagesCorrected(packages: seq<Registry.PackageInfo>, loaded: set<string>): (r: Console.Report<PackageRow>)
    ensures r.code == Console.SUCCESS
    ensures |r.rows| == |packages|
    ensures r.notice == Console.Warn("No packages registered.") <==> |packages| == 0
  {
    Reported(PackageRows(packages, loaded, RuleCountCorrected))
  }

  /** With no filter, `rules:list` shows one row per flattened rule whenever it succeeds. */
  lemma RulesListCountsFlattened(p: Registry.PackageInfo)
    requires RuleCommands.RulesListRows([p], None, None).Success?
    ensures |RuleCommands.RulesListRows([p], None, None).value| == RuleCountCorrected(p)
  {
    var flat := RuleCommands.PackageRules(p, None);
    var pkgOf: Php.Value -> Php.Value := _ => Php.Str(p.name);
    assert [p][1..] == [];
    RowsKeepAll(flat, pkgOf);
  }

  lemma {:induction false} RowsKeepAll(rules: seq<Php.Value>, packageOf: Php.Value -> Php.Value)
    requires RuleCommands.Rows(rules, packageOf, None, None).Success?
    ensures |RuleCommands.Rows(rules, packageOf, None, None).value| == |rules|
    decreases |rules|
  {
    if |rules| > 0 {
      RowsKeepAll(rules[1..], packageOf);
    }
  }

  /** Corrected, the Rules column of every loaded package agrees with what `rules:list` shows for it. */
  lemma CorrectedCountAgreesWithList(packages: seq<Registry.PackageInfo>, loaded: set<string>, i: nat)
    requires i < |packages| && packages[i].name in loaded
    requires RuleCommands.RulesListRows([packages[i]], None, None).Success?
    ensures RulesPackagesCorrected(packages, loaded).rows[i].rules
      == RuleCount(|RuleCommands.RulesListRows([packages[i]], None, None).value|)
  {
    RulesListCountsFlattened(packages[i]);
  }

  // ---- counting from the engine's flat rule list ----

  /** The key a rule is counted under: `$rule['_package'] ?? 'unknown'` used as an array offset. */
  function PackageKey(rule: Php.Value): Result<Php.Key, Php.Error> {
    Php.ArrayKey(RuleCommands.PackageOf(rule))
  }

  /** `$ruleCounts[$pkg] = ($ruleCounts[$pkg] ?? 0) + 1`. */
  function Bump(counts: seq<(Php.Key, nat)>, k: Php.Key): (r: seq<(Php.Key, nat)>)
    ensures Assoc.Get(r, k) == Some(Assoc.Get(counts, k).GetOr(0) + 1)
    ensures forall k' :: k' != k ==> Assoc.Get(r, k') == Assoc.Get(counts, k')
  {
    Assoc.Put(counts, k, Assoc.Get(counts, k).GetOr(0) + 1)
  }

  lemma {:induction false} BumpSum(counts: seq<(Php.Key, nat)>, k: Php.Key)
    ensures Assoc.Sum(Bump(counts, k)) == Assoc.Sum(counts) + 1
  {
    var v: nat := Assoc.Get(counts, k).GetOr(0) + 1;
    Assoc.SumAfterPut(counts, k, v);
  }

  lemma {:induction false} BumpUnique(counts: seq<(Php.Key, nat)>, k: Php.Key)
    requires Assoc.Unique(counts)
    ensures Assoc.Unique(Bump(counts, k))
  {
    var v: nat := Assoc.Get(counts, k).GetOr(0) + 1;
    Assoc.PutUnique(counts, k, v);
  }

  /** The tally loop: each rule adds one under its key; the first key that cannot be computed aborts. */
  function CountBy<T>(allRules: seq<T>, keyOf: T -> Result<Php.Key, Php.Error>): (r: Result<seq<(Php.Key, nat)>, Php.Error>)
    decreases |allRules|
  {
    if |allRules| == 0 then Success([])
    else
      var counts :- CountBy(allRules[..|allRules| - 1], keyOf);
      var k :- keyOf(allRules[|allRules| - 1]);
      Success(Bump(counts, k))
  }

  /** The tally is a PHP array: no package appears twice. */
  lemma {:induction false} CountByUnique<T>(allRules: seq<T>, keyOf: T -> Result<Php.Key, Php.Error>)
    requires CountBy(allRules, keyOf).Success?
    ensures Assoc.Unique(CountBy(allRules, keyOf).value)
    decreases |allRules|
  {
    if |allRules| > 0 {
      var init := allRules[..|allRules| - 1];
      CountByUnique(init, keyOf);
      BumpUnique(CountBy(init, keyOf).value, keyOf(allRules[|allRules| - 1]).value);
    }
  }

  /** How many rules of the list belong under key `k`. */
  function Tally<T>(allRules: seq<T>, keyOf: T -> Result<Php.Key, Php.Error>, k: Php.Key): nat
    decreases |allRules|
  {
    if |allRules| == 0 then 0
    else Tally(allRules[..|allRules| - 1], keyOf, k) + (if keyOf(allRules[|allRules| - 1]) == Success(k) then 1 else 0)
  }

  /** The tally fails exactly when some rule's package cannot be an array key. */
  lemma {:induction false} CountBySucceeds<T>(allRules: seq<T>, keyOf: T -> Result<Php.Key, Php.Error>)
    ensures CountBy(allRules, keyOf).Success? <==> forall i :: 0 <= i < |allRules| ==> keyOf(allRules[i]).Success?
    decreases |allRules|
  {
    if |allRules| > 0 {
      CountBySucceeds(allRules[..|allRules| - 1], keyOf);
      CountByStep(allRules, keyOf);
      AllKeysSplit(allRules, keyOf);
    }
  }

  /** One step of the tally: it succeeds exactly when the earlier rules and the last rule's key both do. */
  lemma CountByStep<T>(allRules: seq<T>, keyOf: T -> Result<Php.Key, Php.Error>)
    requires |allRules| > 0
    ensures CountBy(allRules, keyOf).Success? <==>
      CountBy(allRules[..|allRules| - 1], keyOf).Success? && keyOf(allRules[|allRules| - 1]).Success?
  {
  }

  lemma AllKeysSplit<T>(allRules: seq<T>, keyOf: T -> Result<Php.Key, Php.Error>)
    requires |allRules| > 0
    ensures var init := allRules[..|allRules| - 1];
      (forall i :: 0 <= i < |allRules| ==> keyOf(allRules[i]).Success?) <==>
      (forall i :: 0 <= i < |init| ==> keyOf(init[i]).Success?) && keyOf(allRules[|allRules| - 1]).Success?
  {
    var init := allRules[..|allRules| - 1];
    assert forall i :: 0 <= i < |init| ==> init[i] == allRules[i];
  }

  /** A successful tally holds, under each key, the number of rules carrying it, and no key without rules. */
  lemma {:induction false} CountByTallies<T>(allRules: seq<T>, keyOf: T -> Result<Php.Key, Php.Error>)
    requires CountBy(allRules, keyOf).Success?
    ensures forall k :: Assoc.Get(CountBy(allRules, keyOf).value, k) == if Tally(allRules, keyOf, k) == 0 then None else Some(Tally(allRules, keyOf, k))
  {
    forall k ensures Assoc.Get(CountBy(allRules, keyOf).value, k) == if Tally(allRules, keyOf, k) == 0 then None else Some(Tally(allRules, keyOf, k)) {
      CountByTally(allRules, keyOf, k);
    }
  }

  lemma {:induction false} CountByTally<T>(allRules: seq<T>, keyOf: T -> Result<Php.Key, Php.Error>, k: Php.Key)
    requires CountBy(allRules, keyOf).Success?
    ensures Assoc.Get(CountBy(allRules, keyOf).value, k) == if Tally(allRules, keyOf, k) == 0 then None else Some(Tally(allRules, keyOf, k))
    decreases |allRules|
  {
    if |allRules| > 0 {
      var init := allRules[..|allRules| - 1];
      var last := allRules[|allRules| - 1];
      assert CountBy(init, keyOf).Success? && keyOf(last).Success?;
      var counts := CountBy(init, keyOf).value;
      var key := keyOf(last).value;
      CountByTally(init, keyOf, k);
      assert CountBy(allRules, keyOf) == Success(Bump(counts, key));
      assert Tally(allRules, keyOf, k) == Tally(init, keyOf, k) + (if key == k then 1 else 0);
      if k == key {
        var n: nat := Assoc.Get(counts, k).GetOr(0);
        assert n == Tally(init, keyOf, k);
        assert Assoc.Get(Bump(counts, key), k) == Some(n + 1);
      } else {
        assert Assoc.Get(Bump(counts, key), k) == Assoc.Get(counts, k);
      }
    }
  }

  /** The counts add up to the length of the list. */
  lemma {:induction false} CountsSumToRules<T>(allRules: seq<T>, keyOf: T -> Result<Php.Key, Php.Error>)
    requires CountBy(allRules, keyOf).Success?
    ensures Assoc.Sum(CountBy(allRules, keyOf).value) == |allRules|
    decreases |allRules|
  {
    if |allRules| > 0 {
      var init := allRules[..|allRules| - 1];
      var counts := CountBy(init, keyOf).value;
      var key := keyOf(allRules[|allRules| - 1]).value;
      CountsSumToRules(init, keyOf);
      assert CountBy(allRules, keyOf).value == Bump(counts, key);
      BumpSum(counts, key);
    }
  }

  /** `rules:packages`, counting from the engine's flat rule list: `$ruleCounts[$name] ?? 0` for loaded packages. */
  function ListPackages(allRules: seq<Php.Value>, packages: seq<Registry.PackageInfo>, loaded: set<string>): (r: Result<Console.Report<PackageRow>, Php.Error>)
    ensures r.Success? <==> CountBy(allRules, PackageKey).Success?
    ensures r.Success? ==> r.value.code == Console.SUCCESS && |r.value.rows| == |packages|
    ensures r.Success? ==> (r.value.notice == Console.Warn("No packages registered.") <==> |packages| == 0)
    ensures r.Success? ==> forall i :: 0 <= i < |packages| ==>
      && r.value.rows[i].name == packages[i].name
      && r.value.rows[i].available == packages[i].available
      && r.value.rows[i].loaded == (packages[i].name in loaded)
      && r.value.rows[i].dependencies == DependencyCell(packages[i].dependencies)
      && (r.value.rows[i].rules.NotLoaded? <==> packages[i].name !in loaded)
  {
    var counts :- CountBy(allRules, PackageKey);
    Success(Reported(PackageRows(packages, loaded, (p: Registry.PackageInfo) => Assoc.Get(counts, Php.StrKey(p.name)).GetOr(0))))
  }

  /** A loaded package's Rules cell is the number of listed rules carrying its name. */
  lemma ListPackagesCountsTagged(allRules: seq<Php.Value>, packages: seq<Registry.PackageInfo>, loaded: set<string>, i: nat)
    requires ListPackages(allRules, packages, loaded).Success?
    requires i < |packages| && packages[i].name in loaded
    ensures ListPackages(allRules, packages, loaded).value.rows[i].rules == RuleCount(Tally(allRules, PackageKey, Php.StrKey(packages[i].name)))
  {
    CountByTallies(allRules, PackageKey);
  }
}
