/** `rules:actions` and `rules:conditions`: one table row per discovered type, grouped by package. */
module TypeCommands {
  import opened Wrappers
  import Assoc
  import Php
  import Console
  import PackageOrder
  import ScanTypes

  datatype TypeRow = TypeRow(typ: string, builder: string, package: string, cls: string)

  function GroupRows(package: string, types: seq<ScanTypes.TypeInfo>): (r: seq<TypeRow>)
    ensures |r| == |types|
    ensures forall i :: 0 <= i < |types| ==> r[i] == TypeRow(types[i].typ, types[i].builder, package, types[i].cls)
  {
    if |types| == 0 then [] else [TypeRow(types[0].typ, types[0].builder, package, types[0].cls)] + GroupRows(package, types[1..])
  }

  /** `$packageFilter && $package !== $packageFilter`, negated. */
  predicate Shown(package: string, packageFilter: Option<string>) {
    !Php.TruthyOption(packageFilter) || package == packageFilter.value
  }

  /** The rows, group by group in the given order, skipping groups the filter excludes. */
  function TypeRows(groups: seq<(string, seq<ScanTypes.TypeInfo>)>, packageFilter: Option<string>): seq<TypeRow>
    decreases |groups|
  {
    if |groups| == 0 then []
    else (if Shown(groups[0].0, packageFilter) then GroupRows(groups[0].0, groups[0].1) else []) + TypeRows(groups[1..], packageFilter)
  }

  /** The rows of a concatenation of groups: the rows of `a`'s groups, then those of `b`'s. */
  lemma {:induction false} TypeRowsAppend(a: seq<(string, seq<ScanTypes.TypeInfo>)>, b: seq<(string, seq<ScanTypes.TypeInfo>)>,
                                          packageFilter: Option<string>)
    ensures TypeRows(a + b, packageFilter) == TypeRows(a, packageFilter) + TypeRows(b, packageFilter)
    decreases |a|
  {
    if |a| == 0 {
      assert a + b == b;
    } else {
      assert (a + b)[0] == a[0];
      assert (a + b)[1..] == a[1..] + b;
      TypeRowsAppend(a[1..], b, packageFilter);
    }
  }

  /** One group gives its types' rows, in the group's order, when its package is shown, and nothing otherwise. */
  lemma TypeRowsSingle(g: (string, seq<ScanTypes.TypeInfo>), packageFilter: Option<string>)
    ensures TypeRows([g], packageFilter) == if Shown(g.0, packageFilter) then GroupRows(g.0, g.1) else []
  {
    assert [g][1..] == [];
  }

  /** A row is listed exactly when its package passes the filter and the type is in that package's group. */
  lemma {:induction false} TypeRowsMembers(groups: seq<(string, seq<ScanTypes.TypeInfo>)>, packageFilter: Option<string>, row: TypeRow)
    ensures row in TypeRows(groups, packageFilter) <==>
      Shown(row.package, packageFilter)
      && exists i :: 0 <= i < |groups| && groups[i].0 == row.package && ScanTypes.TypeInfo(row.typ, row.builder, row.cls) in groups[i].1
    decreases |groups|
  {
    if |groups| > 0 {
      TypeRowsMembers(groups[1..], packageFilter, row);
      var g := groups[0];
      var info := ScanTypes.TypeInfo(row.typ, row.builder, row.cls);
      var own := if Shown(g.0, packageFilter) then GroupRows(g.0, g.1) else [];
      if row in own {
        var k :| 0 <= k < |own| && own[k] == row;
        assert g.1[k] == info;
      }
      if Shown(row.package, packageFilter) && g.0 == row.package && info in g.1 {
        var k :| 0 <= k < |g.1| && g.1[k] == info;
        assert own[k] == row;
      }
      if exists i :: 1 <= i < |groups| && groups[i].0 == row.package && info in groups[i].1 {
        var i :| 1 <= i < |groups| && groups[i].0 == row.package && info in groups[i].1;
        assert groups[1..][i - 1] == groups[i];
      }
      if exists i :: 0 <= i < |groups| - 1 && groups[1..][i].0 == row.package && info in groups[1..][i].1 {
        var i :| 0 <= i < |groups| - 1 && groups[1..][i].0 == row.package && info in groups[1..][i].1;
        assert groups[i + 1] == groups[1..][i];
      }
    }
  }

  lemma OrderedTail(groups: seq<(string, seq<ScanTypes.TypeInfo>)>)
    requires |groups| > 0 && ScanTypes.StrictlyOrdered(groups)
    ensures ScanTypes.StrictlyOrdered(groups[1..])
  {
    forall i, j | 0 <= i < j < |groups[1..]| ensures PackageOrder.Compare(groups[1..][i].0, groups[1..][j].0) < 0 {
      assert groups[1..][i] == groups[i + 1] && groups[1..][j] == groups[j + 1];
    }
  }

  /** In ordered groups, every row after the first group belongs to a later package. */
  lemma RestAfterHead(groups: seq<(string, seq<ScanTypes.TypeInfo>)>, packageFilter: Option<string>)
    requires |groups| > 0 && ScanTypes.StrictlyOrdered(groups)
    ensures forall r :: r in TypeRows(groups[1..], packageFilter) ==> PackageOrder.Compare(groups[0].0, r.package) < 0
  {
    forall r | r in TypeRows(groups[1..], packageFilter) ensures PackageOrder.Compare(groups[0].0, r.package) < 0 {
      TypeRowsMembers(groups[1..], packageFilter, r);
      var i :| 0 <= i < |groups[1..]| && groups[1..][i].0 == r.package && ScanTypes.TypeInfo(r.typ, r.builder, r.cls) in groups[1..][i].1;
      assert groups[1..][i] == groups[i + 1];
    }
  }

  /** No row lists a package that comes before the package of an earlier row. */
  predicate InPackageOrder(rows: seq<TypeRow>) {
    forall i, j :: 0 <= i < j < |rows| ==> PackageOrder.Compare(rows[i].package, rows[j].package) <= 0
  }

  /** In groups ordered by package, the rows list packages in that order: a later row never has an earlier package. */
  lemma {:induction false} TypeRowsInPackageOrder(groups: seq<(string, seq<ScanTypes.TypeInfo>)>, packageFilter: Option<string>)
    requires ScanTypes.StrictlyOrdered(groups)
    ensures InPackageOrder(TypeRows(groups, packageFilter))
    decreases |groups|
  {
    if |groups| > 0 {
      var g := groups[0];
      var own := if Shown(g.0, packageFilter) then GroupRows(g.0, g.1) else [];
      var rest := TypeRows(groups[1..], packageFilter);
      OrderedTail(groups);
      TypeRowsInPackageOrder(groups[1..], packageFilter);
      RestAfterHead(groups, packageFilter);
      assert TypeRows(groups, packageFilter) == own + rest;
      ConcatInPackageOrder(own, rest, g.0);
    }
  }

  /** Rows of one package followed by ordered rows of later packages are in package order. */
  lemma ConcatInPackageOrder(own: seq<TypeRow>, rest: seq<TypeRow>, package: string)
    requires forall k :: 0 <= k < |own| ==> own[k].package == package
    requires forall r :: r in rest ==> PackageOrder.Compare(package, r.package) < 0
    requires InPackageOrder(rest)
    ensures InPackageOrder(own + rest)
  {
    PackageOrder.CompareZero(package, package);
    var rows := own + rest;
    forall i, j | 0 <= i < j < |rows| ensures PackageOrder.Compare(rows[i].package, rows[j].package) <= 0 {
      if j < |own| {
        assert rows[i] == own[i] && rows[j] == own[j];
      } else if i < |own| {
        assert rows[i] == own[i];
        assert rows[j] == rest[j - |own|] && rest[j - |own|] in rest;
      } else {
        assert rows[i] == rest[i - |own|] && rows[j] == rest[j - |own|];
      }
    }
  }

  /** With a truthy filter, the listing is exactly the rows of the group of that name, if there is one. */
  lemma {:induction false} FilterSelectsOneGroup(groups: ScanTypes.Groups, name: string)
    requires Php.Truthy(Php.Str(name))
    ensures TypeRows(groups, Some(name)) == GroupRows(name, Assoc.Get(groups, name).GetOr([]))
    decreases |groups|
  {
    if |groups| > 0 {
      var rest: ScanTypes.Groups := groups[1..];
      FilterSelectsOneGroup(rest, name);
      if groups[0].0 == name {
        assert name !in Assoc.Keys(rest) by {
          forall i | 0 <= i < |rest| ensures rest[i].0 != name {
            assert rest[i] == groups[i + 1];
          }
        }
        Assoc.GetDefined(rest, name);
        assert TypeRows(groups, Some(name)) == GroupRows(name, groups[0].1) + [];
      }
    }
  }

  /** The listing of one kind: the table, or the info line when it is empty; the exit code is SUCCESS. */
  function ListTypes(env: ScanTypes.Environment, kind: ScanTypes.Kind, packageFilter: Option<string>): (r: Console.Report<TypeRow>)
    ensures r.code == Console.SUCCESS
    ensures r.notice.Quiet? <==> |r.rows| > 0
    ensures r.notice.Info? ==> r.notice.text == if kind.ActionsKind? then "No actions found." else "No conditions found."
    ensures r.rows == TypeRows(ScanTypes.DiscoverTypes(env, kind), packageFilter)
  {
    var rows := TypeRows(ScanTypes.DiscoverTypes(env, kind), packageFilter);
    var none := if kind.ActionsKind? then "No actions found." else "No conditions found.";
    Console.Report(Console.SUCCESS, rows, if |rows| == 0 then Console.Info(none) else Console.Quiet)
  }

  /** `rules:actions`: the action types, in package order. */
  function ListActions(env: ScanTypes.Environment, packageFilter: Option<string>): (r: Console.Report<TypeRow>)
    ensures r.code == Console.SUCCESS
    ensures r.notice.Quiet? <==> |r.rows| > 0
    ensures r.notice.Info? ==> r.notice.text == "No actions found."
    ensures InPackageOrder(r.rows)
    ensures r.rows == TypeRows(ScanTypes.DiscoverTypes(env, ScanTypes.ActionsKind), packageFilter)
    ensures forall row :: row in r.rows <==>
      Shown(row.package, packageFilter)
      && var group := Assoc.Get(ScanTypes.DiscoverTypes(env, ScanTypes.ActionsKind), row.package);
      group.Some? && ScanTypes.TypeInfo(row.typ, row.builder, row.cls) in group.value
  {
    ListTypesInPackageOrder(env, ScanTypes.ActionsKind, packageFilter);
    ListTypesListsDiscovered(env, ScanTypes.ActionsKind, packageFilter);
    ListTypes(env, ScanTypes.ActionsKind, packageFilter)
  }

  /** `rules:conditions`: the condition types, in package order. */
  function ListConditions(env: ScanTypes.Environment, packageFilter: Option<string>): (r: Console.Report<TypeRow>)
    ensures r.code == Console.SUCCESS
    ensures r.notice.Quiet? <==> |r.rows| > 0
    ensures r.notice.Info? ==> r.notice.text == "No conditions found."
    ensures InPackageOrder(r.rows)
    ensures r.rows == TypeRows(ScanTypes.DiscoverTypes(env, ScanTypes.ConditionsKind), packageFilter)
    ensures forall row :: row in r.rows <==>
      Shown(row.package, packageFilter)
      && var group := Assoc.Get(ScanTypes.DiscoverTypes(env, ScanTypes.ConditionsKind), row.package);
      group.Some? && ScanTypes.TypeInfo(row.typ, row.builder, row.cls) in group.value
  {
    ListTypesInPackageOrder(env, ScanTypes.ConditionsKind, packageFilter);
    ListTypesListsDiscovered(env, ScanTypes.ConditionsKind, packageFilter);
    ListTypes(env, ScanTypes.ConditionsKind, packageFilter)
  }

  /** A listed row is a discovered type of its package, and every discovered type of a shown package is listed. */
  lemma ListTypesMembers(env: ScanTypes.Environment, kind: ScanTypes.Kind, packageFilter: Option<string>, row: TypeRow)
    ensures row in ListTypes(env, kind, packageFilter).rows <==>
      Shown(row.package, packageFilter)
      && var group := Assoc.Get(ScanTypes.DiscoverTypes(env, kind), row.package);
      group.Some? && ScanTypes.TypeInfo(row.typ, row.builder, row.cls) in group.value
  {
    var groups := ScanTypes.DiscoverTypes(env, kind);
    var info := ScanTypes.TypeInfo(row.typ, row.builder, row.cls);
    var group := Assoc.Get(groups, row.package);
    TypeRowsMembers(groups, packageFilter, row);
    assert ListTypes(env, kind, packageFilter).rows == TypeRows(groups, packageFilter);
    if row in ListTypes(env, kind, packageFilter).rows {
      var i :| 0 <= i < |groups| && groups[i].0 == row.package && info in groups[i].1;
      Assoc.GetAtPosition(groups, i);
      assert group == Some(groups[i].1);
    }
    if Shown(row.package, packageFilter) && group.Some? && info in group.value {
      Assoc.GetDefined(groups, row.package);
      var i :| 0 <= i < |groups| && Assoc.Keys(groups)[i] == row.package;
      Assoc.GetAtPosition(groups, i);
      assert groups[i].0 == row.package && info in groups[i].1;
    }
  }

  /** `ListTypesMembers` for every row at once. */
  lemma ListTypesListsDiscovered(env: ScanTypes.Environment, kind: ScanTypes.Kind, packageFilter: Option<string>)
    ensures forall row :: row in ListTypes(env, kind, packageFilter).rows <==>
      Shown(row.package, packageFilter)
      && var group := Assoc.Get(ScanTypes.DiscoverTypes(env, kind), row.package);
      group.Some? && ScanTypes.TypeInfo(row.typ, row.builder, row.cls) in group.value
  {
    forall row: TypeRow {
      ListTypesMembers(env, kind, packageFilter, row);
    }
  }

  /** The listing runs through the packages in the fixed order: Core, PHP, WP, the others by name, then App and Callback. */
  lemma ListTypesInPackageOrder(env: ScanTypes.Environment, kind: ScanTypes.Kind, packageFilter: Option<string>)
    ensures InPackageOrder(ListTypes(env, kind, packageFilter).rows)
  {
    TypeRowsInPackageOrder(ScanTypes.DiscoverTypes(env, kind), packageFilter);
  }
}
