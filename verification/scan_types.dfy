/**
 Discovery of the registered action and condition types, grouped by package:
 namespaces are resolved to packages, each namespace's directory is found
 through Composer's PSR-4 prefixes and scanned for classes, callback-based
 types join the `Callback` group, and the groups are put in package order.
 Reflection, the filesystem and the engine's registries are inputs.
 */
module ScanTypes {
  import opened Wrappers
  import Assoc
  import Php
  import Registry
  import PackageOrder

  // ---- package resolution ----

  /** The namespace-to-package map of a package list. */
  function NamespaceMap(p: Registry.PackageInfo): map<string, string> {
    map ns | ns in p.namespaces :: p.name
  }

  /** `buildPackageMap()`: the packages' namespace maps, merged so that later packages win. */
  function BuildPackageMap(packages: seq<Registry.PackageInfo>): map<string, string>
    decreases |packages|
  {
    if |packages| == 0 then map[]
    else BuildPackageMap(packages[..|packages| - 1]) + NamespaceMap(packages[|packages| - 1])
  }

  /** The map holds every namespace of every package, and nothing else. */
  lemma {:induction false} PackageMapDomain(packages: seq<Registry.PackageInfo>, ns: string)
    ensures ns in BuildPackageMap(packages) <==> exists i :: 0 <= i < |packages| && ns in packages[i].namespaces
    decreases |packages|
  {
    if |packages| > 0 {
      var init := packages[..|packages| - 1];
      PackageMapDomain(init, ns);
      if ns in BuildPackageMap(init) {
        var i :| 0 <= i < |init| && ns in init[i].namespaces;
        assert packages[i] == init[i];
      }
      if exists i :: 0 <= i < |packages| && ns in packages[i].namespaces {
        var i :| 0 <= i < |packages| && ns in packages[i].namespaces;
        if i < |init| {
          assert init[i] == packages[i];
        }
      }
    }
  }

  /** A shared namespace belongs to the last package that declares it. */
  lemma {:induction false} PackageMapLastWins(packages: seq<Registry.PackageInfo>, ns: string, i: nat)
    requires i < |packages| && ns in packages[i].namespaces
    requires forall j :: i < j < |packages| ==> ns !in packages[j].namespaces
    ensures ns in BuildPackageMap(packages) && BuildPackageMap(packages)[ns] == packages[i].name
    decreases |packages|
  {
    if i < |packages| - 1 {
      var init := packages[..|packages| - 1];
      assert init[i] == packages[i];
      PackageMapLastWins(init, ns, i);
    }
  }

  /** `resolvePackageName()`. */
  function ResolvePackageName(ns: string, packageMap: map<string, string>): (r: string)
    ensures ns in packageMap ==> r == packageMap[ns]
    ensures ns !in packageMap && Php.StartsWith(ns, "App\\") ==> r == "App"
    ensures ns !in packageMap && !Php.StartsWith(ns, "App\\") && Php.StartsWith(ns, "MilliRules\\") ==> r == "Core"
    ensures ns !in packageMap && !Php.StartsWith(ns, "App\\") && !Php.StartsWith(ns, "MilliRules\\") ==> r == "Custom"
  {
    if ns in packageMap then packageMap[ns]
    else if Php.StartsWith(ns, "App\\") then "App"
    else if Php.StartsWith(ns, "MilliRules\\") then "Core"
    else "Custom"
  }

  /** A namespace resolves to a registered package name or to one of the three fallback groups. */
  lemma ResolvedNameIsKnown(ns: string, packages: seq<Registry.PackageInfo>)
    ensures var r := ResolvePackageName(ns, BuildPackageMap(packages));
      r in {"App", "Core", "Custom"} || exists i :: 0 <= i < |packages| && packages[i].name == r
  {
  }

  // ---- namespaces and directories ----

  /** `rtrim($namespace, '\\') . '\\'`. */
  function NormalizeNamespace(ns: string): (r: string)
    ensures |r| > 0 && r[|r| - 1] == '\\'
    ensures |r| == 1 || r[|r| - 2] != '\\'
    ensures r[..|r| - 1] == Php.RTrim(ns, '\\')
  {
    Php.RTrim(ns, '\\') + "\\"
  }

  /** Normalising twice changes nothing. */
  lemma NormalizeNamespaceIdempotent(ns: string)
    ensures NormalizeNamespace(NormalizeNamespace(ns)) == NormalizeNamespace(ns)
  {
    var t := Php.RTrim(ns, '\\');
    var n := t + "\\";
    assert n[..|n| - 1] == t;
    assert Php.RTrim(n, '\\') == Php.RTrim(t, '\\');
  }

  /** The path below a PSR-4 prefix: what follows the prefix, with `\` turned into `/`. */
  function SubPath(ns: string, prefix: string): (r: string)
    requires Php.StartsWith(ns, prefix)
    ensures |r| == |ns| - |prefix|
    ensures '\\' !in r
    ensures forall i :: 0 <= i < |r| ==> r[i] == if ns[|prefix| + i] == '\\' then '/' else ns[|prefix| + i]
  {
    Php.ReplaceChar(ns[|prefix|..], '\\', '/')
  }

  /** The first directory of `dirs` that exists. */
  function FirstDir(dirs: seq<string>, isDir: string -> bool): (r: Option<string>)
    ensures r.None? <==> forall i :: 0 <= i < |dirs| ==> !isDir(dirs[i])
    ensures r.Some? ==> exists i :: (0 <= i < |dirs| && dirs[i] == r.value && isDir(r.value)
      && forall j :: 0 <= j < i ==> !isDir(dirs[j]))
  {
    if |dirs| == 0 then None
    else if isDir(dirs[0]) then Some(dirs[0])
    else
      var r := FirstDir(dirs[1..], isDir);
      assert r.Some? ==> exists i :: (0 <= i < |dirs| && dirs[i] == r.value && isDir(r.value)
        && forall j :: 0 <= j < i ==> !isDir(dirs[j])) by {
        if r.Some? {
          var i :| 0 <= i < |dirs| - 1 && dirs[1..][i] == r.value && isDir(r.value)
            && forall j :: 0 <= j < i ==> !isDir(dirs[1..][j]);
          assert forall j :: 1 <= j < i + 1 ==> dirs[j] == dirs[1..][j - 1];
        }
      }
      r
  }

  /** The directory a parent prefix derives for namespace `ns` under `dir`. */
  function DerivedPath(dir: string, ns: string, prefix: string): string
    requires Php.StartsWith(ns, prefix)
  {
    Php.RTrim(dir, '/') + "/" + Php.RTrim(SubPath(ns, prefix), '/')
  }

  function DerivedPaths(dirs: seq<string>, ns: string, prefix: string): (ps: seq<string>)
    requires Php.StartsWith(ns, prefix)
    ensures |ps| == |dirs|
    ensures forall i :: 0 <= i < |dirs| ==> ps[i] == DerivedPath(dirs[i], ns, prefix)
  {
    if |dirs| == 0 then [] else [DerivedPath(dirs[0], ns, prefix)] + DerivedPaths(dirs[1..], ns, prefix)
  }

  /** The parent-prefix search: prefixes in order, each prefix's directories in order. */
  function SearchPrefixes(psr4: seq<(string, seq<string>)>, ns: string, isDir: string -> bool): (r: Option<string>)
    ensures r.Some? ==> isDir(r.value)
    ensures r.Some? ==> exists i :: (0 <= i < |psr4| && Php.StartsWith(ns, psr4[i].0)
      && r.value in DerivedPaths(psr4[i].1, ns, psr4[i].0))
    ensures r.None? ==> forall i :: 0 <= i < |psr4| && Php.StartsWith(ns, psr4[i].0) ==>
      forall p :: p in DerivedPaths(psr4[i].1, ns, psr4[i].0) ==> !isDir(p)
  {
    if |psr4| == 0 then None
    else
      var found := if Php.StartsWith(ns, psr4[0].0) then FirstDir(DerivedPaths(psr4[0].1, ns, psr4[0].0), isDir) else None;
      if found.Some? then found
      else
        var r := SearchPrefixes(psr4[1..], ns, isDir);
        assert r.Some? ==> exists i :: (0 <= i < |psr4| && Php.StartsWith(ns, psr4[i].0)
          && r.value in DerivedPaths(psr4[i].1, ns, psr4[i].0)) by {
          if r.Some? {
            var i :| 0 <= i < |psr4| - 1 && Php.StartsWith(ns, psr4[1..][i].0)
              && r.value in DerivedPaths(psr4[1..][i].1, ns, psr4[1..][i].0);
            assert psr4[i + 1] == psr4[1..][i];
          }
        }
        assert r.None? ==> forall i :: 0 <= i < |psr4| && Php.StartsWith(ns, psr4[i].0) ==>
          forall p :: p in DerivedPaths(psr4[i].1, ns, psr4[i].0) ==> !isDir(p) by {
          if r.None? {
            forall i | 1 <= i < |psr4| && Php.StartsWith(ns, psr4[i].0)
              ensures forall p :: p in DerivedPaths(psr4[i].1, ns, psr4[i].0) ==> !isDir(p)
            {
              assert psr4[i] == psr4[1..][i - 1];
            }
          }
        }
        r
  }

  /** Every directory the parent-prefix search tries, in the order it tries them. */
  function Candidates(psr4: seq<(string, seq<string>)>, ns: string): seq<string>
    decreases |psr4|
  {
    if |psr4| == 0 then []
    else
      (if Php.StartsWith(ns, psr4[0].0) then DerivedPaths(psr4[0].1, ns, psr4[0].0) else [])
        + Candidates(psr4[1..], ns)
  }

  /** The first existing directory of a concatenation: the first of `a`, else the first of `b`. */
  lemma {:induction false} FirstDirAppend(a: seq<string>, b: seq<string>, isDir: string -> bool)
    ensures FirstDir(a + b, isDir) == if FirstDir(a, isDir).Some? then FirstDir(a, isDir) else FirstDir(b, isDir)
    decreases |a|
  {
    if |a| == 0 {
      assert a + b == b;
    } else {
      assert (a + b)[0] == a[0];
      assert (a + b)[1..] == a[1..] + b;
      FirstDirAppend(a[1..], b, isDir);
    }
  }

  /** The parent-prefix search returns the first existing candidate: prefixes in order, each prefix's directories in order. */
  lemma {:induction false} SearchPrefixesFirst(psr4: seq<(string, seq<string>)>, ns: string, isDir: string -> bool)
    ensures SearchPrefixes(psr4, ns, isDir) == FirstDir(Candidates(psr4, ns), isDir)
    decreases |psr4|
  {
    if |psr4| > 0 {
      var own := if Php.StartsWith(ns, psr4[0].0) then DerivedPaths(psr4[0].1, ns, psr4[0].0) else [];
      assert Candidates(psr4, ns) == own + Candidates(psr4[1..], ns);
      FirstDirAppend(own, Candidates(psr4[1..], ns), isDir);
      SearchPrefixesFirst(psr4[1..], ns, isDir);
    }
  }

  /** The class loader's view of the filesystem. */
  datatype Filesystem = Filesystem(
    psr4: seq<(string, seq<string>)>,
    isDir: string -> bool,
    glob: string -> seq<string>,
    classExists: string -> bool)

  /** `findNamespaceDirectory()`: a direct PSR-4 match first, then the parent prefixes. */
  function FindNamespaceDirectory(fs: Filesystem, ns: string): (r: Option<string>)
    ensures r.Some? ==> fs.isDir(r.value)
    ensures var n := NormalizeNamespace(ns);
      Assoc.Get(fs.psr4, n).Some? && FirstDir(Assoc.Get(fs.psr4, n).value, fs.isDir).Some? ==>
        r == FirstDir(Assoc.Get(fs.psr4, n).value, fs.isDir)
    ensures var n := NormalizeNamespace(ns);
      (Assoc.Get(fs.psr4, n).None? || FirstDir(Assoc.Get(fs.psr4, n).value, fs.isDir).None?) ==>
        r == SearchPrefixes(fs.psr4, n, fs.isDir)
  {
    var n := NormalizeNamespace(ns);
    var direct := Assoc.Get(fs.psr4, n);
    var found := if direct.Some? then FirstDir(direct.value, fs.isDir) else None;
    if found.Some? then found else SearchPrefixes(fs.psr4, n, fs.isDir)
  }

  /** The position just after the last `c` in `s`, or 0. */
  function AfterLast(s: string, c: char): (i: nat)
    ensures i <= |s|
    ensures c !in s[i..]
    ensures i > 0 ==> s[i - 1] == c
  {
    if |s| == 0 || s[|s| - 1] == c then |s| else AfterLast(s[..|s| - 1], c)
  }

  /** The last path component: what follows the last `/`. Paths from `glob()` never end in `/`. */
  function Basename(path: string): (b: string)
    ensures '/' !in b
    ensures |b| <= |path| && path[|path| - |b|..] == b
    ensures |b| == |path| || path[|path| - |b| - 1] == '/'
  {
    path[AfterLast(path, '/')..]
  }

  /**
   `pathinfo($file, PATHINFO_FILENAME)`: the base name up to its last dot,
   or the whole base name when it has none.
   */
  function FileStem(path: string): (r: string)
    ensures '/' !in r
    ensures Php.StartsWith(Basename(path), r)
    ensures r == Basename(path) <==> '.' !in Basename(path)
    ensures r != Basename(path) ==> Basename(path)[|r|] == '.' && '.' !in Basename(path)[|r| + 1..]
  {
    var base := Basename(path);
    var dot := AfterLast(base, '.');
    if dot == 0 then base else base[..dot - 1]
  }

  function ClassName(ns: string, file: string): string {
    Php.RTrim(ns, '\\') + "\\" + FileStem(file)
  }

  /** The namespace-qualified class name each file would declare, in file order. */
  function ClassNames(ns: string, files: seq<string>): (r: seq<string>)
    ensures |r| == |files|
    ensures forall k :: 0 <= k < |files| ==> r[k] == ClassName(ns, files[k])
  {
    seq(|files|, k requires 0 <= k < |files| => ClassName(ns, files[k]))
  }

  /** The names that exist as classes, in order, each once per occurrence. */
  function ExistingOf(names: seq<string>, classExists: string -> bool): (r: seq<string>)
    ensures |r| <= |names|
  {
    if |names| == 0 then []
    else
      var rest := ExistingOf(names[1..], classExists);
      if classExists(names[0]) then [names[0]] + rest else rest
  }

  /** Every name kept is one of the names and exists as a class. */
  lemma {:induction false} ExistingOfSound(names: seq<string>, classExists: string -> bool, c: string)
    requires c in ExistingOf(names, classExists)
    ensures c in names && classExists(c)
    decreases |names|
  {
    if c in ExistingOf(names[1..], classExists) {
      ExistingOfSound(names[1..], classExists, c);
    }
  }

  /** Every name that exists as a class is kept. */
  lemma {:induction false} ExistingOfComplete(names: seq<string>, classExists: string -> bool, k: nat)
    requires k < |names| && classExists(names[k])
    ensures names[k] in ExistingOf(names, classExists)
    decreases |names|
  {
    if k > 0 {
      assert names[1..][k - 1] == names[k];
      ExistingOfComplete(names[1..], classExists, k - 1);
    }
  }

  /** Keeping the existing names of a concatenation keeps those of each part, in order. */
  lemma {:induction false} ExistingOfAppend(a: seq<string>, b: seq<string>, classExists: string -> bool)
    ensures ExistingOf(a + b, classExists) == ExistingOf(a, classExists) + ExistingOf(b, classExists)
    decreases |a|
  {
    if |a| == 0 {
      assert a + b == b;
    } else {
      assert (a + b)[0] == a[0];
      assert (a + b)[1..] == a[1..] + b;
      ExistingOfAppend(a[1..], b, classExists);
    }
  }

  /** `$ns.'\\'.pathinfo($file, PATHINFO_FILENAME)` for each file that names an existing class, in file order. */
  function ExistingClasses(ns: string, files: seq<string>, classExists: string -> bool): (r: seq<string>)
    ensures |r| <= |files|
  {
    ExistingOf(ClassNames(ns, files), classExists)
  }

  /** The classes are exactly the files' namespace-qualified stems that exist as classes. */
  lemma ExistingClassesMembers(ns: string, files: seq<string>, classExists: string -> bool)
    ensures forall c :: c in ExistingClasses(ns, files, classExists) <==> c in ClassNames(ns, files) && classExists(c)
  {
    var names := ClassNames(ns, files);
    forall c ensures c in ExistingOf(names, classExists) <==> c in names && classExists(c) {
      if c in ExistingOf(names, classExists) {
        ExistingOfSound(names, classExists, c);
      }
      if c in names && classExists(c) {
        var k :| 0 <= k < |names| && names[k] == c;
        ExistingOfComplete(names, classExists, k);
      }
    }
  }

  /** The classes of a concatenation of file lists: those of `a`, then those of `b`, each file once per occurrence. */
  lemma ExistingClassesAppend(ns: string, a: seq<string>, b: seq<string>, classExists: string -> bool)
    ensures ExistingClasses(ns, a + b, classExists) == ExistingClasses(ns, a, classExists) + ExistingClasses(ns, b, classExists)
  {
    assert ClassNames(ns, a + b) == ClassNames(ns, a) + ClassNames(ns, b);
    ExistingOfAppend(ClassNames(ns, a), ClassNames(ns, b), classExists);
  }

  /** One file yields its class name exactly when that class exists. */
  lemma ExistingClassesSingle(ns: string, f: string, classExists: string -> bool)
    ensures ExistingClasses(ns, [f], classExists) == if classExists(ClassName(ns, f)) then [ClassName(ns, f)] else []
  {
    assert ClassNames(ns, [f]) == [ClassName(ns, f)];
    assert [ClassName(ns, f)][1..] == [];
  }

  /** `scanNamespaceForClasses()`: one class name per PHP file of the namespace's directory that exists as a class. */
  function ScanNamespaceForClasses(fs: Filesystem, ns: string): (r: seq<string>)
    ensures FindNamespaceDirectory(fs, ns).None? ==> r == []
    ensures FindNamespaceDirectory(fs, ns).Some? ==>
      var files := fs.glob(FindNamespaceDirectory(fs, ns).value + "/*.php");
      forall c :: c in r <==> c in ClassNames(ns, files) && fs.classExists(c)
    ensures FindNamespaceDirectory(fs, ns).Some? ==>
      r == ExistingClasses(ns, fs.glob(FindNamespaceDirectory(fs, ns).value + "/*.php"), fs.classExists)
  {
    var dir := FindNamespaceDirectory(fs, ns);
    if dir.None? then []
    else
      var files := fs.glob(dir.value + "/*.php");
      ExistingClassesMembers(ns, files, fs.classExists);
      if |files| == 0 then [] else ExistingClasses(ns, files, fs.classExists)
  }

  // ---- type discovery ----

  datatype TypeInfo = TypeInfo(typ: string, builder: string, cls: string)

  datatype Kind = ActionsKind | ConditionsKind

  /** The engine's registrations for one kind: namespaces in order, and callback type names. */
  datatype TypeSource = TypeSource(namespaces: seq<string>, customs: seq<string>)

  /**
   Everything `discoverTypes()` reads. `typeOf(class, kind)` is the type name
   of a concrete class implementing the kind's interface, `None` for any other
   class; `camel` is Laravel's camel-case conversion.
   */
  datatype Environment = Environment(
    packages: seq<Registry.PackageInfo>,
    fs: Filesystem,
    actions: TypeSource,
    conditions: TypeSource,
    typeOf: (string, Kind) -> Option<string>,
    camel: string -> string)

  function Source(env: Environment, kind: Kind): TypeSource {
    if kind.ActionsKind? then env.actions else env.conditions
  }

  function Builder(camel: string -> string, typ: string): string {
    "->" + camel(typ) + "(...)"
  }

  /** `extractTypeInfo()` over the classes of one namespace, in scan order. */
  function TypeInfos(env: Environment, kind: Kind, classes: seq<string>): (r: seq<TypeInfo>)
    ensures |r| <= |classes|
    ensures forall t :: t in r ==> exists c :: (c in classes && env.typeOf(c, kind) == Some(t.typ)
      && t == TypeInfo(t.typ, Builder(env.camel, t.typ), c))
    ensures forall i :: 0 <= i < |classes| && env.typeOf(classes[i], kind).Some? ==>
      var typ := env.typeOf(classes[i], kind).value;
      TypeInfo(typ, Builder(env.camel, typ), classes[i]) in r
  {
    if |classes| == 0 then []
    else
      var rest := TypeInfos(env, kind, classes[1..]);
      var t := env.typeOf(classes[0], kind);
      if t.Some? then [TypeInfo(t.value, Builder(env.camel, t.value), classes[0])] + rest else rest
  }

  /** The type infos of a concatenation of class lists: those of `a`, then those of `b`. */
  lemma {:induction false} TypeInfosAppend(env: Environment, kind: Kind, a: seq<string>, b: seq<string>)
    ensures TypeInfos(env, kind, a + b) == TypeInfos(env, kind, a) + TypeInfos(env, kind, b)
    decreases |a|
  {
    if |a| == 0 {
      assert a + b == b;
    } else {
      assert (a + b)[0] == a[0];
      assert (a + b)[1..] == a[1..] + b;
      TypeInfosAppend(env, kind, a[1..], b);
    }
  }

  /** One class yields an entry exactly when it is a concrete type of the kind. */
  lemma TypeInfosSingle(env: Environment, kind: Kind, c: string)
    ensures TypeInfos(env, kind, [c]) ==
      if env.typeOf(c, kind).Some? then [TypeInfo(env.typeOf(c, kind).value, Builder(env.camel, env.typeOf(c, kind).value), c)] else []
  {
    assert [c][1..] == [];
  }

  function NamespaceTypes(env: Environment, kind: Kind, ns: string): seq<TypeInfo> {
    TypeInfos(env, kind, ScanNamespaceForClasses(env.fs, ns))
  }

  /** The types found in each namespace, as one function. */
  function Scanner(env: Environment, kind: Kind): string -> seq<TypeInfo> {
    ns => NamespaceTypes(env, kind, ns)
  }

  type Groups = gs: seq<(string, seq<TypeInfo>)> | Assoc.Unique(gs)

  /** `$results[$package][] = $info` for each of `infos`. */
  function AppendAll(groups: Groups, key: string, infos: seq<TypeInfo>): (r: Groups)
    ensures Assoc.Get(r, key) == if |infos| == 0 then Assoc.Get(groups, key) else Some(Assoc.Get(groups, key).GetOr([]) + infos)
    ensures forall k :: k != key ==> Assoc.Get(r, k) == Assoc.Get(groups, k)
  {
    if |infos| == 0 then groups
    else
      Assoc.PutUnique(groups, key, Assoc.Get(groups, key).GetOr([]) + infos);
      Assoc.Put(groups, key, Assoc.Get(groups, key).GetOr([]) + infos)
  }

  /** The types the namespaces `nss` contribute to package `p`, in namespace order then scan order. */
  function TypesOfPackage(scan: string -> seq<TypeInfo>, packageMap: map<string, string>, nss: seq<string>, p: string): seq<TypeInfo>
    decreases |nss|
  {
    if |nss| == 0 then []
    else
      var last := nss[|nss| - 1];
      TypesOfPackage(scan, packageMap, nss[..|nss| - 1], p)
        + (if ResolvePackageName(last, packageMap) == p then scan(last) else [])
  }

  /** The namespace loop of `discoverTypes()`. */
  function GroupNamespaces(scan: string -> seq<TypeInfo>, packageMap: map<string, string>, nss: seq<string>): Groups
    decreases |nss|
  {
    if |nss| == 0 then []
    else
      var last := nss[|nss| - 1];
      AppendAll(GroupNamespaces(scan, packageMap, nss[..|nss| - 1]), ResolvePackageName(last, packageMap), scan(last))
  }

  /** A package has a group exactly when some namespace contributes a type to it, and the group holds exactly those types. */
  lemma {:induction false} GroupNamespacesContents(scan: string -> seq<TypeInfo>, packageMap: map<string, string>, nss: seq<string>, p: string)
    ensures var t := TypesOfPackage(scan, packageMap, nss, p);
      Assoc.Get(GroupNamespaces(scan, packageMap, nss), p) == if |t| == 0 then None else Some(t)
    decreases |nss|
  {
    if |nss| > 0 {
      var init := nss[..|nss| - 1];
      var last := nss[|nss| - 1];
      GroupNamespacesContents(scan, packageMap, init, p);
      var prev := TypesOfPackage(scan, packageMap, init, p);
      var before := GroupNamespaces(scan, packageMap, init);
      assert GroupNamespaces(scan, packageMap, nss) == AppendAll(before, ResolvePackageName(last, packageMap), scan(last));
      if ResolvePackageName(last, packageMap) == p {
        assert TypesOfPackage(scan, packageMap, nss, p) == prev + scan(last);
        if |scan(last)| == 0 {
          assert prev + scan(last) == prev;
        } else if |prev| == 0 {
          assert prev + scan(last) == scan(last);
          assert Assoc.Get(before, p).GetOr([]) == [];
        }
      } else {
        assert TypesOfPackage(scan, packageMap, nss, p) == prev + [];
        assert prev + [] == prev;
      }
    }
  }

  function CallbackInfo(camel: string -> string, typ: string): TypeInfo {
    TypeInfo(typ, Builder(camel, typ), "(callback)")
  }

  /** The callback loop of `discoverTypes()`. */
  function AddCallbacks(groups: Groups, camel: string -> string, customs: seq<string>): (r: Groups)
    ensures forall k :: k != "Callback" ==> Assoc.Get(r, k) == Assoc.Get(groups, k)
    decreases |customs|
  {
    if |customs| == 0 then groups
    else AppendAll(AddCallbacks(groups, camel, customs[..|customs| - 1]), "Callback", [CallbackInfo(camel, customs[|customs| - 1])])
  }

  function CallbackInfos(camel: string -> string, customs: seq<string>): (r: seq<TypeInfo>)
    ensures |r| == |customs|
    ensures forall i :: 0 <= i < |customs| ==> r[i] == CallbackInfo(camel, customs[i]) && r[i].cls == "(callback)"
    decreases |customs|
  {
    if |customs| == 0 then [] else CallbackInfos(camel, customs[..|customs| - 1]) + [CallbackInfo(camel, customs[|customs| - 1])]
  }

  /** Each callback-registered type appends exactly one `(callback)` entry to the `Callback` group, in registration order. */
  lemma {:induction false} AddCallbacksAppends(groups: Groups, camel: string -> string, customs: seq<string>)
    ensures Assoc.Get(AddCallbacks(groups, camel, customs), "Callback") ==
      if |customs| == 0 then Assoc.Get(groups, "Callback")
      else Some(Assoc.Get(groups, "Callback").GetOr([]) + CallbackInfos(camel, customs))
    decreases |customs|
  {
    if |customs| > 0 {
      var init := customs[..|customs| - 1];
      var ci := CallbackInfo(camel, customs[|customs| - 1]);
      var prev := Assoc.Get(groups, "Callback").GetOr([]);
      AddCallbacksAppends(groups, camel, init);
      var mid := AddCallbacks(groups, camel, init);
      assert AddCallbacks(groups, camel, customs) == AppendAll(mid, "Callback", [ci]);
      assert Assoc.Get(AppendAll(mid, "Callback", [ci]), "Callback") == Some(Assoc.Get(mid, "Callback").GetOr([]) + [ci]);
      assert CallbackInfos(camel, customs) == CallbackInfos(camel, init) + [ci];
      if |init| == 0 {
        assert Assoc.Get(mid, "Callback").GetOr([]) == prev;
        assert CallbackInfos(camel, customs) == [ci];
      } else {
        assert Assoc.Get(mid, "Callback").GetOr([]) == prev + CallbackInfos(camel, init);
        assert prev + CallbackInfos(camel, customs) == (prev + CallbackInfos(camel, init)) + [ci];
      }
    }
  }

  // ---- ordering the groups ----

  predicate StrictlyOrdered(gs: seq<(string, seq<TypeInfo>)>) {
    forall i, j :: 0 <= i < j < |gs| ==> PackageOrder.Compare(gs[i].0, gs[j].0) < 0
  }

  function Insert(g: (string, seq<TypeInfo>), gs: seq<(string, seq<TypeInfo>)>): (r: seq<(string, seq<TypeInfo>)>)
    requires StrictlyOrdered(gs)
    requires forall x :: x in gs ==> x.0 != g.0
    ensures multiset(r) == multiset(gs) + multiset{g}
    ensures StrictlyOrdered(r)
  {
    if |gs| == 0 then [g]
    else if PackageOrder.Compare(g.0, gs[0].0) < 0 then
      InsertFront(g, gs);
      [g] + gs
    else
      var rest := Insert(g, gs[1..]);
      InsertBehind(g, gs, rest);
      [gs[0]] + rest
  }

  lemma InsertFront(g: (string, seq<TypeInfo>), gs: seq<(string, seq<TypeInfo>)>)
    requires StrictlyOrdered(gs) && |gs| > 0
    requires PackageOrder.Compare(g.0, gs[0].0) < 0
    ensures StrictlyOrdered([g] + gs)
  {
    forall j | 0 < j < |gs| ensures PackageOrder.Compare(g.0, gs[j].0) < 0 {
      PackageOrder.CompareTransitive(g.0, gs[0].0, gs[j].0);
    }
  }

  lemma InsertBehind(g: (string, seq<TypeInfo>), gs: seq<(string, seq<TypeInfo>)>, rest: seq<(string, seq<TypeInfo>)>)
    requires StrictlyOrdered(gs) && |gs| > 0
    requires g.0 != gs[0].0 && PackageOrder.Compare(g.0, gs[0].0) >= 0
    requires multiset(rest) == multiset(gs[1..]) + multiset{g}
    requires StrictlyOrdered(rest)
    ensures StrictlyOrdered([gs[0]] + rest)
    ensures multiset([gs[0]] + rest) == multiset(gs) + multiset{g}
  {
    PackageOrder.CompareZero(g.0, gs[0].0);
    PackageOrder.CompareAntisymmetric(g.0, gs[0].0);
    forall x | x in rest ensures PackageOrder.Compare(gs[0].0, x.0) < 0 {
      assert x in multiset(rest);
      if x != g {
        HeadBeforeTail(gs, x);
      }
    }
    ConsOrdered(gs[0], rest);
    assert gs == [gs[0]] + gs[1..];
  }

  /** In ordered groups the first package ranks before every later one. */
  lemma HeadBeforeTail(gs: seq<(string, seq<TypeInfo>)>, x: (string, seq<TypeInfo>))
    requires StrictlyOrdered(gs) && |gs| > 0
    requires x in multiset(gs[1..])
    ensures PackageOrder.Compare(gs[0].0, x.0) < 0
  {
    var k :| 0 <= k < |gs[1..]| && gs[1..][k] == x;
    assert gs[k + 1] == x;
  }

  /** A group ranked before every member of ordered groups can lead them. */
  lemma ConsOrdered(h: (string, seq<TypeInfo>), rest: seq<(string, seq<TypeInfo>)>)
    requires StrictlyOrdered(rest)
    requires forall x :: x in rest ==> PackageOrder.Compare(h.0, x.0) < 0
    ensures StrictlyOrdered([h] + rest)
  {
    var r := [h] + rest;
    forall i, j | 0 <= i < j < |r| ensures PackageOrder.Compare(r[i].0, r[j].0) < 0 {
      if i == 0 {
        assert r[j] == rest[j - 1] && rest[j - 1] in rest;
      } else {
        assert r[i] == rest[i - 1] && r[j] == rest[j - 1];
      }
    }
  }

  /** `uksort($results, ...)`: the groups rearranged into package order. */
  function SortGroups(gs: Groups): (r: Groups)
    ensures multiset(r) == multiset(gs)
    ensures StrictlyOrdered(r)
  {
    if |gs| == 0 then []
    else
      UniqueTail(gs);
      var rest := SortGroups(gs[1..]);
      SortStep(gs, rest);
      var r := Insert(gs[0], rest);
      OrderedUnique(r);
      r
  }

  lemma UniqueTail(gs: seq<(string, seq<TypeInfo>)>)
    requires |gs| > 0 && Assoc.Unique(gs)
    ensures Assoc.Unique(gs[1..])
  {
    forall i, j | 0 <= i < j < |gs| - 1 ensures gs[1..][i].0 != gs[1..][j].0 {
      assert gs[1..][i] == gs[i + 1] && gs[1..][j] == gs[j + 1];
    }
  }

  /** Sorting the tail leaves room for the head: its package is not there, and the head completes the multiset. */
  lemma SortStep(gs: Groups, rest: seq<(string, seq<TypeInfo>)>)
    requires |gs| > 0 && multiset(rest) == multiset(gs[1..])
    ensures forall x :: x in rest ==> x.0 != gs[0].0
    ensures multiset(rest) + multiset{gs[0]} == multiset(gs)
  {
    SortedRestAvoidsHead(gs, rest);
    assert gs == [gs[0]] + gs[1..];
  }

  lemma SortedRestAvoidsHead(gs: Groups, rest: seq<(string, seq<TypeInfo>)>)
    requires |gs| > 0 && multiset(rest) == multiset(gs[1..])
    ensures forall x :: x in rest ==> x.0 != gs[0].0
  {
    forall x | x in rest ensures x.0 != gs[0].0 {
      assert x in multiset(gs[1..]);
      var k :| 0 <= k < |gs[1..]| && gs[1..][k] == x;
      assert gs[k + 1] == x;
    }
  }

  lemma OrderedUnique(gs: seq<(string, seq<TypeInfo>)>)
    requires StrictlyOrdered(gs)
    ensures Assoc.Unique(gs)
  {
    forall i, j | 0 <= i < j < |gs| ensures gs[i].0 != gs[j].0 {
      PackageOrder.CompareZero(gs[i].0, gs[j].0);
    }
  }

  /** Rearranging a PHP array does not change what any key holds. */
  lemma PermutationKeepsLookups(a: Groups, b: Groups, k: string)
    requires multiset(a) == multiset(b)
    ensures Assoc.Get(a, k) == Assoc.Get(b, k)
  {
    Assoc.GetDefined(a, k);
    Assoc.GetDefined(b, k);
    if k in Assoc.Keys(a) {
      var i := KeyIndex(a, k);
      assert a[i] in multiset(b);
      var j :| 0 <= j < |b| && b[j] == a[i];
      Assoc.GetAtPosition(a, i);
      Assoc.GetAtPosition(b, j);
    } else if k in Assoc.Keys(b) {
      KeyInPermutation(a, b, k);
    }
  }

  lemma KeyInPermutation(a: seq<(string, seq<TypeInfo>)>, b: seq<(string, seq<TypeInfo>)>, k: string)
    requires multiset(a) == multiset(b)
    requires k in Assoc.Keys(b)
    ensures k in Assoc.Keys(a)
  {
    var j := KeyIndex(b, k);
    assert b[j] in multiset(a);
    var i :| 0 <= i < |a| && a[i] == b[j];
    assert Assoc.Keys(a)[i] == k;
  }

  lemma KeyIndex(a: seq<(string, seq<TypeInfo>)>, k: string) returns (i: nat)
    requires k in Assoc.Keys(a)
    ensures i < |a| && a[i].0 == k
  {
    var j :| 0 <= j < |a| && Assoc.Keys(a)[j] == k;
    i := j;
  }

  /** `discoverTypes($kind)`. */
  function DiscoverTypes(env: Environment, kind: Kind): (r: Groups)
    ensures StrictlyOrdered(r)
    ensures forall p :: Assoc.Get(r, p) == Assoc.Get(Unordered(env, kind), p)
  {
    var r := SortGroups(Unordered(env, kind));
    forall p ensures Assoc.Get(r, p) == Assoc.Get(Unordered(env, kind), p) {
      PermutationKeepsLookups(r, Unordered(env, kind), p);
    }
    r
  }

  /** The groups before sorting. */
  function Unordered(env: Environment, kind: Kind): Groups {
    var src := Source(env, kind);
    AddCallbacks(GroupNamespaces(Scanner(env, kind), BuildPackageMap(env.packages), src.namespaces), env.camel, src.customs)
  }

  /**
   What each group of `discoverTypes($kind)` holds: the types scanned from
   the namespaces resolving to that package, in namespace order then scan
   order, followed for `Callback` by one entry per callback type.
   */
  lemma DiscoverTypesContents(env: Environment, kind: Kind, p: string)
    ensures var t := TypesOfPackage(Scanner(env, kind), BuildPackageMap(env.packages), Source(env, kind).namespaces, p);
      var extra := if p == "Callback" then CallbackInfos(env.camel, Source(env, kind).customs) else [];
      Assoc.Get(DiscoverTypes(env, kind), p) == if |t + extra| == 0 then None else Some(t + extra)
  {
    var pm := BuildPackageMap(env.packages);
    var src := Source(env, kind);
    var grouped := GroupNamespaces(Scanner(env, kind), pm, src.namespaces);
    var t := TypesOfPackage(Scanner(env, kind), pm, src.namespaces, p);
    GroupNamespacesContents(Scanner(env, kind), pm, src.namespaces, p);
    assert Unordered(env, kind) == AddCallbacks(grouped, env.camel, src.customs);
    var got := Assoc.Get(DiscoverTypes(env, kind), p);
    assert got == Assoc.Get(AddCallbacks(grouped, env.camel, src.customs), p);
    if p == "Callback" {
      var cbs := CallbackInfos(env.camel, src.customs);
      AddCallbacksAppends(grouped, env.camel, src.customs);
      if |src.customs| == 0 {
        assert t + cbs == t;
      } else if |t| == 0 {
        assert t + cbs == cbs;
      }
    } else {
      assert t + [] == t;
    }
  }
}
