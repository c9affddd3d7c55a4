# Acorn MilliRules adapter — a Dafny model

This project models the core of the Acorn (Laravel-on-WordPress) adapter for
the MilliRules rule engine:

- **Response modification.** Rule actions (`set_header`, `redirect`) queue
  changes in the `ResponseCollector`. After the controller has produced its
  response, the `ExecuteRules` middleware runs the rules and lets a queued
  redirect replace the response. It then writes every queued header onto the
  response and clears the collector for the next request.
- **Route information for conditions.** The `route` context builds the
  matched route's name, parameters, controller, action, URI and middleware.
  The `route_parameter` condition either compares a parameter's value (through
  the engine's generic comparison) or checks that the parameter exists.
- **Console introspection.** This covers `rules:list`, which flattens WP's
  hook-grouped rules, and `rules:show`. It also covers `rules:packages`, and
  `rules:actions` / `rules:conditions` as written in `ListActionsCommand` and
  `ListConditionsCommand`. The last two discover types by scanning PSR-4
  directories, group them by package and sort the groups into a fixed package
  order. Two unregistered variants are modelled too: `ListRulesCommand`, a
  `rules:list` over the engine's flat rule list, and `ListPackagesCommand`, a
  `rules:packages` that counts from that list. The service provider
  (`src/AcornMilliRulesServiceProvider.php:52-61`) registers only
  `RulesListCommand` and `RulesPackagesCommand` for those two names.

Everything is pure functions over immutable datatypes:

- PHP arrays are insertion-ordered association lists with unique keys (`Assoc`).
- PHP values are `Php.Value`. `Php.Error` is an uncaught `TypeError` or `Error`.
- A response is a status code plus a header map. Its keys are normalised the
  way Symfony's header bag normalises them: lower-cased, with `_` turned
  into `-`.
- The rule engine, the router, Composer's class loader, the filesystem and
  reflection all become parameters. These are the actions the engine executes,
  a `RouteInfo`, a `Filesystem`, and an `Environment` with `typeOf` and `camel`.

## Model

| member | source | states |
|---|---|---|
| Php.ArrayKey | src/Console/Commands/ListPackagesCommand.php:22-23 | a `_package` value used as the counts' key: arrays and objects raise "Illegal offset type", every other value names a key |
| Php.Count | src/Console/Commands/RulesListCommand.php:47-48 | `count()` succeeds exactly on arrays, giving their number of entries |
| Php.CoerceStringArg | src/Console/Commands/RulesListCommand.php:35 | a `string` parameter rejects arrays and objects and otherwise receives the value's string form |
| Php.RTrim | src/Console/Commands/Concerns/ScansRegisteredTypes.php:163 | `rtrim` removes exactly the trailing run of the character: the result is a prefix, does not end in it, and only that character was dropped |
| Php.ImplodeAppend | src/Console/Commands/RulesPackagesCommand.php:45 | joining two non-empty lists puts exactly one separator between their joins, and one part joins to itself, so the dependency cell is the names separated by `, ` |
| ResponseCollector.Fresh | src/ResponseCollector.php:16-21 | a new collector has no queued headers, no replacement response, and redirect status 302 |
| ResponseCollector.AddHeader | src/ResponseCollector.php:26-29 | the header is queued under the name as written; other names keep their values; a new name is appended and an existing one keeps its position; the redirect is untouched |
| ResponseCollector.SetRedirect | src/ResponseCollector.php:34-38 | afterwards a replacement exists: a redirect to the URL with the given status; queued headers are untouched |
| ResponseCollector.SetRedirectDefault | src/ResponseCollector.php:34-38 | omitting the status yields a 302 redirect whose Location is the URL |
| ResponseCollector.GetReplacement | src/ResponseCollector.php:43-58 | null exactly when no redirect is queued; otherwise a response with the queued status and Location |
| ResponseCollector.Clear | src/ResponseCollector.php:73-78 | the collector returns to the state of a new one, whatever came before |
| ResponseCollector.ReplayHeaders | src/ResponseCollector.php:26-29 | after any sequence of calls, each header name holds the value of its last `addHeader`; redirect calls never disturb headers |
| ResponseCollector.ReplayRedirect | src/ResponseCollector.php:34-38 | after any sequence of calls, only the last `setRedirect` is visible; header calls never disturb it |
| Http.SetHeader | src/Http/Middleware/ExecuteRules.php:34 | setting a header replaces the value stored under its normalised name (lower-cased, `_` turned into `-`), so differently written spellings of one name share a slot; the status and every other header are left alone |
| Http.Redirect | src/ResponseCollector.php:57 | the modelled redirect response carries the status and a Location header and no other header (Symfony's `Cache-Control`, `Date` and `Content-Type` defaults are left out) |
| Http.HeaderKey | src/Http/Middleware/ExecuteRules.php:34 | the header bag's key for a name: character by character, `_` becomes `-`, ASCII capitals become lower case, everything else is kept |
| Actions.TypeOf | src/Packages/Acorn/Actions/SetHeader.php:17-20 | the type names are `set_header` and `redirect`, one per action |
| Actions.Ops | src/Packages/Acorn/Actions/Redirect.php:22-30 | an action makes one collector call when its header name or URL is non-empty, and none otherwise |
| Actions.Execute | src/Packages/Acorn/Actions/SetHeader.php:22-30 | `set_header` with an empty name changes nothing; otherwise exactly that header is queued, with value `''` when none is given, and the redirect is untouched; `redirect` with an empty URL changes nothing; otherwise the replacement is a redirect to the URL with status 302 unless given, and queued headers are untouched |
| Actions.RunActionsIsReplay | src/Packages/Acorn/Actions/SetHeader.php:26-29 | running actions in order is exactly replaying the collector calls they make, in order |
| Actions.RunActionsKeepsTargetNonEmpty | src/Packages/Acorn/Actions/Redirect.php:27-29 | through the actions an empty redirect URL is never queued |
| ExecuteRules.ApplyHeaders | src/Http/Middleware/ExecuteRules.php:33-35 | after the loop, each header key holds the value of the last queued header whose normalised name is that key, or its old value; the status is unchanged |
| ExecuteRules.Handle | src/Http/Middleware/ExecuteRules.php:19-41 | the collector ends fresh; the status is the redirect's if one was queued, else the baseline's; every header is the last queued value for its key, else the redirect's Location (when redirected), else the baseline's header |
| ExecuteRules.QueuedHeaderApplied | src/Http/Middleware/ExecuteRules.php:33-35 | every queued header is present on the final response |
| ExecuteRules.LastForKeyPresent | src/Http/Middleware/ExecuteRules.php:33-35 | a queued name always has a last value for its normalised key |
| ExecuteRules.HandleFromFresh | src/Http/Middleware/ExecuteRules.php:19-41 | from a fresh collector, the last non-empty redirect sets the status (else the baseline's stands), and every header named by a non-empty `set_header` is on the response |
| ExecuteRules.Serve | src/Http/Middleware/ExecuteRules.php:19-41 | a long-lived process answers one response per request |
| ExecuteRules.ServeIsolates | src/Http/Middleware/ExecuteRules.php:37-38 | when rules complete, each request after the first is answered as if the collector were new |
| ExecuteRules.CaseVariantsFollowQueueOrder | src/Http/Middleware/ExecuteRules.php:33-35 | queuing `X-A: 1`, `x-a: 2`, `X-A: 3` ends with `x-a: 2`: among spellings of one header, the first-queued order decides, not the last call |
| ExecuteRules.HandleRun | src/Http/Middleware/ExecuteRules.php:21-38 | as written: on a normal return the outcome is `Handle`'s and the collector is fresh; when the engine raises, the exception propagates and the collector keeps what the actions queued |
| ExecuteRules.LeakAfterRaise | src/Http/Middleware/ExecuteRules.php:23-38 | as written, a header queued before the engine raised is sent on the next request's response |
| ExecuteRules.ServeRuns | src/Http/Middleware/ExecuteRules.php:19-41 | the as-written middleware answers one exit per request |
| ExecuteRules.HandleRunGuarded | src/Http/Middleware/ExecuteRules.php:37-38 | corrected: the collector ends fresh on both exits, and the normal exit is `Handle`'s response |
| ExecuteRules.ServeRunsGuarded | src/Http/Middleware/ExecuteRules.php:19-41 | the corrected middleware answers one exit per request |
| ExecuteRules.ServeRunsGuardedIsolates | src/Http/Middleware/ExecuteRules.php:37-38 | corrected, each request after the first behaves as if the collector were new, even after an exception |
| RouteContext.GetKey | src/Packages/Acorn/Contexts/Route.php:23-26 | the context key is `route` |
| RouteContext.SplitAtFirst | src/Packages/Acorn/Contexts/Route.php:57-58 | `explode('@', $uses, 2)`: controller, `@`, action rebuild the string and the controller holds no `@` |
| RouteContext.SplitAtFirstUnique | src/Packages/Acorn/Contexts/Route.php:57-58 | that split is the only one with an `@`-free controller |
| RouteContext.EmptyRoute | src/Packages/Acorn/Contexts/Route.php:80-90 | the empty structure has empty strings and empty lists in all six fields |
| RouteContext.Build | src/Packages/Acorn/Contexts/Route.php:44-73 | no route gives the empty structure; otherwise the name defaults to `''` and the parameters to `[]`; the URI and middleware are copied; a `uses` string with `@` splits at the first `@`, one without is all controller, anything else gives empty controller and action |
| RouteParameter.GetArgumentMapping | src/Packages/Acorn/Conditions/RouteParameter.php:35-38 | builder arguments map to `name`, then `value` |
| RouteParameter.GetType | src/Packages/Acorn/Conditions/RouteParameter.php:43-46 | the type is `route_parameter` |
| RouteParameter.ActualValue | src/Packages/Acorn/Conditions/RouteParameter.php:80-93 | a missing, empty or non-string name gives `''`; so does a missing or non-scalar parameter; a scalar gives its string form |
| RouteParameter.Matches | src/Packages/Acorn/Conditions/RouteParameter.php:53-72 | with a `value` key (even null) the generic comparison decides; without one, the negative operators `NOT EXISTS`, `!=` and `IS NOT` match an empty actual value, and every other operator matches a non-empty one |
| RouteParameter.ExistenceChecksComplementary | src/Packages/Acorn/Conditions/RouteParameter.php:57-68 | without a `value`, each negative operator gives the opposite verdict of any non-negative one |
| PackageOrder.StrCmp | src/Console/Commands/Concerns/ScansRegisteredTypes.php:67 | the sign of `strcmp` |
| PackageOrder.Compare | src/Console/Commands/Concerns/ScansRegisteredTypes.php:62-68 | the comparator returns a sign |
| PackageOrder.StrCmpZero | src/Console/Commands/Concerns/ScansRegisteredTypes.php:67 | `strcmp` is 0 exactly for equal strings |
| PackageOrder.StrCmpAntisymmetric | src/Console/Commands/Concerns/ScansRegisteredTypes.php:67 | swapping the arguments negates `strcmp` |
| PackageOrder.StrCmpTransitive | src/Console/Commands/Concerns/ScansRegisteredTypes.php:67 | `strcmp` order is transitive |
| PackageOrder.CompareZero | src/Console/Commands/Concerns/ScansRegisteredTypes.php:62-68 | the comparator is 0 exactly for equal names |
| PackageOrder.CompareAntisymmetric | src/Console/Commands/Concerns/ScansRegisteredTypes.php:62-68 | swapping the arguments negates the comparator |
| PackageOrder.CompareTransitive | src/Console/Commands/Concerns/ScansRegisteredTypes.php:62-68 | the comparator's order is transitive |
| PackageOrder.CompareIsStrictTotalOrder | src/Console/Commands/Concerns/ScansRegisteredTypes.php:62-68 | the comparator is a strict total order, so the sorted group order is well defined |
| PackageOrder.FixedOrder | src/Console/Commands/Concerns/ScansRegisteredTypes.php:61-65 | Core < PHP < WP < any other package < App < Callback |
| ScanTypes.PackageMapDomain | src/Console/Commands/Concerns/ScansRegisteredTypes.php:78-89 | the map holds exactly the namespaces some package declares |
| ScanTypes.PackageMapLastWins | src/Console/Commands/Concerns/ScansRegisteredTypes.php:82-86 | a namespace declared twice belongs to the last package declaring it |
| ScanTypes.ResolvePackageName | src/Console/Commands/Concerns/ScansRegisteredTypes.php:96-111 | a mapped namespace gives its package; otherwise `App\` prefixes give App, `MilliRules\` prefixes give Core, anything else gives Custom |
| ScanTypes.ResolvedNameIsKnown | src/Console/Commands/Concerns/ScansRegisteredTypes.php:96-111 | every namespace resolves to a registered package's name or to App, Core or Custom |
| ScanTypes.NormalizeNamespace | src/Console/Commands/Concerns/ScansRegisteredTypes.php:163 | the normal form ends in exactly one `\` after the trailing backslashes are trimmed |
| ScanTypes.NormalizeNamespaceIdempotent | src/Console/Commands/Concerns/ScansRegisteredTypes.php:163 | normalising twice is normalising once |
| ScanTypes.SubPath | src/Console/Commands/Concerns/ScansRegisteredTypes.php:177 | the sub-path is what follows the prefix, as long, with every `\` turned into `/` and every other character kept |
| ScanTypes.FirstDir | src/Console/Commands/Concerns/ScansRegisteredTypes.php:167-171 | the first listed directory that exists; none exactly when none exists |
| ScanTypes.DerivedPaths | src/Console/Commands/Concerns/ScansRegisteredTypes.php:179-180 | one candidate path per directory, in order |
| ScanTypes.SearchPrefixes | src/Console/Commands/Concerns/ScansRegisteredTypes.php:175-189 | a found directory exists and is derived from a prefix of the namespace; none found means no derived candidate exists (the first-candidate order is `SearchPrefixesFirst`) |
| ScanTypes.FirstDirAppend | src/Console/Commands/Concerns/ScansRegisteredTypes.php:179-185 | the first existing directory of a concatenation is the first of the front part if any, else the first of the back part |
| ScanTypes.SearchPrefixesFirst | src/Console/Commands/Concerns/ScansRegisteredTypes.php:175-189 | the parent-prefix search returns the first existing candidate, taking prefixes in order and each matching prefix's directories in order |
| ScanTypes.FindNamespaceDirectory | src/Console/Commands/Concerns/ScansRegisteredTypes.php:160-190 | a direct PSR-4 match with an existing directory wins; otherwise the parent-prefix search decides; any result exists |
| ScanTypes.AfterLast | src/Console/Commands/Concerns/ScansRegisteredTypes.php:215 | the position after the last separator, with none after it |
| ScanTypes.Basename | src/Console/Commands/Concerns/ScansRegisteredTypes.php:215 | the base name holds no `/`, ends the path, and is preceded by `/` or is the whole path |
| ScanTypes.FileStem | src/Console/Commands/Concerns/ScansRegisteredTypes.php:215 | `pathinfo(..., PATHINFO_FILENAME)`: the stem is a prefix of the base name; it is the whole base name exactly when that has no dot, and otherwise stops at the base name's last dot |
| ScanTypes.ClassNames | src/Console/Commands/Concerns/ScansRegisteredTypes.php:214-215 | one class name per file, in file order: the namespace without trailing backslashes, a backslash, and the file's stem |
| ScanTypes.ExistingOfSound | src/Console/Commands/Concerns/ScansRegisteredTypes.php:217-219 | a name is kept only if it is one of the candidates and exists as a class |
| ScanTypes.ExistingOfComplete | src/Console/Commands/Concerns/ScansRegisteredTypes.php:217-219 | every candidate that exists as a class is kept |
| ScanTypes.ExistingOfAppend | src/Console/Commands/Concerns/ScansRegisteredTypes.php:214-220 | keeping the existing names preserves order: for two candidate lists it keeps those of the first, then those of the second |
| ScanTypes.ExistingClassesMembers | src/Console/Commands/Concerns/ScansRegisteredTypes.php:211-222 | the classes are exactly the files' namespace-qualified stems that exist as classes (order and multiplicity in `ExistingClassesAppend` and `ExistingClassesSingle`) |
| ScanTypes.ExistingClassesAppend | src/Console/Commands/Concerns/ScansRegisteredTypes.php:214-220 | classes come in file order: the classes of two file lists are those of the first followed by those of the second |
| ScanTypes.ExistingClassesSingle | src/Console/Commands/Concerns/ScansRegisteredTypes.php:215-219 | one file yields its qualified stem exactly when that class exists |
| ScanTypes.ScanNamespaceForClasses | src/Console/Commands/Concerns/ScansRegisteredTypes.php:197-223 | no directory gives no classes; otherwise the result is `ExistingClasses` of the directory's `*.php` files in glob order (so no PHP file gives none), and its members are exactly the files' namespace-qualified stems that exist as classes |
| ScanTypes.TypeInfos | src/Console/Commands/Concerns/ScansRegisteredTypes.php:118-143 | each entry comes from a scanned class of the right kind, with its type, builder `->camel(...)` and class name; and every scanned class of the kind yields its entry |
| ScanTypes.TypeInfosAppend | src/Console/Commands/Concerns/ScansRegisteredTypes.php:39-44 | type infos come in class order: those of two class lists are those of the first followed by those of the second |
| ScanTypes.TypeInfosSingle | src/Console/Commands/Concerns/ScansRegisteredTypes.php:118-143 | one class yields one entry exactly when it is a concrete type of the kind |
| ScanTypes.AppendAll | src/Console/Commands/Concerns/ScansRegisteredTypes.php:43 | appending adds the entries to one package's group and leaves the others alone |
| ScanTypes.GroupNamespacesContents | src/Console/Commands/Concerns/ScansRegisteredTypes.php:36-46 | a package has a group exactly when some namespace resolving to it yields types, and the group holds those types in order |
| ScanTypes.AddCallbacks | src/Console/Commands/Concerns/ScansRegisteredTypes.php:53-59 | callback types touch only the Callback group |
| ScanTypes.CallbackInfos | src/Console/Commands/Concerns/ScansRegisteredTypes.php:54-58 | one `(callback)` entry per callback type, in order |
| ScanTypes.AddCallbacksAppends | src/Console/Commands/Concerns/ScansRegisteredTypes.php:53-59 | the Callback group gains exactly the callback entries, after any it already had |
| ScanTypes.Insert | src/Console/Commands/Concerns/ScansRegisteredTypes.php:62-68 | inserting keeps the groups ordered and adds exactly the one group |
| ScanTypes.InsertFront | src/Console/Commands/Concerns/ScansRegisteredTypes.php:62-68 | a group ranked before the head can go in front |
| ScanTypes.InsertBehind | src/Console/Commands/Concerns/ScansRegisteredTypes.php:62-68 | a group ranked after the head goes behind it, keeping the order |
| ScanTypes.SortGroups | src/Console/Commands/Concerns/ScansRegisteredTypes.php:62-68 | `uksort` yields a permutation of the groups in strictly increasing package order |
| ScanTypes.SortedRestAvoidsHead | src/Console/Commands/Concerns/ScansRegisteredTypes.php:62-68 | a permutation of the tail never contains the head's package |
| ScanTypes.OrderedUnique | src/Console/Commands/Concerns/ScansRegisteredTypes.php:62-68 | strictly ordered groups never repeat a package |
| ScanTypes.PermutationKeepsLookups | src/Console/Commands/Concerns/ScansRegisteredTypes.php:62-68 | sorting does not change any package's group |
| ScanTypes.KeyInPermutation | src/Console/Commands/Concerns/ScansRegisteredTypes.php:62-68 | a permutation has the same packages |
| ScanTypes.DiscoverTypes | src/Console/Commands/Concerns/ScansRegisteredTypes.php:27-71 | the groups are in package order and each holds what the unsorted grouping held |
| ScanTypes.DiscoverTypesContents | src/Console/Commands/Concerns/ScansRegisteredTypes.php:27-71 | each package's group holds the types from its namespaces in namespace then scan order, plus, for Callback, one entry per callback type; no group is empty |
| RuleCommands.RulesIn | src/Console/Commands/RulesListCommand.php:81-85 | inside a hook group, exactly the arrays with an `id` are kept, and never more entries than the group has (order in `RulesInAppend` and `RulesInSingle`) |
| RuleCommands.RulesInAppend | src/Console/Commands/RulesListCommand.php:81-85 | the kept rules of a concatenation are those of the first part followed by those of the second |
| RuleCommands.RulesInSingle | src/Console/Commands/RulesListCommand.php:82-84 | one entry is kept exactly when it is an array with an `id` |
| RuleCommands.FlattenRules | src/Console/Commands/RulesListCommand.php:73-95 | any package other than WP has its rules listed unchanged |
| RuleCommands.FlattenWpMembers | src/Console/Commands/RulesListCommand.php:76-91 | WP's flattening keeps exactly the arrays with an `id`, taken from string-keyed hook groups or from top-level entries |
| RuleCommands.FlattenWpAppend | src/Console/Commands/RulesListCommand.php:78-91 | WP's flattening of a concatenation of top-level entries is the flattening of the first part followed by that of the second |
| RuleCommands.FlattenWpSnoc | src/Console/Commands/RulesListCommand.php:78-91 | one more top-level entry appends exactly its contribution |
| RuleCommands.FlattenWpSingle | src/Console/Commands/RulesListCommand.php:79-88 | one top-level entry contributes its hook group's rules in order, or itself when it is a rule, or nothing |
| RuleCommands.EnabledCell | src/Console/Commands/RulesListCommand.php:45 | `No` exactly when `enabled` is `false`, `Yes` otherwise |
| RuleCommands.MakeRow | src/Console/Commands/RulesListCommand.php:39-49 | a row exists exactly when conditions and actions are countable; its defaults are id `unnamed`, order 10 and match `all`; its counts are the sizes of the arrays, or 0 when unset |
| RuleCommands.IdPasses | src/Console/Commands/RulesListCommand.php:33-37 | no truthy filter keeps every rule; with one, an array or object id raises (`str_contains` in coercive mode) and any other id is kept exactly when its string form contains the filter |
| RuleCommands.RowOf | src/Console/Commands/RulesListCommand.php:26-49 | a rule yields at most one row; it yields one exactly when it passes the package filter and the id filter, and that row is `MakeRow`'s; it raises exactly when it passes the package filter and then either its id cannot be read or its row cannot be built; without a package filter a displayable rule never raises |
| RuleCommands.RowsAppend | src/Console/Commands/RulesListCommand.php:32-50 | the row loop over a concatenation fails with the first failure, else gives the first part's rows followed by the second's |
| RuleCommands.RowsSingle | src/Console/Commands/RulesListCommand.php:32-50 | the row loop over one rule is that rule's contribution, so the rows are an order-preserving filter-map of the rules |
| RuleCommands.RowsSucceeds | src/Console/Commands/RulesListCommand.php:32-50 | the row loop succeeds exactly when no rule's contribution raises |
| RuleCommands.RowsComplete | src/Console/Commands/ListRulesCommand.php:25-48 | in a successful listing, every rule passing both filters has its row listed |
| RuleCommands.RowsSound | src/Console/Commands/ListRulesCommand.php:25-48 | every listed row passes both filters and is the row of an input rule |
| RuleCommands.RowsCount | src/Console/Commands/RulesListCommand.php:32-50 | with displayable rules, the listing succeeds with one row per rule whose id passes the filter |
| RuleCommands.RulesListRows | src/Console/Commands/RulesListCommand.php:23-51 | no loaded package gives no rows (success in `RulesListRowsSucceeds`; the package-by-package concatenation in `RulesListRowsAppend` and `RulesListRowsSingle`) |
| RuleCommands.RulesListRowsAppend | src/Console/Commands/RulesListCommand.php:23-51 | the rows for a concatenation of package lists fail with the first failure, else are the first part's rows followed by the second's |
| RuleCommands.RulesListRowsSingle | src/Console/Commands/RulesListCommand.php:23-51 | one package's rows are its filtered rules' rows, tagged with its name |
| RuleCommands.RulesListRowsSucceeds | src/Console/Commands/RulesListCommand.php:23-51 | `rules:list` succeeds exactly when every loaded package's rows do |
| RuleCommands.RowsOfPackageComplete | src/Console/Commands/RulesListCommand.php:29-50 | within one package that passes the package filter, every flattened rule whose id passes the id filter has its row |
| RuleCommands.RulesListComplete | src/Console/Commands/RulesListCommand.php:23-50 | in a successful listing, every flattened rule of a package passing the filter, whose id passes the id filter, has its row |
| RuleCommands.RulesListRowsPackages | src/Console/Commands/RulesListCommand.php:23-30 | every row names a loaded package that passes the package filter |
| RuleCommands.RulesList | src/Console/Commands/RulesListCommand.php:16-65 | the exit code is SUCCESS; the info line appears exactly when there are no rows; the command fails only where a row fails; the rows are `RulesListRows`, i.e. the loaded packages' rows in load order |
| RuleCommands.ListRules | src/Console/Commands/ListRulesCommand.php:16-63 | the exit code is SUCCESS; the info line appears exactly when there are no rows; it fails exactly when the row loop fails; the rows are the row loop's, an order-preserving filter-map of the engine's rule list |
| RuleCommands.ListRulesRowsPass | src/Console/Commands/ListRulesCommand.php:25-36 | each row's `_package` (default `unknown`) equals the filter when one is given, and its id contains the id filter |
| RuleCommands.Tag | src/Console/Commands/RulesShowCommand.php:20-31 | each searched rule carries its package |
| RuleCommands.FindFirst | src/Console/Commands/RulesShowCommand.php:24-29 | the match is the first rule in search order whose id is the argument; none exactly when no rule has it |
| RuleCommands.FoundRuleIsTruthy | src/Console/Commands/RulesShowCommand.php:33 | a matched rule is truthy, so `! $found` means no match |
| RuleCommands.FormatValue | src/Console/Commands/RulesShowCommand.php:94-101 | a non-array is cast to string; an array succeeds exactly when no element is an object and then shows `[` + its elements' `strval`s joined by `, ` + `]` |
| RuleCommands.StrVals | src/Console/Commands/RulesShowCommand.php:97 | `strval` of each element, in order; it fails exactly when some element is an object |
| RuleCommands.ConditionLineOf | src/Console/Commands/RulesShowCommand.php:61-66 | the type defaults to `unknown`, the operator to `=`, the value to `''`, and otherwise each is its field's string form (the value through `formatValue`); the ` [name]` suffix appears exactly when the name is set; the line fails exactly when a printed field is an object or an array value holds one |
| RuleCommands.ConditionLines | src/Console/Commands/RulesShowCommand.php:60-67 | one line per condition, line i being condition i's line; the list fails exactly when some condition's line fails |
| RuleCommands.WithoutType | src/Console/Commands/RulesShowCommand.php:80-81 | the arguments are exactly the action's entries other than `type` |
| RuleCommands.WithoutTypeAppend | src/Console/Commands/RulesShowCommand.php:80-81 | `unset($args['type'])` keeps the other entries in their order: removing `type` from a concatenation removes it from each part |
| RuleCommands.WithoutTypeSingle | src/Console/Commands/RulesShowCommand.php:80-81 | one entry is dropped exactly when its key is `type` |
| RuleCommands.ActionLineOf | src/Console/Commands/RulesShowCommand.php:79-84 | the type defaults to `unknown`, else is the `type` field's string form; an array action shows its arguments minus `type`; null and false show none; other scalars and objects raise |
| RuleCommands.ActionLines | src/Console/Commands/RulesShowCommand.php:78-85 | one line per action, line i being action i's line; the list fails exactly when some action's line fails |
| RuleCommands.OrderCell | src/Console/Commands/RulesShowCommand.php:43 | the Order cell is `10` when the metadata order is unset, else the order's string form; it raises exactly on an object |
| RuleCommands.HookCells | src/Console/Commands/RulesShowCommand.php:47-50 | the hook lines exist exactly when the metadata hook is non-empty; they show the hook and the priority, which defaults to `10`; they raise exactly on an object priority |
| RuleCommands.DetailOf | src/Console/Commands/RulesShowCommand.php:39-86 | the detail shows the rule's id, package and Enabled cell; order defaults to `10`; match type to `all`; the hook lines appear exactly when the metadata hook is non-empty, with priority defaulting to `10`; the condition and action lines are `ConditionLines` and `ActionLines` of the arrays; it fails exactly when a printed cell is an object, the conditions or actions are not arrays, or a line fails |
| RuleCommands.RulesShow | src/Console/Commands/RulesShowCommand.php:14-89 | no match gives FAILURE and the not-found error; a match succeeds exactly when the first matching rule's detail does, and then gives SUCCESS, no notice and that detail, with the argument as id and the rule's package |
| PackageCommands.Row | src/Console/Commands/RulesPackagesCommand.php:41-47 | name and availability are copied; Loaded is membership in the loaded set; Dependencies is `-` when there are none, else the names joined by `, `; the Rules cell is `-` exactly for packages not loaded, else the count |
| PackageCommands.Reported | src/Console/Commands/RulesPackagesCommand.php:50-61 | the exit code is SUCCESS; the warning appears exactly when there are no rows |
| PackageCommands.DependencyCell | src/Console/Commands/RulesPackagesCommand.php:45 | no dependencies give `-`; otherwise the names joined by `, ` |
| PackageCommands.PackageRows | src/Console/Commands/RulesPackagesCommand.php:18-48 | one row per registered package, in order |
| PackageCommands.RulesPackages | src/Console/Commands/RulesPackagesCommand.php:14-62 | as written: one row per package in order, with name, availability, loaded flag and dependency cell; the Rules cell is `-` exactly when not loaded; a loaded non-WP package shows its number of rules, WP shows the sum of `count()` over its top-level arrays; the warning appears exactly when no package is registered; SUCCESS always |
| PackageCommands.UnloadedRulesUnread | src/Console/Commands/RulesPackagesCommand.php:26-39 | the rules of packages that are not loaded do not affect the output |
| PackageCommands.WpCountBoundsFlattened | src/Console/Commands/RulesPackagesCommand.php:30-35 | as written, WP's count is never below the number of rules `rules:list` shows |
| PackageCommands.TopLevelRuleMiscounted | src/Console/Commands/RulesPackagesCommand.php:30-35 | as written, a WP rule at the top level counts as its number of fields: 2, while `rules:list` shows 1 |
| PackageCommands.RulesPackagesCorrected | src/Console/Commands/RulesPackagesCommand.php:14-62 | corrected: one row per package, SUCCESS, warning exactly when empty |
| PackageCommands.RulesListCountsFlattened | src/Console/Commands/RulesListCommand.php:23-51 | an unfiltered `rules:list` of one package shows as many rows as the corrected count |
| PackageCommands.CorrectedCountAgreesWithList | src/Console/Commands/RulesPackagesCommand.php:24-46 | corrected, a loaded package's Rules cell equals the number of rows `rules:list` shows for it |
| PackageCommands.RowsKeepAll | src/Console/Commands/RulesListCommand.php:32-50 | with no filters, a successful listing has one row per rule |
| PackageCommands.Bump | src/Console/Commands/ListPackagesCommand.php:23 | incrementing adds one under the key and leaves the others alone |
| PackageCommands.BumpSum | src/Console/Commands/ListPackagesCommand.php:23 | an increment adds one to the total |
| PackageCommands.BumpUnique | src/Console/Commands/ListPackagesCommand.php:23 | the counts stay a PHP array |
| PackageCommands.CountByUnique | src/Console/Commands/ListPackagesCommand.php:19-24 | no package is counted under two entries |
| PackageCommands.CountBySucceeds | src/Console/Commands/ListPackagesCommand.php:21-24 | counting fails exactly when some rule's `_package` cannot be an array key |
| PackageCommands.CountByStep | src/Console/Commands/ListPackagesCommand.php:21-24 | one more rule keeps the count going exactly when the count so far and that rule's key both succeed |
| PackageCommands.CountByTallies | src/Console/Commands/ListPackagesCommand.php:19-24 | each key holds the number of rules carrying it, and no key without rules appears |
| PackageCommands.CountByTally | src/Console/Commands/ListPackagesCommand.php:19-24 | the same, for one key |
| PackageCommands.CountsSumToRules | src/Console/Commands/ListPackagesCommand.php:19-24 | the counts add up to the number of rules |
| PackageCommands.ListPackages | src/Console/Commands/ListPackagesCommand.php:16-55 | fails exactly when counting fails; otherwise SUCCESS, `No packages registered.` exactly when there are no packages, and one row per package in order with its name, availability, loaded flag, dependency cell, and `-` exactly when not loaded |
| PackageCommands.ListPackagesCountsTagged | src/Console/Commands/ListPackagesCommand.php:39 | a loaded package's Rules cell is the number of listed rules whose `_package` is its name |
| TypeCommands.GroupRows | src/Console/Commands/ListActionsCommand.php:31-38 | one row per type of the group, carrying the group's package |
| TypeCommands.TypeRowsAppend | src/Console/Commands/ListActionsCommand.php:26-39 | the rows of a concatenation of groups are the first part's rows followed by the second's: group order, then type order |
| TypeCommands.TypeRowsSingle | src/Console/Commands/ListActionsCommand.php:26-39 | one group gives its types' rows in order when its package is shown, and nothing otherwise |
| TypeCommands.TypeRowsMembers | src/Console/Commands/ListActionsCommand.php:26-39 | a row is listed exactly when its package passes the filter and the type is in that package's group |
| TypeCommands.OrderedTail | src/Console/Commands/Concerns/ScansRegisteredTypes.php:62-68 | the groups after the first remain ordered |
| TypeCommands.RestAfterHead | src/Console/Commands/ListActionsCommand.php:26-39 | rows after the first group belong to later packages |
| TypeCommands.TypeRowsInPackageOrder | src/Console/Commands/ListActionsCommand.php:26-39 | rows appear in package order |
| TypeCommands.FilterSelectsOneGroup | src/Console/Commands/ListActionsCommand.php:26-29 | with a truthy filter the listing is exactly the named group's rows |
| TypeCommands.ListTypes | src/Console/Commands/ListActionsCommand.php:18-53 | SUCCESS always; the info line appears exactly when there are no rows, naming the kind; the rows are the discovered groups' rows under the filter, group by group |
| TypeCommands.ListActions | src/Console/Commands/ListActionsCommand.php:18-53 | SUCCESS; `No actions found.` exactly when empty; rows in package order; the rows are the discovered action groups' rows in group order; a row is listed exactly when its package passes the filter and its type is in that package's group |
| TypeCommands.ListConditions | src/Console/Commands/ListConditionsCommand.php:18-53 | SUCCESS; `No conditions found.` exactly when empty; rows in package order; the rows are the discovered condition groups' rows in group order; a row is listed exactly when its package passes the filter and its type is in that package's group |
| TypeCommands.ListTypesMembers | src/Console/Commands/ListConditionsCommand.php:26-39 | a row is listed exactly when its package passes the filter and the type is in that package's discovered group |
| TypeCommands.ListTypesListsDiscovered | src/Console/Commands/ListConditionsCommand.php:26-39 | the same for every row at once |
| TypeCommands.ListTypesInPackageOrder | src/Console/Commands/ListActionsCommand.php:26-39 | the listing follows the package order |

## Left out

- The rule engine is not modelled. This covers rule matching, argument
  resolution and placeholder substitution (`get_arg()->string()` and
  `->int()`), and `BaseCondition`'s generic comparison. Actions receive
  already-resolved optional arguments. `RouteParameter.Matches` takes the
  comparison's verdict as a parameter.
- Route lookups through dotted context paths (`Context::get`, `load`) are a map
  from path to value. A parameter name that itself contains dots is not modelled.
- Symfony's `RedirectResponse` validation is not modelled: a status outside
  3xx and an empty URL both throw there. Its default headers (`Cache-Control`,
  `Date`, and the `Content-Type: text/html; charset=utf-8` that
  `setTargetUrl` sets together with an HTML body) and the header bag's special handling of `Cache-Control` and
  `Set-Cookie` are also not modelled. A response is a status and a header map
  keyed by normalised name.
- PHP floats, `Countable` and `Stringable` objects, resources and the
  canonicalisation of numeric-string array keys are not modelled. Objects are
  one opaque `Obj` that is neither countable nor convertible to string.
- Console rendering is not modelled: colour tags, table layout and
  `json_encode` of action arguments. A row keeps each cell's PHP value. A
  `rules:show` action line keeps the argument entries, not their JSON text.
- `rules:show` passes `twoColumnDetail` PHP values that are not strings (for
  example an array `match_type`). Laravel's handling of those is not modelled.
- `Str::camel`, reflection (`implementsInterface`, `isAbstract`,
  instantiation, `get_type()`), `class_exists`, `is_dir` and `glob` are
  parameters of `ScanTypes.Environment`. So are Composer's class loader and
  the engine's registries (`get_registered_namespaces`, custom callbacks).
- `is_available()` of the route context, the context's caching, and the
  `RouteName` and `RouteController` conditions are not part of this model.
- Also not part of this model: the service provider and the package class
  (beyond one fact), and the generator commands (`rules:make`, `make:action`,
  `make:condition` and their variants). The one fact used is that
  `src/AcornMilliRulesServiceProvider.php:32` binds the collector as a
  singleton, so the model treats it as one object shared by consecutive
  requests in a long-running process.
- Concurrency: requests are served one after another.
- Exceptions from the rule engine: some documentation says `clear()` also
  runs when rule execution fails, but the middleware has no `finally`. The
  model follows the code (`ExecuteRules.HandleRun`) and records the
  difference under Findings.
- Empty action arguments: both actions skip the collector call when their
  first argument is the empty string. The documentation does not mention this
  check; the model follows the code.
- Offset reads on objects: in PHP, `$v['x']` and `$v['x'] ?? $d` on an object
  that does not implement `ArrayAccess` throw "Cannot use object of type … as
  array". `Php.Field` and `Php.Coalesce` treat every non-array as having no
  fields, so the model gives the default there. This affects a rule, a
  `_metadata`, a condition or an action that is an object. The engine's rules
  are arrays, and the model's objects are opaque, so `ArrayAccess` is not
  modelled either.
- `RulesActionsCommand` and `RulesConditionsCommand`, which the service provider
  registers under `rules:actions` and `rules:conditions`, are not part of this
  model. The model follows `ListActionsCommand` and `ListConditionsCommand`.
- RuleCommands.ActionLineOf: every object action raises. PHP would call
  `offsetUnset` on an `ArrayAccess` object; the model's objects are opaque.

## Findings

| source | as written | input that shows it | evidently intended | confidence | as-written member | corrected member |
|---|---|---|---|---|---|---|
| src/Http/Middleware/ExecuteRules.php:23-38 | `clear()` runs only after a normal return, so an exception from rule execution leaves the queued headers and redirect in the shared collector (a queued redirect status outside 3xx makes `getReplacement()` at line 29 throw in the `RedirectResponse` constructor, a second path to the same leak; redirect validation is not modelled) | request 1 queues `x-debug: 1`, then the engine raises; request 2 runs no action and gets `x-debug: 1` on its response | the collector is reset for every request ("Clear for next request") whatever happened in the previous one | medium; not executed | ExecuteRules.HandleRun, ExecuteRules.LeakAfterRaise | ExecuteRules.HandleRunGuarded, ExecuteRules.ServeRunsGuardedIsolates |
| src/Console/Commands/RulesPackagesCommand.php:30-35 | WP's rule count sums `count()` over every top-level array, treating each as a hook group | WP rules `[0 => ['id' => 'r', 'enabled' => true]]`: the Rules column shows 2, while `rules:list` lists 1 rule | the number of WP rules, flattened as `rules:list` and `rules:show` flatten them | medium; not executed | PackageCommands.RulesPackages, PackageCommands.TopLevelRuleMiscounted | PackageCommands.RulesPackagesCorrected, PackageCommands.CorrectedCountAgreesWithList |
