/** What the rule engine's package registry reports about one package. */
module Registry {
  import Php

  datatype PackageInfo = PackageInfo(
    name: string,
    namespaces: seq<string>,
    available: bool,
    dependencies: seq<string>,
    rules: seq<(Php.Key, Php.Value)>)
}
