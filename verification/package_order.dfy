/**
 The order in which the type listings show their package groups: Core, PHP
 and WP first, then every other package by `strcmp`, then App and Callback.
 */
module PackageOrder {

  /** `strcmp`, reduced to its sign. Characters compare by code point, as UTF-8 bytes do. */
  function StrCmp(a: string, b: string): (r: int)
    ensures -1 <= r <= 1
  {
    if |a| == 0 && |b| == 0 then 0
    else if |a| == 0 then -1
    else if |b| == 0 then 1
    else if a[0] < b[0] then -1
    else if a[0] > b[0] then 1
    else StrCmp(a[1..], b[1..])
  }

  /** The rank the comparator gives a package name. */
  function Rank(name: string): nat {
    if name == "Core" then 0
    else if name == "PHP" then 1
    else if name == "WP" then 2
    else if name == "App" || name == "Callback" then 99
    else 50
  }

  /** The `uksort` comparator: `$aOrder <=> $bOrder ?: strcmp($a, $b)`. */
  function Compare(a: string, b: string): (r: int)
    ensures -1 <= r <= 1
  {
    if Rank(a) < Rank(b) then -1
    else if Rank(a) > Rank(b) then 1
    else StrCmp(a, b)
  }

  lemma {:induction false} StrCmpZero(a: string, b: string)
    ensures StrCmp(a, b) == 0 <==> a == b
  {
    if |a| > 0 && |b| > 0 && a[0] == b[0] {
      StrCmpZero(a[1..], b[1..]);
      assert a == [a[0]] + a[1..] && b == [b[0]] + b[1..];
    }
  }

  lemma {:induction false} StrCmpAntisymmetric(a: string, b: string)
    ensures StrCmp(a, b) == -StrCmp(b, a)
  {
    if |a| > 0 && |b| > 0 && a[0] == b[0] {
      StrCmpAntisymmetric(a[1..], b[1..]);
    }
  }

  lemma {:induction false} StrCmpTransitive(a: string, b: string, c: string)
    requires StrCmp(a, b) < 0 && StrCmp(b, c) < 0
    ensures StrCmp(a, c) < 0
  {
    if |a| > 0 && |b| > 0 && |c| > 0 && a[0] == b[0] && b[0] == c[0] {
      StrCmpTransitive(a[1..], b[1..], c[1..]);
    }
  }

  /** The comparator returns 0 only for identical names. */
  lemma CompareZero(a: string, b: string)
    ensures Compare(a, b) == 0 <==> a == b
  {
    StrCmpZero(a, b);
  }

  lemma CompareAntisymmetric(a: string, b: string)
    ensures Compare(a, b) == -Compare(b, a)
  {
    StrCmpAntisymmetric(a, b);
  }

  lemma CompareTransitive(a: string, b: string, c: string)
    requires Compare(a, b) < 0 && Compare(b, c) < 0
    ensures Compare(a, c) < 0
  {
    if Rank(a) == Rank(b) && Rank(b) == Rank(c) {
      StrCmpTransitive(a, b, c);
    }
  }

  /** The comparator is a strict total order on package names. */
  lemma CompareIsStrictTotalOrder()
    ensures forall a: string :: Compare(a, a) == 0
    ensures forall a: string, b: string :: a != b ==> (Compare(a, b) < 0 <==> Compare(b, a) > 0) && Compare(a, b) != 0
    ensures forall a: string, b: string, c: string :: Compare(a, b) < 0 && Compare(b, c) < 0 ==> Compare(a, c) < 0
  {
    forall a: string { CompareZero(a, a); }
    forall a: string, b: string | a != b
      ensures (Compare(a, b) < 0 <==> Compare(b, a) > 0) && Compare(a, b) != 0
    {
      CompareZero(a, b);
      CompareAntisymmetric(a, b);
    }
    forall a: string, b: string, c: string | Compare(a, b) < 0 && Compare(b, c) < 0
      ensures Compare(a, c) < 0
    {
      CompareTransitive(a, b, c);
    }
  }

  predicate Special(name: string) {
    name in {"Core", "PHP", "WP", "App", "Callback"}
  }

  /** The fixed part of the order, with every other package between WP and App. */
  lemma FixedOrder(other: string)
    requires !Special(other)
    ensures Compare("Core", "PHP") < 0 && Compare("PHP", "WP") < 0
    ensures Compare("WP", other) < 0 && Compare(other, "App") < 0
    ensures Compare("App", "Callback") < 0
  {
  }
}
