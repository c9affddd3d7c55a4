/**
 The fragment of PHP's value model that the console commands and the route
 condition depend on: array keys, values, `isset`, `??`, truthiness, string
 conversion, `count`, and the string built-ins they call.
 Floats and resources are not modelled; `Obj` stands for any object,
 closures included, and is neither countable nor convertible to string.
 */
module Php {
  import opened Wrappers
  import Assoc

  datatype Key = IntKey(i: int) | StrKey(s: string)

  datatype Value =
    | Null
    | Bool(b: bool)
    | Int(i: int)
    | Str(s: string)
    | Arr(entries: seq<(Key, Value)>)
    | Obj

  /** An uncaught PHP `TypeError` or `Error`: the command aborts. */
  datatype Error = TypeError(reason: string)

  /** `$v[$field]` when `$v` is an array holding `$field`. */
  function Field(v: Value, field: string): Option<Value> {
    if v.Arr? then Assoc.Get(v.entries, StrKey(field)) else None
  }

  /** `isset($v[$field])`: the field exists and is not null. Offsets of non-arrays are never set. */
  predicate Isset(v: Value, field: string) {
    var f := Field(v, field);
    f.Some? && f.value != Null
  }

  /** `array_key_exists($field, $v)`: true even when the stored value is null. */
  predicate KeyExists(v: Value, field: string) {
    Field(v, field).Some?
  }

  /** `$v[$field] ?? $default`. */
  function Coalesce(v: Value, field: string, default: Value): (r: Value)
    ensures Isset(v, field) ==> r == Field(v, field).value
    ensures !Isset(v, field) ==> r == default
  {
    if Isset(v, field) then Field(v, field).value else default
  }

  /** PHP's conversion to bool, as used by `if ($x)` and `empty($x)`. */
  predicate Truthy(v: Value) {
    match v
    case Null => false
    case Bool(b) => b
    case Int(i) => i != 0
    case Str(s) => s != "" && s != "0"
    case Arr(es) => |es| > 0
    case Obj => true
  }

  /** A console option (`string|null`) used as a filter: only a truthy filter filters. */
  predicate TruthyOption(o: Option<string>) {
    o.Some? && Truthy(Str(o.value))
  }

  predicate IsScalar(v: Value) {
    v.Bool? || v.Int? || v.Str?
  }

  function DigitChar(d: nat): (c: char)
    requires d < 10
    ensures '0' <= c <= '9'
  {
    ['0', '1', '2', '3', '4', '5', '6', '7', '8', '9'][d]
  }

  function NatToString(n: nat): (s: string)
    ensures |s| > 0
    ensures forall i :: 0 <= i < |s| ==> '0' <= s[i] <= '9'
    decreases n
  {
    if n < 10 then [DigitChar(n)] else NatToString(n / 10) + [DigitChar(n % 10)]
  }

  /** Decimal rendering of an integer, as `(string) $i`. */
  function IntToString(i: int): (s: string)
    ensures |s| > 0
  {
    if i < 0 then "-" + NatToString(-i) else NatToString(i)
  }

  /** `(string) $v`: arrays give "Array" (with a warning), objects without `__toString` raise an `Error`. */
  function CastToString(v: Value): (r: Result<string, Error>)
    ensures r.Failure? <==> v.Obj?
  {
    match v
    case Null => Success("")
    case Bool(b) => Success(if b then "1" else "")
    case Int(i) => Success(IntToString(i))
    case Str(s) => Success(s)
    case Arr(_) => Success("Array")
    case Obj => Failure(TypeError("Object could not be converted to string"))
  }

  /** A value passed to a `string` parameter of a built-in in coercive typing mode. */
  function CoerceStringArg(v: Value): (r: Result<string, Error>)
    ensures r.Failure? <==> v.Arr? || v.Obj?
    ensures r.Success? ==> r == CastToString(v)
  {
    if v.Arr? || v.Obj? then Failure(TypeError("must be of type string")) else CastToString(v)
  }

  /**
   A value used as an array offset: integers and strings are kept, booleans
   become 0 and 1, null becomes the empty string, arrays and objects raise.
   */
  function ArrayKey(v: Value): (r: Result<Key, Error>)
    ensures r.Failure? <==> v.Arr? || v.Obj?
  {
    match v
    case Null => Success(StrKey(""))
    case Bool(b) => Success(IntKey(if b then 1 else 0))
    case Int(i) => Success(IntKey(i))
    case Str(s) => Success(StrKey(s))
    case Arr(_) => Failure(TypeError("Illegal offset type"))
    case Obj => Failure(TypeError("Illegal offset type"))
  }

  /** `count($v)`: PHP 8 raises a `TypeError` for anything but an array (or Countable object, not modelled). */
  function Count(v: Value): (r: Result<nat, Error>)
    ensures r.Success? <==> v.Arr?
    ensures v.Arr? ==> r.value == |v.entries|
  {
    if v.Arr? then Success(|v.entries|)
    else Result<nat, Error>.Failure(TypeError("count(): Argument #1 must be of type Countable|array"))
  }

  /** `str_contains($haystack, $needle)`; the empty needle is contained in every string. */
  predicate Contains(haystack: string, needle: string) {
    exists i | 0 <= i <= |haystack| :: OccursAt(haystack, needle, i)
  }

  predicate OccursAt(haystack: string, needle: string, i: int) {
    0 <= i <= |haystack| - |needle| && haystack[i..i + |needle|] == needle
  }

  /** `str_starts_with($s, $prefix)`. */
  predicate StartsWith(s: string, prefix: string) {
    |prefix| <= |s| && s[..|prefix|] == prefix
  }

  /** `rtrim($s, $c)` for a single character `c`. */
  function RTrim(s: string, c: char): (r: string)
    ensures |r| <= |s| && r == s[..|r|]
    ensures r == [] || r[|r| - 1] != c
    ensures forall i :: |r| <= i < |s| ==> s[i] == c
  {
    if |s| == 0 || s[|s| - 1] != c then s else RTrim(s[..|s| - 1], c)
  }

  /** `str_replace($from, $to, $s)` for single characters. */
  function ReplaceChar(s: string, from: char, to: char): (r: string)
    ensures |r| == |s|
    ensures forall i :: 0 <= i < |s| ==> r[i] == if s[i] == from then to else s[i]
  {
    if |s| == 0 then [] else [if s[0] == from then to else s[0]] + ReplaceChar(s[1..], from, to)
  }

  /** `implode($sep, $parts)`. */
  function Implode(sep: string, parts: seq<string>): string {
    if |parts| == 0 then ""
    else if |parts| == 1 then parts[0]
    else parts[0] + sep + Implode(sep, parts[1..])
  }

  /** Joining two non-empty lists puts exactly one separator between their joins; one part joins to itself. */
  lemma {:induction false} ImplodeAppend(sep: string, a: seq<string>, b: seq<string>)
    requires |a| > 0 && |b| > 0
    ensures Implode(sep, a + b) == Implode(sep, a) + sep + Implode(sep, b)
    ensures Implode(sep, [a[0]]) == a[0]
    decreases |a|
  {
    assert (a + b)[0] == a[0];
    if |a| == 1 {
      assert (a + b)[1..] == b;
    } else {
      assert (a + b)[1..] == a[1..] + b;
      ImplodeAppend(sep, a[1..], b);
    }
  }

  /** ASCII lower-casing, as Symfony's header bag applies to header names. */
  function LowerAscii(s: string): (r: string)
    ensures |r| == |s|
    ensures forall i :: 0 <= i < |s| ==> r[i] == if 'A' <= s[i] <= 'Z' then (s[i] as int + 32) as char else s[i]
  {
    if |s| == 0 then []
    else [if 'A' <= s[0] <= 'Z' then (s[0] as int + 32) as char else s[0]] + LowerAscii(s[1..])
  }
}
