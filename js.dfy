/**
 * The JavaScript values the card receives from its host: the raw response of
 * the remote assistant and the values `JSON.parse` produces.  Only what the
 * card looks at is modelled: the type tests of `typeof`, property access and
 * truthiness (the `x || y` idiom the card uses for defaults).
 */
module Js {

  /** A JavaScript value. Numbers are integers here (no NaN, no fractions). */
  datatype Value =
    | Undefined
    | Null
    | Bool(b: bool)
    | Num(n: int)
    | Str(s: string)
    | Arr(items: seq<Value>)
    | Obj(fields: map<string, Value>)

  /** `typeof v === 'object' && v !== null`: arrays and plain objects. */
  predicate IsObject(v: Value) {
    v.Arr? || v.Obj?
  }

  /** JavaScript truthiness: `false`, `0`, `''`, `null` and `undefined` are falsy. */
  predicate Truthy(v: Value) {
    match v
    case Undefined => false
    case Null => false
    case Bool(b) => b
    case Num(n) => n != 0
    case Str(s) => s != ""
    case Arr(_) => true
    case Obj(_) => true
  }

  /** Arrays and plain objects are truthy, and `null` is not one. */
  lemma ObjectIsTruthy(v: Value)
    requires IsObject(v)
    ensures Truthy(v) && v != Null && v != Undefined
  {
  }

  /** `null` and `undefined` are falsy; a string is truthy exactly when it is non-empty. */
  lemma TruthyCases(v: Value)
    ensures v == Null || v == Undefined ==> !Truthy(v)
    ensures v.Str? ==> (Truthy(v) <==> |v.s| > 0)
  {
  }

  /** `a || b`: the left operand when it is truthy, the right one otherwise. */
  function Or(a: Value, b: Value): (r: Value)
    ensures Truthy(a) ==> r == a
    ensures !Truthy(a) ==> r == b
  {
    if Truthy(a) then a else b
  }

  /**
   * `v.key` for a value on which property access does not throw (anything
   * but `null` and `undefined`). Only plain objects carry the keys the card
   * asks for; any other value yields `undefined`.
   */
  function Member(v: Value, key: string): (r: Value)
    requires v != Null && v != Undefined
    ensures v.Obj? && key in v.fields ==> r == v.fields[key]
    ensures !(v.Obj? && key in v.fields) ==> r == Undefined
  {
    match v
    case Obj(f) => if key in f then f[key] else Undefined
    case _ => Undefined
  }

  /** The characters JavaScript's `\s` matches (white space and line terminators), also what `trim` removes. */
  predicate IsJsSpace(c: char) {
    c == ' ' || c == '\t' || c == '\n' || c == '\r' || c == '\U{0B}' || c == '\U{0C}'
    || c == '\U{A0}' || c == '\U{1680}' || ('\U{2000}' <= c <= '\U{200A}')
    || c == '\U{2028}' || c == '\U{2029}' || c == '\U{202F}' || c == '\U{205F}'
    || c == '\U{3000}' || c == '\U{FEFF}'
  }

  /** `s.trim()`: `s` without its leading and trailing white space. */
  function Trim(s: string): (r: string)
    ensures r == "" <==> forall k :: 0 <= k < |s| ==> IsJsSpace(s[k])
    ensures r != "" ==> !IsJsSpace(r[0]) && !IsJsSpace(r[|r| - 1])
    ensures exists p: nat, q: nat ::
      && p <= q <= |s| && r == s[p..q]
      && (forall k :: 0 <= k < p ==> IsJsSpace(s[k]))
      && (forall k :: q <= k < |s| ==> IsJsSpace(s[k]))
  {
    var p := LeadingSpaces(s, 0);
    var q := TrailingSpacesStart(s, p, |s|);
    s[p..q]
  }

  /** The first position at or after `i` that does not hold white space. */
  function LeadingSpaces(s: string, i: nat): (p: nat)
    requires i <= |s|
    ensures i <= p <= |s| && (forall k :: i <= k < p ==> IsJsSpace(s[k])) && (p < |s| ==> !IsJsSpace(s[p]))
    decreases |s| - i
  {
    if i < |s| && IsJsSpace(s[i]) then LeadingSpaces(s, i + 1) else i
  }

  /** The start of the run of white space that ends `s[p..q]`. */
  function TrailingSpacesStart(s: string, p: nat, q: nat): (r: nat)
    requires p <= q <= |s|
    ensures p <= r <= q && (forall k :: r <= k < q ==> IsJsSpace(s[k])) && (r > p ==> !IsJsSpace(s[r - 1]))
    decreases q
  {
    if q > p && IsJsSpace(s[q - 1]) then TrailingSpacesStart(s, p, q - 1) else q
  }
}
