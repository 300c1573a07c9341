/**
 * The JavaScript values that `JSON.parse` makes of the manifest, and the
 * three operations the browser code applies to them: truthiness, property
 * access and `Object.entries`.
 */
module Json {
  import opened Text
  import opened Dict

  /** A parsed JSON value; an object keeps its keys in insertion order. */
  datatype Json =
    | JNull
    | JBool(b: bool)
    | JNum(n: int)
    | JStr(s: string)
    | JObj(fields: Dict<Json>)

  /** JavaScript truthiness: `null`, `false`, `0` and `""` are falsy. */
  predicate Truthy(v: Json) {
    match v
    case JNull => false
    case JBool(b) => b
    case JNum(n) => n != 0
    case JStr(s) => s != ""
    case JObj(_) => true
  }

  /**
   * `v[key]` on a value that is not `null`: an object's own property, and
   * `undefined` (here `None`) for everything else.
   */
  function Prop(v: Json, key: string): (r: Option<Json>)
    ensures r.Some? ==> v.JObj? && HasKey(v.fields, key)
    ensures v.JObj? && HasKey(v.fields, key) ==> r.Some?
    ensures r.Some? ==> exists i :: 0 <= i < |v.fields| && v.fields[i] == (key, r.value) && forall j :: 0 <= j < i ==> v.fields[j].0 != key
  {
    match v
    case JObj(fields) => Get(fields, key)
    case _ => None
  }

  /** `v[key]` is present and truthy. */
  predicate HasTruthy(v: Json, key: string) {
    var p := Prop(v, key);
    p.Some? && Truthy(p.value)
  }

  /**
   * `Object.entries(v)` for a value that is not `null` (on `null` it throws):
   * an object's pairs, one pair per character of a string, none for a
   * boolean or a number.
   */
  function Entries(v: Json): (es: Dict<Json>)
    requires !v.JNull?
    ensures v.JObj? ==> es == v.fields
    ensures v.JStr? ==> |es| == |v.s| && forall i :: 0 <= i < |es| ==> es[i] == (NatToString(i), JStr([v.s[i]]))
    ensures (v.JBool? || v.JNum?) ==> es == []
  {
    match v
    case JObj(fields) => fields
    case JStr(s) => CharEntries(s, |s|)
    case _ => []
  }

  /** The pairs `("0", s[0]) .. (String(n - 1), s[n - 1])` of a string's first `n` characters. */
  function CharEntries(s: string, n: nat): (es: Dict<Json>)
    requires n <= |s|
    ensures |es| == n && forall i :: 0 <= i < n ==> es[i] == (NatToString(i), JStr([s[i]]))
  {
    if n == 0 then [] else CharEntries(s, n - 1) + [(NatToString(n - 1), JStr([s[n - 1]]))]
  }

  /** `String(v)`, as `setAttribute` stores a value. */
  function AttrString(v: Json): string {
    match v
    case JNull => "null"
    case JBool(b) => if b then "true" else "false"
    case JNum(n) => IntToString(n)
    case JStr(s) => s
    case JObj(_) => "[object Object]"
  }

  /** Nesting depth of objects; the measure that the tree renderer recurses on. */
  function Depth(v: Json): nat {
    match v
    case JObj(fields) => 1 + Max(seq(|fields|, i requires 0 <= i < |fields| => Depth(fields[i].1)))
    case _ => 0
  }

  function Max(xs: seq<nat>): (m: nat)
    ensures forall i :: 0 <= i < |xs| ==> xs[i] <= m
  {
    if xs == [] then 0
    else
      var m := Max(xs[1..]);
      if xs[0] < m then m else xs[0]
  }

  /** Every value stored in an object is shallower than the object. */
  lemma DepthBound(fields: Dict<Json>, e: (string, Json))
    requires e in fields
    ensures Depth(e.1) < Depth(JObj(fields))
  {
    var i :| 0 <= i < |fields| && fields[i] == e;
    var ds := seq(|fields|, i requires 0 <= i < |fields| => Depth(fields[i].1));
    assert ds[i] == Depth(e.1);
  }

  /** No object in `v`, at any depth, has two pairs with the same key. */
  predicate WellFormed(v: Json) {
    match v
    case JObj(fields) =>
      && DistinctKeys(fields)
      && forall i :: 0 <= i < |fields| ==> WellFormed(fields[i].1)
    case _ => true
  }
}
