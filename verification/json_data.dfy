/** Already-parsed JSON values, with the two Python behaviours the loader
    depends on: `dict.get` and truthiness (which drives the `or`-chains).
 */
module JsonData {

  /** A value as `json.loads` returns it. Numbers carry their mathematical
      value; objects are dictionaries from key to value. */
  datatype Json =
    | JNull
    | JBool(b: bool)
    | JNum(n: real)
    | JStr(s: string)
    | JArr(items: seq<Json>)
    | JObj(fields: map<string, Json>)

  /** `d.get(key)`: an absent key reads as `None`, exactly like a present `null`. */
  function Get(d: map<string, Json>, key: string): (v: Json)
    ensures key !in d ==> v == JNull
    ensures key in d ==> v == d[key]
  {
    if key in d then d[key] else JNull
  }

  /** Python's `bool(v)`: `None`, `False`, zero, and empty strings, lists and
      dicts are falsy; everything else is truthy. */
  predicate Truthy(v: Json) {
    match v
    case JNull => false
    case JBool(b) => b
    case JNum(n) => n != 0.0
    case JStr(s) => s != []
    case JArr(xs) => xs != []
    case JObj(m) => m != map[]
  }

  predicate NoneTruthy(vs: seq<Json>) {
    forall k | 0 <= k < |vs| :: !Truthy(vs[k])
  }

  /** Position of the first truthy value, `|vs|` when there is none. */
  function FirstTruthy(vs: seq<Json>): (k: nat)
    ensures k <= |vs|
    ensures NoneTruthy(vs[..k])
    ensures k < |vs| ==> Truthy(vs[k])
  {
    if vs == [] || Truthy(vs[0]) then 0 else 1 + FirstTruthy(vs[1..])
  }

  /** `v0 or v1 or ... or vn`: the first truthy operand, or the last operand
      when none is truthy. */
  function OrChain(vs: seq<Json>): (r: Json)
    requires |vs| > 0
    ensures FirstTruthy(vs) < |vs| ==> r == vs[FirstTruthy(vs)]
    ensures FirstTruthy(vs) == |vs| ==> r == vs[|vs| - 1]
    ensures Truthy(r) <==> FirstTruthy(vs) < |vs|
  {
    if |vs| == 1 || Truthy(vs[0]) then vs[0] else OrChain(vs[1..])
  }
}
