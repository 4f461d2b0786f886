/**
 * JSON values as `json.loads` produces them, Python dictionaries as ordered
 * association lists, and the abstract parser and serialisers the core calls.
 */
module Json {
  import opened Wrappers

  /** A JSON value; objects keep their keys in insertion order, like a Python dict. */
  datatype Json =
    | JNull
    | JBool(b: bool)
    | JNum(n: int)
    | JStr(s: string)
    | JArr(items: seq<Json>)
    | JObj(fields: seq<(string, Json)>)

  /** `json.loads`: the parsed value, or None where it raises `JSONDecodeError`. */
  type Parser = string -> Option<Json>

  /** `json.dumps` or `str` applied to a value. */
  type Printer = Json -> string

  /** The keys of an object, in order. */
  function Keys(fields: seq<(string, Json)>): (ks: seq<string>)
    ensures |ks| == |fields|
    ensures forall i :: 0 <= i < |fields| ==> ks[i] == fields[i].0
  {
    if fields == [] then [] else [fields[0].0] + Keys(fields[1..])
  }

  /** The object literal `{keys[0]: values[0], ...}`, whose keys are distinct. */
  function Object(keys: seq<string>, values: seq<Json>): (fields: seq<(string, Json)>)
    requires |keys| == |values|
    ensures |fields| == |keys| && Keys(fields) == keys
    ensures forall i :: 0 <= i < |keys| ==> fields[i] == (keys[i], values[i])
  {
    if keys == [] then [] else [(keys[0], values[0])] + Object(keys[1..], values[1..])
  }

  /** `d.get(key)`: the value stored under `key`, if any. */
  function Get(fields: seq<(string, Json)>, key: string): (r: Option<Json>)
    ensures r.Some? <==> key in Keys(fields)
  {
    if fields == [] then None
    else if fields[0].0 == key then Some(fields[0].1)
    else Get(fields[1..], key)
  }

  /**
   * `d[key] = v`: the value under an existing key is replaced where it
   * stands, a new key goes to the end.
   */
  function Set(fields: seq<(string, Json)>, key: string, v: Json): (r: seq<(string, Json)>)
    ensures key in Keys(fields) ==> Keys(r) == Keys(fields)
    ensures key !in Keys(fields) ==> Keys(r) == Keys(fields) + [key]
  {
    if fields == [] then [(key, v)]
    else if fields[0].0 == key then [(key, v)] + fields[1..]
    else [fields[0]] + Set(fields[1..], key, v)
  }

  /** After `d[key] = v`, `d[key]` is `v` and every other key reads as before. */
  lemma {:induction false} GetSet(fields: seq<(string, Json)>, key: string, v: Json, other: string)
    ensures Get(Set(fields, key, v), key) == Some(v)
    ensures other != key ==> Get(Set(fields, key, v), other) == Get(fields, other)
  {
    if fields != [] && fields[0].0 != key {
      GetSet(fields[1..], key, v, other);
    }
  }

  /** A dictionary holding only the key `"error"`, as the services return for a failure. */
  function ErrorRecord(message: string): (r: Json)
    ensures r.JObj? && Keys(r.fields) == ["error"]
    ensures Get(r.fields, "error") == Some(JStr(message))
  {
    JObj([("error", JStr(message))])
  }
}
