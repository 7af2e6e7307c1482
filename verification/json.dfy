/** The values `json.loads` produces (numbers kept integral). */
module JsonValue {
  import opened Wrappers

  datatype Json =
    | JNull
    | JBool(b: bool)
    | JNum(n: int)
    | JStr(s: string)
    | JArr(items: seq<Json>)
    | JObj(fields: map<string, Json>)

  /** `json.loads`: None is a `JSONDecodeError`. */
  type JsonParser = string -> Option<Json>

  /** `isinstance(v, list)`. */
  predicate IsList(v: Json)
  {
    v.JArr?
  }

  /** `isinstance(v, list) and all(isinstance(t, str) for t in v)`. */
  predicate IsStringList(v: Json)
  {
    v.JArr? && forall i :: 0 <= i < |v.items| ==> v.items[i].JStr?
  }

  /** `isinstance(v, dict)`. */
  predicate IsObject(v: Json)
  {
    v.JObj?
  }
}
