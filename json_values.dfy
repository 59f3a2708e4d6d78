/**
 * The values `json.loads` produces, as far as the catalog and the manifest
 * use them, and `str()` applied to such a value.
 */
module JsonValues {

  datatype Option<+T> = None | Some(value: T)

  /** A parsed JSON value: null, a boolean, an integer, a string, a list or an object. */
  datatype Json =
    | JNull
    | JBool(b: bool)
    | JInt(i: int)
    | JStr(s: string)
    | JArr(items: seq<Json>)
    | JObj(fields: map<string, Json>)

  /** `dict.get(key)` on an object; `None` when the key is absent. */
  function Get(fields: map<string, Json>, key: string): Option<Json> {
    if key in fields then Some(fields[key]) else None
  }

  /** The decimal digits of a natural number, as `str(int)` writes them. */
  function NatToString(n: nat): (s: string)
    ensures s != [] && '0' <= s[0] <= '9'
  {
    var d := ['0' + (n % 10) as char];
    if n < 10 then d else NatToString(n / 10) + d
  }

  /**
   * `str(v)`. Strings, null, booleans and integers are rendered exactly; a list
   * or an object is rendered only by its opening and closing bracket.
   */
  function PyStr(v: Json): (s: string)
    ensures !v.JStr? ==> s != [] && s[0] != '.'
  {
    match v
    case JNull => "None"
    case JBool(b) => if b then "True" else "False"
    case JInt(i) => if i < 0 then "-" + NatToString(-i) else NatToString(i)
    case JStr(s) => s
    case JArr(_) => "[...]"
    case JObj(_) => "{...}"
  }
}
