/** The value `json.loads` hands back, and the two Python operations the
    classifier applies to it: `dict.get(key, default)` and `==` against an
    integer literal. */
module JsonValue {

  /** A decoded JSON document. Numbers are integers only. */
  datatype Json =
    | JNull
    | JBool(b: bool)
    | JNum(n: int)
    | JStr(s: string)
    | JArr(items: seq<Json>)
    | JObj(fields: map<string, Json>)

  /** Python's `obj.get(key, default)` on a dict: the stored value when the key
      is present (even when that value is null), the default otherwise. */
  function Get(fields: map<string, Json>, key: string, default: Json): (v: Json)
    ensures key in fields ==> v == fields[key]
    ensures key !in fields ==> v == default
  {
    if key in fields then fields[key] else default
  }

  /** Python's `v == n` for an integer literal `n`: numbers compare by value,
      and a bool compares as 0 or 1; strings, null, lists and dicts are never
      equal to an integer. */
  function PyEqInt(v: Json, n: int): (eq: bool)
    ensures eq ==> v.JNum? || v.JBool?
    ensures v.JNum? ==> (eq <==> v.n == n)
    ensures v.JBool? ==> (eq <==> n == if v.b then 1 else 0)
  {
    match v
    case JNum(m) => m == n
    case JBool(b) => (if b then 1 else 0) == n
    case _ => false
  }

  /** A value equals at most one integer, so at most one branch of an
      `if`/`elif` chain over integer literals is taken. */
  lemma PyEqIntUnique(v: Json, n: int, m: int)
    requires PyEqInt(v, n) && PyEqInt(v, m)
    ensures n == m
  {
  }
}
