/** The values stored in a Starlette session and in the small dicts passed between
    the services (`user_info`): JSON scalars. */
module JsonValues {

  datatype Value = Null | Int(i: int) | Str(s: string)

  /** Python's `d.get(key)`: the value, or `None` when the key is absent. */
  function Get(d: map<string, Value>, key: string): (v: Value)
    ensures key in d ==> v == d[key]
    ensures key !in d ==> v == Null
  {
    if key in d then d[key] else Null
  }
}
