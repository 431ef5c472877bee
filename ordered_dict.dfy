/** A Python `dict` from words to counts: a mapping that also remembers the order in
    which its keys were first inserted, which `pd.DataFrame(d, ...)` uses for columns. */
module OrderedDict {
  import opened Sorting

  datatype Dict = Dict(keys: seq<string>, values: map<string, nat>)
  {
    /** Each key listed once, and the listed keys are exactly the mapped ones. */
    ghost predicate Valid()
    {
      Distinct(keys) && forall k :: k in values <==> k in keys
    }

    /** `d[k] = v`: a new key goes to the end of the order, an existing key keeps its
        place and only its value changes. */
    function Put(k: string, v: nat): (d: Dict)
      requires Valid()
      ensures d.Valid()
      ensures d.values == values[k := v]
      ensures d.keys == if k in values then keys else keys + [k]
    {
      if k in values then Dict(keys, values[k := v])
      else Dict(keys + [k], values[k := v])
    }
  }

  /** `{}`: no keys, in no order. */
  function Empty(): (d: Dict)
    ensures d.Valid() && d.keys == [] && d.values == map[]
  {
    Dict([], map[])
  }
}
