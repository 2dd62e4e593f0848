/** An insertion-ordered dictionary, the way a JavaScript object with
    string keys behaves: assigning to a present key keeps its position,
    assigning to a new key appends it. */
module Dicts {
  import opened Timetable

  /** `order` lists the keys in insertion order; `values` holds their values. */
  datatype Dict<K, V> = Dict(order: seq<K>, values: map<K, V>)

  ghost predicate Valid<K(!new), V>(d: Dict<K, V>) {
    && Distinct(d.order)
    && forall k :: k in d.values <==> k in d.order
  }

  function EmptyDict<K(!new), V>(): (d: Dict<K, V>)
    ensures Valid(d) && d.values == map[]
  {
    Dict([], map[])
  }

  /** `obj[k] = v`. */
  function Put<K(==,!new), V>(d: Dict<K, V>, k: K, v: V): (r: Dict<K, V>)
    ensures r.values == d.values[k := v]
    ensures r.order == if k in d.values then d.order else d.order + [k]
    ensures Valid(d) ==> Valid(r)
  {
    Dict(if k in d.values then d.order else d.order + [k], d.values[k := v])
  }
}
