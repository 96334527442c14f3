/**
 * The harvester's dict records.  A survey record maps keys to strings or to
 * Python's None; detail records hold strings only.
 */
module Records {
  import opened Wrappers

  datatype Value = Str(s: string) | Null

  type Record = map<string, Value>

  /** A field that may be None. */
  function OptValue(o: Option<string>): (v: Value)
    ensures v.Null? <==> o.None?
    ensures o.Some? ==> v == Str(o.value)
  {
    if o.Some? then Str(o.value) else Null
  }

  /** A detail record seen as a general record. */
  function Lift(d: map<string, string>): (r: Record)
    ensures r.Keys == d.Keys
    ensures forall k | k in d :: r[k] == Str(d[k])
  {
    map k | k in d :: Str(d[k])
  }
}
