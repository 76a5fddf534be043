/** The form store: a flat mapping from composed field paths to values.
    The form library behind it is abstracted to reading and replacing one entry. */
module FormState {
  import opened Schema

  type Store = map<string, Value>

  /** `watch(path)`: the stored value, or `undefined` when the path was never written. */
  function Lookup(st: Store, path: string): (v: Option<Value>)
    ensures v.Some? <==> path in st
    ensures v.Some? ==> v.value == st[path]
  {
    if path in st then Some(st[path]) else None
  }

  class FormStore {
    var values: Store

    /** A fresh mount starts with no values: every `watch` reads `undefined`. */
    constructor ()
      ensures values == map[]
      ensures forall p :: Watch(p) == None
    {
      values := map[];
    }

    function Watch(path: string): Option<Value>
      reads this
    {
      Lookup(values, path)
    }

    /** `setValue(path, v)`: replaces the value at path and nothing else. */
    method SetValue(path: string, v: Value)
      modifies this
      ensures values == old(values)[path := v]
      ensures Watch(path) == Some(v)
      ensures forall q :: q != path ==> Watch(q) == old(Watch(q))
    {
      values := values[path := v];
    }
  }
}
