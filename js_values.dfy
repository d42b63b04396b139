/**
 * JavaScript values, as far as the entity store of the client bundles looks at them.
 *
 * A record (a plain JavaScript object) is a map from property names to values;
 * numbers are integers (the stores only compare ids and read fields).
 */
module JsValues {

  datatype Val = Undefined | Null | Bool(b: bool) | Num(n: int) | Str(s: string)

  /** ECMAScript ToBoolean: what `x || y` and `if (x)` test. */
  predicate Truthy(v: Val)
  {
    match v
    case Undefined => false
    case Null => false
    case Bool(b) => b
    case Num(n) => n != 0
    case Str(s) => s != ""
  }

  type Record = map<string, Val>

  /** Property read `r.name`: `undefined` when the record has no such property. */
  function Field(r: Record, name: string): Val
  {
    if name in r then r[name] else Undefined
  }

  /** `Object.assign({}, base, changes)`: the properties of `changes` overwrite those of `base`. */
  function Assign(base: Record, changes: Record): (r: Record)
    ensures r.Keys == base.Keys + changes.Keys
    ensures forall p :: p in changes ==> r[p] == changes[p]
    ensures forall p :: p in base && p !in changes ==> r[p] == base[p]
  {
    base + changes
  }
}
