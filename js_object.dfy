/** Plain JavaScript objects as the grid handles them. A row parsed from the
    CSV, the row picked for editing and the copy being edited are all such
    objects: an ordered list of own keys (the order `Object.keys` reports)
    and the string stored under each key. */
module JsObject {
  import opened Wrappers

  datatype Fields = Fields(keys: seq<string>, vals: map<string, string>)
  {
    /** Keys are listed once each, and are exactly the keys that hold a value. */
    ghost predicate Valid() {
      && (forall i, j :: 0 <= i < j < |keys| ==> keys[i] != keys[j])
      && (forall i :: 0 <= i < |keys| ==> keys[i] in vals)
      && (forall k :: k in vals ==> k in keys)
    }
  }

  /** The object literal `{}`. */
  const Empty: Fields := Fields([], map[])

  /** `obj[key]`: the stored value, or `undefined`. */
  function Get(f: Fields, key: string): Option<string>
  {
    Lookup(f.vals, key)
  }

  /** The spread update `{ ...f, [name]: value }`: `name` now holds `value`,
      every other key holds what it held, old keys keep their order and a new
      key is listed last. */
  function Assign(f: Fields, name: string, value: string): (r: Fields)
    ensures Get(r, name) == Some(value)
    ensures forall k :: k != name ==> Get(r, k) == Get(f, k)
    ensures |f.keys| <= |r.keys| && r.keys[..|f.keys|] == f.keys
    ensures f.Valid() ==> r.Valid() && (|r.keys| == |f.keys| <==> name in f.keys)
  {
    if name in f.vals then Fields(f.keys, f.vals[name := value])
    else Fields(f.keys + [name], f.vals[name := value])
  }

  /** A reference to a JavaScript object. The source compares rows with
      `===` and `indexOf`, which look at the reference and never at the
      contents; the contents themselves are never changed in place. */
  class Record {
    const fields: Fields

    /** Allocating an object literal (`{ ...data }` and friends). */
    constructor (fields: Fields)
      ensures this.fields == fields
    {
      this.fields := fields;
    }
  }
}
