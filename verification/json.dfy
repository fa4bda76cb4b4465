/**
 * The values a saved response body can hold: what `JSON.parse` returns, or
 * the body text itself. Numbers keep the text `String(n)` gives them.
 */
module Json {
  import opened Common
  import opened Strings

  datatype Value =
    | Null
    | Bool(b: bool)
    | Num(text: string)
    | Str(s: string)
    | Arr(items: seq<Value>)
    | Obj(fields: seq<(string, Value)>)

  /** `typeof v === 'object'`: objects, arrays and `null`. */
  predicate IsObjectLike(v: Value) {
    v.Null? || v.Arr? || v.Obj?
  }

  /** Field `i` is the last one named `key`. */
  predicate LastNamed(fields: seq<(string, Value)>, key: string, i: nat) {
    i < |fields| && fields[i].0 == key && forall j | i < j < |fields| :: fields[j].0 != key
  }

  /** A field of `fields` other than the last is named `key` exactly when a field of `fields[..n]` is. */
  lemma NamedInInit(fields: seq<(string, Value)>, key: string, n: nat)
    requires n == |fields| - 1 && fields[n].0 != key
    ensures (exists i | 0 <= i < |fields| :: fields[i].0 == key) <==> (exists i | 0 <= i < n :: fields[..n][i].0 == key)
  {
    if exists i | 0 <= i < |fields| :: fields[i].0 == key {
      var i :| 0 <= i < |fields| && fields[i].0 == key;
      assert fields[..n][i].0 == key;
    }
  }

  /** The last field named `key` in `fields[..n]` stays the last one when the field added after it has another name. */
  lemma LastNamedInInit(fields: seq<(string, Value)>, key: string, n: nat, v: Value)
    requires n == |fields| - 1 && fields[n].0 != key
    requires exists i | 0 <= i < n :: LastNamed(fields[..n], key, i) && fields[..n][i].1 == v
    ensures exists i | 0 <= i < |fields| :: LastNamed(fields, key, i) && fields[i].1 == v
  {
    var i :| 0 <= i < n && LastNamed(fields[..n], key, i) && fields[..n][i].1 == v;
    assert LastNamed(fields, key, i);
  }

  /** The value of the last field named `key` (a later field of the same name overrides an earlier one). */
  function Field(fields: seq<(string, Value)>, key: string): (r: Option<Value>)
    ensures r.Some? <==> exists i | 0 <= i < |fields| :: fields[i].0 == key
    ensures r.Some? ==> exists i | 0 <= i < |fields| :: LastNamed(fields, key, i) && fields[i].1 == r.value
    decreases |fields|
  {
    if fields == [] then None
    else
      var n := |fields| - 1;
      if fields[n].0 == key then
        assert LastNamed(fields, key, n);
        Some(fields[n].1)
      else
        var r := Field(fields[..n], key);
        NamedInInit(fields, key, n);
        if r.Some? then
          LastNamedInInit(fields, key, n, r.value);
          r
        else
          r
  }

  /** `v[key]` on a plain value: a field of an object, and nothing for anything else. */
  function Property(v: Value, key: string): (r: Option<Value>)
    ensures r.Some? ==> v.Obj?
  {
    if v.Obj? then Field(v.fields, key) else None
  }

  /** `v[index]` on an array: the element, or nothing past the end. */
  function Element(v: Value, index: nat): (r: Option<Value>)
    requires v.Arr?
    ensures r.Some? <==> index < |v.items|
    ensures r.Some? ==> r.value == v.items[index]
  {
    if index < |v.items| then Some(v.items[index]) else None
  }

  /**
   * `String(v)`: the text of a string, number or boolean, `null` for null,
   * `[object Object]` for an object, and for an array its elements joined
   * by `,` with a `null` element written as nothing.
   */
  function ToText(v: Value): string
    decreases v
  {
    if v.Null? then "null"
    else if v.Bool? then (if v.b then "true" else "false")
    else if v.Num? then v.text
    else if v.Str? then v.s
    else if v.Obj? then "[object Object]"
    else Join(seq(|v.items|, i requires 0 <= i < |v.items| => if v.items[i].Null? then "" else ToText(v.items[i])), ",")
  }
}
