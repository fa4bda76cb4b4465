/**
 * A JavaScript `Map<string, string>` of header names to values: keys are
 * distinct and kept in insertion order, and `set` on an existing key
 * replaces the value in place.
 */
module Headers {
  import opened Common

  predicate DistinctKeys(h: seq<(string, string)>) {
    forall i, j | 0 <= i < j < |h| :: h[i].0 != h[j].0
  }

  type HeaderMap = h: seq<(string, string)> | DistinctKeys(h) witness []

  /** The keys in insertion order (`Array.from(map.keys())`). */
  function Keys(h: seq<(string, string)>): (r: seq<string>)
    ensures |r| == |h| && forall i | 0 <= i < |h| :: r[i] == h[i].0
  {
    seq(|h|, i requires 0 <= i < |h| => h[i].0)
  }

  /** Position of key `k`, if present. */
  function Find(h: seq<(string, string)>, k: string): (r: Option<nat>)
    ensures r.Some? ==> r.value < |h| && h[r.value].0 == k
    ensures r.None? ==> forall i | 0 <= i < |h| :: h[i].0 != k
    decreases |h|
  {
    if h == [] then None
    else if h[|h| - 1].0 == k then Some(|h| - 1)
    else Find(h[..|h| - 1], k)
  }

  /** `map.get(k)` */
  function Get(h: HeaderMap, k: string): (r: Option<string>)
    ensures r.Some? <==> k in Keys(h)
    ensures r.Some? ==> exists i | 0 <= i < |h| :: h[i] == (k, r.value)
  {
    match Find(h, k)
    case Some(i) => Some(h[i].1)
    case None => None
  }

  /** `map.set(k, v)`: replaces the value of an existing key in place, otherwise appends. */
  function Set(h: HeaderMap, k: string, v: string): (r: HeaderMap)
    ensures Get(r, k) == Some(v)
    ensures forall k' | k' != k :: Get(r, k') == Get(h, k')
    ensures Keys(r) == if k in Keys(h) then Keys(h) else Keys(h) + [k]
  {
    match Find(h, k)
    case Some(i) =>
      var r := h[i := (k, v)];
      assert Keys(r) == Keys(h);
      r
    case None =>
      var r := h + [(k, v)];
      assert Keys(r) == Keys(h) + [k];
      r
  }

  /** Setting a key that is not yet present appends the pair at the end. */
  lemma SetAppends(h: HeaderMap, k: string, v: string)
    requires k !in Keys(h)
    ensures Set(h, k, v) == h + [(k, v)]
  {
    forall i | 0 <= i < |h|
      ensures h[i].0 != k
    {
      assert Keys(h)[i] == h[i].0;
    }
  }
}
