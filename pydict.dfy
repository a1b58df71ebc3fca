/** A Python `dict` with string keys, as the #define rewriter and the
    colon-record parser use one: its entries in insertion order. Assigning
    to a key that is present replaces its value where it stands; assigning
    to a new key appends it. */
module PyDict {
  import opened Wrappers

  type Dict<V> = seq<(string, V)>

  /** No key appears twice. */
  predicate KeysDistinct<V>(d: Dict<V>)
  {
    forall i, j :: 0 <= i < j < |d| ==> d[i].0 != d[j].0
  }

  /** `list(d.keys())`. */
  function Keys<V>(d: Dict<V>): (r: seq<string>)
    ensures |r| == |d| && forall i :: 0 <= i < |d| ==> r[i] == d[i].0
  {
    if d == [] then [] else [d[0].0] + Keys(d[1..])
  }

  /** `d.get(k)`: the value of the first entry for `k`. */
  function Get<V>(d: Dict<V>, k: string): (r: Option<V>)
    ensures r.None? <==> k !in Keys(d)
    ensures r.Some? ==> exists i :: 0 <= i < |d| && d[i] == (k, r.value)
  {
    if d == [] then None
    else if d[0].0 == k then Some(d[0].1)
    else
      var r := Get(d[1..], k);
      assert r.Some? ==> exists i :: 0 <= i < |d| - 1 && d[1..][i] == (k, r.value);
      r
  }

  /** Looking a key up in a dictionary with one more entry in front. */
  lemma GetCons<V>(e: (string, V), d: Dict<V>, k: string)
    ensures Get([e] + d, k) == if e.0 == k then Some(e.1) else Get(d, k)
  {
    assert ([e] + d)[1..] == d;
  }

  /** `d[k] = v`: the order of the keys is kept and a new key comes last. */
  function Set<V>(d: Dict<V>, k: string, v: V): (r: Dict<V>)
    ensures Keys(r) == if k in Keys(d) then Keys(d) else Keys(d) + [k]
  {
    if d == [] then [(k, v)]
    else if d[0].0 == k then
      var r := [(k, v)] + d[1..];
      assert r[1..] == d[1..];
      r
    else
      var t := Set(d[1..], k, v);
      var r := [d[0]] + t;
      assert r[1..] == t;
      assert [d[0].0] + (Keys(d[1..]) + [k]) == Keys(d) + [k];
      r
  }

  /** After `d[k] = v`, `k` maps to `v` and every other key keeps its value. */
  lemma {:induction false} GetSet<V>(d: Dict<V>, k: string, v: V, k': string)
    ensures Get(Set(d, k, v), k') == if k' == k then Some(v) else Get(d, k')
  {
    if d != [] {
      SetFirst(d, k, v);
      GetFirst(d, k');
      hide *;
      if d[0].0 == k {
        GetCons((k, v), d[1..], k');
      } else {
        GetSet(d[1..], k, v, k');
        GetCons(d[0], Set(d[1..], k, v), k');
      }
    }
  }

  /** Looking a key up by the first entry. */
  lemma GetFirst<V>(d: Dict<V>, k: string)
    requires d != []
    ensures Get(d, k) == if d[0].0 == k then Some(d[0].1) else Get(d[1..], k)
  {
    hide Keys;
  }

  /** Assigning by the first entry. */
  lemma SetFirst<V>(d: Dict<V>, k: string, v: V)
    requires d != []
    ensures Set(d, k, v) == if d[0].0 == k then [(k, v)] + d[1..] else [d[0]] + Set(d[1..], k, v)
  {
    hide Keys;
  }

  /** Looking a key up in a dictionary with one more entry at the end. */
  lemma {:induction false} GetSnoc<V>(d: Dict<V>, e: (string, V), k: string)
    ensures Get(d + [e], k) == if k in Keys(d) then Get(d, k) else if e.0 == k then Some(e.1) else None
  {
    if d == [] {
      assert d + [e] == [e];
      GetCons(e, [], k);
    } else {
      assert (d + [e])[1..] == d[1..] + [e];
      assert Keys(d) == [d[0].0] + Keys(d[1..]);
      GetSnoc(d[1..], e, k);
    }
  }

  /** The keys of a dictionary with one more entry at the end. */
  lemma KeysSnoc<V>(d: Dict<V>, e: (string, V))
    ensures Keys(d + [e]) == Keys(d) + [e.0]
  {
  }

  /** Assigning keeps the keys distinct. */
  lemma SetKeepsKeysDistinct<V>(d: Dict<V>, k: string, v: V)
    requires KeysDistinct(d)
    ensures KeysDistinct(Set(d, k, v))
  {
    var r := Set(d, k, v);
    var ks, kr := Keys(d), Keys(r);
    forall i, j | 0 <= i < j < |r|
      ensures r[i].0 != r[j].0
    {
      assert r[i].0 == kr[i] && r[j].0 == kr[j];
      if j < |d| {
        assert d[i].0 == ks[i] && d[j].0 == ks[j];
      } else {
        assert k !in ks && kr[j] == k && kr[i] == ks[i];
      }
    }
  }
}
