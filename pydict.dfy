/**
 * A Python `dict` as its items in insertion order. Assigning to a key that
 * is already present replaces its value where it stands; a new key goes at
 * the end. Iterating over `items()` visits the items in this order.
 */
module PyDict {
  import opened Wrappers
  import opened Seqs

  type Dict<K, V> = seq<(K, V)>

  /** The keys, in iteration order. */
  function Keys<K, V>(d: Dict<K, V>): (ks: seq<K>)
    ensures |ks| == |d|
  {
    seq(|d|, i requires 0 <= i < |d| => d[i].0)
  }

  /** The keys of an item followed by a dict. */
  lemma KeysCons<K, V>(item: (K, V), d: Dict<K, V>)
    ensures Keys([item] + d) == [item.0] + Keys(d)
  {
  }

  /** No key occurs twice: what every real dict satisfies. */
  ghost predicate UniqueKeys<K, V>(d: Dict<K, V>)
  {
    var ks := Keys(d);
    forall i, j :: 0 <= i < j < |ks| ==> ks[i] != ks[j]
  }

  /** `d.get(k)`: the value stored under `k`, if any. */
  function Get<K(==), V>(d: Dict<K, V>, k: K): (r: Option<V>)
    ensures r.None? <==> k !in Keys(d)
  {
    if |d| == 0 then None
    else
      KeysCons(d[0], d[1..]);
      assert [d[0]] + d[1..] == d;
      if d[0].0 == k then Some(d[0].1) else Get(d[1..], k)
  }

  /** Looking a key up in an item followed by a dict looks at the item first. */
  lemma GetCons<K(!new), V>(item: (K, V), d: Dict<K, V>)
    ensures forall k :: Get([item] + d, k) == if item.0 == k then Some(item.1) else Get(d, k)
  {
    assert ([item] + d)[0] == item && ([item] + d)[1..] == d;
  }

  /** Putting an item with another key in front of a dict keeps what an assignment to `k` did to it. */
  lemma SetItemCons<K(!new), V>(item: (K, V), d: Dict<K, V>, k: K, v: V, rest: Dict<K, V>)
    requires item.0 != k
    requires Get(rest, k) == Some(v)
    requires forall k' :: k' != k ==> Get(rest, k') == Get(d, k')
    requires Keys(rest) == if k in Keys(d) then Keys(d) else Keys(d) + [k]
    ensures Get([item] + rest, k) == Some(v)
    ensures forall k' :: k' != k ==> Get([item] + rest, k') == Get([item] + d, k')
    ensures Keys([item] + rest) == if k in Keys([item] + d) then Keys([item] + d) else Keys([item] + d) + [k]
  {
    GetCons(item, rest);
    GetCons(item, d);
    KeysCons(item, rest);
    KeysCons(item, d);
    ConcatAssoc([item.0], Keys(d), [k]);
  }

  /** Replacing the value of the first item keeps every other lookup and the keys. */
  lemma SetItemHead<K(!new), V>(item: (K, V), d: Dict<K, V>, v: V)
    ensures Get([(item.0, v)] + d, item.0) == Some(v)
    ensures forall k' :: k' != item.0 ==> Get([(item.0, v)] + d, k') == Get([item] + d, k')
    ensures Keys([(item.0, v)] + d) == Keys([item] + d)
    ensures item.0 in Keys([item] + d)
  {
    GetCons((item.0, v), d);
    GetCons(item, d);
    KeysCons((item.0, v), d);
    KeysCons(item, d);
  }

  /**
   * `d[k] = v`. Afterwards `k` maps to `v` and every other key keeps its
   * value; the key order is unchanged when `k` was present, and `k` is
   * appended when it was not.
   */
  function SetItem<K(==, !new), V>(d: Dict<K, V>, k: K, v: V): (r: Dict<K, V>)
    ensures Get(r, k) == Some(v)
    ensures forall k' :: k' != k ==> Get(r, k') == Get(d, k')
    ensures Keys(r) == if k in Keys(d) then Keys(d) else Keys(d) + [k]
  {
    if |d| == 0 then [(k, v)]
    else
      assert [d[0]] + d[1..] == d;
      if d[0].0 == k then
        SetItemHead(d[0], d[1..], v);
        [(k, v)] + d[1..]
      else
        var rest := SetItem(d[1..], k, v);
        SetItemCons(d[0], d[1..], k, v, rest);
        [d[0]] + rest
  }

  /** A new key is appended after every item already present. */
  lemma {:induction false} SetItemNew<K(!new), V>(d: Dict<K, V>, k: K, v: V)
    requires k !in Keys(d)
    ensures SetItem(d, k, v) == d + [(k, v)]
    decreases |d|
  {
    if |d| > 0 {
      assert d[0].0 != k && k !in Keys(d[1..]) by {
        KeysCons(d[0], d[1..]);
        assert [d[0]] + d[1..] == d;
      }
      assert SetItem(d, k, v) == [d[0]] + SetItem(d[1..], k, v);
      SetItemNew(d[1..], k, v);
      ConcatAssoc([d[0]], d[1..], [(k, v)]);
      assert [d[0]] + d[1..] == d;
    }
  }

  /** Assigning to a key keeps a dict's keys distinct. */
  lemma SetItemUnique<K(!new), V>(d: Dict<K, V>, k: K, v: V)
    requires UniqueKeys(d)
    ensures UniqueKeys(SetItem(d, k, v))
  {
  }

  /** Assign each item in turn, as `d.update(items)` does. */
  function SetItems<K(==, !new), V>(d: Dict<K, V>, items: Dict<K, V>): Dict<K, V>
    decreases |items|
  {
    if |items| == 0 then d else SetItems(SetItem(d, items[0].0, items[0].1), items[1..])
  }

  /** Items with distinct keys, none already present, are appended in order. */
  lemma {:induction false} SetItemsFresh<K(!new), V>(d: Dict<K, V>, items: Dict<K, V>)
    requires UniqueKeys(d + items)
    ensures SetItems(d, items) == d + items
    decreases |items|
  {
    if |items| > 0 {
      var (k, v) := items[0];
      var longer := d + [(k, v)];
      assert longer + items[1..] == d + items by {
        assert items == [items[0]] + items[1..];
        ConcatAssoc(d, [(k, v)], items[1..]);
      }
      assert k !in Keys(d) by {
        forall i | 0 <= i < |d| ensures Keys(d)[i] != k {
          assert Keys(d + items)[i] == Keys(d)[i];
          assert Keys(d + items)[|d|] == k;
        }
      }
      SetItemNew(d, k, v);
      SetItemsFresh(longer, items[1..]);
    }
  }
}
