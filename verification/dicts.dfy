/** Python's insertion-ordered `dict` with string keys, as a list of entries.

    Assigning to a key that is present replaces its value where it stands;
    assigning to a new key appends an entry. Iteration follows entry order.
 */
module Dicts {
  import opened Outcomes
  import opened Seqs

  type Dict<V> = seq<(string, V)>

  /** The keys in iteration order. */
  function Keys<V>(d: Dict<V>): (ks: seq<string>)
    ensures |ks| == |d|
    ensures forall i {:trigger ks[i]} :: 0 <= i < |d| ==> ks[i] == d[i].0
  {
    if d == [] then [] else [d[0].0] + Keys(d[1..])
  }

  /** `d[k]` when `k` is present. */
  function Get<V>(d: Dict<V>, k: string): Option<V> {
    if d == [] then None
    else if d[0].0 == k then Some(d[0].1)
    else Get(d[1..], k)
  }

  /** A lookup finds nothing exactly when the key is absent. */
  lemma {:induction false} GetNone<V>(d: Dict<V>, k: string)
    ensures Get(d, k).None? <==> k !in Keys(d)
  {
    if d != [] && d[0].0 != k {
      GetNone(d[1..], k);
    }
  }

  /** Under unique keys, the entry at position `i` is what a lookup of its key finds. */
  lemma {:induction false} GetAt<V>(d: Dict<V>, i: nat)
    requires NoDup(Keys(d))
    requires i < |d|
    ensures Get(d, d[i].0) == Some(d[i].1)
  {
    if i > 0 {
      assert Keys(d)[0] != Keys(d)[i];
      assert Keys(d[1..]) == Keys(d)[1..];
      GetAt(d[1..], i - 1);
    }
  }

  /** `d[k] = v`: the value replaces the old one where the key stands,
      or a new entry goes at the end. */
  function Put<V>(d: Dict<V>, k: string, v: V): (r: Dict<V>)
    ensures Get(r, k) == Some(v)
    ensures forall k' :: k' != k ==> Get(r, k') == Get(d, k')
    ensures Keys(r) == if k in Keys(d) then Keys(d) else Keys(d) + [k]
  {
    AssignGet(d, k, v);
    AssignKeys(d, k, v);
    Assign(d, k, v)
  }

  function Assign<V>(d: Dict<V>, k: string, v: V): Dict<V> {
    if d == [] then [(k, v)]
    else if d[0].0 == k then [(k, v)] + d[1..]
    else [d[0]] + Assign(d[1..], k, v)
  }

  lemma {:induction false} AssignGet<V>(d: Dict<V>, k: string, v: V)
    ensures forall k' :: Get(Assign(d, k, v), k') == if k' == k then Some(v) else Get(d, k')
  {
    if d == [] {
      ConsEntry((k, v), []);
    } else if d[0].0 == k {
      ConsEntry((k, v), d[1..]);
      ConsEntry(d[0], d[1..]);
      assert [d[0]] + d[1..] == d;
    } else {
      AssignGet(d[1..], k, v);
      ConsEntry(d[0], Assign(d[1..], k, v));
      ConsEntry(d[0], d[1..]);
      assert [d[0]] + d[1..] == d;
    }
  }

  lemma {:induction false} AssignKeys<V>(d: Dict<V>, k: string, v: V)
    ensures Keys(Assign(d, k, v)) == if k in Keys(d) then Keys(d) else Keys(d) + [k]
  {
    if d == [] {
      ConsEntry((k, v), []);
    } else if d[0].0 == k {
      ConsEntry((k, v), d[1..]);
      KeysFront(d);
    } else {
      AssignKeys(d[1..], k, v);
      ConsEntry(d[0], Assign(d[1..], k, v));
      KeysFront(d);
      var ks := Keys(d[1..]);
      if k !in ks {
        assert [d[0].0] + (ks + [k]) == [d[0].0] + ks + [k];
      }
    }
  }

  lemma KeysFront<V>(d: Dict<V>)
    requires d != []
    ensures Keys(d) == [d[0].0] + Keys(d[1..])
  {
  }

  /** Looking up in a dictionary with one more entry in front. */
  lemma ConsEntry<V>(e: (string, V), d: Dict<V>)
    ensures Keys([e] + d) == [e.0] + Keys(d)
    ensures forall k :: Get([e] + d, k) == if e.0 == k then Some(e.1) else Get(d, k)
  {
    assert ([e] + d)[1..] == d;
  }

  /** Assignment never duplicates a key. */
  lemma PutNoDup<V>(d: Dict<V>, k: string, v: V)
    requires NoDup(Keys(d))
    ensures NoDup(Keys(Put(d, k, v)))
  {
  }
}
