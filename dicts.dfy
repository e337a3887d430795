/**
 * Insertion-ordered dictionaries with string keys, as Python's `dict`.
 * A dictionary is the sequence of its entries in insertion order;
 * assigning to an existing key keeps its position, a new key is appended.
 */
module Dicts {
  import opened Wrappers

  type Dict<V> = seq<(string, V)>

  /** The keys of `d`. */
  function KeySet<V>(d: Dict<V>): set<string> {
    set i | 0 <= i < |d| :: d[i].0
  }

  /** Every key occurs once, as in every Python dictionary. */
  predicate DistinctKeys<V>(d: Dict<V>) {
    forall i, j :: 0 <= i < j < |d| ==> d[i].0 != d[j].0
  }

  /** `d.get(k)`: the value stored under `k`, if any. */
  function Get<V>(d: Dict<V>, k: string): (r: Option<V>)
    ensures r.Some? <==> k in KeySet(d)
    ensures r.Some? ==> (k, r.value) in d
  {
    if d == [] then None
    else if d[0].0 == k then Some(d[0].1)
    else
      assert KeySet(d) == {d[0].0} + KeySet(d[1..]);
      Get(d[1..], k)
  }

  /** `d[k] = v`. */
  function Set<V>(d: Dict<V>, k: string, v: V): (r: Dict<V>)
    ensures Get(r, k) == Some(v)
    ensures forall j :: j != k ==> Get(r, j) == Get(d, j)
    ensures KeySet(r) == KeySet(d) + {k}
    ensures k !in KeySet(d) ==> r == d + [(k, v)]
  {
    if d == [] then [(k, v)]
    else if d[0].0 == k then
      KeySetCons(d[0], d[1..]);
      KeySetCons((k, v), d[1..]);
      assert d == [d[0]] + d[1..];
      [(k, v)] + d[1..]
    else
      var rest := Set(d[1..], k, v);
      KeySetCons(d[0], d[1..]);
      KeySetCons(d[0], rest);
      assert d == [d[0]] + d[1..];
      [d[0]] + rest
  }

  /** Assignment keeps the keys distinct. */
  lemma {:induction false} SetDistinct<V>(d: Dict<V>, k: string, v: V)
    requires DistinctKeys(d)
    ensures DistinctKeys(Set(d, k, v))
    decreases |d|
  {
    if d == [] {
    } else if d[0].0 == k {
      ConsDistinct((k, v), d[1..]);
    } else {
      var tail := d[1..];
      SetDistinct(tail, k, v);
      ConsDistinct(d[0], Set(tail, k, v));
    }
  }

  lemma ConsDistinct<V>(x: (string, V), rest: Dict<V>)
    requires DistinctKeys(rest) && x.0 !in KeySet(rest)
    ensures DistinctKeys([x] + rest)
  {
    var r := [x] + rest;
    forall i, j | 0 <= i < j < |r| ensures r[i].0 != r[j].0 {
      assert r[j] == rest[j - 1];
      if i == 0 {
        assert rest[j - 1].0 in KeySet(rest);
      } else {
        assert r[i] == rest[i - 1];
      }
    }
  }

  lemma KeySetCons<V>(x: (string, V), d: Dict<V>)
    ensures KeySet([x] + d) == {x.0} + KeySet(d)
  {
    var l := [x] + d;
    forall k | k in KeySet(d) ensures k in KeySet(l) {
      var i :| 0 <= i < |d| && d[i].0 == k;
      assert l[i + 1] == d[i];
    }
    assert l[0] == x;
  }

  /** Every entry after an assignment was already there or is the assigned one. */
  lemma {:induction false} SetEntries<V>(d: Dict<V>, k: string, v: V)
    ensures forall x :: x in Set(d, k, v) ==> x in d || x == (k, v)
    decreases |d|
  {
    if d != [] && d[0].0 != k {
      SetEntries(d[1..], k, v);
    }
  }

  /** `d.get(k, default)`. */
  function GetOr<V>(d: Dict<V>, k: string, default: V): V {
    match Get(d, k)
    case Some(v) => v
    case None => default
  }

  /** The entries of `d` without key `k` (`del d[k]` when present). */
  function Remove<V>(d: Dict<V>, k: string): (r: Dict<V>)
    ensures KeySet(r) == KeySet(d) - {k}
    ensures Get(r, k) == None
    ensures forall j :: j != k ==> Get(r, j) == Get(d, j)
  {
    if d == [] then []
    else
      var rest := Remove(d[1..], k);
      KeySetCons(d[0], d[1..]);
      assert d == [d[0]] + d[1..];
      if d[0].0 == k then rest
      else
        KeySetCons(d[0], rest);
        [d[0]] + rest
  }

  /** `d.update(e)`: the entries of `e`, in order, assigned into `d`. */
  function Update<V>(d: Dict<V>, e: Dict<V>): (r: Dict<V>)
    ensures KeySet(r) == KeySet(d) + KeySet(e)
    decreases |e|
  {
    if e == [] then d
    else
      var last := e[|e| - 1];
      assert KeySet(e) == KeySet(e[..|e| - 1]) + {last.0};
      Set(Update(d, e[..|e| - 1]), last.0, last.1)
  }

  /** Updating keeps the keys distinct. */
  lemma {:induction false} UpdateDistinct<V>(d: Dict<V>, e: Dict<V>)
    requires DistinctKeys(d)
    ensures DistinctKeys(Update(d, e))
    decreases |e|
  {
    if e != [] {
      UpdateDistinct(d, e[..|e| - 1]);
      SetDistinct(Update(d, e[..|e| - 1]), e[|e| - 1].0, e[|e| - 1].1);
    }
  }

  /** After `d.update(e)` with distinct keys in `e`, every key of `e` holds `e`'s value
      and every other key keeps its value in `d`. */
  lemma {:induction false} UpdateGet<V>(d: Dict<V>, e: Dict<V>, k: string)
    requires DistinctKeys(e)
    ensures Get(Update(d, e), k) == if k in KeySet(e) then Get(e, k) else Get(d, k)
    decreases |e|
  {
    if e != [] {
      var init := e[..|e| - 1];
      var last := e[|e| - 1];
      assert KeySet(e) == KeySet(init) + {last.0};
      assert DistinctKeys(init);
      UpdateGet(d, init, k);
      if k != last.0 {
        GetPrefix(e, k);
      } else {
        GetLast(e);
      }
    }
  }

  /** Looking a key other than the last entry's up in `e` is looking it up in `e` without its last entry. */
  lemma {:induction false} GetPrefix<V>(e: Dict<V>, k: string)
    requires e != [] && e[|e| - 1].0 != k
    ensures Get(e, k) == Get(e[..|e| - 1], k)
    decreases |e|
  {
    if e[0].0 != k && |e| > 1 {
      assert e[1..][..|e[1..]| - 1] == e[..|e| - 1][1..];
      GetPrefix(e[1..], k);
    }
  }

  /** With distinct keys, the last entry's key finds the last entry. */
  lemma {:induction false} GetLast<V>(e: Dict<V>)
    requires e != [] && DistinctKeys(e)
    ensures Get(e, e[|e| - 1].0) == Some(e[|e| - 1].1)
    decreases |e|
  {
    if |e| > 1 {
      assert e[0].0 != e[|e| - 1].0;
      GetLast(e[1..]);
    }
  }

  /** A conditional assignment `if cond: d[key] = value`. */
  datatype Assignment<V> = Assignment(cond: bool, key: string, value: V)

  /** `if c: d[key] = v` */
  function Put<V>(d: Dict<V>, c: bool, key: string, v: V): Dict<V> {
    if c then Set(d, key, v) else d
  }

  lemma PutGet<V>(d: Dict<V>, c: bool, key: string, v: V, k: string)
    ensures Get(Put(d, c, key, v), k) == if c && k == key then Some(v) else Get(d, k)
  {
  }

  lemma PutDistinct<V>(d: Dict<V>, c: bool, key: string, v: V)
    requires DistinctKeys(d)
    ensures DistinctKeys(Put(d, c, key, v))
  {
    SetDistinct(d, key, v);
  }

  /** The assignments of `es`, carried out in order. */
  function PutAll<V>(d: Dict<V>, es: seq<Assignment<V>>): Dict<V>
    decreases |es|
  {
    if es == [] then d else PutAll(Put(d, es[0].cond, es[0].key, es[0].value), es[1..])
  }

  lemma {:induction false} PutAllDistinct<V>(d: Dict<V>, es: seq<Assignment<V>>)
    requires DistinctKeys(d)
    ensures DistinctKeys(PutAll(d, es))
    decreases |es|
  {
    if es != [] {
      PutDistinct(d, es[0].cond, es[0].key, es[0].value);
      PutAllDistinct(Put(d, es[0].cond, es[0].key, es[0].value), es[1..]);
    }
  }

  /** A key no assignment targets keeps its value. */
  lemma {:induction false} PutAllOther<V>(d: Dict<V>, es: seq<Assignment<V>>, k: string)
    requires forall i :: 0 <= i < |es| ==> es[i].key != k
    ensures Get(PutAll(d, es), k) == Get(d, k)
    decreases |es|
  {
    if es != [] {
      PutGet(d, es[0].cond, es[0].key, es[0].value, k);
      PutAllOther(Put(d, es[0].cond, es[0].key, es[0].value), es[1..], k);
    }
  }

  /** When no other assignment targets the key of assignment `i`, that key holds its value
      if its condition holds, and keeps its value otherwise. */
  lemma {:induction false} PutAllAt<V>(d: Dict<V>, es: seq<Assignment<V>>, i: nat)
    requires i < |es| && forall j :: 0 <= j < |es| && j != i ==> es[j].key != es[i].key
    ensures Get(PutAll(d, es), es[i].key) == if es[i].cond then Some(es[i].value) else Get(d, es[i].key)
    decreases |es|
  {
    var e := es[0];
    var rest := es[1..];
    var d1 := Put(d, e.cond, e.key, e.value);
    assert PutAll(d, es) == PutAll(d1, rest);
    PutGet(d, e.cond, e.key, e.value, es[i].key);
    forall j | 0 <= j < |rest| ensures rest[j] == es[j + 1] {
    }
    if i == 0 {
      PutAllOther(d1, rest, e.key);
    } else {
      PutAllAt(d1, rest, i - 1);
    }
  }
}
