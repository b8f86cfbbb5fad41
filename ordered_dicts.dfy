/** Python's `OrderedDict` with string keys, as the list of its items in
    insertion order, and an object wrapping one for code that fills a
    dictionary it was handed. */
module OrderedDicts {
  import opened Wrappers

  /** The items of an ordered dictionary, oldest key first. */
  type Entries<V> = seq<(string, V)>

  /** The keys of `d`, in order. */
  function Keys<V>(d: Entries<V>): (ks: seq<string>)
    ensures |ks| == |d|
  {
    seq(|d|, i requires 0 <= i < |d| => d[i].0)
  }

  /** A key of a non-empty list is a key of all but its last item, or the
      last item's key. */
  lemma KeysLast<V>(e: Entries<V>, k: string)
    requires e != []
    ensures k in Keys(e) <==> k in Keys(e[..|e| - 1]) || k == e[|e| - 1].0
  {
    var init := e[..|e| - 1];
    if k in Keys(e) {
      var i :| 0 <= i < |e| && Keys(e)[i] == k;
      if i < |init| {
        assert Keys(init)[i] == k;
      }
    }
    if k in Keys(init) {
      var i :| 0 <= i < |init| && Keys(init)[i] == k;
      assert Keys(e)[i] == k;
    }
    assert Keys(e)[|e| - 1] == e[|e| - 1].0;
  }

  /** No key is listed twice, which every Python dictionary guarantees. */
  predicate DistinctKeys<V>(d: Entries<V>) {
    forall i, j :: 0 <= i < j < |d| ==> d[i].0 != d[j].0
  }

  /** The keys of a non-empty list: its first key, then the rest's. */
  lemma KeysCons<V>(d: Entries<V>)
    requires d != []
    ensures Keys(d) == [d[0].0] + Keys(d[1..])
  {
  }

  /** `d.get(k)` */
  function Get<V>(d: Entries<V>, k: string): (r: Option<V>)
    ensures r.Some? <==> k in Keys(d)
    ensures r.Some? ==> (k, r.value) in d
    decreases |d|
  {
    if d == [] then None
    else
      KeysCons(d);
      if d[0].0 == k then Some(d[0].1) else Get(d[1..], k)
  }

  /** `d[k] = v`: an existing key keeps its place and takes the new value;
      a new key is appended at the end. */
  function Put<V>(d: Entries<V>, k: string, v: V): (r: Entries<V>)
    ensures k !in Keys(d) ==> r == d + [(k, v)]
    decreases |d|
  {
    if d == [] then [(k, v)]
    else
      KeysCons(d);
      if d[0].0 == k then [(k, v)] + d[1..] else [d[0]] + Put(d[1..], k, v)
  }

  /** After `d[k] = v` the key list is unchanged when `k` was present, and
      extended by `k` otherwise. */
  lemma {:induction false} PutKeys<V>(d: Entries<V>, k: string, v: V)
    ensures Keys(Put(d, k, v)) == if k in Keys(d) then Keys(d) else Keys(d) + [k]
    decreases |d|
  {
    if d != [] {
      var r := Put(d, k, v);
      KeysCons(d);
      KeysCons(r);
      if d[0].0 == k {
        assert r[0].0 == k && r[1..] == d[1..];
      } else {
        var r' := Put(d[1..], k, v);
        assert r[0] == d[0] && r[1..] == r';
        PutKeys(d[1..], k, v);
        assert k in Keys(d) <==> k in Keys(d[1..]);
      }
    }
  }

  /** `d[k] = v` makes `k` map to `v` and leaves every other key alone. */
  lemma {:induction false} PutGet<V>(d: Entries<V>, k: string, v: V, k': string)
    ensures Get(Put(d, k, v), k') == if k' == k then Some(v) else Get(d, k')
    decreases |d|
  {
    if d != [] && d[0].0 != k {
      var r := Put(d, k, v);
      assert r[0] == d[0] && r[1..] == Put(d[1..], k, v);
      PutGet(d[1..], k, v, k');
    }
  }

  /** `d[k] = v` keeps the keys distinct. */
  lemma PutDistinct<V>(d: Entries<V>, k: string, v: V)
    requires DistinctKeys(d)
    ensures DistinctKeys(Put(d, k, v))
  {
    var r := Put(d, k, v);
    PutKeys(d, k, v);
    assert forall i :: 0 <= i < |r| ==> r[i].0 == Keys(r)[i];
    assert forall i :: 0 <= i < |d| ==> d[i].0 == Keys(d)[i];
  }

  /** The items of `d` whose key is not listed in `skip`, in their original
      order. */
  function Without<V>(d: Entries<V>, skip: seq<string>): (r: Entries<V>)
    ensures |r| <= |d|
    decreases |d|
  {
    if d == [] then []
    else if d[0].0 in skip then Without(d[1..], skip)
    else [d[0]] + Without(d[1..], skip)
  }

  /** Filtering keeps exactly the keys that are not skipped, each with its
      value. */
  lemma {:induction false} WithoutKeeps<V>(d: Entries<V>, skip: seq<string>, k: string)
    ensures k in Keys(Without(d, skip)) <==> k in Keys(d) && k !in skip
    ensures k !in skip ==> Get(Without(d, skip), k) == Get(d, k)
    decreases |d|
  {
    if d != [] {
      var r := Without(d, skip);
      assert Keys(d) == [d[0].0] + Keys(d[1..]);
      WithoutKeeps(d[1..], skip, k);
      if d[0].0 !in skip {
        assert r[0] == d[0] && r[1..] == Without(d[1..], skip);
        assert Keys(r) == [d[0].0] + Keys(r[1..]);
      }
    }
  }

  /** Filtering keeps the keys distinct. */
  lemma {:induction false} WithoutDistinct<V>(d: Entries<V>, skip: seq<string>)
    requires DistinctKeys(d)
    ensures DistinctKeys(Without(d, skip))
    decreases |d|
  {
    if d != [] {
      WithoutDistinct(d[1..], skip);
      if d[0].0 !in skip {
        var tail := Without(d[1..], skip);
        KeysCons(d);
        WithoutKeeps(d[1..], skip, d[0].0);
        ConsDistinct(d[0], tail);
      }
    }
  }

  /** An item whose key is new can go in front of a list with distinct keys. */
  lemma ConsDistinct<V>(x: (string, V), t: Entries<V>)
    requires DistinctKeys(t) && x.0 !in Keys(t)
    ensures DistinctKeys([x] + t)
  {
    var r := [x] + t;
    forall i, j | 0 <= i < j < |r| ensures r[i].0 != r[j].0 {
      assert Keys(t)[j - 1] == t[j - 1].0;
    }
  }

  /** Filtering distributes over concatenation: the kept items of a longer
      list are the kept items of its parts, in order. */
  lemma {:induction false} WithoutConcat<V>(a: Entries<V>, b: Entries<V>, skip: seq<string>)
    ensures Without(a + b, skip) == Without(a, skip) + Without(b, skip)
    decreases |a|
  {
    if a == [] {
      assert a + b == b;
    } else {
      assert (a + b)[0] == a[0];
      assert (a + b)[1..] == a[1..] + b;
      WithoutConcat(a[1..], b, skip);
      if a[0].0 !in skip {
        assert Without(a + b, skip) == [a[0]] + Without(a[1..] + b, skip);
      }
    }
  }

  /** An ordered dictionary that a caller hands over to be filled in place. */
  class Dict<V> {
    var entries: Entries<V>

    ghost predicate Valid()
      reads this
    {
      DistinctKeys(entries)
    }

    /** `OrderedDict()` */
    constructor ()
      ensures Valid() && entries == []
    {
      entries := [];
    }

    /** `self[k] = v` */
    method Set(k: string, v: V)
      requires Valid()
      modifies this
      ensures Valid()
      ensures entries == Put(old(entries), k, v)
    {
      PutDistinct(entries, k, v);
      entries := Put(entries, k, v);
    }
  }
}
