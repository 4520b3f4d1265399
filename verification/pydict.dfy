/** Python's `dict` as the two in-memory caches use it: assignment
    `d[k] = v` either overwrites an existing key in place or appends a new
    key, nothing is ever deleted, and `list(d.values())` lists the values in
    first-insertion order of their keys. */
module PyDict {
  import opened Wrappers

  /** `order` holds the keys in first-insertion order; `entries` the current
      value of each key. */
  datatype Dict<K, V> = Dict(order: seq<K>, entries: map<K, V>)

  ghost predicate Distinct<K(!new)>(s: seq<K>) {
    forall i, j :: 0 <= i < j < |s| ==> s[i] != s[j]
  }

  /** Every key occurs exactly once in `order`, and `order` lists exactly the
      keys of `entries`. */
  ghost predicate Valid<K(!new), V(!new)>(d: Dict<K, V>) {
    && Distinct(d.order)
    && (forall k :: k in d.entries <==> k in d.order)
  }

  function Empty<K(==, !new), V(!new)>(): (d: Dict<K, V>)
    ensures Valid(d)
    ensures forall k :: Lookup(d, k) == None
  {
    Dict([], map[])
  }

  /** `d.get(k)`. */
  function Lookup<K(==, !new), V(!new)>(d: Dict<K, V>, k: K): Option<V> {
    if k in d.entries then Some(d.entries[k]) else None
  }

  /** `d[k] = v`. */
  function Put<K(==, !new), V(!new)>(d: Dict<K, V>, k: K, v: V): (r: Dict<K, V>)
    requires Valid(d)
    ensures Valid(r)
    ensures Lookup(r, k) == Some(v)
    ensures forall k' :: k' != k ==> Lookup(r, k') == Lookup(d, k')
    ensures r.entries.Keys == d.entries.Keys + {k}
    ensures d.order <= r.order
  {
    if k in d.entries then Dict(d.order, d.entries[k := v])
    else Dict(d.order + [k], d.entries[k := v])
  }

  /** The keys written by a sequence of assignments. */
  function KeysOf<K(==, !new), V(!new)>(kvs: seq<(K, V)>): set<K> {
    set i | 0 <= i < |kvs| :: kvs[i].0
  }

  /** The value the last assignment to `k` in `kvs` wrote, if any. */
  function LastWrite<K(==, !new), V(!new)>(kvs: seq<(K, V)>, k: K): Option<V> {
    if |kvs| == 0 then None
    else if kvs[|kvs| - 1].0 == k then Some(kvs[|kvs| - 1].1)
    else LastWrite(kvs[..|kvs| - 1], k)
  }

  /** `for k, v in kvs: d[k] = v`. */
  function PutAll<K(==, !new), V(!new)>(d: Dict<K, V>, kvs: seq<(K, V)>): (r: Dict<K, V>)
    requires Valid(d)
    ensures Valid(r)
    decreases |kvs|
  {
    if |kvs| == 0 then d else PutAll(Put(d, kvs[0].0, kvs[0].1), kvs[1..])
  }

  /** `list(d.values())`. */
  function Values<K(==, !new), V(!new)>(d: Dict<K, V>): (vs: seq<V>)
    requires Valid(d)
    ensures |vs| == |d.order| == |d.entries|
    ensures forall i :: 0 <= i < |vs| ==> d.order[i] in d.entries && vs[i] == d.entries[d.order[i]]
  {
    DistinctCardinality(d.order);
    assert (set k | k in d.order) == d.entries.Keys;
    seq(|d.order|, i requires 0 <= i < |d.order| => d.entries[d.order[i]])
  }

  /** `list(d.values())` holds exactly the values of the dict. */
  lemma ValuesMembership<K(!new), V(!new)>(d: Dict<K, V>, v: V)
    requires Valid(d)
    ensures v in Values(d) <==> v in d.entries.Values
  {
    var vs := Values(d);
    if v in d.entries.Values {
      var k :| k in d.entries && d.entries[k] == v;
      var i :| 0 <= i < |d.order| && d.order[i] == k;
      assert vs[i] == v;
    }
  }

  /** A sequence without repetitions has as many elements as its set. */
  lemma {:induction false} DistinctCardinality<K(!new)>(s: seq<K>)
    requires Distinct(s)
    ensures |set k | k in s| == |s|
  {
    if |s| > 0 {
      var rest := s[1..];
      assert Distinct(rest) by {
        forall i, j | 0 <= i < j < |rest|
          ensures rest[i] != rest[j]
        {
          assert rest[i] == s[i + 1] && rest[j] == s[j + 1];
        }
      }
      DistinctCardinality(rest);
      assert s[0] !in rest by {
        forall i | 0 <= i < |rest|
          ensures rest[i] != s[0]
        {
          assert rest[i] == s[i + 1];
        }
      }
      assert (set k | k in s) == (set k | k in rest) + {s[0]} by {
        assert s == [s[0]] + rest;
      }
    }
  }

  /** Splitting off the first assignment: the last write to `k` is the last
      one in the tail, or else the first assignment if it is to `k`. */
  lemma {:induction false} LastWriteCons<K(!new), V(!new)>(kvs: seq<(K, V)>, k: K)
    requires |kvs| > 0
    ensures LastWrite(kvs, k) ==
      if LastWrite(kvs[1..], k).Some? then LastWrite(kvs[1..], k)
      else if kvs[0].0 == k then Some(kvs[0].1)
      else None
    decreases |kvs|
  {
    if |kvs| > 1 {
      var init := kvs[..|kvs| - 1];
      assert init[1..] == kvs[1..][..|kvs[1..]| - 1];
      assert init[0] == kvs[0];
      if kvs[|kvs| - 1].0 != k {
        LastWriteCons(init, k);
      }
    }
  }

  /** After a batch of assignments, each key holds the value its last
      assignment wrote; keys the batch never assigned keep their value. */
  lemma {:induction false} PutAllLookup<K(!new), V(!new)>(d: Dict<K, V>, kvs: seq<(K, V)>, k: K)
    requires Valid(d)
    ensures Lookup(PutAll(d, kvs), k) ==
      if LastWrite(kvs, k).Some? then LastWrite(kvs, k) else Lookup(d, k)
    decreases |kvs|
  {
    if |kvs| > 0 {
      PutAllLookup(Put(d, kvs[0].0, kvs[0].1), kvs[1..], k);
      LastWriteCons(kvs, k);
    }
  }

  /** A batch of assignments adds exactly the assigned keys, removes none,
      and keeps the position of every key already present. */
  lemma {:induction false} PutAllKeys<K(!new), V(!new)>(d: Dict<K, V>, kvs: seq<(K, V)>)
    requires Valid(d)
    ensures PutAll(d, kvs).entries.Keys == d.entries.Keys + KeysOf(kvs)
    ensures d.order <= PutAll(d, kvs).order
    decreases |kvs|
  {
    if |kvs| > 0 {
      var d1 := Put(d, kvs[0].0, kvs[0].1);
      var r := PutAll(d1, kvs[1..]);
      assert PutAll(d, kvs) == r;
      PutAllKeys(d1, kvs[1..]);
      assert r.entries.Keys == d1.entries.Keys + KeysOf(kvs[1..]);
      assert d1.entries.Keys == d.entries.Keys + {kvs[0].0};
      KeysOfCons(kvs);
      assert d.order <= d1.order <= r.order;
    }
  }

  lemma KeysOfCons<K(!new), V(!new)>(kvs: seq<(K, V)>)
    requires |kvs| > 0
    ensures KeysOf(kvs) == {kvs[0].0} + KeysOf(kvs[1..])
  {
    forall x | x in KeysOf(kvs)
      ensures x in {kvs[0].0} + KeysOf(kvs[1..])
    {
      var i :| 0 <= i < |kvs| && kvs[i].0 == x;
      if i > 0 {
        assert kvs[1..][i - 1].0 == x;
      }
    }
    forall x | x in KeysOf(kvs[1..])
      ensures x in KeysOf(kvs)
    {
      var i :| 0 <= i < |kvs[1..]| && kvs[1..][i].0 == x;
      assert kvs[i + 1].0 == x;
    }
  }

  /** The last write to `k` is `Some` exactly when some assignment targets `k`. */
  lemma {:induction false} LastWriteSome<K(!new), V(!new)>(kvs: seq<(K, V)>, k: K)
    ensures LastWrite(kvs, k).Some? <==> k in KeysOf(kvs)
    decreases |kvs|
  {
    if |kvs| > 0 {
      var init := kvs[..|kvs| - 1];
      LastWriteSome(init, k);
      if k in KeysOf(kvs) && kvs[|kvs| - 1].0 != k {
        var i :| 0 <= i < |kvs| && kvs[i].0 == k;
        assert init[i].0 == k;
      }
      if k in KeysOf(init) {
        var i :| 0 <= i < |init| && init[i].0 == k;
        assert kvs[i].0 == k;
      }
    }
  }

  /** A value the last write to `k` wrote was written by some assignment to `k`. */
  lemma {:induction false} LastWriteWritten<K(!new), V(!new)>(kvs: seq<(K, V)>, k: K)
    requires LastWrite(kvs, k).Some?
    ensures (k, LastWrite(kvs, k).value) in kvs
    decreases |kvs|
  {
    if kvs[|kvs| - 1].0 != k {
      var init := kvs[..|kvs| - 1];
      LastWriteWritten(init, k);
      assert (k, LastWrite(kvs, k).value) in init;
    }
  }

  /** Assigning `k` and then a batch is assigning the batch with `(k, v)`
      in front. */
  lemma PutAllCons<K(!new), V(!new)>(d: Dict<K, V>, k: K, v: V, rest: seq<(K, V)>)
    requires Valid(d)
    ensures PutAll(Put(d, k, v), rest) == PutAll(d, [(k, v)] + rest)
  {
    assert ([(k, v)] + rest)[1..] == rest;
  }
}
