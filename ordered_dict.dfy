/** Python dictionaries with string keys. A dictionary remembers the order in
    which its keys were first inserted, and iteration follows that order;
    assigning to a key that is already present keeps its position. */
module OrderedDict {

  datatype RawDict<V> = Dict(order: seq<string>, table: map<string, V>)

  /** The keys in `order` are distinct and are exactly the keys of `table`. */
  ghost predicate WellFormed<V>(d: RawDict<V>) {
    Distinct(d.order) && forall k :: k in d.table <==> k in d.order
  }

  /** No key occurs twice. The quantifier is stated over `At` so that it is
      only instantiated where a proof names the positions it compares. */
  ghost predicate Distinct(s: seq<string>) {
    forall i, j :: 0 <= i < j < |s| ==> At(s, i) != At(s, j)
  }

  ghost function At(s: seq<string>, i: nat): string
    requires i < |s|
  {
    s[i]
  }

  /** A key is not repeated among the keys before it. */
  lemma DistinctBefore(s: seq<string>, n: nat)
    requires Distinct(s) && n < |s|
    ensures s[n] !in s[..n]
  {
    forall i | 0 <= i < n
      ensures s[..n][i] != s[n]
    {
      assert At(s, i) != At(s, n);
    }
  }

  lemma DistinctPrefix(s: seq<string>, n: nat)
    requires Distinct(s) && n <= |s|
    ensures Distinct(s[..n])
  {
    forall i, j | 0 <= i < j < n
      ensures At(s[..n], i) != At(s[..n], j)
    {
      assert At(s, i) != At(s, j);
    }
  }

  lemma DistinctSnoc(s: seq<string>, k: string)
    requires Distinct(s) && k !in s
    ensures Distinct(s + [k])
  {
    forall i, j | 0 <= i < j < |s| + 1
      ensures At(s + [k], i) != At(s + [k], j)
    {
      if j < |s| {
        assert At(s, i) != At(s, j);
      } else {
        assert s[i] in s;
      }
    }
  }

  type Dict<V> = d: RawDict<V> | WellFormed(d) witness Dict([], map[])

  function Empty<V>(): (r: Dict<V>)
    ensures r.order == [] && r.table == map[]
  {
    Dict([], map[])
  }

  /** `d[k] = v` */
  function Put<V>(d: Dict<V>, k: string, v: V): (r: Dict<V>)
    ensures r.table == d.table[k := v]
    ensures r.order == if k in d.table then d.order else d.order + [k]
  {
    if k in d.table then Dict(d.order, d.table[k := v])
    else
      DistinctSnoc(d.order, k);
      Dict(d.order + [k], d.table[k := v])
  }

  /** `d.setdefault(k, []).append(x)` */
  function SetDefaultAppend<T>(d: Dict<seq<T>>, k: string, x: T): (r: Dict<seq<T>>)
    ensures r.table == d.table[k := (if k in d.table then d.table[k] else []) + [x]]
    ensures r.order == if k in d.table then d.order else d.order + [k]
  {
    Put(d, k, (if k in d.table then d.table[k] else []) + [x])
  }

  /** The elements of `s` for which `keep` holds, in order. */
  function Filter(s: seq<string>, keep: string -> bool): (r: seq<string>)
    ensures forall x :: x in r <==> x in s && keep(x)
    decreases |s|
  {
    if s == [] then []
    else
      var init := Filter(s[..|s| - 1], keep);
      assert forall x :: x in s[..|s| - 1] ==> x in s;
      assert forall x :: x in s ==> x in s[..|s| - 1] || x == s[|s| - 1];
      if keep(s[|s| - 1]) then init + [s[|s| - 1]] else init
  }

  lemma {:induction false} FilterDistinct(s: seq<string>, keep: string -> bool)
    requires Distinct(s)
    ensures Distinct(Filter(s, keep))
    decreases |s|
  {
    if s != [] {
      DistinctPrefix(s, |s| - 1);
      FilterDistinct(s[..|s| - 1], keep);
      if keep(s[|s| - 1]) {
        DistinctBefore(s, |s| - 1);
        DistinctSnoc(Filter(s[..|s| - 1], keep), s[|s| - 1]);
      }
    }
  }

  lemma {:induction false} FilterAll(s: seq<string>, keep: string -> bool)
    requires forall i :: 0 <= i < |s| ==> keep(s[i])
    ensures Filter(s, keep) == s
    decreases |s|
  {
    if s != [] {
      var init := s[..|s| - 1];
      assert forall i :: 0 <= i < |init| ==> keep(init[i]);
      FilterAll(init, keep);
      assert s == init + [s[|s| - 1]];
    }
  }

  /** The entries of `d` whose key satisfies `keep`, in their order. */
  function Restrict<V>(d: Dict<V>, keep: string -> bool): (r: Dict<V>)
    ensures forall k :: k in r.table <==> k in d.table && keep(k)
    ensures forall k :: k in r.table ==> r.table[k] == d.table[k]
    ensures r.order == Filter(d.order, keep)
  {
    var order := Filter(d.order, keep);
    FilterDistinct(d.order, keep);
    var table := map k | k in d.table && keep(k) :: d.table[k];
    Dict(order, table)
  }

  /** The next key of a dictionary is not among the keys before it. */
  lemma NextKeyFresh<V>(d: Dict<V>, n: nat)
    requires n < |d.order|
    ensures d.order[n] !in d.order[..n]
    ensures d.order[..n + 1] == d.order[..n] + [d.order[n]]
  {
    assert d.order[..n + 1] == d.order[..n] + [d.order[n]];
    DistinctBefore(d.order, n);
  }

  /** Re-inserting the keys of `d` in order: one more step keeps the order
      a prefix of `d`'s. */
  lemma PutOrderNext<V, W>(d: Dict<V>, prev: Dict<W>, n: nat, v: W)
    requires n < |d.order| && prev.order == d.order[..n]
    ensures Put(prev, d.order[n], v).order == d.order[..n + 1]
  {
    NextKeyFresh(d, n);
  }

  /** `PutOrderNext` for a key computed to be the next of `d`'s. */
  lemma PutOrderKey<V, W>(d: Dict<V>, prev: Dict<W>, n: nat, key: string, v: W)
    requires n < |d.order| && prev.order == d.order[..n] && key == d.order[n]
    ensures Put(prev, key, v).order == d.order[..n + 1]
  {
    PutOrderNext(d, prev, n, v);
  }

  /** The first `n` entries of `d` put, in order, into an empty dictionary,
      each under the key `kf` gives its key and with the value `vf` gives its
      value: of two keys given the same new key, the first fixes the
      position and the last the value. */
  function Rekey<V, W>(d: Dict<V>, n: nat, kf: string -> string, vf: V -> W): Dict<W>
    requires n <= |d.order|
    decreases n
  {
    if n == 0 then Empty()
    else Put(Rekey(d, n - 1, kf, vf), kf(d.order[n - 1]), vf(d.table[d.order[n - 1]]))
  }

  /** Re-keying by a function that fixes every key keeps the keys in their
      order ... */
  lemma {:induction false} RekeyOrder<V, W>(d: Dict<V>, n: nat, kf: string -> string, vf: V -> W)
    requires n <= |d.order|
    requires forall i :: 0 <= i < |d.order| ==> kf(d.order[i]) == d.order[i]
    ensures Rekey(d, n, kf, vf).order == d.order[..n]
    decreases n
  {
    if n > 0 {
      var k := d.order[n - 1];
      RekeyOrder(d, n - 1, kf, vf);
      PutOrderKey(d, Rekey(d, n - 1, kf, vf), n - 1, kf(k), vf(d.table[k]));
    }
  }

  /** ... and gives each of them its value under `vf`. */
  lemma {:induction false} RekeyValue<V, W>(d: Dict<V>, n: nat, kf: string -> string, vf: V -> W, i: nat)
    requires i < n <= |d.order|
    requires forall i :: 0 <= i < |d.order| ==> kf(d.order[i]) == d.order[i]
    ensures d.order[i] in Rekey(d, n, kf, vf).table
    ensures Rekey(d, n, kf, vf).table[d.order[i]] == vf(d.table[d.order[i]])
    decreases n
  {
    var k := d.order[n - 1];
    assert kf(k) == k;
    if i < n - 1 {
      assert At(d.order, i) != At(d.order, n - 1);
      RekeyValue(d, n - 1, kf, vf, i);
    }
  }

  /** Every key of the re-keyed dictionary is a key of `d`, with its value
      under `vf`. */
  lemma RekeyTable<V, W>(d: Dict<V>, n: nat, kf: string -> string, vf: V -> W, x: string)
    requires n <= |d.order|
    requires forall i :: 0 <= i < |d.order| ==> kf(d.order[i]) == d.order[i]
    requires x in Rekey(d, n, kf, vf).table
    ensures x in d.table && Rekey(d, n, kf, vf).table[x] == vf(d.table[x])
  {
    var r := Rekey(d, n, kf, vf);
    RekeyOrder(d, n, kf, vf);
    assert x in r.order;
    var j :| 0 <= j < |r.order| && r.order[j] == x;
    assert d.order[j] == x;
    RekeyValue(d, n, kf, vf, j);
  }

  /** A key of the re-keyed dictionary is the new key of one of the first
      `n` entries, and holds the value of such an entry ... */
  lemma {:induction false} RekeySound<V, W>(d: Dict<V>, n: nat, kf: string -> string, vf: V -> W, k: string)
    returns (j: nat)
    requires n <= |d.order| && k in Rekey(d, n, kf, vf).table
    ensures j < n && kf(d.order[j]) == k && Rekey(d, n, kf, vf).table[k] == vf(d.table[d.order[j]])
    decreases n
  {
    var key := kf(d.order[n - 1]);
    if k == key {
      j := n - 1;
    } else {
      PutOther(Rekey(d, n - 1, kf, vf), key, vf(d.table[d.order[n - 1]]), k);
      j := RekeySound(d, n - 1, kf, vf, k);
    }
  }

  /** ... and the new key of each of those entries is one of its keys. */
  lemma {:induction false} RekeyComplete<V, W>(d: Dict<V>, n: nat, kf: string -> string, vf: V -> W, j: nat)
    requires j < n <= |d.order|
    ensures kf(d.order[j]) in Rekey(d, n, kf, vf).table
    decreases n
  {
    if j < n - 1 {
      RekeyComplete(d, n - 1, kf, vf, j);
    }
  }

  /** A key other than the one put keeps its entry. */
  lemma PutOther<V>(prev: Dict<V>, key: string, v: V, x: string)
    requires x in Put(prev, key, v).table && x != key
    ensures x in prev.table && Put(prev, key, v).table[x] == prev.table[x]
  {
  }

  /** Two dictionaries with the same keys in the same order, where every
      value of the first is the second's, are equal. */
  lemma SameEntries<V>(a: Dict<V>, b: Dict<V>)
    requires a.order == b.order[..|b.order|]
    requires forall k :: k in a.table ==> k in b.table && a.table[k] == b.table[k]
    ensures a == b
  {
    assert a.order == b.order;
    assert a.table == b.table;
  }

  /** `{k: f(v) for k, v in d.items()}` */
  function MapValues<V, W>(d: Dict<V>, f: V -> W): (r: Dict<W>)
    ensures r.order == d.order
    ensures forall k :: k in r.table <==> k in d.table
    ensures forall k :: k in r.table ==> r.table[k] == f(d.table[k])
  {
    Dict(d.order, map k | k in d.table :: f(d.table[k]))
  }

  /** `d.get(k, [])` */
  function Lookup<T>(d: Dict<seq<T>>, k: string): seq<T> {
    if k in d.table then d.table[k] else []
  }
}
