/** The mapping transformations both engines share, as functions: the
    list-valued normal form, the inverse mapping, upper-case folding and
    the clean-up of empty alternatives. The loops that build them are in
    `Tokenizer`, `Encoder` and `FlatCodec`. */
module Maps {
  import opened Seqs
  import opened OrderedDict
  import opened PyStr
  import opened ModuleLoader

  /** A mapping whose every value is a list of alternatives. */
  type Mapping = Dict<seq<string>>

  function AsMany(l: seq<string>): Target {
    Many(l)
  }

  function ListValue(v: Target): Target {
    Many(Targets(v))
  }

  /** A list-valued mapping seen as a raw one. */
  function Lift(d: Mapping): (r: RawMap)
    ensures r.order == d.order && forall k :: k in r.table <==> k in d.table
    ensures forall k :: k in r.table ==> Targets(r.table[k]) == d.table[k]
  {
    MapValues(d, AsMany)
  }

  // ---------------------------------------------------------------------
  //  Normal form
  // ---------------------------------------------------------------------

  /** `_normalize_map(orig)`: the same keys in the same order; a scalar value
      becomes a one-element list and a list is copied. */
  function Normalized(orig: RawMap): (r: Mapping)
    ensures r.order == orig.order
    ensures forall k :: k in r.table <==> k in orig.table
    ensures forall k :: k in r.table ==> r.table[k] == Targets(orig.table[k])
  {
    MapValues(orig, Targets)
  }

  /** A mapping that is already list-valued is left as it is. */
  lemma NormalizedLift(d: Mapping)
    ensures Normalized(Lift(d)) == d
  {
  }

  // ---------------------------------------------------------------------
  //  Inversion
  // ---------------------------------------------------------------------

  /** `inv.setdefault(t, []).append(k)` for every `t` of `ts`, in order. */
  function AddKey(inv: Mapping, k: string, ts: seq<string>): Mapping
    decreases |ts|
  {
    if ts == [] then inv
    else SetDefaultAppend(AddKey(inv, k, ts[..|ts| - 1]), ts[|ts| - 1], k)
  }

  /** The inverse of the first `n` entries of `orig`. */
  function InvertedUpTo(orig: RawMap, n: nat): Mapping
    requires n <= |orig.order|
    decreases n
  {
    if n == 0 then Empty()
    else AddKey(InvertedUpTo(orig, n - 1), orig.order[n - 1], Targets(orig.table[orig.order[n - 1]]))
  }

  /** `_invert_map(orig)` and `build_inverse_mapping(orig)`: every target
      maps to the list of keys that reach it, in key order. */
  function Inverted(orig: RawMap): Mapping {
    InvertedUpTo(orig, |orig.order|)
  }

  lemma {:induction false} AddKeyKeys(inv: Mapping, k: string, ts: seq<string>, t: string)
    ensures t in AddKey(inv, k, ts).table <==> t in inv.table || t in ts
    decreases |ts|
  {
    if ts != [] {
      var init := ts[..|ts| - 1];
      AddKeyKeys(inv, k, init, t);
      assert ts == init + [ts[|ts| - 1]];
    }
  }

  lemma SetDefaultAppendLookup(d: Mapping, t0: string, k: string, t: string, k': string)
    ensures k' in Lookup(SetDefaultAppend(d, t0, k), t) <==> k' in Lookup(d, t) || (k' == k && t == t0)
  {
    var l := Lookup(d, t);
    if t == t0 {
      assert Lookup(SetDefaultAppend(d, t0, k), t) == l + [k];
    }
  }

  lemma {:induction false} AddKeyLookup(inv: Mapping, k: string, ts: seq<string>, t: string, k': string)
    ensures k' in Lookup(AddKey(inv, k, ts), t) <==> k' in Lookup(inv, t) || (k' == k && t in ts)
    decreases |ts|
  {
    if ts != [] {
      var init := ts[..|ts| - 1];
      var last := ts[|ts| - 1];
      AddKeyLookup(inv, k, init, t, k');
      SetDefaultAppendLookup(AddKey(inv, k, init), last, k, t, k');
      InLast(ts, t);
    }
  }

  lemma {:induction false} AddKeyNonEmpty(inv: Mapping, k: string, ts: seq<string>)
    requires forall u :: u in inv.table ==> inv.table[u] != []
    ensures forall u :: u in AddKey(inv, k, ts).table ==> AddKey(inv, k, ts).table[u] != []
    decreases |ts|
  {
    if ts != [] {
      AddKeyNonEmpty(inv, k, ts[..|ts| - 1]);
    }
  }

  lemma {:induction false} InvertedUpToLists(orig: RawMap, n: nat, t: string, k: string)
    requires n <= |orig.order|
    ensures k in Lookup(InvertedUpTo(orig, n), t) <==>
            k in orig.order[..n] && t in Targets(orig.table[k])
    decreases n
  {
    if n == 0 {
      assert orig.order[..n] == [];
    } else {
      var key := orig.order[n - 1];
      var ts := Targets(orig.table[key]);
      InvertedUpToLists(orig, n - 1, t, k);
      AddKeyLookup(InvertedUpTo(orig, n - 1), key, ts, t, k);
      InTakeLast(orig.order, n, k);
      ListsStep(k in Lookup(InvertedUpTo(orig, n), t), k in Lookup(InvertedUpTo(orig, n - 1), t),
                k in orig.order[..n], k in orig.order[..n - 1], k == key,
                k in orig.table && t in Targets(orig.table[k]), t in ts);
    }
  }

  /** How one more key changes the lists of the inverse: `k` is listed under
      `t` after the step when it was before, or when it is the new key and
      `t` is among the new key's targets. */
  lemma ListsStep(listedNow: bool, listedBefore: bool, seenNow: bool, seenBefore: bool,
                  isNew: bool, mapsTo: bool, newMapsTo: bool)
    requires listedBefore <==> seenBefore && mapsTo
    requires listedNow <==> listedBefore || (isNew && newMapsTo)
    requires seenNow <==> seenBefore || isNew
    requires isNew ==> (mapsTo <==> newMapsTo)
    ensures listedNow <==> seenNow && mapsTo
  {
  }

  /** A target of the inverse built from the first `n` entries is the
      target of one of those entries ... */
  lemma {:induction false} InvertedUpToKeysSound(orig: RawMap, n: nat, t: string) returns (i: nat)
    requires n <= |orig.order| && t in InvertedUpTo(orig, n).table
    ensures i < n && t in Targets(orig.table[orig.order[i]])
    decreases n
  {
    var key := orig.order[n - 1];
    AddKeyKeys(InvertedUpTo(orig, n - 1), key, Targets(orig.table[key]), t);
    if t in InvertedUpTo(orig, n - 1).table {
      i := InvertedUpToKeysSound(orig, n - 1, t);
    } else {
      i := n - 1;
    }
  }

  /** ... and every target of those entries is one of its keys. */
  lemma {:induction false} InvertedUpToKeysComplete(orig: RawMap, n: nat, t: string, i: nat)
    requires i < n <= |orig.order| && t in Targets(orig.table[orig.order[i]])
    ensures t in InvertedUpTo(orig, n).table
    decreases n
  {
    var key := orig.order[n - 1];
    AddKeyKeys(InvertedUpTo(orig, n - 1), key, Targets(orig.table[key]), t);
    if i < n - 1 {
      InvertedUpToKeysComplete(orig, n - 1, t, i);
    }
  }

  lemma {:induction false} InvertedUpToNonEmpty(orig: RawMap, n: nat)
    requires n <= |orig.order|
    ensures forall u :: u in InvertedUpTo(orig, n).table ==> InvertedUpTo(orig, n).table[u] != []
    decreases n
  {
    if n > 0 {
      var key := orig.order[n - 1];
      InvertedUpToNonEmpty(orig, n - 1);
      AddKeyNonEmpty(InvertedUpTo(orig, n - 1), key, Targets(orig.table[key]));
    }
  }

  /** For every key `k` and target `t` of `k`, the inverse lists `k` under
      `t`, and lists nothing else; its keys are exactly the targets, and
      none of its lists is empty. */
  lemma InvertedMember(orig: RawMap, t: string, k: string)
    ensures k in Lookup(Inverted(orig), t) <==> k in orig.table && t in Targets(orig.table[k])
    ensures t in Inverted(orig).table <==> exists k :: k in orig.table && t in Targets(orig.table[k])
    ensures forall u :: u in Inverted(orig).table ==> Inverted(orig).table[u] != []
  {
    InvertedUpToLists(orig, |orig.order|, t, k);
    InvertedUpToNonEmpty(orig, |orig.order|);
    TakeAll(orig.order);
    if t in Inverted(orig).table {
      var i := InvertedUpToKeysSound(orig, |orig.order|, t);
      assert orig.order[i] in orig.table;
    }
    if exists k :: k in orig.table && t in Targets(orig.table[k]) {
      var k :| k in orig.table && t in Targets(orig.table[k]);
      var i :| 0 <= i < |orig.order| && orig.order[i] == k;
      InvertedUpToKeysComplete(orig, |orig.order|, t, i);
    }
  }

  /** Inverting a mapping without lower-case text gives one without
      lower-case text. */
  lemma InvertedUpperInvariant(orig: RawMap)
    requires UpperInvariant(orig)
    ensures UpperInvariant(Lift(Inverted(orig)))
  {
    var inv := Inverted(orig);
    forall t | t in Lift(inv).table
      ensures Upper(t) == t && forall k :: k in Targets(Lift(inv).table[t]) ==> Upper(k) == k
    {
      InvertedMember(orig, t, "");
      var k0 :| k0 in orig.table && t in Targets(orig.table[k0]);
      forall k | k in Targets(Lift(inv).table[t]) ensures Upper(k) == k {
        InvertedMember(orig, t, k);
      }
    }
  }

  // ---------------------------------------------------------------------
  //  Upper-case folding
  // ---------------------------------------------------------------------

  function UpperAll(ts: seq<string>): (r: seq<string>)
    ensures |r| == |ts| && forall i :: 0 <= i < |ts| ==> r[i] == Upper(ts[i])
  {
    seq(|ts|, i requires 0 <= i < |ts| => Upper(ts[i]))
  }

  /** The folding of `tokenize_message_with_module` and `get_recursive_decode`
      over the first `n` entries: upper-cased keys, upper-cased lists. */
  function FoldUpperUpTo(raw: RawMap, n: nat): RawMap
    requires n <= |raw.order|
  {
    Rekey(raw, n, Upper, FoldEntry)
  }

  /** `[vv.upper() for vv in v]` for a list, `[v.upper()]` for a scalar. */
  function FoldEntry(v: Target): Target {
    Many(UpperAll(Targets(v)))
  }

  function FoldUpper(raw: RawMap): RawMap {
    FoldUpperUpTo(raw, |raw.order|)
  }

  lemma UpperAllInvariant(ts: seq<string>)
    requires forall t :: t in ts ==> Upper(t) == t
    ensures UpperAll(ts) == ts
  {
  }

  /** Folding a mapping that has no lower-case text changes nothing once it
      is normalised. */
  lemma FoldUpperIdentity(raw: RawMap)
    requires UpperInvariant(raw)
    ensures Normalized(FoldUpper(raw)) == Normalized(raw)
  {
    forall i | 0 <= i < |raw.order| ensures Upper(raw.order[i]) == raw.order[i] {
      assert raw.order[i] in raw.table;
    }
    RekeyOrder(raw, |raw.order|, Upper, FoldEntry);
    forall x | x in FoldUpper(raw).table
      ensures x in raw.table && FoldUpper(raw).table[x] == ListValue(raw.table[x])
    {
      RekeyTable(raw, |raw.order|, Upper, FoldEntry, x);
      UpperAllInvariant(Targets(raw.table[x]));
    }
    TakeAll(raw.order);
    assert Normalized(FoldUpper(raw)).table == Normalized(raw).table;
  }

  /** The folding of `codec.py`, which keeps scalars scalar, over the first
      `n` entries. */
  function FoldFlatUpTo(raw: RawMap, n: nat): RawMap
    requires n <= |raw.order|
  {
    Rekey(raw, n, Upper, FlatEntry)
  }

  /** A scalar upper-cased as a scalar, a list element by element. */
  function FlatEntry(v: Target): Target {
    if v.One? then One(Upper(v.s)) else Many(UpperAll(v.items))
  }

  lemma FlatEntryIdentity(raw: RawMap, k: string)
    requires UpperInvariant(raw) && k in raw.table
    ensures FlatEntry(raw.table[k]) == raw.table[k]
  {
    var v := raw.table[k];
    if v.Many? {
      UpperAllInvariant(v.items);
    } else {
      assert v.s in Targets(v);
    }
  }

  function FoldFlat(raw: RawMap): RawMap {
    FoldFlatUpTo(raw, |raw.order|)
  }

  /** Folding a mapping that has no lower-case text changes nothing. */
  lemma FoldFlatIdentity(raw: RawMap)
    requires UpperInvariant(raw)
    ensures FoldFlat(raw) == raw
  {
    forall i | 0 <= i < |raw.order| ensures Upper(raw.order[i]) == raw.order[i] {
      assert raw.order[i] in raw.table;
    }
    RekeyOrder(raw, |raw.order|, Upper, FlatEntry);
    forall x | x in FoldFlat(raw).table ensures x in raw.table && FoldFlat(raw).table[x] == raw.table[x] {
      RekeyTable(raw, |raw.order|, Upper, FlatEntry, x);
      FlatEntryIdentity(raw, x);
    }
    SameEntries(FoldFlat(raw), raw);
  }

  /** The key folding of the encoder over the first `n` entries: upper-cased
      keys, lists copied. */
  function UpperKeysUpTo(d: Mapping, n: nat): Mapping
    requires n <= |d.order|
  {
    Rekey(d, n, Upper, KeepList)
  }

  /** The value function of a folding that copies the lists. */
  function KeepList(l: seq<string>): seq<string> {
    l
  }

  function UpperKeys(d: Mapping): Mapping {
    UpperKeysUpTo(d, |d.order|)
  }

  /** The keys of the folded mapping are the upper-cased keys; each holds
      the list of some key it folds. */
  lemma UpperKeysMember(d: Mapping, k: string)
    ensures k in UpperKeys(d).table <==> exists k0 :: k0 in d.table && Upper(k0) == k
    ensures k in UpperKeys(d).table ==>
            exists k0 :: k0 in d.table && Upper(k0) == k && UpperKeys(d).table[k] == d.table[k0]
  {
    if k in UpperKeys(d).table {
      var j := RekeySound(d, |d.order|, Upper, KeepList, k);
      assert d.order[j] in d.table;
    }
    if exists k0 :: k0 in d.table && Upper(k0) == k {
      var k0 :| k0 in d.table && Upper(k0) == k;
      var j :| 0 <= j < |d.order| && d.order[j] == k0;
      RekeyComplete(d, |d.order|, Upper, KeepList, j);
    }
  }

  /** Upper-casing keys that are already upper-case changes nothing. */
  lemma UpperKeysIdentity(d: Mapping)
    requires forall k :: k in d.table ==> Upper(k) == k
    ensures UpperKeys(d) == d
  {
    forall i | 0 <= i < |d.order| ensures Upper(d.order[i]) == d.order[i] {
      assert d.order[i] in d.table;
    }
    RekeyOrder(d, |d.order|, Upper, KeepList);
    forall x | x in UpperKeys(d).table ensures x in d.table && UpperKeys(d).table[x] == d.table[x] {
      RekeyTable(d, |d.order|, Upper, KeepList, x);
    }
    SameEntries(UpperKeys(d), d);
  }

  // ---------------------------------------------------------------------
  //  Clean-up
  // ---------------------------------------------------------------------

  /** Whether key `k` of `d` has at least one alternative. */
  function HasAlternatives(d: Mapping): string -> bool {
    k => k in d.table && d.table[k] != []
  }

  /** The entries of `d` with at least one alternative, in order. */
  function Cleaned(d: Mapping): (r: Mapping)
    ensures forall k :: k in r.table <==> k in d.table && d.table[k] != []
    ensures forall k :: k in r.table ==> r.table[k] == d.table[k] && r.table[k] != []
    ensures r.order == Filter(d.order, HasAlternatives(d))
  {
    Restrict(d, HasAlternatives(d))
  }

  /** A mapping without empty lists (an inverse, say) is left as it is. */
  lemma CleanedIdentity(d: Mapping)
    requires forall k :: k in d.table ==> d.table[k] != []
    ensures Cleaned(d) == d
  {
    forall i | 0 <= i < |d.order| ensures HasAlternatives(d)(d.order[i]) {
      assert d.order[i] in d.table;
    }
    FilterAll(d.order, HasAlternatives(d));
  }
}
