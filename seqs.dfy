/** Generic sequence helpers shared by every part of the codec model:
    an Option type, the ordered product that `itertools.product` and the
    nested append loops of the engine build, an early-exit collection of
    per-item outcomes, prefix truncation and order-preserving
    de-duplication. */
module Seqs {

  datatype Option<+T> = None | Some(value: T) {
    function GetOr(default: T): T {
      if Some? then value else default
    }
  }

  // ---------------------------------------------------------------------
  //  Ordered products
  // ---------------------------------------------------------------------

  /** `[f(x, y) for y in b]` */
  function Row<A, B, C>(x: A, b: seq<B>, f: (A, B) -> C): (r: seq<C>)
    ensures |r| == |b|
    ensures forall j :: 0 <= j < |b| ==> r[j] == f(x, b[j])
  {
    seq(|b|, j requires 0 <= j < |b| => f(x, b[j]))
  }

  /** `[f(x, y) for x in a for y in b]`: the first argument varies slowest,
      which is the order of `itertools.product` and of two nested loops. */
  function Product<A, B, C>(a: seq<A>, b: seq<B>, f: (A, B) -> C): seq<C>
    decreases |a|
  {
    if a == [] then [] else Product(a[..|a| - 1], b, f) + Row(a[|a| - 1], b, f)
  }

  lemma {:induction false} ProductLength<A, B, C>(a: seq<A>, b: seq<B>, f: (A, B) -> C)
    ensures |Product(a, b, f)| == |a| * |b|
  {
    if a != [] {
      ProductLength(a[..|a| - 1], b, f);
      assert |a| * |b| == (|a| - 1) * |b| + |b|;
    }
  }

  /** Every element of a product pairs one element of each side, and every
      such pair is there. */
  lemma {:induction false} ProductMember<A, B, C>(a: seq<A>, b: seq<B>, f: (A, B) -> C, r: C)
    ensures r in Product(a, b, f) <==>
            exists i, j :: 0 <= i < |a| && 0 <= j < |b| && r == f(a[i], b[j])
  {
    if a != [] {
      var init := a[..|a| - 1];
      ProductMember(init, b, f, r);
      assert Product(a, b, f) == Product(init, b, f) + Row(a[|a| - 1], b, f);
      if exists i, j :: 0 <= i < |a| && 0 <= j < |b| && r == f(a[i], b[j]) {
        var i, j :| 0 <= i < |a| && 0 <= j < |b| && r == f(a[i], b[j]);
        if i < |a| - 1 {
          assert init[i] == a[i];
        } else {
          assert Row(a[|a| - 1], b, f)[j] == r;
        }
      }
      if r in Row(a[|a| - 1], b, f) {
        var j :| 0 <= j < |b| && Row(a[|a| - 1], b, f)[j] == r;
        assert r == f(a[|a| - 1], b[j]);
      }
      if r in Product(init, b, f) {
        var i, j :| 0 <= i < |init| && 0 <= j < |b| && r == f(init[i], b[j]);
        assert a[i] == init[i];
      }
    }
  }

  lemma ProductEmptyRight<A, B, C>(a: seq<A>, b: seq<B>, f: (A, B) -> C)
    requires b == []
    ensures Product(a, b, f) == []
  {
    ProductLength(a, b, f);
  }

  // ---------------------------------------------------------------------
  //  Prefixes and truncation
  // ---------------------------------------------------------------------

  ghost predicate PrefixOf<T>(a: seq<T>, b: seq<T>) {
    |a| <= |b| && b[..|a|] == a
  }

  lemma PrefixTrans<T>(a: seq<T>, b: seq<T>, c: seq<T>)
    requires PrefixOf(a, b) && PrefixOf(b, c)
    ensures PrefixOf(a, c)
  {
    assert c[..|a|] == c[..|b|][..|a|];
  }

  lemma PrefixAppend<T>(a: seq<T>, b: seq<T>, c: seq<T>)
    requires PrefixOf(b, c)
    ensures PrefixOf(a + b, a + c)
  {
    assert (a + c)[..|a + b|] == a + c[..|b|];
  }

  lemma PrefixExtend<T>(a: seq<T>, b: seq<T>)
    ensures PrefixOf(a, a + b)
  {
    assert (a + b)[..|a|] == a;
  }

  /** Membership in a non-empty sequence, split at its last element. */
  lemma InLast<T>(s: seq<T>, x: T)
    requires s != []
    ensures x in s <==> x in s[..|s| - 1] || x == s[|s| - 1]
  {
    assert s == s[..|s| - 1] + [s[|s| - 1]];
  }

  /** A prefix one longer is the shorter prefix and one more element. */
  lemma TakeSnoc<T>(s: seq<T>, n: nat)
    requires 0 < n <= |s|
    ensures s[..n] == s[..n - 1] + [s[n - 1]]
  {
  }

  lemma TakeTake<T>(s: seq<T>, i: nat)
    requires i < |s|
    ensures s[..i + 1][..i] == s[..i]
  {
  }

  lemma TakeAll<T>(s: seq<T>)
    ensures s[..|s|] == s
  {
  }

  /** Membership in a prefix, split at the prefix's last element. */
  lemma InTakeLast<T>(s: seq<T>, n: nat, x: T)
    requires 0 < n <= |s|
    ensures x in s[..n] <==> x in s[..n - 1] || x == s[n - 1]
  {
    assert s[..n] == s[..n - 1] + [s[n - 1]];
  }

  /** The first `n` elements of `l`, or all of `l` when it is shorter. */
  function Take<T>(l: seq<T>, n: nat): (r: seq<T>)
    ensures |r| <= n && PrefixOf(r, l)
    ensures |l| <= n ==> r == l
  {
    if |l| <= n then l else l[..n]
  }

  /** The products built by nested append loops grow by whole rows, so an
      earlier stage is a prefix of a later one. */
  lemma {:induction false} ProductPrefix<A, B, C>(a: seq<A>, b: seq<B>, f: (A, B) -> C, i: nat)
    requires i <= |a|
    ensures PrefixOf(Product(a[..i], b, f), Product(a, b, f))
    decreases |a| - i
  {
    if i == |a| {
      assert a[..i] == a;
    } else {
      ProductPrefix(a, b, f, i + 1);
      assert a[..i + 1][..i] == a[..i];
      PrefixExtend(Product(a[..i], b, f), Row(a[i], b, f));
      PrefixTrans(Product(a[..i], b, f), Product(a[..i + 1], b, f), Product(a, b, f));
    }
  }

  /** One more row of `a` adds its row to the product. */
  lemma ProductStep<A, B, C>(a: seq<A>, b: seq<B>, f: (A, B) -> C, n: nat)
    requires n < |a|
    ensures Product(a[..n + 1], b, f) == Product(a[..n], b, f) + Row(a[n], b, f)
  {
    assert a[..n + 1][..n] == a[..n];
  }

  /** The state of two nested append loops over `a` and `b` after `i` full
      rows and `j` elements of row `i` is a prefix of the whole product. */
  lemma PartialRowPrefix<A, B, C>(a: seq<A>, b: seq<B>, f: (A, B) -> C, i: nat, j: nat)
    requires i < |a| && j <= |b|
    ensures PrefixOf(Product(a[..i], b, f) + Row(a[i], b[..j], f), Product(a, b, f))
  {
    assert a[..i + 1][..i] == a[..i];
    assert Row(a[i], b[..j], f) == Row(a[i], b, f)[..j];
    PrefixAppend(Product(a[..i], b, f), Row(a[i], b[..j], f), Row(a[i], b, f));
    ProductPrefix(a, b, f, i + 1);
    PrefixTrans(Product(a[..i], b, f) + Row(a[i], b[..j], f), Product(a[..i + 1], b, f), Product(a, b, f));
  }

  // ---------------------------------------------------------------------
  //  Early-exit collection
  // ---------------------------------------------------------------------

  /** What a loop does with one item: skip it, give up (`break` with a
      failure flag, or `return []`), or keep a value for it. */
  datatype Step<T> = Skip | Fail | Keep(value: T)

  /** The kept values in order, or None as soon as some item fails. */
  function Collect<T>(s: seq<Step<T>>): Option<seq<T>>
    decreases |s|
  {
    if s == [] then Some([])
    else
      match Collect(s[..|s| - 1])
      case None => None
      case Some(acc) =>
        match s[|s| - 1]
        case Skip => Some(acc)
        case Fail => None
        case Keep(x) => Some(acc + [x])
  }

  /** The kept values of `s`, in order. */
  function Kept<T>(s: seq<Step<T>>): seq<T>
    decreases |s|
  {
    if s == [] then [] else Kept(s[..|s| - 1]) + (if s[|s| - 1].Keep? then [s[|s| - 1].value] else [])
  }

  /** Collection fails exactly when some item fails; otherwise it gives the
      kept values. */
  lemma {:induction false} CollectSpec<T>(s: seq<Step<T>>)
    ensures Collect(s) == if exists i :: 0 <= i < |s| && s[i].Fail? then None else Some(Kept(s))
    decreases |s|
  {
    if s != [] {
      var init := s[..|s| - 1];
      CollectSpec(init);
      var initFails := exists i :: 0 <= i < |init| && init[i].Fail?;
      var fails := exists i :: 0 <= i < |s| && s[i].Fail?;
      if initFails {
        var i :| 0 <= i < |init| && init[i].Fail?;
        assert s[i].Fail?;
        assert fails;
        assert Collect(init).None?;
      } else if s[|s| - 1].Fail? {
        assert fails;
      } else {
        assert !fails by {
          forall i | 0 <= i < |s| - 1 ensures !s[i].Fail? {
            assert s[i] == init[i];
          }
        }
        assert Collect(init) == Some(Kept(init));
        assert Kept(s) == Kept(init) + (if s[|s| - 1].Keep? then [s[|s| - 1].value] else []);
        if s[|s| - 1].Skip? {
          assert Collect(s) == Some(Kept(init));
          assert Kept(init) + [] == Kept(init);
        } else {
          assert Collect(s) == Some(Kept(init) + [s[|s| - 1].value]);
        }
      }
    }
  }

  /** Once a prefix has failed, the whole collection fails: stopping the
      loop at the first failure gives the same answer as running on. */
  lemma CollectFailPersists<T>(s: seq<Step<T>>, i: nat)
    requires i <= |s| && Collect(s[..i]).None?
    ensures Collect(s).None?
  {
    CollectSpec(s[..i]);
    CollectSpec(s);
    var j :| 0 <= j < |s[..i]| && s[..i][j].Fail?;
    assert s[j].Fail?;
  }

  lemma CollectStep<T>(s: seq<Step<T>>, i: nat)
    requires i < |s|
    ensures Collect(s[..i + 1]) ==
            match Collect(s[..i])
            case None => None
            case Some(acc) =>
              match s[i]
              case Skip => Some(acc)
              case Fail => None
              case Keep(x) => Some(acc + [x])
  {
    assert s[..i + 1][..i] == s[..i];
  }

  // ---------------------------------------------------------------------
  //  Order-preserving de-duplication
  // ---------------------------------------------------------------------

  ghost predicate NoDuplicates<T>(l: seq<T>) {
    forall i, j :: 0 <= i < j < |l| ==> l[i] != l[j]
  }

  /** Keeps the first occurrence of every element, in order
      (`dict.fromkeys(l)`, or a loop with a `seen` set). */
  function Dedupe<T(==)>(l: seq<T>): seq<T>
    decreases |l|
  {
    if l == [] then []
    else
      var d := Dedupe(l[..|l| - 1]);
      if l[|l| - 1] in d then d else d + [l[|l| - 1]]
  }

  /** De-duplication keeps exactly the elements of the list, each once. */
  lemma {:induction false} DedupeSpec<T>(l: seq<T>)
    ensures forall x :: x in Dedupe(l) <==> x in l
    ensures NoDuplicates(Dedupe(l))
    decreases |l|
  {
    if l != [] {
      var init := l[..|l| - 1];
      DedupeSpec(init);
      assert l == init + [l[|l| - 1]];
    }
  }

  /** The position of the first occurrence of `x` in `l`. */
  function FirstIndex<T(==)>(l: seq<T>, x: T): (r: nat)
    requires x in l
    ensures r < |l| && l[r] == x && x !in l[..r]
    decreases |l|
  {
    var init := l[..|l| - 1];
    if x in init then
      var r := FirstIndex(init, x);
      assert l[..r] == init[..r];
      r
    else |l| - 1
  }

  /** Each result of de-duplication is an element of the list. */
  lemma {:induction false} DedupeAt<T>(l: seq<T>, k: nat)
    requires k < |Dedupe(l)|
    ensures Dedupe(l)[k] in l
    decreases |l|
  {
    var init := l[..|l| - 1];
    var x := l[|l| - 1];
    assert l == init + [x];
    if k < |Dedupe(init)| {
      DedupeAt(init, k);
    }
  }

  /** De-duplication keeps the order of first occurrence: of two results,
      the earlier one first occurs earlier in the list. */
  lemma {:induction false} DedupeOrder<T>(l: seq<T>, i: nat, j: nat)
    requires i < j < |Dedupe(l)|
    ensures Dedupe(l)[i] in l && Dedupe(l)[j] in l &&
            FirstIndex(l, Dedupe(l)[i]) < FirstIndex(l, Dedupe(l)[j])
    decreases |l|
  {
    var init := l[..|l| - 1];
    var d := Dedupe(init);
    DedupeSpec(init);
    var x := l[|l| - 1];
    assert l == init + [x];
    assert Dedupe(l) == if x in d then d else d + [x];
    DedupeAt(init, i);
    assert FirstIndex(l, d[i]) == FirstIndex(init, d[i]) < |init|;
    if x in d || j < |d| {
      DedupeOrder(init, i, j);
    } else {
      assert Dedupe(l)[j] == x && x !in init;
    }
  }

  /** A list without duplicates is left as it is. */
  lemma {:induction false} DedupeNoDuplicates<T>(l: seq<T>)
    requires NoDuplicates(l)
    ensures Dedupe(l) == l
    decreases |l|
  {
    if l != [] {
      var init := l[..|l| - 1];
      DedupeNoDuplicates(init);
      assert l == init + [l[|l| - 1]];
      assert l[|l| - 1] !in init;
    }
  }

  // ---------------------------------------------------------------------
  //  Kept values, flattening and tuples
  // ---------------------------------------------------------------------

  lemma {:induction false} KeptAppend<T>(a: seq<Step<T>>, b: seq<Step<T>>)
    ensures Kept(a + b) == Kept(a) + Kept(b)
    decreases |b|
  {
    if b == [] {
      assert a + b == a;
    } else {
      KeptAppend(a, b[..|b| - 1]);
      assert (a + b)[..|a + b| - 1] == a + b[..|b| - 1];
      assert (a + b)[|a + b| - 1] == b[|b| - 1];
    }
  }

  /** A value is kept exactly when some item keeps it; nothing is invented. */
  lemma {:induction false} KeptMember<T>(s: seq<Step<T>>, x: T)
    ensures x in Kept(s) <==> exists i :: 0 <= i < |s| && s[i] == Keep(x)
    ensures |Kept(s)| <= |s|
    decreases |s|
  {
    if s != [] {
      var init := s[..|s| - 1];
      KeptMember(init, x);
      if exists i :: 0 <= i < |s| && s[i] == Keep(x) {
        var i :| 0 <= i < |s| && s[i] == Keep(x);
        if i < |s| - 1 {
          assert init[i] == s[i];
        }
      }
      if exists i :: 0 <= i < |init| && init[i] == Keep(x) {
        var i :| 0 <= i < |init| && init[i] == Keep(x);
        assert s[i] == init[i];
      }
    }
  }

  /** When every item keeps a value, all the values are kept, in order. */
  lemma {:induction false} KeptAll<T>(s: seq<Step<T>>)
    requires forall i :: 0 <= i < |s| ==> s[i].Keep?
    ensures |Kept(s)| == |s| && forall i :: 0 <= i < |s| ==> Kept(s)[i] == s[i].value
    decreases |s|
  {
    if s != [] {
      KeptAll(s[..|s| - 1]);
    }
  }

  /** `sum(lists, [])`: the lists one after another. */
  function Flatten<T>(s: seq<seq<T>>): seq<T>
    decreases |s|
  {
    if s == [] then [] else Flatten(s[..|s| - 1]) + s[|s| - 1]
  }

  lemma {:induction false} FlattenMember<T>(s: seq<seq<T>>, x: T)
    ensures x in Flatten(s) <==> exists i :: 0 <= i < |s| && x in s[i]
    decreases |s|
  {
    if s != [] {
      var init := s[..|s| - 1];
      FlattenMember(init, x);
      if exists i :: 0 <= i < |s| && x in s[i] {
        var i :| 0 <= i < |s| && x in s[i];
        if i < |s| - 1 {
          assert init[i] == s[i];
        }
      }
      if exists i :: 0 <= i < |init| && x in init[i] {
        var i :| 0 <= i < |init| && x in init[i];
        assert s[i] == init[i];
      }
    }
  }

  /** One more element of a row, flattened. */
  lemma FlattenRowNext<A, B, C>(x: A, b: seq<B>, f: (A, B) -> seq<C>, n: nat)
    requires n < |b|
    ensures Flatten(Row(x, b[..n + 1], f)) == Flatten(Row(x, b[..n], f)) + f(x, b[n])
  {
    assert Row(x, b[..n + 1], f)[..n] == Row(x, b[..n], f);
  }

  /** One more element of a row, its kept value appended. */
  lemma KeptRowNext<A, B, C>(x: A, b: seq<B>, f: (A, B) -> Step<C>, n: nat)
    requires n < |b|
    ensures Kept(Row(x, b[..n + 1], f)) == Kept(Row(x, b[..n], f)) + (if f(x, b[n]).Keep? then [f(x, b[n]).value] else [])
  {
    assert Row(x, b[..n + 1], f)[..n] == Row(x, b[..n], f);
  }

  lemma {:induction false} FlattenAppend<T>(a: seq<seq<T>>, b: seq<seq<T>>)
    ensures Flatten(a + b) == Flatten(a) + Flatten(b)
    decreases |b|
  {
    if b != [] {
      FlattenAppend(a, b[..|b| - 1]);
      assert (a + b)[..|a + b| - 1] == a + b[..|b| - 1];
    } else {
      assert a + b == a;
    }
  }

  function Snoc<T>(t: seq<T>, x: T): seq<T> {
    t + [x]
  }

  /** `list(itertools.product(*lists))`: every tuple that takes one element
      from each list, the last position varying fastest. */
  function AllTuples<T>(lists: seq<seq<T>>): seq<seq<T>>
    decreases |lists|
  {
    if lists == [] then [[]]
    else Product(AllTuples(lists[..|lists| - 1]), lists[|lists| - 1], Snoc)
  }

  function ProductOfLengths<T>(lists: seq<seq<T>>): nat
    decreases |lists|
  {
    if lists == [] then 1 else ProductOfLengths(lists[..|lists| - 1]) * |lists[|lists| - 1]|
  }

  /** One empty list leaves no tuple at all. */
  lemma {:induction false} ProductOfLengthsZero<T>(lists: seq<seq<T>>, k: nat)
    requires k < |lists| && lists[k] == []
    ensures ProductOfLengths(lists) == 0
    decreases |lists|
  {
    if k < |lists| - 1 {
      ProductOfLengthsZero(lists[..|lists| - 1], k);
    }
  }

  lemma {:induction false} AllTuplesLength<T>(lists: seq<seq<T>>)
    ensures |AllTuples(lists)| == ProductOfLengths(lists)
    decreases |lists|
  {
    if lists != [] {
      AllTuplesLength(lists[..|lists| - 1]);
      ProductLength(AllTuples(lists[..|lists| - 1]), lists[|lists| - 1], Snoc);
    }
  }

  /** The tuples are exactly the choices of one element per list. */
  lemma AllTuplesMember<T>(lists: seq<seq<T>>, t: seq<T>)
    ensures t in AllTuples(lists) <==>
            |t| == |lists| && forall i :: 0 <= i < |t| ==> t[i] in lists[i]
  {
    if t in AllTuples(lists) {
      AllTuplesSound(lists, t);
    }
    if |t| == |lists| && forall i :: 0 <= i < |t| ==> t[i] in lists[i] {
      AllTuplesComplete(lists, t);
    }
  }

  lemma {:induction false} AllTuplesSound<T>(lists: seq<seq<T>>, t: seq<T>)
    requires t in AllTuples(lists)
    ensures |t| == |lists| && forall i :: 0 <= i < |t| ==> t[i] in lists[i]
    decreases |lists|
  {
    if lists != [] {
      var n := |lists|;
      var init := lists[..n - 1];
      ProductMember(AllTuples(init), lists[n - 1], Snoc, t);
      var i, j :| 0 <= i < |AllTuples(init)| && 0 <= j < |lists[n - 1]| &&
                  t == Snoc(AllTuples(init)[i], lists[n - 1][j]);
      var p := AllTuples(init)[i];
      AllTuplesSound(init, p);
      SnocChoice(lists, p, lists[n - 1][j]);
    }
  }

  /** A choice for all lists but the last, followed by an element of the
      last, is a choice for all of them. */
  lemma SnocChoice<T>(lists: seq<seq<T>>, p: seq<T>, x: T)
    requires lists != [] && |p| == |lists| - 1 && x in lists[|lists| - 1]
    requires forall i :: 0 <= i < |p| ==> p[i] in lists[..|lists| - 1][i]
    ensures |Snoc(p, x)| == |lists| && forall i :: 0 <= i < |Snoc(p, x)| ==> Snoc(p, x)[i] in lists[i]
  {
    var t := Snoc(p, x);
    forall k | 0 <= k < |t| ensures t[k] in lists[k] {
      if k < |p| {
        assert t[k] == p[k] && lists[..|lists| - 1][k] == lists[k];
      }
    }
  }

  lemma {:induction false} AllTuplesComplete<T>(lists: seq<seq<T>>, t: seq<T>)
    requires |t| == |lists| && forall i :: 0 <= i < |t| ==> t[i] in lists[i]
    ensures t in AllTuples(lists)
    decreases |lists|
  {
    if lists != [] {
      var n := |lists|;
      var init := lists[..n - 1];
      var p := t[..n - 1];
      forall k | 0 <= k < |p| ensures p[k] in init[k] {
        assert p[k] == t[k] && init[k] == lists[k];
      }
      AllTuplesComplete(init, p);
      var i :| 0 <= i < |AllTuples(init)| && AllTuples(init)[i] == p;
      var j :| 0 <= j < |lists[n - 1]| && lists[n - 1][j] == t[n - 1];
      assert t == Snoc(p, t[n - 1]);
      ProductMember(AllTuples(init), lists[n - 1], Snoc, t);
    }
  }

  // ---------------------------------------------------------------------
  //  Folding every tuple of a product
  // ---------------------------------------------------------------------

  /** `f(...f(f(init, t[0]), t[1])..., t[|t| - 1])` */
  function FoldLeft<T, U>(t: seq<T>, init: U, f: (U, T) -> U): U
    decreases |t|
  {
    if t == [] then init else f(FoldLeft(t[..|t| - 1], init, f), t[|t| - 1])
  }

  /** The nested loops that extend every partial result by every choice of
      the next list, in order: the fold of every tuple of `lists`. */
  function FoldProduct<T, U>(lists: seq<seq<T>>, init: U, f: (U, T) -> U): seq<U>
    decreases |lists|
  {
    if lists == [] then [init]
    else Product(FoldProduct(lists[..|lists| - 1], init, f), lists[|lists| - 1], f)
  }

  lemma {:induction false} FoldProductLength<T, U>(lists: seq<seq<T>>, init: U, f: (U, T) -> U)
    ensures |FoldProduct(lists, init, f)| == ProductOfLengths(lists)
    decreases |lists|
  {
    if lists != [] {
      FoldProductLength(lists[..|lists| - 1], init, f);
      ProductLength(FoldProduct(lists[..|lists| - 1], init, f), lists[|lists| - 1], f);
    }
  }

  /** The results are exactly the folds of the tuples that take one element
      from each list. */
  lemma FoldProductMember<T, U>(lists: seq<seq<T>>, init: U, f: (U, T) -> U, u: U)
    ensures u in FoldProduct(lists, init, f) <==>
            exists t :: t in AllTuples(lists) && u == FoldLeft(t, init, f)
  {
    if u in FoldProduct(lists, init, f) {
      FoldProductSound(lists, init, f, u);
    }
    if exists t :: t in AllTuples(lists) && u == FoldLeft(t, init, f) {
      var t :| t in AllTuples(lists) && u == FoldLeft(t, init, f);
      FoldProductComplete(lists, init, f, t);
    }
  }

  lemma {:induction false} FoldProductSound<T, U>(lists: seq<seq<T>>, init: U, f: (U, T) -> U, u: U)
    requires u in FoldProduct(lists, init, f)
    ensures exists t :: t in AllTuples(lists) && u == FoldLeft(t, init, f)
    decreases |lists|
  {
    if lists == [] {
      assert FoldLeft([], init, f) == init;
      assert [] in AllTuples(lists);
    } else {
      var n := |lists|;
      var prev := FoldProduct(lists[..n - 1], init, f);
      ProductMember(prev, lists[n - 1], f, u);
      var i, j :| 0 <= i < |prev| && 0 <= j < |lists[n - 1]| && u == f(prev[i], lists[n - 1][j]);
      FoldProductSound(lists[..n - 1], init, f, prev[i]);
      var t0 :| t0 in AllTuples(lists[..n - 1]) && prev[i] == FoldLeft(t0, init, f);
      SnocTuple(lists, t0, j);
      FoldLeftSnoc(t0, lists[n - 1][j], init, f);
    }
  }

  lemma FoldLeftSnoc<T, U>(t: seq<T>, x: T, init: U, f: (U, T) -> U)
    ensures FoldLeft(Snoc(t, x), init, f) == f(FoldLeft(t, init, f), x)
  {
    assert Snoc(t, x)[..|t|] == t;
  }

  /** A tuple of the first lists extended by an element of the last one is a
      tuple of all the lists. */
  lemma SnocTuple<T>(lists: seq<seq<T>>, t0: seq<T>, j: nat)
    requires lists != [] && t0 in AllTuples(lists[..|lists| - 1]) && j < |lists[|lists| - 1]|
    ensures Snoc(t0, lists[|lists| - 1][j]) in AllTuples(lists)
  {
    var tuples := AllTuples(lists[..|lists| - 1]);
    var a :| 0 <= a < |tuples| && tuples[a] == t0;
    ProductMember(tuples, lists[|lists| - 1], Snoc, Snoc(t0, lists[|lists| - 1][j]));
  }

  lemma {:induction false} FoldProductComplete<T, U>(lists: seq<seq<T>>, init: U, f: (U, T) -> U, t: seq<T>)
    requires t in AllTuples(lists)
    ensures FoldLeft(t, init, f) in FoldProduct(lists, init, f)
    decreases |lists|
  {
    if lists != [] {
      var n := |lists|;
      var init' := lists[..n - 1];
      var last := lists[n - 1];
      var prev := FoldProduct(init', init, f);
      var tuples := AllTuples(init');
      ProductMember(tuples, last, Snoc, t);
      var a, j :| 0 <= a < |tuples| && 0 <= j < |last| && t == Snoc(tuples[a], last[j]);
      var t0 := tuples[a];
      assert t[..|t| - 1] == t0;
      FoldProductComplete(init', init, f, t0);
      var i :| 0 <= i < |prev| && prev[i] == FoldLeft(t0, init, f);
      ProductMember(prev, last, f, FoldLeft(t, init, f));
    }
  }
}
