/** The backtracking whole-word decoder both engines share: it peels mapping
    keys off the front of a word and pairs every alternative of the key with
    every decoding of the rest, in key order, alternative order and tail
    order. Results are memoised by remaining text. The package engine stops
    as soon as more than `MaxPaths` results have accumulated; the flat
    engine has no budget. */
module Backtrack {
  import opened Seqs
  import opened OrderedDict
  import opened PyStr
  import opened Maps

  /** `_MAX_PATHS` */
  const MaxPaths: nat := 10000

  function Concat(x: string, y: string): string {
    x + y
  }

  /** A mapping the search terminates on: the empty key, if present, has no
      alternatives. (An empty key with alternatives makes the search call
      itself on the same text again and again.) */
  predicate Searchable(m: Mapping) {
    "" in m.table ==> m.table[""] == []
  }

  /** Some key of `m` is a prefix of `w`. */
  predicate Matched(w: string, m: Mapping) {
    exists i :: 0 <= i < |m.order| && StartsWith(w, m.order[i])
  }

  /** A result list cut off just after it exceeds the budget. */
  function Cap(l: seq<string>, limit: Option<nat>): (r: seq<string>)
    ensures PrefixOf(r, l)
    ensures limit.Some? ==> |r| <= limit.value + 1
    ensures limit.None? || |l| <= limit.value ==> r == l
  {
    if limit.Some? && |l| > limit.value then l[..limit.value + 1] else l
  }

  // ---------------------------------------------------------------------
  //  Specification
  // ---------------------------------------------------------------------

  /** What the search returns for `w`: `[""]` for the empty word, otherwise
      the candidates cut off at the budget. */
  function Decodings(w: string, m: Mapping, flawed: bool, limit: Option<nat>): (r: seq<string>)
    requires Searchable(m)
    ensures limit.Some? ==> |r| <= limit.value + 1
    decreases |w|, 2, 0
  {
    if w == "" then [""] else Cap(Candidates(w, m, flawed, limit), limit)
  }

  /** The results of every key that is a prefix of `w`, then, when `flawed`
      holds and no key is a prefix, the first character taken literally in
      front of every decoding of the rest. */
  function Candidates(w: string, m: Mapping, flawed: bool, limit: Option<nat>): seq<string>
    requires w != "" && Searchable(m)
    decreases |w|, 1, 0
  {
    KeyResults(w, m, flawed, limit, |m.order|) +
    (if flawed && !Matched(w, m) then Row([w[0]], Decodings(w[1..], m, flawed, limit), Concat) else [])
  }

  /** The results of the first `n` keys. */
  function KeyResults(w: string, m: Mapping, flawed: bool, limit: Option<nat>, n: nat): seq<string>
    requires w != "" && Searchable(m) && n <= |m.order|
    decreases |w|, 0, n
  {
    if n == 0 then []
    else KeyResults(w, m, flawed, limit, n - 1) + KeyChunk(w, m, flawed, limit, m.order[n - 1])
  }

  /** Every alternative of `tok` followed by every decoding of the text after
      it, when `tok` is a prefix of `w`. (The empty key contributes nothing:
      it has no alternatives.) */
  function KeyChunk(w: string, m: Mapping, flawed: bool, limit: Option<nat>, tok: string): seq<string>
    requires w != "" && Searchable(m) && tok in m.table
    decreases |w|, 0, 0
  {
    if tok != "" && StartsWith(w, tok) then Product(m.table[tok], Decodings(w[|tok|..], m, flawed, limit), Concat)
    else []
  }

  /** `r` spells `w` through `m`: `w` splits into keys, and `r` is one
      alternative of each key in turn; when `flawed` holds, a character that
      starts no key may stand for itself. */
  ghost predicate Spells(w: string, m: Mapping, flawed: bool, r: string)
    decreases |w|, 1
  {
    if w == "" then r == ""
    else
      (exists i :: 0 <= i < |m.order| && SpellsWithKey(w, m, flawed, r, m.order[i])) ||
      (flawed && !Matched(w, m) && r != "" && r[0] == w[0] && Spells(w[1..], m, flawed, r[1..]))
  }

  /** `r` spells `w` starting with key `tok`. */
  ghost predicate SpellsWithKey(w: string, m: Mapping, flawed: bool, r: string, tok: string)
    requires w != ""
    decreases |w|, 0
  {
    tok in m.table && tok != "" && StartsWith(w, tok) &&
    exists frag :: frag in m.table[tok] && StartsWith(r, frag) && Spells(w[|tok|..], m, flawed, r[|frag|..])
  }

  // ---------------------------------------------------------------------
  //  The search
  // ---------------------------------------------------------------------

  /** Every entry of the memo holds the decodings of its text. */
  ghost predicate MemoSound(memo: map<string, seq<string>>, m: Mapping, flawed: bool, limit: Option<nat>)
    requires Searchable(m)
  {
    forall u :: u in memo ==> memo[u] == Decodings(u, m, flawed, limit)
  }

  /** `_recursive_decode(word, mapping, flawed, memo)` with `limit` set to
      `MaxPaths`, and the flat engine's `dfs(word)` with no limit. */
  method Search(word: string, m: Mapping, flawed: bool, limit: Option<nat>, memo: map<string, seq<string>>)
    returns (r: seq<string>, memo': map<string, seq<string>>)
    requires Searchable(m) && MemoSound(memo, m, flawed, limit)
    ensures r == Decodings(word, m, flawed, limit)
    ensures word == "" ==> r == [""]
    ensures MemoSound(memo', m, flawed, limit)
    decreases |word|, 1, 0
  {
    memo' := memo;
    if word == "" {
      return [""], memo';
    }
    if word in memo' {
      return memo'[word], memo';
    }
    var results, matched, exceeded;
    results, memo', matched, exceeded := SearchKeys(word, m, flawed, limit, memo');
    if exceeded {
      ExitCapped(word, m, flawed, limit, results);
    } else if !matched && flawed {
      var tails;
      tails, memo' := Search(word[1..], m, flawed, limit, memo');
      results, exceeded := AppendRow(results, [word[0]], tails, limit);
      if exceeded {
        ExitCapped(word, m, flawed, limit, results);
      }
    }
    memo' := memo'[word := results];
    r := results;
  }

  /** The loop over the keys of `m`. */
  method SearchKeys(word: string, m: Mapping, flawed: bool, limit: Option<nat>, memo: map<string, seq<string>>)
    returns (results: seq<string>, memo': map<string, seq<string>>, matched: bool, exceeded: bool)
    requires word != "" && Searchable(m) && MemoSound(memo, m, flawed, limit)
    ensures MemoSound(memo', m, flawed, limit)
    ensures matched <==> Matched(word, m)
    ensures !exceeded ==> results == KeyResults(word, m, flawed, limit, |m.order|)
    ensures !exceeded && limit.Some? ==> |results| <= limit.value
    ensures exceeded ==> limit.Some? && |results| == limit.value + 1
    ensures exceeded ==> PrefixOf(results, Candidates(word, m, flawed, limit))
    decreases |word|, 0, 2
  {
    results, memo', matched, exceeded := [], memo, false, false;
    var i := 0;
    while i < |m.order|
      invariant 0 <= i <= |m.order|
      invariant results == KeyResults(word, m, flawed, limit, i)
      invariant limit.Some? ==> |results| <= limit.value
      invariant matched <==> exists k :: 0 <= k < i && StartsWith(word, m.order[k])
      invariant MemoSound(memo', m, flawed, limit)
    {
      var tok := m.order[i];
      if StartsWith(word, tok) {
        matched := true;
        results, memo', exceeded := SearchKey(word, m, flawed, limit, i, results, memo');
        if exceeded {
          KeysExit(word, m, flawed, limit, i, results);
          return;
        }
      }
      i := i + 1;
    }
  }

  /** A prefix of the results of the first `i + 1` keys is a prefix of the
      candidates. */
  lemma KeysExit(w: string, m: Mapping, flawed: bool, limit: Option<nat>, i: nat, results: seq<string>)
    requires w != "" && Searchable(m) && i < |m.order|
    requires PrefixOf(results, KeyResults(w, m, flawed, limit, i + 1))
    ensures PrefixOf(results, Candidates(w, m, flawed, limit))
  {
    KeyResultsPrefix(w, m, flawed, limit, i + 1, |m.order|);
    PrefixTrans(results, KeyResults(w, m, flawed, limit, i + 1), KeyResults(w, m, flawed, limit, |m.order|));
    CandidatesPrefix(w, m, flawed, limit);
    PrefixTrans(results, KeyResults(w, m, flawed, limit, |m.order|), Candidates(w, m, flawed, limit));
  }

  /** The loops over the alternatives of key `m.order[i]` and the decodings
      of the text after it. `exceeded` says the budget ran out on the way. */
  method SearchKey(word: string, m: Mapping, flawed: bool, limit: Option<nat>, i: nat,
                   acc: seq<string>, memo: map<string, seq<string>>)
    returns (results: seq<string>, memo': map<string, seq<string>>, exceeded: bool)
    requires word != "" && Searchable(m) && MemoSound(memo, m, flawed, limit)
    requires i < |m.order| && StartsWith(word, m.order[i])
    requires acc == KeyResults(word, m, flawed, limit, i)
    requires limit.Some? ==> |acc| <= limit.value
    ensures MemoSound(memo', m, flawed, limit)
    ensures !exceeded ==> results == KeyResults(word, m, flawed, limit, i + 1)
    ensures !exceeded && limit.Some? ==> |results| <= limit.value
    ensures exceeded ==> limit.Some? && |results| == limit.value + 1
    ensures exceeded ==> PrefixOf(results, KeyResults(word, m, flawed, limit, i + 1))
    decreases |word|, 0, 1
  {
    var tok := m.order[i];
    var frags := m.table[tok];
    results, memo', exceeded := acc, memo, false;
    if frags == [] {
      assert KeyChunk(word, m, flawed, limit, tok) == [];
      return;
    }
    assert tok != "";
    var j := 0;
    while j < |frags|
      invariant 0 <= j <= |frags|
      invariant results == acc + Product(frags[..j], Decodings(word[|tok|..], m, flawed, limit), Concat)
      invariant limit.Some? ==> |results| <= limit.value
      invariant MemoSound(memo', m, flawed, limit)
    {
      results, memo', exceeded := SearchFrag(word, m, flawed, limit, tok, acc, j, results, memo');
      if exceeded {
        return;
      }
      j := j + 1;
    }
    TakeAll(frags);
    assert KeyChunk(word, m, flawed, limit, tok) == Product(frags, Decodings(word[|tok|..], m, flawed, limit), Concat);
  }

  /** One alternative `m.table[tok][j]` of key `tok`, followed by every
      decoding of the text after the key. */
  method SearchFrag(word: string, m: Mapping, flawed: bool, limit: Option<nat>, tok: string,
                    acc: seq<string>, j: nat, sofar: seq<string>, memo: map<string, seq<string>>)
    returns (results: seq<string>, memo': map<string, seq<string>>, exceeded: bool)
    requires word != "" && Searchable(m) && MemoSound(memo, m, flawed, limit)
    requires tok in m.table && tok != "" && StartsWith(word, tok) && j < |m.table[tok]|
    requires sofar == acc + Product(m.table[tok][..j], Decodings(word[|tok|..], m, flawed, limit), Concat)
    requires limit.Some? ==> |sofar| <= limit.value
    ensures MemoSound(memo', m, flawed, limit)
    ensures !exceeded ==> results == acc + Product(m.table[tok][..j + 1], Decodings(word[|tok|..], m, flawed, limit), Concat)
    ensures !exceeded && limit.Some? ==> |results| <= limit.value
    ensures exceeded ==> limit.Some? && |results| == limit.value + 1
    ensures exceeded ==> PrefixOf(results, acc + Product(m.table[tok], Decodings(word[|tok|..], m, flawed, limit), Concat))
    decreases |word|, 0, 0
  {
    var frags := m.table[tok];
    var tails;
    tails, memo' := Search(word[|tok|..], m, flawed, limit, memo);
    results, exceeded := AppendRow(sofar, frags[j], tails, limit);
    KeyFragStep(frags, tails, j);
    if exceeded {
      ChunkExit(acc, frags, tails, j, results);
    }
  }

  /** A prefix of the rows for the first `j + 1` alternatives is a prefix of
      the whole product. */
  lemma ChunkExit(acc: seq<string>, frags: seq<string>, tails: seq<string>, j: nat, results: seq<string>)
    requires j < |frags|
    requires PrefixOf(results, acc + Product(frags[..j], tails, Concat) + Row(frags[j], tails, Concat))
    requires Product(frags[..j + 1], tails, Concat) == Product(frags[..j], tails, Concat) + Row(frags[j], tails, Concat)
    ensures PrefixOf(results, acc + Product(frags, tails, Concat))
  {
    ProductPrefix(frags, tails, Concat, j + 1);
    PrefixAppend(acc, Product(frags[..j + 1], tails, Concat), Product(frags, tails, Concat));
    assert acc + Product(frags[..j], tails, Concat) + Row(frags[j], tails, Concat) == acc + Product(frags[..j + 1], tails, Concat);
    PrefixTrans(results, acc + Product(frags[..j + 1], tails, Concat), acc + Product(frags, tails, Concat));
  }

  /** `for tail in tails: results.append(x + tail)`, leaving as soon as the
      results exceed the budget. */
  method AppendRow(acc: seq<string>, x: string, tails: seq<string>, limit: Option<nat>)
    returns (results: seq<string>, exceeded: bool)
    requires limit.Some? ==> |acc| <= limit.value
    ensures !exceeded ==> results == acc + Row(x, tails, Concat)
    ensures !exceeded && limit.Some? ==> |results| <= limit.value
    ensures exceeded ==> limit.Some? && |results| == limit.value + 1
    ensures exceeded ==> PrefixOf(results, acc + Row(x, tails, Concat))
  {
    results, exceeded := acc, false;
    var l := 0;
    while l < |tails|
      invariant 0 <= l <= |tails|
      invariant results == acc + Row(x, tails[..l], Concat)
      invariant limit.Some? ==> |results| <= limit.value
    {
      results := results + [x + tails[l]];
      KeyRowStep(x, tails, l, acc);
      if limit.Some? && |results| > limit.value {
        exceeded := true;
        assert Row(x, tails[..l + 1], Concat) == Row(x, tails, Concat)[..l + 1];
        PrefixAppend(acc, Row(x, tails[..l + 1], Concat), Row(x, tails, Concat));
        return;
      }
      l := l + 1;
    }
    TakeAll(tails);
  }

  /** The key results are a prefix of the candidates. */
  lemma CandidatesPrefix(w: string, m: Mapping, flawed: bool, limit: Option<nat>)
    requires w != "" && Searchable(m)
    ensures PrefixOf(KeyResults(w, m, flawed, limit, |m.order|), Candidates(w, m, flawed, limit))
  {
    var k := KeyResults(w, m, flawed, limit, |m.order|);
    var rest := if flawed && !Matched(w, m) then Row([w[0]], Decodings(w[1..], m, flawed, limit), Concat) else [];
    PrefixExtend(k, rest);
  }

  /** A result list that reached one past the budget as a prefix of the
      candidates is what the search returns. */
  lemma ExitCapped(w: string, m: Mapping, flawed: bool, limit: Option<nat>, results: seq<string>)
    requires w != "" && Searchable(m)
    requires PrefixOf(results, Candidates(w, m, flawed, limit))
    requires limit.Some? && |results| == limit.value + 1
    ensures results == Decodings(w, m, flawed, limit)
  {
  }

  /** One more appended element extends the partial row by one. */
  lemma KeyRowStep(x: string, tails: seq<string>, l: nat, acc: seq<string>)
    requires l < |tails|
    ensures acc + Row(x, tails[..l], Concat) + [x + tails[l]] == acc + Row(x, tails[..l + 1], Concat)
  {
    assert Row(x, tails[..l + 1], Concat) == Row(x, tails[..l], Concat) + [x + tails[l]];
  }

  /** A finished row extends the product by one more first element. */
  lemma KeyFragStep(frags: seq<string>, tails: seq<string>, j: nat)
    requires j < |frags|
    ensures Product(frags[..j + 1], tails, Concat) == Product(frags[..j], tails, Concat) + Row(frags[j], tails, Concat)
  {
    TakeTake(frags, j);
  }

  /** The results of fewer keys are a prefix of the results of more keys. */
  lemma {:induction false} KeyResultsPrefix(w: string, m: Mapping, flawed: bool, limit: Option<nat>, i: nat, n: nat)
    requires w != "" && Searchable(m) && i <= n <= |m.order|
    ensures PrefixOf(KeyResults(w, m, flawed, limit, i), KeyResults(w, m, flawed, limit, n))
    decreases n - i
  {
    if i < n {
      KeyResultsPrefix(w, m, flawed, limit, i + 1, n);
      PrefixExtend(KeyResults(w, m, flawed, limit, i), KeyChunk(w, m, flawed, limit, m.order[i]));
      PrefixTrans(KeyResults(w, m, flawed, limit, i), KeyResults(w, m, flawed, limit, i + 1), KeyResults(w, m, flawed, limit, n));
    }
  }

  // ---------------------------------------------------------------------
  //  What the results are
  // ---------------------------------------------------------------------

  /** Every result spells the word: it is one alternative per key of a split
      of the word into keys, except that with `flawed` a character that
      starts no key may stand for itself. */
  lemma {:induction false} DecodingsSound(w: string, m: Mapping, flawed: bool, limit: Option<nat>, r: string)
    requires Searchable(m) && r in Decodings(w, m, flawed, limit)
    ensures Spells(w, m, flawed, r)
    decreases |w|, |m.order| + 1
  {
    if w != "" {
      var keys := KeyResults(w, m, flawed, limit, |m.order|);
      var cand := Candidates(w, m, flawed, limit);
      assert r in cand;
      if r in keys {
        KeyResultsSound(w, m, flawed, limit, |m.order|, r);
      } else {
        assert flawed && !Matched(w, m);
        var tails := Decodings(w[1..], m, flawed, limit);
        var j :| 0 <= j < |tails| && r == Row([w[0]], tails, Concat)[j];
        DecodingsSound(w[1..], m, flawed, limit, tails[j]);
        assert r[1..] == tails[j];
      }
    }
  }

  lemma {:induction false} KeyResultsSound(w: string, m: Mapping, flawed: bool, limit: Option<nat>, n: nat, r: string)
    requires w != "" && Searchable(m) && n <= |m.order| && r in KeyResults(w, m, flawed, limit, n)
    ensures exists i :: 0 <= i < |m.order| && SpellsWithKey(w, m, flawed, r, m.order[i])
    decreases |w|, n
  {
    var tok := m.order[n - 1];
    if r in KeyResults(w, m, flawed, limit, n - 1) {
      KeyResultsSound(w, m, flawed, limit, n - 1, r);
    } else {
      assert r in KeyChunk(w, m, flawed, limit, tok);
      ChunkSound(w, m, flawed, limit, tok, r);
    }
  }

  /** A result of key `tok` spells the word starting with that key. */
  lemma {:induction false} ChunkSound(w: string, m: Mapping, flawed: bool, limit: Option<nat>, tok: string, r: string)
    requires w != "" && Searchable(m) && tok in m.table && r in KeyChunk(w, m, flawed, limit, tok)
    ensures SpellsWithKey(w, m, flawed, r, tok)
    decreases |w|, 0
  {
    var tails := Decodings(w[|tok|..], m, flawed, limit);
    ProductMember(m.table[tok], tails, Concat, r);
    var a, b :| 0 <= a < |m.table[tok]| && 0 <= b < |tails| && r == m.table[tok][a] + tails[b];
    DecodingsSound(w[|tok|..], m, flawed, limit, tails[b]);
    ConcatParts(m.table[tok][a], tails[b]);
  }

  lemma ConcatParts(x: string, y: string)
    ensures StartsWith(x + y, x) && (x + y)[|x|..] == y
  {
    assert (x + y)[..|x|] == x;
  }

  /** Without a budget every spelling of the word is among the results. */
  lemma {:induction false} DecodingsComplete(w: string, m: Mapping, flawed: bool, r: string)
    requires Searchable(m) && Spells(w, m, flawed, r)
    ensures r in Decodings(w, m, flawed, None)
    decreases |w|, 1
  {
    if w != "" {
      if i :| 0 <= i < |m.order| && SpellsWithKey(w, m, flawed, r, m.order[i]) {
        CompleteWithKey(w, m, flawed, r, i);
        ChunkInKeyResults(w, m, flawed, None, i, r);
      } else {
        DecodingsComplete(w[1..], m, flawed, r[1..]);
        CompleteLiteral(w, m, flawed, r);
      }
      CandidatesPrefix(w, m, flawed, None);
    }
  }

  lemma {:induction false} CompleteWithKey(w: string, m: Mapping, flawed: bool, r: string, i: nat)
    requires Searchable(m) && w != "" && i < |m.order| && SpellsWithKey(w, m, flawed, r, m.order[i])
    ensures r in KeyChunk(w, m, flawed, None, m.order[i])
    decreases |w|, 0
  {
    var tok := m.order[i];
    var frag :| frag in m.table[tok] && StartsWith(r, frag) && Spells(w[|tok|..], m, flawed, r[|frag|..]);
    DecodingsComplete(w[|tok|..], m, flawed, r[|frag|..]);
    SplitAt(r, frag);
    ConcatInProduct(m.table[tok], Decodings(w[|tok|..], m, flawed, None), frag, r[|frag|..]);
  }

  lemma SplitAt(r: string, frag: string)
    requires StartsWith(r, frag)
    ensures r == frag + r[|frag|..]
  {
  }

  /** Joining a member of `xs` to a member of `ys` gives a member of their
      product under `Concat`. */
  lemma ConcatInProduct(xs: seq<string>, ys: seq<string>, x: string, y: string)
    requires x in xs && y in ys
    ensures x + y in Product(xs, ys, Concat)
  {
    var a :| 0 <= a < |xs| && xs[a] == x;
    var b :| 0 <= b < |ys| && ys[b] == y;
    assert x + y == Concat(xs[a], ys[b]);
    ProductMember(xs, ys, Concat, x + y);
  }

  lemma CompleteLiteral(w: string, m: Mapping, flawed: bool, r: string)
    requires Searchable(m) && w != "" && flawed && !Matched(w, m) && r != "" && r[0] == w[0]
    requires r[1..] in Decodings(w[1..], m, flawed, None)
    ensures r in Candidates(w, m, flawed, None)
  {
    var tails := Decodings(w[1..], m, flawed, None);
    var b :| 0 <= b < |tails| && tails[b] == r[1..];
    assert r == [w[0]] + r[1..];
    assert Row([w[0]], tails, Concat)[b] == r;
  }

  /** A result of key `i` is among the results of all keys. */
  lemma ChunkInKeyResults(w: string, m: Mapping, flawed: bool, limit: Option<nat>, i: nat, r: string)
    requires w != "" && Searchable(m) && i < |m.order|
    requires r in KeyChunk(w, m, flawed, limit, m.order[i])
    ensures r in KeyResults(w, m, flawed, limit, |m.order|)
  {
    KeyResultsPrefix(w, m, flawed, limit, i + 1, |m.order|);
    assert r in KeyResults(w, m, flawed, limit, i + 1);
  }

  /** When the budget is not exceeded, the budgeted search returns what the
      unbudgeted one does. */
  lemma {:induction false} WithinBudget(w: string, m: Mapping, flawed: bool, b: nat)
    requires Searchable(m) && |Decodings(w, m, flawed, Some(b))| <= b
    ensures Decodings(w, m, flawed, Some(b)) == Decodings(w, m, flawed, None)
    decreases |w|, |m.order| + 1
  {
    if w != "" {
      var cand := Candidates(w, m, flawed, Some(b));
      assert |cand| <= b;
      var keys := KeyResults(w, m, flawed, Some(b), |m.order|);
      assert |keys| <= |cand|;
      KeyResultsWithinBudget(w, m, flawed, b, |m.order|);
      if flawed && !Matched(w, m) {
        var tails := Decodings(w[1..], m, flawed, Some(b));
        assert |Row([w[0]], tails, Concat)| <= |cand|;
        WithinBudget(w[1..], m, flawed, b);
      }
    }
  }

  lemma {:induction false} KeyResultsWithinBudget(w: string, m: Mapping, flawed: bool, b: nat, n: nat)
    requires w != "" && Searchable(m) && n <= |m.order| && |KeyResults(w, m, flawed, Some(b), n)| <= b
    ensures KeyResults(w, m, flawed, Some(b), n) == KeyResults(w, m, flawed, None, n)
    decreases |w|, n
  {
    if n > 0 {
      var tok := m.order[n - 1];
      KeyResultsWithinBudget(w, m, flawed, b, n - 1);
      if tok != "" && StartsWith(w, tok) && m.table[tok] != [] {
        var tails := Decodings(w[|tok|..], m, flawed, Some(b));
        ProductLength(m.table[tok], tails, Concat);
        LengthAtLeast(|m.table[tok]|, |tails|);
        WithinBudget(w[|tok|..], m, flawed, b);
      }
    }
  }

  lemma LengthAtLeast(a: nat, b: nat)
    requires a >= 1
    ensures a * b >= b
  {
  }

  /** Within the budget the results are exactly the spellings. */
  lemma DecodingsExact(w: string, m: Mapping, flawed: bool, b: nat, r: string)
    requires Searchable(m) && |Decodings(w, m, flawed, Some(b))| <= b
    ensures r in Decodings(w, m, flawed, Some(b)) <==> Spells(w, m, flawed, r)
  {
    if r in Decodings(w, m, flawed, Some(b)) {
      DecodingsSound(w, m, flawed, Some(b), r);
    }
    if Spells(w, m, flawed, r) {
      DecodingsComplete(w, m, flawed, r);
      WithinBudget(w, m, flawed, b);
    }
  }

  /** Without `flawed`, a word that starts with no key has no decoding. */
  lemma StrictUnmatched(w: string, m: Mapping, limit: Option<nat>)
    requires Searchable(m) && w != "" && !Matched(w, m)
    ensures Decodings(w, m, false, limit) == []
  {
    NoKeyResults(w, m, false, limit, |m.order|);
  }

  /** With `flawed` and no key at the front, the first character is taken
      literally, exactly once. */
  lemma FlawedUnmatched(w: string, m: Mapping, limit: Option<nat>)
    requires Searchable(m) && w != "" && !Matched(w, m)
    ensures Decodings(w, m, true, limit) == Cap(Row([w[0]], Decodings(w[1..], m, true, limit), Concat), limit)
  {
    NoKeyResults(w, m, true, limit, |m.order|);
  }

  lemma {:induction false} NoKeyResults(w: string, m: Mapping, flawed: bool, limit: Option<nat>, n: nat)
    requires Searchable(m) && w != "" && !Matched(w, m) && n <= |m.order|
    ensures KeyResults(w, m, flawed, limit, n) == []
  {
    if n > 0 {
      NoKeyResults(w, m, flawed, limit, n - 1);
    }
  }

  // ---------------------------------------------------------------------
  //  The empty key
  // ---------------------------------------------------------------------

  /** `dfs(rem)` of codec.py as written, on any mapping, allowed `fuel`
      nested calls: `None` when the calls nest deeper. Every key that is a
      prefix of `rem` is followed, the empty key included; the memo only
      saves repeated work and is left out. The package's `_recursive_decode`
      follows its keys the same way and calls itself on the same text for
      the empty key before any budget check, so the divergence shown below
      holds for it too. */
  function DfsFuel(rem: string, m: Mapping, flawed: bool, fuel: nat): Option<seq<string>>
    decreases fuel, 1, 0
  {
    if rem == "" then Some([""])
    else if fuel == 0 then None
    else
      match KeysFuel(rem, m, flawed, fuel - 1, |m.order|)
      case None => None
      case Some(acc) =>
        if flawed && !Matched(rem, m) then
          match DfsFuel(rem[1..], m, flawed, fuel - 1)
          case None => None
          case Some(tails) => Some(acc + Row([rem[0]], tails, Concat))
        else Some(acc)
  }

  /** The loop over the first `n` keys in `dfs(rem)` as written. */
  function KeysFuel(rem: string, m: Mapping, flawed: bool, fuel: nat, n: nat): Option<seq<string>>
    requires n <= |m.order|
    decreases fuel + 1, 0, n
  {
    if n == 0 then Some([])
    else
      match KeysFuel(rem, m, flawed, fuel, n - 1)
      case None => None
      case Some(acc) =>
        var tok := m.order[n - 1];
        if StartsWith(rem, tok) && m.table[tok] != [] then
          match DfsFuel(rem[|tok|..], m, flawed, fuel)
          case None => None
          case Some(tails) => Some(acc + Product(m.table[tok], tails, Concat))
        else Some(acc)
  }

  /** A mapping whose only key is the empty one, with one alternative. */
  function EmptyKeyMap(): (r: Mapping)
    ensures r.order == [""] && r.table == map["" := ["A"]]
  {
    Dict([""], map["" := ["A"]])
  }

  /** With the empty key present, decoding "B" never finishes: however deep
      the calls may nest, they nest deeper. */
  lemma {:induction false} EmptyKeyDiverges(fuel: nat)
    ensures DfsFuel("B", EmptyKeyMap(), false, fuel) == None
  {
    if fuel > 0 {
      EmptyKeyDiverges(fuel - 1);
      assert KeysFuel("B", EmptyKeyMap(), false, fuel - 1, 0) == Some([]);
      assert StartsWith("B", "");
      assert "B"[|""|..] == "B";
    }
  }

  /** On a mapping without alternatives for the empty key, `dfs` as written
      finishes once it may nest one call deeper than the word is long, and
      returns what the search returns. */
  lemma {:induction false} DfsAgrees(w: string, m: Mapping, flawed: bool, fuel: nat)
    requires Searchable(m) && fuel > |w|
    ensures DfsFuel(w, m, flawed, fuel) == Some(Decodings(w, m, flawed, None))
    decreases fuel, 1, 0
  {
    if w != "" {
      KeysAgree(w, m, flawed, fuel - 1, |m.order|);
      if flawed && !Matched(w, m) {
        DfsAgrees(w[1..], m, flawed, fuel - 1);
      }
    }
  }

  lemma {:induction false} KeysAgree(w: string, m: Mapping, flawed: bool, fuel: nat, n: nat)
    requires Searchable(m) && w != "" && fuel >= |w| && n <= |m.order|
    ensures KeysFuel(w, m, flawed, fuel, n) == Some(KeyResults(w, m, flawed, None, n))
    decreases fuel + 1, 0, n
  {
    if n > 0 {
      KeysAgree(w, m, flawed, fuel, n - 1);
      var tok := m.order[n - 1];
      if StartsWith(w, tok) && m.table[tok] != [] {
        assert tok != "";
        DfsAgrees(w[|tok|..], m, flawed, fuel);
      } else {
        assert KeyChunk(w, m, flawed, None, tok) == [];
        assert KeyResults(w, m, flawed, None, n) == KeyResults(w, m, flawed, None, n - 1);
        assert KeysFuel(w, m, flawed, fuel, n) == KeysFuel(w, m, flawed, fuel, n - 1);
      }
    }
  }

  /** The mapping the search is given: `m` without its empty key. */
  function DropEmptyKey(m: Mapping): (r: Mapping)
    ensures Searchable(r) && "" !in r.table
    ensures forall k :: k in r.table <==> k in m.table && k != ""
    ensures forall k :: k in r.table ==> r.table[k] == m.table[k]
    ensures r.order == Filter(m.order, k => k != "")
  {
    Restrict(m, k => k != "")
  }

  /** A mapping without the empty key is given to the search unchanged. */
  lemma DropEmptyKeyIdentity(m: Mapping)
    requires "" !in m.table
    ensures DropEmptyKey(m) == m
  {
    forall i | 0 <= i < |m.order| ensures m.order[i] != "" {
      assert m.order[i] in m.table;
    }
    FilterAll(m.order, k => k != "");
  }
}
