/** The package engine's decoder: every tokenisation configuration is
    walked word by word, each word giving its variants (a whole-word search,
    or one choice per token concatenated), the variants crossed into
    sentences under the path budget, and the sentences collected. A strict
    pass comes first; the flawed pass runs only when the strict one found
    nothing. */
module Decoder {
  import opened Seqs
  import opened OrderedDict
  import opened PyStr
  import opened ModuleLoader
  import opened Maps
  import opened Backtrack
  import opened Tokenizer

  // ---------------------------------------------------------------------
  //  The mapping
  // ---------------------------------------------------------------------

  /** The mapping `decode_message_with_module` hands to every pass: the
      module's mapping, inverted when the module is reversed, normalised.
      Unlike the whole-word search it is not folded to upper case. */
  function DecoderMapping(data: Module): Mapping {
    var raw := GetModuleMapping(data);
    Normalized(if ReverseDirection(GetModuleSettings(data)) then Lift(Inverted(raw)) else raw)
  }

  /** Folding makes no difference: a module that is not case-sensitive has
      no lower-case text to fold, so the whole-word search and the token
      lookups see the same mapping (up to the empty key the search drops). */
  lemma SameMapping(data: Module)
    ensures SearchMapping(data) == DropEmptyKey(DecoderMapping(data))
  {
    var raw := GetModuleMapping(data);
    var directed := if ReverseDirection(GetModuleSettings(data)) then Lift(Inverted(raw)) else raw;
    if !IsCaseSensitive(data) {
      if ReverseDirection(GetModuleSettings(data)) {
        InvertedUpperInvariant(raw);
      }
      FoldUpperIdentity(directed);
    }
  }

  // ---------------------------------------------------------------------
  //  Token choices
  // ---------------------------------------------------------------------

  /** The alternatives of one token: its mapping list; in a flawed pass an
      unknown token stands for itself; in a strict pass it ends the word. */
  function TokenChoice(mapping: Mapping, flawed: bool, t: string): Step<seq<string>> {
    if t in mapping.table then Keep(mapping.table[t])
    else if flawed then Keep([t])
    else Fail
  }

  function ChoiceSteps(mapping: Mapping, flawed: bool, toks: seq<string>): (r: seq<Step<seq<string>>>)
    ensures |r| == |toks| && forall i :: 0 <= i < |toks| ==> r[i] == TokenChoice(mapping, flawed, toks[i])
  {
    seq(|toks|, i requires 0 <= i < |toks| => TokenChoice(mapping, flawed, toks[i]))
  }

  /** `lists_of_choices`: one list per token, or none at all when a strict
      pass meets an unknown token. */
  function Choices(mapping: Mapping, flawed: bool, toks: seq<string>): seq<seq<string>> {
    Collect(ChoiceSteps(mapping, flawed, toks)).GetOr([])
  }

  /** There are no choice lists exactly when there are no tokens or a strict
      pass meets a token the mapping lacks; otherwise there is one list per
      token: its alternatives, or the token itself. */
  lemma ChoicesSpec(mapping: Mapping, flawed: bool, toks: seq<string>)
    ensures Choices(mapping, flawed, toks) == [] <==>
            toks == [] || (!flawed && exists i :: 0 <= i < |toks| && toks[i] !in mapping.table)
    ensures Choices(mapping, flawed, toks) != [] ==>
            |Choices(mapping, flawed, toks)| == |toks| &&
            forall i :: 0 <= i < |toks| ==>
              Choices(mapping, flawed, toks)[i] == if toks[i] in mapping.table then mapping.table[toks[i]] else [toks[i]]
  {
    var steps := ChoiceSteps(mapping, flawed, toks);
    CollectSpec(steps);
    if exists i :: 0 <= i < |steps| && steps[i].Fail? {
      var i :| 0 <= i < |steps| && steps[i].Fail?;
      assert toks[i] !in mapping.table;
    } else {
      KeptAll(steps);
      if toks != [] {
        assert Kept(steps)[0] == steps[0].value;
      }
    }
  }

  /** The choice loop of `_attempt_decode`. */
  method TokenChoices(mapping: Mapping, flawed: bool, toks: seq<string>) returns (lists: seq<seq<string>>)
    ensures lists == Choices(mapping, flawed, toks)
  {
    ghost var steps := ChoiceSteps(mapping, flawed, toks);
    lists := [];
    var i := 0;
    while i < |toks|
      invariant 0 <= i <= |toks|
      invariant Collect(steps[..i]) == Some(lists)
    {
      CollectStep(steps, i);
      var t := toks[i];
      if t in mapping.table {
        lists := lists + [mapping.table[t]];
      } else if flawed {
        lists := lists + [[t]];
      } else {
        CollectFailPersists(steps, i + 1);
        return [];
      }
      i := i + 1;
    }
    TakeAll(steps);
  }

  // ---------------------------------------------------------------------
  //  Expansion of the choices
  // ---------------------------------------------------------------------

  /** Every concatenation of one choice per list, the last list varying
      fastest. */
  function Concats(lists: seq<seq<string>>): seq<string> {
    FoldProduct(lists, "", Concat)
  }

  /** The expansion loop: the first list, then each further list crossed in,
      each cross stopping one past the path budget, and the loop stopping
      after a cross that went past it. */
  function Expand(lists: seq<seq<string>>): seq<string>
    requires lists != []
    decreases |lists|
  {
    if |lists| == 1 then lists[0]
    else
      var prev := Expand(lists[..|lists| - 1]);
      if |lists| > 2 && |prev| > MaxPaths then prev
      else Cap(Product(prev, lists[|lists| - 1], Concat), Some(MaxPaths))
  }

  lemma ConcatsOne(lists: seq<seq<string>>)
    requires |lists| == 1
    ensures Concats(lists) == lists[0]
  {
    assert lists[..0] == [];
    assert FoldProduct(lists[..0], "", Concat) == [""];
    assert [""][..0] == [];
    var row := Row("", lists[0], Concat);
    assert forall j :: 0 <= j < |row| ==> row[j] == lists[0][j];
    assert Product([""], lists[0], Concat) == row;
  }

  lemma MulMono(a: nat, b: nat)
    requires b >= 1
    ensures a <= a * b
  {
    assert a * b == a * (b - 1) + a;
  }

  /** A single list expands to itself; an expansion never exceeds the
      budget by more than one; and an expansion within the budget holds
      every concatenation. */
  lemma {:induction false} ExpandSpec(lists: seq<seq<string>>)
    requires lists != []
    ensures |lists| == 1 ==> Expand(lists) == Concats(lists)
    ensures |lists| > 1 ==> |Expand(lists)| <= MaxPaths + 1
    ensures |Expand(lists)| <= MaxPaths ==> Expand(lists) == Concats(lists)
    decreases |lists|
  {
    var n := |lists|;
    if n == 1 {
      ConcatsOne(lists);
    } else {
      var init := lists[..n - 1];
      ExpandSpec(init);
      assert Concats(lists) == Product(Concats(init), lists[n - 1], Concat);
      if n == 2 {
        ConcatsOne(init);
      }
    }
  }

  /** When no list is empty and the concatenations fit the budget, the
      expansion holds them all. */
  lemma {:induction false} ExpandComplete(lists: seq<seq<string>>)
    requires lists != [] && forall i :: 0 <= i < |lists| ==> lists[i] != []
    requires |Concats(lists)| <= MaxPaths
    ensures Expand(lists) == Concats(lists)
    decreases |lists|
  {
    var n := |lists|;
    if n == 1 {
      ConcatsOne(lists);
    } else {
      var init := lists[..n - 1];
      var last := lists[n - 1];
      assert Concats(lists) == Product(Concats(init), last, Concat);
      FoldProductLength(lists, "", Concat);
      FoldProductLength(init, "", Concat);
      MulMono(ProductOfLengths(init), |last|);
      assert forall i :: 0 <= i < n - 1 ==> init[i] == lists[i];
      ExpandComplete(init);
    }
  }

  /** The concatenations are exactly the ways of picking one choice per
      list, joined without separator, and there are as many as the
      product of the list lengths. */
  lemma ConcatsMember(lists: seq<seq<string>>, s: string)
    ensures s in Concats(lists) <==> exists t :: t in AllTuples(lists) && s == Join("", t)
    ensures |Concats(lists)| == ProductOfLengths(lists)
  {
    FoldProductMember(lists, "", Concat, s);
    FoldProductLength(lists, "", Concat);
    forall t: seq<string> ensures FoldLeft(t, "", Concat) == Join("", t) {
      ConcatFold(t);
    }
  }

  lemma {:induction false} ConcatFold(t: seq<string>)
    ensures FoldLeft(t, "", Concat) == Join("", t)
    decreases |t|
  {
    if t != [] {
      var init := t[..|t| - 1];
      ConcatFold(init);
      assert t == init + [t[|t| - 1]];
      if init != [] {
        JoinSnoc("", init, t[|t| - 1]);
      }
    }
  }

  /** A prefix of the product that reached one past the budget is what the
      capped product is. */
  lemma CapOfPrefix(r: seq<string>, l: seq<string>)
    requires PrefixOf(r, l) && |r| == MaxPaths + 1
    ensures Cap(l, Some(MaxPaths)) == r
  {
  }

  /** One cross of the expansion loop: `prefix + c` for every variant and
      choice, leaving one past the budget. */
  method CrossCapped(variants: seq<string>, choices: seq<string>) returns (next: seq<string>)
    ensures next == Cap(Product(variants, choices, Concat), Some(MaxPaths))
  {
    next := [];
    var i := 0;
    while i < |variants|
      invariant 0 <= i <= |variants|
      invariant next == Product(variants[..i], choices, Concat)
      invariant |next| <= MaxPaths
    {
      var row, exceeded := AppendRow(next, variants[i], choices, Some(MaxPaths));
      ProductStep(variants, choices, Concat, i);
      if exceeded {
        ProductPrefix(variants, choices, Concat, i + 1);
        PrefixTrans(row, Product(variants[..i + 1], choices, Concat), Product(variants, choices, Concat));
        CapOfPrefix(row, Product(variants, choices, Concat));
        return row;
      }
      next := row;
      i := i + 1;
    }
    TakeAll(variants);
  }

  lemma ExpandNext(lists: seq<seq<string>>, j: nat)
    requires 1 <= j < |lists|
    ensures Expand(lists[..j + 1]) ==
            if j > 1 && |Expand(lists[..j])| > MaxPaths then Expand(lists[..j])
            else Cap(Product(Expand(lists[..j]), lists[j], Concat), Some(MaxPaths))
  {
    TakeTake(lists, j);
  }

  /** After a cross past the budget, the remaining lists change nothing. */
  lemma {:induction false} ExpandStops(lists: seq<seq<string>>, j: nat)
    requires 2 <= j <= |lists| && |Expand(lists[..j])| > MaxPaths
    ensures Expand(lists) == Expand(lists[..j])
    decreases |lists| - j
  {
    if j == |lists| {
      TakeAll(lists);
    } else {
      ExpandNext(lists, j);
      ExpandStops(lists, j + 1);
    }
  }

  /** The expansion loop of `_attempt_decode`. */
  method ExpandChoices(lists: seq<seq<string>>) returns (variants: seq<string>)
    requires lists != []
    ensures variants == Expand(lists)
  {
    variants := lists[0];
    var j := 1;
    while j < |lists|
      invariant 1 <= j <= |lists|
      invariant variants == Expand(lists[..j])
      invariant j > 1 ==> |variants| <= MaxPaths
    {
      ExpandNext(lists, j);
      variants := CrossCapped(variants, lists[j]);
      j := j + 1;
      if |variants| > MaxPaths {
        ExpandStops(lists, j);
        return;
      }
    }
    TakeAll(lists);
  }

  // ---------------------------------------------------------------------
  //  The variants of one word
  // ---------------------------------------------------------------------

  /** The variants of one token list: a lone token under a blank character
      separator is decoded as a whole word; otherwise the choices are
      expanded, and a word without choice lists has no variants. */
  function Variants(data: Module, mapping: Mapping, flawed: bool, charSepBlank: bool, toks: seq<string>): seq<string> {
    if charSepBlank && |toks| == 1 then Decodings(toks[0], SearchMapping(data), flawed, Some(MaxPaths))
    else
      var lists := Choices(mapping, flawed, toks);
      if lists == [] then [] else Expand(lists)
  }

  method WordVariants(data: Module, mapping: Mapping, flawed: bool, charSepBlank: bool, toks: seq<string>)
    returns (variants: seq<string>)
    ensures variants == Variants(data, mapping, flawed, charSepBlank, toks)
  {
    if charSepBlank && |toks| == 1 {
      variants := GetRecursiveDecode(toks[0], data, flawed);
    } else {
      var lists := TokenChoices(mapping, flawed, toks);
      if lists == [] {
        variants := [];
      } else {
        variants := ExpandChoices(lists);
      }
    }
  }

  /** A strict pass finds no variant for a word split into several tokens
      when one of them is not in the mapping; a flawed pass finds at least
      one whenever every known token has alternatives. */
  lemma VariantsUnknownToken(data: Module, mapping: Mapping, flawed: bool, charSepBlank: bool, toks: seq<string>)
    requires !(charSepBlank && |toks| == 1)
    ensures !flawed && (exists i :: 0 <= i < |toks| && toks[i] !in mapping.table) ==>
              Variants(data, mapping, flawed, charSepBlank, toks) == []
    ensures flawed && toks != [] && (forall i :: 0 <= i < |toks| && toks[i] in mapping.table ==> mapping.table[toks[i]] != []) ==>
              Variants(data, mapping, flawed, charSepBlank, toks) != []
  {
    ChoicesSpec(mapping, flawed, toks);
    var lists := Choices(mapping, flawed, toks);
    if flawed && toks != [] && (forall i :: 0 <= i < |toks| && toks[i] in mapping.table ==> mapping.table[toks[i]] != []) {
      assert forall i :: 0 <= i < |lists| ==> lists[i] != [];
      ExpandNonEmpty(lists);
    }
  }

  /** Expanding lists none of which is empty gives some variant. */
  lemma {:induction false} ExpandNonEmpty(lists: seq<seq<string>>)
    requires lists != [] && forall i :: 0 <= i < |lists| ==> lists[i] != []
    ensures Expand(lists) != []
    decreases |lists|
  {
    var n := |lists|;
    if n > 1 {
      var init := lists[..n - 1];
      assert forall i :: 0 <= i < n - 1 ==> init[i] == lists[i];
      ExpandNonEmpty(init);
      var prev := Expand(init);
      ProductLength(prev, lists[n - 1], Concat);
      MulMono(|prev|, |lists[n - 1]|);
    }
  }

  // ---------------------------------------------------------------------
  //  Walking one configuration
  // ---------------------------------------------------------------------

  /** How a configuration ends: with its sentences, or pruned. */
  datatype Walk = Paths(paths: seq<string>) | Pruned

  /** A sentence so far extended by a variant: a single space between
      them, none while the sentence is still empty. */
  function JoinWord(prefix: string, v: string): string {
    if prefix == "" then v else prefix + " " + v
  }

  /** The word loop of `_attempt_decode` over the variants of each word:
      the paths start as one empty sentence; a word without variants ends
      the walk with no paths; a cross that would exceed the budget prunes
      the configuration. */
  function WalkOf(vs: seq<seq<string>>): Walk
    decreases |vs|
  {
    if vs == [] then Paths([""])
    else
      var prev := WalkOf(vs[..|vs| - 1]);
      var v := vs[|vs| - 1];
      if prev.Pruned? || prev.paths == [] then prev
      else if v == [] then Paths([])
      else if |prev.paths| * |v| > MaxPaths then Pruned
      else Paths(Product(prev.paths, v, JoinWord))
  }

  /** Every sentence: one variant per word, joined word by word. */
  function Sentences(vs: seq<seq<string>>): seq<string> {
    FoldProduct(vs, "", JoinWord)
  }

  /** A walk that is not pruned ends with every sentence, within the budget.
      When every word has a variant, the walk is pruned exactly when there
      are more sentences than the budget allows. */
  lemma {:induction false} WalkSpec(vs: seq<seq<string>>)
    ensures WalkOf(vs).Paths? ==> WalkOf(vs).paths == Sentences(vs) && |WalkOf(vs).paths| <= MaxPaths
    ensures (forall i :: 0 <= i < |vs| ==> vs[i] != []) ==>
              (WalkOf(vs).Pruned? <==> |Sentences(vs)| > MaxPaths)
    decreases |vs|
  {
    if vs != [] {
      var n := |vs|;
      var init := vs[..n - 1];
      var v := vs[n - 1];
      WalkSpec(init);
      var prev := WalkOf(init);
      assert Sentences(vs) == Product(Sentences(init), v, JoinWord);
      ProductLength(Sentences(init), v, JoinWord);
      if prev.Paths? && prev.paths != [] && v == [] {
        ProductEmptyRight(Sentences(init), v, JoinWord);
      }
      if forall i :: 0 <= i < n ==> vs[i] != [] {
        assert forall i :: 0 <= i < n - 1 ==> init[i] == vs[i];
        FoldProductLength(init, "", JoinWord);
        ProductOfLengthsPositive(init);
        MulMono(|Sentences(init)|, |v|);
      }
    }
  }

  lemma {:induction false} ProductOfLengthsPositive(lists: seq<seq<string>>)
    requires forall i :: 0 <= i < |lists| ==> lists[i] != []
    ensures ProductOfLengths(lists) >= 1
    decreases |lists|
  {
    if lists != [] {
      var init := lists[..|lists| - 1];
      assert forall i :: 0 <= i < |init| ==> init[i] == lists[i];
      ProductOfLengthsPositive(init);
      MulMono(ProductOfLengths(init), |lists[|lists| - 1]|);
    }
  }

  /** The sentences are exactly the ways of picking one variant per word;
      when no variant is empty a sentence is the variants joined by single
      spaces. */
  lemma SentencesMember(vs: seq<seq<string>>, s: string)
    ensures s in Sentences(vs) <==> exists t :: t in AllTuples(vs) && s == FoldLeft(t, "", JoinWord)
    ensures |Sentences(vs)| == ProductOfLengths(vs)
  {
    FoldProductMember(vs, "", JoinWord, s);
    FoldProductLength(vs, "", JoinWord);
  }

  lemma {:induction false} JoinWordFold(t: seq<string>)
    requires forall i :: 0 <= i < |t| ==> t[i] != ""
    ensures FoldLeft(t, "", JoinWord) == Join(" ", t)
    ensures t != [] ==> FoldLeft(t, "", JoinWord) != ""
    decreases |t|
  {
    if t != [] {
      var init := t[..|t| - 1];
      var x := t[|t| - 1];
      assert forall i :: 0 <= i < |init| ==> init[i] == t[i];
      JoinWordFold(init);
      JoinWordSnoc(init, x);
      assert t == init + [x];
    }
  }

  lemma JoinWordSnoc(init: seq<string>, x: string)
    requires FoldLeft(init, "", JoinWord) == Join(" ", init)
    requires init != [] ==> FoldLeft(init, "", JoinWord) != ""
    requires x != ""
    ensures FoldLeft(init + [x], "", JoinWord) == Join(" ", init + [x])
    ensures FoldLeft(init + [x], "", JoinWord) != ""
  {
    var t := init + [x];
    assert t[..|t| - 1] == init;
    if init != [] {
      JoinSnoc(" ", init, x);
    } else {
      assert t == [x];
    }
  }

  /** A word without variants leaves the configuration without sentences,
      whether or not it was pruned before. */
  lemma {:induction false} WalkEmptyWord(vs: seq<seq<string>>, i: nat)
    requires i < |vs| && vs[i] == []
    ensures WalkOf(vs) == Paths([]) || WalkOf(vs) == Pruned
    decreases |vs|
  {
    var init := vs[..|vs| - 1];
    if i < |vs| - 1 {
      assert init[i] == vs[i];
      WalkEmptyWord(init, i);
    }
  }

  lemma WalkNext(vs: seq<seq<string>>, k: nat)
    requires k < |vs|
    ensures WalkOf(vs[..k + 1]) ==
            var prev := WalkOf(vs[..k]);
            if prev.Pruned? || prev.paths == [] then prev
            else if vs[k] == [] then Paths([])
            else if |prev.paths| * |vs[k]| > MaxPaths then Pruned
            else Paths(Product(prev.paths, vs[k], JoinWord))
  {
    TakeTake(vs, k);
  }

  /** Once a walk is pruned or out of paths, later words change nothing. */
  lemma {:induction false} WalkStops(vs: seq<seq<string>>, k: nat)
    requires k <= |vs| && (WalkOf(vs[..k]).Pruned? || WalkOf(vs[..k]).paths == [])
    ensures WalkOf(vs) == WalkOf(vs[..k])
    decreases |vs| - k
  {
    if k == |vs| {
      TakeAll(vs);
    } else {
      WalkNext(vs, k);
      WalkStops(vs, k + 1);
    }
  }

  /** One more word of a walk that still has paths: no variants ends it
      empty, too many prunes it, otherwise the paths are crossed with the
      variants and stay non-empty. */
  lemma WalkAdvance(vs: seq<seq<string>>, k: nat, paths: seq<string>)
    requires k < |vs| && WalkOf(vs[..k]) == Paths(paths) && paths != []
    ensures vs[k] == [] ==> WalkOf(vs) == Paths([])
    ensures vs[k] != [] && |paths| * |vs[k]| > MaxPaths ==> WalkOf(vs) == Pruned
    ensures vs[k] != [] && |paths| * |vs[k]| <= MaxPaths ==>
            WalkOf(vs[..k + 1]) == Paths(Product(paths, vs[k], JoinWord)) && Product(paths, vs[k], JoinWord) != []
  {
    WalkNext(vs, k);
    if vs[k] == [] || |paths| * |vs[k]| > MaxPaths {
      WalkStops(vs, k + 1);
    } else {
      ProductLength(paths, vs[k], JoinWord);
      MulMono(|paths|, |vs[k]|);
    }
  }

  /** `prefix + " " + v` (or `v` after an empty prefix) for every variant,
      appended to `acc`. The budget check inside the source's loop can
      never fire here: the caller has already checked the product. */
  method JoinRow(acc: seq<string>, prefix: string, variants: seq<string>) returns (r: seq<string>)
    requires |acc| + |variants| <= MaxPaths
    ensures r == acc + Row(prefix, variants, JoinWord)
    ensures |r| <= MaxPaths
  {
    r := acc;
    var j := 0;
    while j < |variants|
      invariant 0 <= j <= |variants|
      invariant r == acc + Row(prefix, variants[..j], JoinWord)
    {
      assert Row(prefix, variants[..j + 1], JoinWord) == Row(prefix, variants[..j], JoinWord) + [JoinWord(prefix, variants[j])];
      r := r + [JoinWord(prefix, variants[j])];
      j := j + 1;
    }
    TakeAll(variants);
  }

  lemma MulStep(i: nat, p: nat, v: nat)
    requires i < p
    ensures i * v + v <= p * v
  {
    var d := p - i;
    assert p * v == i * v + d * v;
    MulMono(v, d);
    assert d * v == v * d;
  }

  /** Crossing the paths with the variants of the next word. */
  method JoinPaths(paths: seq<string>, variants: seq<string>) returns (next: seq<string>)
    requires |paths| * |variants| <= MaxPaths
    ensures next == Product(paths, variants, JoinWord)
  {
    next := [];
    var i := 0;
    while i < |paths|
      invariant 0 <= i <= |paths|
      invariant next == Product(paths[..i], variants, JoinWord)
    {
      ProductLength(paths[..i], variants, JoinWord);
      MulStep(i, |paths|, |variants|);
      ProductStep(paths, variants, JoinWord, i);
      next := JoinRow(next, paths[i], variants);
      i := i + 1;
    }
    TakeAll(paths);
  }

  /** The variants of every word of a configuration. */
  function ConfigVariants(data: Module, mapping: Mapping, flawed: bool, conf: Config): (r: seq<seq<string>>)
    ensures |r| == |conf.cfg|
    ensures forall k :: 0 <= k < |conf.cfg| ==> r[k] == Variants(data, mapping, flawed, conf.charSepBlank, conf.cfg[k])
  {
    seq(|conf.cfg|, k requires 0 <= k < |conf.cfg| => Variants(data, mapping, flawed, conf.charSepBlank, conf.cfg[k]))
  }

  /** The word loop of `_attempt_decode` for one configuration. The path
      list is never empty after a cross, so the source's exit on an empty
      path list after a cross cannot happen. */
  method WalkConfig(data: Module, mapping: Mapping, flawed: bool, conf: Config) returns (walk: Walk)
    ensures walk == WalkOf(ConfigVariants(data, mapping, flawed, conf))
  {
    ghost var vs := ConfigVariants(data, mapping, flawed, conf);
    var paths := [""];
    var k := 0;
    while k < |conf.cfg|
      invariant 0 <= k <= |conf.cfg|
      invariant WalkOf(vs[..k]) == Paths(paths) && paths != []
    {
      var stop, w := WalkWord(data, mapping, flawed, conf, k, paths);
      if stop {
        return w;
      }
      paths := w.paths;
      k := k + 1;
    }
    TakeAll(vs);
    walk := Paths(paths);
  }

  /** Word `k` of a configuration whose walk still has paths: either the
      walk ends here, or it goes on with the crossed paths. */
  method WalkWord(data: Module, mapping: Mapping, flawed: bool, conf: Config, k: nat, paths: seq<string>)
    returns (stop: bool, walk: Walk)
    requires k < |conf.cfg| && paths != []
    requires WalkOf(ConfigVariants(data, mapping, flawed, conf)[..k]) == Paths(paths)
    ensures stop ==> walk == WalkOf(ConfigVariants(data, mapping, flawed, conf))
    ensures !stop ==> walk.Paths? && walk.paths != [] && WalkOf(ConfigVariants(data, mapping, flawed, conf)[..k + 1]) == walk
  {
    ghost var vs := ConfigVariants(data, mapping, flawed, conf);
    var variants := WordVariants(data, mapping, flawed, conf.charSepBlank, conf.cfg[k]);
    WalkAdvance(vs, k, paths);
    if variants == [] {
      return true, Paths([]);
    }
    if |paths| * |variants| > MaxPaths {
      return true, Pruned;
    }
    var next := JoinPaths(paths, variants);
    return false, Paths(next);
  }

  // ---------------------------------------------------------------------
  //  A pass over all configurations
  // ---------------------------------------------------------------------

  /** What one configuration adds to the outputs: its stripped sentences,
      or nothing when it was pruned. */
  function WalkOutputs(walk: Walk): set<string> {
    match walk
    case Pruned => {}
    case Paths(ps) => StrippedSet(ps)
  }

  /** `{p.strip() for p in ps}` */
  function StrippedSet(ps: seq<string>): set<string>
    decreases |ps|
  {
    if ps == [] then {} else StrippedSet(ps[..|ps| - 1]) + {Strip(ps[|ps| - 1])}
  }

  lemma {:induction false} StrippedSetMember(ps: seq<string>, s: string)
    ensures s in StrippedSet(ps) <==> exists p :: p in ps && s == Strip(p)
    decreases |ps|
  {
    if ps != [] {
      var init := ps[..|ps| - 1];
      StrippedSetMember(init, s);
      assert ps == init + [ps[|ps| - 1]];
    }
  }

  /** How each configuration of a pass ends. */
  function ConfigWalks(data: Module, mapping: Mapping, flawed: bool, configs: seq<Config>): (r: seq<Walk>)
    ensures |r| == |configs|
    ensures forall k :: 0 <= k < |configs| ==> r[k] == WalkOf(ConfigVariants(data, mapping, flawed, configs[k]))
  {
    seq(|configs|, k requires 0 <= k < |configs| => WalkOf(ConfigVariants(data, mapping, flawed, configs[k])))
  }

  /** The outputs the configurations add, one after another. */
  function Outputs(walks: seq<Walk>): set<string>
    decreases |walks|
  {
    if walks == [] then {} else Outputs(walks[..|walks| - 1]) + WalkOutputs(walks[|walks| - 1])
  }

  lemma OutputsNext(walks: seq<Walk>, n: nat)
    requires n < |walks|
    ensures Outputs(walks[..n + 1]) == Outputs(walks[..n]) + WalkOutputs(walks[n])
  {
    TakeTake(walks, n);
  }

  /** `_attempt_decode(data, message, mapping, flawed, ...)`; a raised skip
      flag gives no outputs. */
  function Attempt(data: Module, message: string, mapping: Mapping, flawed: bool, skip: bool): set<string> {
    if skip then {} else Outputs(ConfigWalks(data, mapping, flawed, Configs(data, message)))
  }

  lemma {:induction false} OutputsMember(walks: seq<Walk>, s: string)
    ensures s in Outputs(walks) <==> exists k :: 0 <= k < |walks| && s in WalkOutputs(walks[k])
    decreases |walks|
  {
    if walks != [] {
      var init := walks[..|walks| - 1];
      OutputsMember(init, s);
      assert forall k :: 0 <= k < |init| ==> init[k] == walks[k];
    }
  }

  /** Configuration `c` yields output `s`: its walk was not pruned and
      ended with a sentence that strips to `s`. */
  predicate Yields(data: Module, mapping: Mapping, flawed: bool, c: Config, s: string) {
    var w := WalkOf(ConfigVariants(data, mapping, flawed, c));
    w.Paths? && exists p :: p in w.paths && s == Strip(p)
  }

  lemma ConfigOutput(data: Module, mapping: Mapping, flawed: bool, c: Config, s: string)
    ensures s in WalkOutputs(WalkOf(ConfigVariants(data, mapping, flawed, c))) <==> Yields(data, mapping, flawed, c, s)
  {
    var w := WalkOf(ConfigVariants(data, mapping, flawed, c));
    if w.Paths? {
      StrippedSetMember(w.paths, s);
    }
  }

  /** An output of a pass is a stripped sentence of some configuration that
      was not pruned: a configuration of the module for the message, every
      word of it given one of its variants. */
  lemma AttemptMember(data: Module, message: string, mapping: Mapping, flawed: bool, s: string)
    ensures s in Attempt(data, message, mapping, flawed, false) <==>
            exists c :: c in Configs(data, message) && Yields(data, mapping, flawed, c, s)
  {
    WalksMember(data, mapping, flawed, Configs(data, message), s);
  }

  lemma WalksMember(data: Module, mapping: Mapping, flawed: bool, configs: seq<Config>, s: string)
    ensures s in Outputs(ConfigWalks(data, mapping, flawed, configs)) <==>
            exists c :: c in configs && Yields(data, mapping, flawed, c, s)
  {
    var walks := ConfigWalks(data, mapping, flawed, configs);
    OutputsMember(walks, s);
    if s in Outputs(walks) {
      var k :| 0 <= k < |walks| && s in WalkOutputs(walks[k]);
      ConfigOutput(data, mapping, flawed, configs[k], s);
    }
    if exists c :: c in configs && Yields(data, mapping, flawed, c, s) {
      var c :| c in configs && Yields(data, mapping, flawed, c, s);
      var k :| 0 <= k < |configs| && configs[k] == c;
      ConfigOutput(data, mapping, flawed, c, s);
      assert s in WalkOutputs(walks[k]);
    }
  }

  /** The walk of a configuration that is not pruned ends with all of its
      sentences. */
  lemma AttemptSentences(data: Module, message: string, mapping: Mapping, flawed: bool)
    ensures forall c :: c in Configs(data, message) ==>
              var w := WalkOf(ConfigVariants(data, mapping, flawed, c));
              w.Paths? ==> w.paths == Sentences(ConfigVariants(data, mapping, flawed, c))
  {
    forall c | c in Configs(data, message)
      ensures var w := WalkOf(ConfigVariants(data, mapping, flawed, c));
              w.Paths? ==> w.paths == Sentences(ConfigVariants(data, mapping, flawed, c))
    {
      WalkSpec(ConfigVariants(data, mapping, flawed, c));
    }
  }

  /** `for p in paths: outputs_set.add(p.strip())` */
  method AddStripped(outputs: set<string>, paths: seq<string>) returns (r: set<string>)
    ensures r == outputs + StrippedSet(paths)
  {
    r := outputs;
    var l := 0;
    while l < |paths|
      invariant 0 <= l <= |paths|
      invariant r == outputs + StrippedSet(paths[..l])
    {
      TakeTake(paths, l);
      r := r + {Strip(paths[l])};
      l := l + 1;
    }
    TakeAll(paths);
  }

  /** `_attempt_decode`. */
  method AttemptDecode(data: Module, message: string, mapping: Mapping, flawed: bool, skip: bool)
    returns (outputs: set<string>)
    ensures outputs == Attempt(data, message, mapping, flawed, skip)
  {
    var configs := TokenizeMessage(data, message);
    outputs := AttemptConfigs(data, mapping, flawed, skip, configs);
    AttemptIs(data, message, mapping, flawed, skip, configs);
  }

  /** The configuration loop of `_attempt_decode`, which gives up at once
      when the skip flag is raised. */
  method AttemptConfigs(data: Module, mapping: Mapping, flawed: bool, skip: bool, configs: seq<Config>)
    returns (outputs: set<string>)
    ensures skip ==> outputs == {}
    ensures !skip ==> outputs == Outputs(ConfigWalks(data, mapping, flawed, configs))
  {
    ghost var walks := ConfigWalks(data, mapping, flawed, configs);
    assert |walks| == |configs| && walks[..0] == [];
    outputs := {};
    var n := 0;
    while n < |configs|
      invariant 0 <= n <= |configs|
      invariant outputs == Outputs(walks[..n])
      invariant skip ==> n == 0
    {
      if skip {
        return {};
      }
      outputs := AttemptStep(data, mapping, flawed, configs, walks, n, outputs);
      n := n + 1;
    }
    TakeAll(walks);
  }

  /** One pass of the configuration loop. */
  method AttemptStep(data: Module, mapping: Mapping, flawed: bool, configs: seq<Config>, ghost walks: seq<Walk>,
                     n: nat, outputs: set<string>)
    returns (r: set<string>)
    requires walks == ConfigWalks(data, mapping, flawed, configs)
    requires n < |configs| && outputs == Outputs(walks[..n])
    ensures r == Outputs(walks[..n + 1])
  {
    r := AttemptConfig(data, mapping, flawed, configs[n], outputs);
    OutputsNext(walks, n);
  }

  /** One configuration of `_attempt_decode`: its stripped sentences are
      added unless it was pruned. */
  method AttemptConfig(data: Module, mapping: Mapping, flawed: bool, conf: Config, outputs: set<string>)
    returns (r: set<string>)
    ensures r == outputs + WalkOutputs(WalkOf(ConfigVariants(data, mapping, flawed, conf)))
  {
    var walk := WalkConfig(data, mapping, flawed, conf);
    if walk.Pruned? {
      return outputs;
    }
    r := AddStripped(outputs, walk.paths);
  }

  lemma AttemptIs(data: Module, message: string, mapping: Mapping, flawed: bool, skip: bool, configs: seq<Config>)
    requires configs == Configs(data, message)
    ensures Attempt(data, message, mapping, flawed, skip) == if skip then {} else Outputs(ConfigWalks(data, mapping, flawed, configs))
  {
  }

  // ---------------------------------------------------------------------
  //  Decoding a message
  // ---------------------------------------------------------------------

  /** `decode_message_with_module(data, message, flawed, skip_flag=...)`:
      the strict pass; if it found anything, its outputs; otherwise the
      flawed pass when one is allowed. A raised skip flag gives nothing. */
  function Decode(data: Module, message: string, flawed: bool, skip: bool): set<string> {
    var mapping := DecoderMapping(data);
    var perfect := Attempt(data, message, mapping, false, skip);
    if skip then {}
    else if perfect != {} then perfect
    else if flawed then Attempt(data, message, mapping, true, skip)
    else {}
  }

  /** A raised skip flag gives nothing. Otherwise an output is a strict
      output; or, when flawed decoding is allowed and no configuration has
      a strict output, a flawed output. */
  lemma DecodeMember(data: Module, message: string, flawed: bool, skip: bool, s: string)
    ensures skip ==> Decode(data, message, flawed, skip) == {}
    ensures !skip ==>
              var m := DecoderMapping(data);
              (s in Decode(data, message, flawed, skip) <==>
                 (exists c :: c in Configs(data, message) && Yields(data, m, false, c, s)) ||
                 (flawed &&
                  (forall c, u :: c in Configs(data, message) ==> !Yields(data, m, false, c, u)) &&
                  exists c :: c in Configs(data, message) && Yields(data, m, true, c, s)))
  {
    if !skip {
      var m := DecoderMapping(data);
      AttemptMember(data, message, m, false, s);
      AttemptMember(data, message, m, true, s);
      if Attempt(data, message, m, false, false) == {} {
        forall c, u | c in Configs(data, message)
          ensures !Yields(data, m, false, c, u)
        {
          AttemptMember(data, message, m, false, u);
        }
      } else {
        var u :| u in Attempt(data, message, m, false, false);
        AttemptMember(data, message, m, false, u);
      }
    }
  }

  method DecodeMessage(data: Module, message: string, flawed: bool, skip: bool) returns (r: set<string>)
    ensures r == Decode(data, message, flawed, skip)
  {
    var sets := GetModuleSettings(data);
    var rawMap := GetModuleMapping(data);
    if ReverseDirection(sets) {
      var inv := InvertMap(rawMap);
      rawMap := Lift(inv);
    }
    var mapping := NormalizeMap(rawMap);
    var perfect := AttemptDecode(data, message, mapping, false, skip);
    if skip {
      return {};
    }
    if perfect != {} {
      return perfect;
    }
    if flawed {
      r := AttemptDecode(data, message, mapping, true, skip);
      return;
    }
    r := {};
  }
}
