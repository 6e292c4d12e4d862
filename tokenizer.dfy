/** The package engine's tokeniser: the loops that invert, normalise and
    fold a mapping, the whole-word search with its budget, and the
    enumeration of tokenisation configurations over the grid of word
    separators and character separators. */
module Tokenizer {
  import opened Seqs
  import opened OrderedDict
  import opened PyStr
  import opened Utils
  import opened ModuleLoader
  import opened Maps
  import opened Backtrack

  // ---------------------------------------------------------------------
  //  Mapping loops
  // ---------------------------------------------------------------------

  /** `_invert_map(orig)` */
  method InvertMap(orig: RawMap) returns (inv: Mapping)
    ensures inv == Inverted(orig)
  {
    inv := Empty();
    var i := 0;
    while i < |orig.order|
      invariant 0 <= i <= |orig.order|
      invariant inv == InvertedUpTo(orig, i)
    {
      inv := InvertNext(orig, i, inv);
      i := i + 1;
    }
  }

  /** One pass of the loop: the targets of the `i`-th key get that key. */
  method InvertNext(orig: RawMap, i: nat, inv: Mapping) returns (r: Mapping)
    requires i < |orig.order| && inv == InvertedUpTo(orig, i)
    ensures r == InvertedUpTo(orig, i + 1)
  {
    var k := orig.order[i];
    r := AddTargets(inv, k, Targets(orig.table[k]));
  }

  /** `for tgt in targets: inv.setdefault(tgt, []).append(k)` */
  method AddTargets(inv: Mapping, k: string, targets: seq<string>) returns (r: Mapping)
    ensures r == AddKey(inv, k, targets)
  {
    r := inv;
    var j := 0;
    while j < |targets|
      invariant 0 <= j <= |targets|
      invariant r == AddKey(inv, k, targets[..j])
    {
      TakeTake(targets, j);
      r := SetDefaultAppend(r, targets[j], k);
      j := j + 1;
    }
    TakeAll(targets);
  }

  /** `_normalize_map(orig)` */
  method NormalizeMap(orig: RawMap) returns (m: Mapping)
    ensures m == Normalized(orig)
  {
    m := Empty();
    var i := 0;
    while i < |orig.order|
      invariant 0 <= i <= |orig.order|
      invariant m.order == orig.order[..i]
      invariant forall k :: k in m.table <==> k in orig.order[..i]
      invariant forall k :: k in m.table ==> m.table[k] == Targets(orig.table[k])
    {
      var k := orig.order[i];
      var v := orig.table[k];
      TakeSnoc(orig.order, i + 1);
      DistinctBefore(orig.order, i);
      if v.Many? {
        m := Put(m, k, v.items);
      } else {
        m := Put(m, k, [v.s]);
      }
      i := i + 1;
    }
    TakeAll(orig.order);
    assert m.table == Normalized(orig).table;
  }

  /** The upper-case folding loop of `get_recursive_decode`. */
  method FoldCase(raw: RawMap) returns (up: RawMap)
    ensures up == FoldUpper(raw)
  {
    up := Empty();
    var i := 0;
    while i < |raw.order|
      invariant 0 <= i <= |raw.order|
      invariant up == FoldUpperUpTo(raw, i)
    {
      up := FoldNext(raw, i, up);
      i := i + 1;
    }
  }

  method FoldNext(raw: RawMap, i: nat, up: RawMap) returns (up': RawMap)
    requires i < |raw.order| && up == FoldUpperUpTo(raw, i)
    ensures up' == FoldUpperUpTo(raw, i + 1)
  {
    var k := raw.order[i];
    var v := raw.table[k];
    up' := Put(up, Upper(k), FoldEntry(v));
  }

  // ---------------------------------------------------------------------
  //  Whole-word decoding
  // ---------------------------------------------------------------------

  /** `_recursive_decode(word, mapping, flawed)` started with an empty memo. */
  method RecursiveDecode(word: string, mapping: Mapping, flawed: bool) returns (r: seq<string>)
    requires Searchable(mapping)
    ensures r == Decodings(word, mapping, flawed, Some(MaxPaths))
    ensures |r| <= MaxPaths + 1
  {
    var memo;
    r, memo := Search(word, mapping, flawed, Some(MaxPaths), map[]);
  }

  /** The mapping `get_recursive_decode` searches with: the module's mapping,
      inverted when the module is reversed, folded to upper case when the
      module is not case-sensitive, normalised, and without its empty key
      (see `Backtrack.DropEmptyKey`). */
  function SearchMapping(data: Module): Mapping {
    var raw := GetModuleMapping(data);
    var directed := if ReverseDirection(GetModuleSettings(data)) then Lift(Inverted(raw)) else raw;
    var folded := if IsCaseSensitive(data) then directed else FoldUpper(directed);
    DropEmptyKey(Normalized(folded))
  }

  /** `get_recursive_decode(word, data, flawed)` */
  method GetRecursiveDecode(word: string, data: Module, flawed: bool) returns (r: seq<string>)
    ensures r == Decodings(word, SearchMapping(data), flawed, Some(MaxPaths))
  {
    var sets := GetModuleSettings(data);
    var rawMap := GetModuleMapping(data);
    if ReverseDirection(sets) {
      var inv := InvertMap(rawMap);
      rawMap := Lift(inv);
    }
    var caseSensitive := IsCaseSensitive(data);
    if !caseSensitive {
      rawMap := FoldCase(rawMap);
    }
    var mapping := NormalizeMap(rawMap);
    r := RecursiveDecode(word, DropEmptyKey(mapping), flawed);
  }

  // ---------------------------------------------------------------------
  //  Tokenisation
  // ---------------------------------------------------------------------

  /** One tokenisation: the token lists of the non-blank words, and whether
      the character separator was blank. */
  datatype Config = Config(cfg: seq<seq<string>>, charSepBlank: bool)

  /** `[rc if isinstance(rc, str) else "" for rc in as_list(x)]` */
  function Strings(x: seq<Option<string>>): (r: seq<string>)
    ensures |r| == |x|
    ensures forall i :: 0 <= i < |x| ==> r[i] == x[i].GetOr("")
  {
    seq(|x|, i requires 0 <= i < |x| => x[i].GetOr(""))
  }

  /** The character separators, `character_separator` defaulting to `null`. */
  function CharSeps(sets: Settings): seq<string> {
    Strings(AsList(sets.characterSeparator.GetOr(Null)))
  }

  /** The word separators, `word_separator` defaulting to `" "`. */
  function WordSeps(sets: Settings): seq<string> {
    Strings(AsList(sets.wordSeparator.GetOr(Str(" "))))
  }

  /** The input chunk width, 0 when unset. */
  function ChunkWidth(sets: Settings): nat {
    match sets.chunkSize
    case None => 0
    case Some(sizes) => sizes.0
  }

  /** Line breaks become spaces; the text is upper-cased for a module that is
      not case-sensitive. */
  function CipherText(cipher: string, caseSensitive: bool): string {
    var text := Replace(Replace(cipher, "\r\n", " "), "\n", " ");
    if caseSensitive then text else Upper(text)
  }

  /** `text.split(sep)` for a non-empty separator, otherwise `[text]`. */
  function SplitWords(text: string, sep: string): seq<string> {
    if sep != "" then Split(text, sep) else [text]
  }

  /** `[t for t in parts if t]` */
  function DropEmpty(parts: seq<string>): (r: seq<string>)
    ensures forall t :: t in r <==> t in parts && t != ""
    decreases |parts|
  {
    if parts == [] then []
    else (if parts[0] == "" then [] else [parts[0]]) + DropEmpty(parts[1..])
  }

  /** The tokens of a stripped word: split on a non-empty character
      separator, else chunks of the chunk width, else the word itself. */
  function WordTokens(word: string, cs: string, chunk: nat): seq<string> {
    if cs != "" then DropEmpty(Split(word, cs))
    else if chunk > 0 then Chunks(word, chunk)
    else [word]
  }

  /** What the word loop does with one raw word. */
  function WordStep(raw: string, cs: string, chunk: nat): Step<seq<string>> {
    var word := Strip(raw);
    if word == "" then Skip
    else if WordTokens(word, cs, chunk) == [] then Fail
    else Keep(WordTokens(word, cs, chunk))
  }

  function WordSteps(words: seq<string>, cs: string, chunk: nat): (r: seq<Step<seq<string>>>)
    ensures |r| == |words| && forall k :: 0 <= k < |words| ==> r[k] == WordStep(words[k], cs, chunk)
  {
    seq(|words|, k requires 0 <= k < |words| => WordStep(words[k], cs, chunk))
  }

  /** The configuration for one word separator and one character separator,
      or `Skip` when some word has no tokens. */
  function ConfigStep(text: string, chunk: nat, ws: string, cs: string): Step<Config> {
    match Collect(WordSteps(SplitWords(text, ws), cs, chunk))
    case None => Skip
    case Some(cfg) => Keep(Config(cfg, cs == ""))
  }

  function ConfigFn(text: string, chunk: nat): (string, string) -> Step<Config> {
    (ws, cs) => ConfigStep(text, chunk, ws, cs)
  }

  /** What `tokenize_message_with_module(data, cipher)` returns: the
      configurations of the grid, word separators outermost. */
  function Configs(data: Module, cipher: string): seq<Config> {
    var sets := GetModuleSettings(data);
    var text := CipherText(cipher, IsCaseSensitive(data));
    Kept(Product(WordSeps(sets), CharSeps(sets), ConfigFn(text, ChunkWidth(sets))))
  }

  /** The word loop of one configuration; `ok` is false when some word had
      no tokens. */
  method TokenizeWords(words: seq<string>, cs: string, chunk: nat) returns (ok: bool, cfg: seq<seq<string>>)
    ensures ok <==> Collect(WordSteps(words, cs, chunk)).Some?
    ensures ok ==> cfg == Collect(WordSteps(words, cs, chunk)).value
  {
    ghost var steps := WordSteps(words, cs, chunk);
    cfg, ok := [], true;
    var k := 0;
    while k < |words|
      invariant 0 <= k <= |words|
      invariant Collect(steps[..k]) == Some(cfg)
    {
      CollectStep(steps, k);
      var word := Strip(words[k]);
      if word == "" {
        k := k + 1;
        continue;
      }
      var toks;
      if cs != "" {
        toks := DropEmpty(Split(word, cs));
      } else if chunk > 0 {
        toks := Chunks(word, chunk);
      } else {
        toks := [word];
      }
      if toks == [] {
        ok := false;
        CollectFailPersists(steps, k + 1);
        break;
      }
      cfg := cfg + [toks];
      k := k + 1;
    }
    if ok {
      TakeAll(steps);
    }
  }

  /** `tokenize_message_with_module(data, cipher)` */
  method TokenizeMessage(data: Module, cipher: string) returns (configs: seq<Config>)
    ensures configs == Configs(data, cipher)
  {
    var sets := GetModuleSettings(data);
    var charSeps := CharSeps(sets);
    var wordSeps := WordSeps(sets);
    var chunk := ChunkWidth(sets);
    var caseSensitive := IsCaseSensitive(data);
    var text := CipherText(cipher, caseSensitive);
    ghost var f := ConfigFn(text, chunk);
    configs := [];
    var a := 0;
    while a < |wordSeps|
      invariant 0 <= a <= |wordSeps|
      invariant configs == Kept(Product(wordSeps[..a], charSeps, f))
    {
      var row := TokenizeRow(text, chunk, wordSeps[a], charSeps);
      ProductStep(wordSeps, charSeps, f, a);
      KeptAppend(Product(wordSeps[..a], charSeps, f), Row(wordSeps[a], charSeps, f));
      configs := configs + row;
      a := a + 1;
    }
    TakeAll(wordSeps);
  }

  /** The inner loop of `tokenize_message_with_module`: every character
      separator for one word separator. */
  method TokenizeRow(text: string, chunk: nat, ws: string, charSeps: seq<string>) returns (row: seq<Config>)
    ensures row == Kept(Row(ws, charSeps, ConfigFn(text, chunk)))
  {
    ghost var f := ConfigFn(text, chunk);
    var words := SplitWords(text, ws);
    row := [];
    var b := 0;
    while b < |charSeps|
      invariant 0 <= b <= |charSeps|
      invariant row == Kept(Row(ws, charSeps[..b], f))
    {
      var cs := charSeps[b];
      var ok, cfg := TokenizeWords(words, cs, chunk);
      KeptRowNext(ws, charSeps, f, b);
      if ok {
        row := row + [Config(cfg, cs == "")];
      }
      b := b + 1;
    }
    TakeAll(charSeps);
  }

  // ---------------------------------------------------------------------
  //  Properties of tokenisation
  // ---------------------------------------------------------------------

  /** Concatenation peels off the first part. */
  lemma JoinEmptyCons(parts: seq<string>)
    requires parts != []
    ensures Join("", parts) == parts[0] + Join("", parts[1..])
  {
    if |parts| == 1 {
      assert parts[1..] == [];
    }
  }

  /** Dropping empty fields does not change their concatenation, and the
      fields that remain concatenate to "" only when none remains. */
  lemma {:induction false} JoinDropEmpty(parts: seq<string>)
    ensures Join("", DropEmpty(parts)) == Join("", parts)
    ensures DropEmpty(parts) == [] <==> Join("", parts) == ""
    decreases |parts|
  {
    if parts != [] {
      JoinDropEmpty(parts[1..]);
      JoinEmptyCons(parts);
      var rest := DropEmpty(parts[1..]);
      if parts[0] != "" {
        assert DropEmpty(parts) == [parts[0]] + rest;
        JoinEmptyCons([parts[0]] + rest);
        assert ([parts[0]] + rest)[1..] == rest;
      } else {
        assert DropEmpty(parts) == rest;
      }
    }
  }

  /** The tokens of a non-blank word are non-empty. With a character
      separator they spell the word with the separators removed, and there
      are none exactly when the word is made of separators only; without
      one, the chunks (or the word itself) spell the word and are never
      missing. */
  lemma WordTokensSpec(word: string, cs: string, chunk: nat)
    requires word != ""
    ensures forall t :: t in WordTokens(word, cs, chunk) ==> t != ""
    ensures cs != "" ==> Join("", WordTokens(word, cs, chunk)) == Replace(word, cs, "")
    ensures cs != "" ==> (WordTokens(word, cs, chunk) == [] <==> Replace(word, cs, "") == "")
    ensures cs == "" ==> Join("", WordTokens(word, cs, chunk)) == word && WordTokens(word, cs, chunk) != []
    ensures cs == "" && chunk > 0 ==> forall t :: t in WordTokens(word, cs, chunk) ==> |t| <= chunk
    ensures cs == "" && chunk == 0 ==> WordTokens(word, cs, chunk) == [word]
  {
    if cs != "" {
      JoinDropEmpty(Split(word, cs));
    } else if chunk > 0 {
      ChunksSpec(word, chunk);
    }
  }

  /** One configuration: it exists exactly when no non-blank word loses all
      its tokens; it records whether the character separator was blank;
      each of its token lists belongs to one non-blank word, in order, and
      holds non-empty tokens. A blank character separator never loses a
      configuration. */
  lemma ConfigStepSpec(text: string, chunk: nat, ws: string, cs: string)
    ensures ConfigStep(text, chunk, ws, cs).Fail? == false
    ensures ConfigStep(text, chunk, ws, cs).Keep? <==>
            forall w :: w in SplitWords(text, ws) && Strip(w) != "" ==> WordTokens(Strip(w), cs, chunk) != []
    ensures cs == "" ==> ConfigStep(text, chunk, ws, cs).Keep?
    ensures ConfigStep(text, chunk, ws, cs).Keep? ==>
              var c := ConfigStep(text, chunk, ws, cs).value;
              c.charSepBlank == (cs == "") &&
              c.cfg == Kept(WordSteps(SplitWords(text, ws), cs, chunk)) &&
              |c.cfg| <= |SplitWords(text, ws)| &&
              forall toks :: toks in c.cfg ==> toks != [] && forall t :: t in toks ==> t != ""
  {
    var words := SplitWords(text, ws);
    var steps := WordSteps(words, cs, chunk);
    CollectSpec(steps);
    var fails := exists i :: 0 <= i < |steps| && steps[i].Fail?;
    if fails {
      var i :| 0 <= i < |steps| && steps[i].Fail?;
      assert words[i] in words;
      WordTokensSpec(Strip(words[i]), cs, chunk);
    } else {
      forall w | w in words && Strip(w) != "" ensures WordTokens(Strip(w), cs, chunk) != [] {
        var i :| 0 <= i < |words| && words[i] == w;
        assert !steps[i].Fail?;
      }
      forall toks | toks in Kept(steps) ensures toks != [] && forall t :: t in toks ==> t != "" {
        KeptMember(steps, toks);
        var i :| 0 <= i < |steps| && steps[i] == Keep(toks);
        WordTokensSpec(Strip(words[i]), cs, chunk);
      }
      KeptMember(steps, []);
    }
  }

  /** `tokenize_message_with_module` tries every pair of a word separator and
      a character separator, word separators outermost: a configuration is
      returned exactly when some pair yields it, and there are at most as
      many configurations as pairs. */
  lemma ConfigsSpec(data: Module, cipher: string, c: Config)
    ensures var sets := GetModuleSettings(data);
            var text := CipherText(cipher, IsCaseSensitive(data));
            c in Configs(data, cipher) <==>
              exists i, j :: 0 <= i < |WordSeps(sets)| && 0 <= j < |CharSeps(sets)| &&
                ConfigStep(text, ChunkWidth(sets), WordSeps(sets)[i], CharSeps(sets)[j]) == Keep(c)
    ensures |Configs(data, cipher)| <= |WordSeps(GetModuleSettings(data))| * |CharSeps(GetModuleSettings(data))|
  {
    var sets := GetModuleSettings(data);
    GridSpec(CipherText(cipher, IsCaseSensitive(data)), ChunkWidth(sets), WordSeps(sets), CharSeps(sets), c);
  }

  lemma GridSpec(text: string, chunk: nat, wsl: seq<string>, csl: seq<string>, c: Config)
    ensures c in Kept(Product(wsl, csl, ConfigFn(text, chunk))) <==>
              exists i, j :: 0 <= i < |wsl| && 0 <= j < |csl| && ConfigStep(text, chunk, wsl[i], csl[j]) == Keep(c)
    ensures |Kept(Product(wsl, csl, ConfigFn(text, chunk)))| <= |wsl| * |csl|
  {
    if c in Kept(Product(wsl, csl, ConfigFn(text, chunk))) {
      var i, j := GridSound(text, chunk, wsl, csl, c);
    }
    if exists i, j :: 0 <= i < |wsl| && 0 <= j < |csl| && ConfigStep(text, chunk, wsl[i], csl[j]) == Keep(c) {
      var i, j :| 0 <= i < |wsl| && 0 <= j < |csl| && ConfigStep(text, chunk, wsl[i], csl[j]) == Keep(c);
      GridComplete(text, chunk, wsl, csl, i, j);
    }
    var f := ConfigFn(text, chunk);
    ProductLength(wsl, csl, f);
    KeptMember(Product(wsl, csl, f), c);
  }

  lemma GridSound(text: string, chunk: nat, wsl: seq<string>, csl: seq<string>, c: Config) returns (i: nat, j: nat)
    requires c in Kept(Product(wsl, csl, ConfigFn(text, chunk)))
    ensures i < |wsl| && j < |csl| && ConfigStep(text, chunk, wsl[i], csl[j]) == Keep(c)
  {
    var f := ConfigFn(text, chunk);
    var grid := Product(wsl, csl, f);
    KeptMember(grid, c);
    var k :| 0 <= k < |grid| && grid[k] == Keep(c);
    assert Keep(c) in grid;
    ProductMember(wsl, csl, f, Keep(c));
    i, j :| 0 <= i < |wsl| && 0 <= j < |csl| && Keep(c) == f(wsl[i], csl[j]);
  }

  lemma GridComplete(text: string, chunk: nat, wsl: seq<string>, csl: seq<string>, i: nat, j: nat)
    requires i < |wsl| && j < |csl| && ConfigStep(text, chunk, wsl[i], csl[j]).Keep?
    ensures ConfigStep(text, chunk, wsl[i], csl[j]).value in Kept(Product(wsl, csl, ConfigFn(text, chunk)))
  {
    var f := ConfigFn(text, chunk);
    var grid := Product(wsl, csl, f);
    var x := ConfigStep(text, chunk, wsl[i], csl[j]);
    assert f(wsl[i], csl[j]) == x;
    ProductMember(wsl, csl, f, x);
    var k :| 0 <= k < |grid| && grid[k] == x;
    KeptMember(grid, x.value);
  }
}
