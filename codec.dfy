/** The older flat engine: the same mapping ideas as the package engine,
    with its own order of tokenisation rules (a chunk size wins over a
    character separator), padding of inputs and outputs to the chunk size,
    an unbudgeted whole-word search, de-duplicated results, and chain
    wrappers that decode in declared order and encode in reverse order. */
module FlatCodec {
  import opened Seqs
  import opened OrderedDict
  import opened PyStr
  import opened Utils
  import opened ModuleLoader
  import opened Maps
  import opened Backtrack
  import opened Tokenizer
  import opened Decoder
  import Encoder

  // ---------------------------------------------------------------------
  //  Small helpers
  // ---------------------------------------------------------------------

  /** `expand_in_mapping(token, mapping, flawed)` */
  function ExpandInMapping(token: string, mapping: RawMap, flawed: bool): seq<string> {
    if token in mapping.table then Targets(mapping.table[token])
    else if flawed then [token]
    else []
  }

  /** The flat expansion is the package engine's token choice: the key's
      alternatives, the token itself in a flawed pass, and nothing (where
      the package gives up on the word) in a strict one. */
  lemma ExpandAgrees(token: string, mapping: RawMap, flawed: bool)
    ensures ExpandInMapping(token, mapping, flawed) ==
            match TokenChoice(Normalized(mapping), flawed, token)
            case Keep(alternatives) => alternatives
            case _ => []
    ensures ExpandInMapping(token, mapping, flawed) == [] <==>
            TokenChoice(Normalized(mapping), flawed, token).Fail? ||
            (token in mapping.table && Targets(mapping.table[token]) == [])
  {
  }

  /** `decode_recursive(word, mapping, flawed)`: the search without a
      budget, reading every key's alternatives as `expand_in_mapping` does,
      and leaving out the empty key (see `Backtrack.DropEmptyKey`). */
  method DecodeRecursive(word: string, mapping: RawMap, flawed: bool) returns (r: seq<string>)
    ensures r == Decodings(word, DropEmptyKey(Normalized(mapping)), flawed, None)
    ensures word == "" ==> r == [""]
  {
    var m := NormalizeMap(mapping);
    var memo;
    r, memo := Search(word, DropEmptyKey(m), flawed, None, map[]);
  }

  /** Without a budget nothing is cut off: the results are exactly the
      spellings of the word through the mapping. */
  lemma DecodeRecursiveExact(word: string, mapping: RawMap, flawed: bool, r: string)
    ensures r in Decodings(word, DropEmptyKey(Normalized(mapping)), flawed, None) <==>
            Spells(word, DropEmptyKey(Normalized(mapping)), flawed, r)
  {
    var m := DropEmptyKey(Normalized(mapping));
    if r in Decodings(word, m, flawed, None) {
      DecodingsSound(word, m, flawed, None, r);
    }
    if Spells(word, m, flawed, r) {
      DecodingsComplete(word, m, flawed, r);
    }
  }

  /** `build_inverse_mapping(mapping)` */
  method BuildInverseMapping(mapping: RawMap) returns (inv: Mapping)
    ensures inv == Inverted(mapping)
  {
    inv := Empty();
    var i := 0;
    while i < |mapping.order|
      invariant 0 <= i <= |mapping.order|
      invariant inv == InvertedUpTo(mapping, i)
    {
      inv := InvertEntry(mapping, i, inv);
      i := i + 1;
    }
  }

  /** One pass of the loop of `build_inverse_mapping`. */
  method InvertEntry(mapping: RawMap, i: nat, inv: Mapping) returns (r: Mapping)
    requires i < |mapping.order| && inv == InvertedUpTo(mapping, i)
    ensures r == InvertedUpTo(mapping, i + 1)
  {
    var k := mapping.order[i];
    r := InvertValue(inv, k, mapping.table[k]);
  }

  /** Each element of a list value, or the scalar value, gets the key
      appended. */
  method InvertValue(inv: Mapping, k: string, v: Target) returns (r: Mapping)
    ensures r == AddKey(inv, k, Targets(v))
  {
    if v.Many? {
      r := AddTargets(inv, k, v.items);
    } else {
      assert [v.s][..0] == [];
      r := SetDefaultAppend(inv, v.s, k);
    }
  }

  // ---------------------------------------------------------------------
  //  Settings
  // ---------------------------------------------------------------------

  /** The chunk width and padding one direction reads: `inSize` for the
      input, `inPad` for an input padding token, `outPad` for the output. */
  datatype Sizes = Sizes(inSize: nat, inPad: string, outPad: string)

  /** Decoding reads the second chunk size and padding of a reversed module
      and the first of any other. */
  function DecodeSizes(sets: Settings): (r: Sizes)
    ensures var (c0, c1) := sets.chunkSize.GetOr((0, 0));
            var (p0, p1) := sets.padding.GetOr(("", ""));
            r == if ReverseDirection(sets) then Sizes(c1, p1, p0) else Sizes(c0, p0, p1)
  {
    var (c0, c1) := sets.chunkSize.GetOr((0, 0));
    var (p0, p1) := sets.padding.GetOr(("", ""));
    if ReverseDirection(sets) then Sizes(c1, p1, p0) else Sizes(c0, p0, p1)
  }

  /** The word separators and character separators of the grid; both
      default to `null`. */
  function FlatWordSeps(sets: Settings): seq<Option<string>> {
    AsList(sets.wordSeparator.GetOr(Null))
  }

  function FlatCharSeps(sets: Settings): seq<Option<string>> {
    AsList(sets.characterSeparator.GetOr(Null))
  }

  // ---------------------------------------------------------------------
  //  Tokenisation
  // ---------------------------------------------------------------------

  /** The tokens of a stripped word: chunks of the input width when it is
      set, else the non-empty fields between character separators when
      one is set; None when neither is. */
  function SplitTokens(w: string, inSize: nat, cs: Option<string>): Option<seq<string>> {
    if inSize > 0 then Some(Chunks(w, inSize))
    else if cs.Some? && cs.value != "" then Some(DropEmpty(Split(w, cs.value)))
    else None
  }

  /** A chunk width takes precedence over a character separator here, the
      reverse of the package tokeniser: with width 1 and separator "-", the
      word "A-B" gives the three tokens "A", "-", "B" where the package
      gives "A" and "B". */
  lemma PrecedenceDiffers()
    ensures SplitTokens("A-B", 1, Some("-")) == Some(["A", "-", "B"])
    ensures WordTokens("A-B", "-", 1) == ["A", "B"]
  {
    assert "A-B"[..1] == "A" && "A-B"[1..] == "-B";
    assert "-B"[..1] == "-" && "-B"[1..] == "B";
    assert "B"[1..] == "";
    assert Chunks("B", 1) == ["B"];
    assert Chunks("-B", 1) == ["-", "B"];
    assert Chunks("A-B", 1) == ["A", "-", "B"];
    assert Split("", "-") == [""];
    assert "B"[..1][0] != "-"[0];
    assert Split("B", "-") == [['B'] + ""] + [""][1..];
    assert ['B'] + "" == "B" && [""][1..] == [];
    assert Split("B", "-") == ["B"];
    assert Split("-B", "-") == [""] + Split("B", "-");
    assert "A-B"[..1][0] != "-"[0];
    var rest := Split("-B", "-");
    assert rest == ["", "B"];
    assert Split("A-B", "-") == [['A'] + rest[0]] + rest[1..];
    assert ['A'] + rest[0] == "A" && rest[1..] == ["B"];
    assert Split("A-B", "-") == ["A", "B"];
    assert DropEmpty(["B"]) == ["B"] + DropEmpty([]);
    assert ["", "B"][1..] == ["B"];
    assert DropEmpty(["", "B"]) == ["B"];
    assert ["A", "", "B"][1..] == ["", "B"];
    assert DropEmpty(["A", "", "B"]) == ["A", "B"];
  }

  /** A token made of the input padding character only. */
  predicate PadToken(tok: string, inPad: string) {
    inPad != "" && forall i :: 0 <= i < |tok| ==> [tok[i]] == inPad
  }

  /** The alternatives of one token: the output padding (or "") for a
      padding token, its expansion otherwise. */
  function TokenAlternatives(tok: string, sizes: Sizes, mapping: RawMap, flawed: bool): seq<string> {
    if PadToken(tok, sizes.inPad) then [sizes.outPad] else ExpandInMapping(tok, mapping, flawed)
  }

  function TokenLists(toks: seq<string>, sizes: Sizes, mapping: RawMap, flawed: bool): (r: seq<seq<string>>)
    ensures |r| == |toks| && forall i :: 0 <= i < |toks| ==> r[i] == TokenAlternatives(toks[i], sizes, mapping, flawed)
  {
    seq(|toks|, i requires 0 <= i < |toks| => TokenAlternatives(toks[i], sizes, mapping, flawed))
  }

  /** `[sep.join(p) for p in product(*lists)]` */
  function Joins(sep: string, lists: seq<seq<string>>): (r: seq<string>) {
    var tuples := AllTuples(lists);
    seq(|tuples|, i requires 0 <= i < |tuples| => Join(sep, tuples[i]))
  }

  /** The joined tuples are exactly the joins of one choice per list; an
      empty list leaves none. */
  lemma JoinsSpec(sep: string, lists: seq<seq<string>>, s: string)
    ensures |Joins(sep, lists)| == ProductOfLengths(lists)
    ensures s in Joins(sep, lists) <==>
            exists t :: |t| == |lists| && (forall i :: 0 <= i < |t| ==> t[i] in lists[i]) && s == Join(sep, t)
    ensures (exists k :: 0 <= k < |lists| && lists[k] == []) ==> Joins(sep, lists) == []
  {
    var tuples := AllTuples(lists);
    AllTuplesLength(lists);
    if s in Joins(sep, lists) {
      var i :| 0 <= i < |tuples| && Joins(sep, lists)[i] == s;
      AllTuplesMember(lists, tuples[i]);
    }
    if exists t :: |t| == |lists| && (forall i :: 0 <= i < |t| ==> t[i] in lists[i]) && s == Join(sep, t) {
      var t :| |t| == |lists| && (forall i :: 0 <= i < |t| ==> t[i] in lists[i]) && s == Join(sep, t);
      AllTuplesMember(lists, t);
      var i :| 0 <= i < |tuples| && tuples[i] == t;
      assert Joins(sep, lists)[i] == s;
    }
    if exists k :: 0 <= k < |lists| && lists[k] == [] {
      var k :| 0 <= k < |lists| && lists[k] == [];
      ProductOfLengthsZero(lists, k);
    }
  }

  /** The joining loop over a product. */
  method JoinAll(sep: string, lists: seq<seq<string>>) returns (r: seq<string>)
    ensures r == Joins(sep, lists)
  {
    var tuples := AllTuples(lists);
    r := [];
    var i := 0;
    while i < |tuples|
      invariant 0 <= i <= |tuples|
      invariant |r| == i && forall j :: 0 <= j < i ==> r[j] == Join(sep, tuples[j])
    {
      r := r + [Join(sep, tuples[i])];
      i := i + 1;
    }
  }

  // ---------------------------------------------------------------------
  //  Decoding
  // ---------------------------------------------------------------------

  /** The mapping `decode_message_with_module` reads: inverted for a
      reversed module, folded to upper case (scalars staying scalars) for a
      module that is not case-sensitive. */
  function FlatDecodeMapping(data: Module): RawMap {
    var raw := GetModuleMapping(data);
    var directed := if ReverseDirection(GetModuleSettings(data)) then Lift(Inverted(raw)) else raw;
    if IsCaseSensitive(data) then directed else FoldFlat(directed)
  }

  /** The folding changes nothing: a module that is not case-sensitive has
      no lower-case text. */
  lemma FlatDecodeMappingUnfolded(data: Module)
    ensures var raw := GetModuleMapping(data);
            FlatDecodeMapping(data) == if ReverseDirection(GetModuleSettings(data)) then Lift(Inverted(raw)) else raw
  {
    var raw := GetModuleMapping(data);
    if !IsCaseSensitive(data) {
      if ReverseDirection(GetModuleSettings(data)) {
        InvertedUpperInvariant(raw);
        FoldFlatIdentity(Lift(Inverted(raw)));
      } else {
        FoldFlatIdentity(raw);
      }
    }
  }

  /** The variants of one stripped, non-blank word: every concatenation of
      one alternative per token, or the whole-word search when the word is
      not split into tokens. */
  function FlatWordVariants(w: string, sizes: Sizes, cs: Option<string>, mapping: RawMap, flawed: bool): seq<string> {
    match SplitTokens(w, sizes.inSize, cs)
    case Some(toks) => Joins("", TokenLists(toks, sizes, mapping, flawed))
    case None => Decodings(w, DropEmptyKey(Normalized(mapping)), flawed, None)
  }

  /** What the word loop does with one raw word. */
  function FlatWordStep(raw: string, sizes: Sizes, cs: Option<string>, mapping: RawMap, flawed: bool): Step<seq<string>> {
    if Strip(raw) == "" then Skip else Keep(FlatWordVariants(Strip(raw), sizes, cs, mapping, flawed))
  }

  function FlatWordSteps(words: seq<string>, sizes: Sizes, cs: Option<string>, mapping: RawMap, flawed: bool): (r: seq<Step<seq<string>>>)
    ensures |r| == |words| && forall k :: 0 <= k < |words| ==> r[k] == FlatWordStep(words[k], sizes, cs, mapping, flawed)
  {
    seq(|words|, k requires 0 <= k < |words| => FlatWordStep(words[k], sizes, cs, mapping, flawed))
  }

  /** `message.split(ws)`, or the whole message for a `null` separator. */
  function FlatWords(text: string, ws: Option<string>): seq<string>
    requires ws != Some("")
  {
    if ws.None? then [text] else Split(text, ws.value)
  }

  /** The sentences of one configuration: every choice of one variant per
      non-blank word, joined by spaces. An empty word separator makes
      `split` raise, and the configuration is skipped. */
  function ConfigOutputs(text: string, sizes: Sizes, mapping: RawMap, flawed: bool, ws: Option<string>, cs: Option<string>): seq<string> {
    if ws == Some("") then []
    else Joins(" ", Kept(FlatWordSteps(FlatWords(text, ws), sizes, cs, mapping, flawed)))
  }

  function ConfigOutputsFn(text: string, sizes: Sizes, mapping: RawMap, flawed: bool): (Option<string>, Option<string>) -> seq<string> {
    (ws, cs) => ConfigOutputs(text, sizes, mapping, flawed, ws, cs)
  }

  /** The raw results of every configuration, word separators outermost. */
  function RawResults(data: Module, message: string, flawed: bool): seq<string> {
    var sets := GetModuleSettings(data);
    var text := if IsCaseSensitive(data) then message else Upper(message);
    Flatten(Product(FlatWordSeps(sets), FlatCharSeps(sets), ConfigOutputsFn(text, DecodeSizes(sets), FlatDecodeMapping(data), flawed)))
  }

  /** `decode_message_with_module(data, message, flawed)` of `codec.py`. */
  function FlatDecode(data: Module, message: string, flawed: bool): seq<string> {
    Dedupe(RawResults(data, message, flawed))
  }

  /** The results hold every raw result once, in the order of first
      occurrence. */
  lemma FlatDecodeSpec(data: Module, message: string, flawed: bool, s: string)
    ensures s in FlatDecode(data, message, flawed) <==> s in RawResults(data, message, flawed)
    ensures NoDuplicates(FlatDecode(data, message, flawed))
  {
    DedupeSpec(RawResults(data, message, flawed));
  }

  /** Of two results, the earlier one is the one whose first raw
      occurrence comes first. */
  lemma FlatDecodeOrder(data: Module, message: string, flawed: bool, i: nat, j: nat)
    requires i < j < |FlatDecode(data, message, flawed)|
    ensures var raw, r := RawResults(data, message, flawed), FlatDecode(data, message, flawed);
            r[i] in raw && r[j] in raw && FirstIndex(raw, r[i]) < FirstIndex(raw, r[j])
  {
    DedupeOrder(RawResults(data, message, flawed), i, j);
  }

  /** A padding token decodes to the output padding only, whatever the
      mapping says. */
  lemma PadTokenDecodes(tok: string, sizes: Sizes, mapping: RawMap, flawed: bool)
    requires sizes.inPad != "" && forall i :: 0 <= i < |tok| ==> [tok[i]] == sizes.inPad
    ensures TokenAlternatives(tok, sizes, mapping, flawed) == [sizes.outPad]
  {
  }

  /** A configuration yields no sentence when some non-blank word has no
      variant: an unknown token in a strict pass, or a word the search
      cannot spell. */
  lemma ConfigOutputsEmpty(text: string, sizes: Sizes, mapping: RawMap, flawed: bool, ws: Option<string>, cs: Option<string>, k: nat)
    requires ws != Some("") && k < |FlatWords(text, ws)|
    requires var w := Strip(FlatWords(text, ws)[k]);
             w != "" && FlatWordVariants(w, sizes, cs, mapping, flawed) == []
    ensures ConfigOutputs(text, sizes, mapping, flawed, ws, cs) == []
  {
    var steps := FlatWordSteps(FlatWords(text, ws), sizes, cs, mapping, flawed);
    KeptMember(steps, []);
    var vs := Kept(steps);
    var j :| 0 <= j < |vs| && vs[j] == [];
    JoinsSpec(" ", vs, "");
  }

  /** `decode_message_with_module(data, message, flawed)` of `codec.py`. */
  method FlatDecodeMessage(data: Module, message: string, flawed: bool) returns (r: seq<string>)
    ensures r == FlatDecode(data, message, flawed)
  {
    var sets := GetModuleSettings(data);
    var rawMap := GetModuleMapping(data);
    var mapping := rawMap;
    if ReverseDirection(sets) {
      var inv := BuildInverseMapping(rawMap);
      mapping := Lift(inv);
    }
    var text := message;
    if !IsCaseSensitive(data) {
      mapping := FoldFlat(mapping);
      text := Upper(message);
    }
    var sizes := DecodeSizes(sets);
    var wordSeps := FlatWordSeps(sets);
    var charSeps := FlatCharSeps(sets);
    ghost var f := ConfigOutputsFn(text, sizes, mapping, flawed);
    var results := [];
    var a := 0;
    while a < |wordSeps|
      invariant 0 <= a <= |wordSeps|
      invariant results == Flatten(Product(wordSeps[..a], charSeps, f))
    {
      var row := DecodeRow(text, sizes, mapping, flawed, wordSeps[a], charSeps);
      ProductStep(wordSeps, charSeps, f, a);
      FlattenAppend(Product(wordSeps[..a], charSeps, f), Row(wordSeps[a], charSeps, f));
      results := results + row;
      a := a + 1;
    }
    TakeAll(wordSeps);
    r := DedupeList(results);
  }

  /** The inner loop: every character separator for one word separator. */
  method DecodeRow(text: string, sizes: Sizes, mapping: RawMap, flawed: bool, ws: Option<string>, charSeps: seq<Option<string>>)
    returns (row: seq<string>)
    ensures row == Flatten(Row(ws, charSeps, ConfigOutputsFn(text, sizes, mapping, flawed)))
  {
    ghost var f := ConfigOutputsFn(text, sizes, mapping, flawed);
    row := [];
    var b := 0;
    while b < |charSeps|
      invariant 0 <= b <= |charSeps|
      invariant row == Flatten(Row(ws, charSeps[..b], f))
    {
      row := DecodeCell(text, sizes, mapping, flawed, ws, charSeps, b, row);
      b := b + 1;
    }
    TakeAll(charSeps);
  }

  /** One character separator of the inner loop: its sentences appended. */
  method DecodeCell(text: string, sizes: Sizes, mapping: RawMap, flawed: bool, ws: Option<string>, charSeps: seq<Option<string>>,
                    b: nat, row: seq<string>)
    returns (r: seq<string>)
    requires b < |charSeps| && row == Flatten(Row(ws, charSeps[..b], ConfigOutputsFn(text, sizes, mapping, flawed)))
    ensures r == Flatten(Row(ws, charSeps[..b + 1], ConfigOutputsFn(text, sizes, mapping, flawed)))
  {
    var out := DecodeConfig(text, sizes, mapping, flawed, ws, charSeps[b]);
    FlattenRowNext(ws, charSeps, ConfigOutputsFn(text, sizes, mapping, flawed), b);
    r := row + out;
  }

  /** The body of the `try`: the word loop of one configuration and the
      product of its words' variants. */
  method DecodeConfig(text: string, sizes: Sizes, mapping: RawMap, flawed: bool, ws: Option<string>, cs: Option<string>)
    returns (out: seq<string>)
    ensures out == ConfigOutputs(text, sizes, mapping, flawed, ws, cs)
  {
    if ws == Some("") {
      return [];
    }
    var words := FlatWords(text, ws);
    ghost var steps := FlatWordSteps(words, sizes, cs, mapping, flawed);
    var expansions := [];
    var i := 0;
    while i < |words|
      invariant 0 <= i <= |words|
      invariant expansions == Kept(steps[..i])
    {
      TakeTake(steps, i);
      var w := Strip(words[i]);
      if w != "" {
        var variants := WordVariantsOf(w, sizes, cs, mapping, flawed);
        if variants == [] {
          ConfigOutputsEmpty(text, sizes, mapping, flawed, ws, cs, i);
          return [];
        }
        expansions := expansions + [variants];
      }
      i := i + 1;
    }
    TakeAll(steps);
    out := JoinAll(" ", expansions);
  }

  /** The tokenisation and expansion of one word. */
  method WordVariantsOf(w: string, sizes: Sizes, cs: Option<string>, mapping: RawMap, flawed: bool) returns (variants: seq<string>)
    ensures variants == FlatWordVariants(w, sizes, cs, mapping, flawed)
  {
    var tokens := SplitTokens(w, sizes.inSize, cs);
    if tokens.None? {
      variants := DecodeRecursive(w, mapping, flawed);
      return;
    }
    var toks := tokens.value;
    var perTok := [];
    var j := 0;
    while j < |toks|
      invariant 0 <= j <= |toks|
      invariant |perTok| == j && forall k :: 0 <= k < j ==> perTok[k] == TokenAlternatives(toks[k], sizes, mapping, flawed)
    {
      var tok := toks[j];
      if PadToken(tok, sizes.inPad) {
        perTok := perTok + [[sizes.outPad]];
      } else {
        perTok := perTok + [ExpandInMapping(tok, mapping, flawed)];
      }
      j := j + 1;
    }
    assert perTok == TokenLists(toks, sizes, mapping, flawed);
    variants := JoinAll("", perTok);
  }

  /** The `seen` loop that drops repeated results. */
  method DedupeList(results: seq<string>) returns (uniq: seq<string>)
    ensures uniq == Dedupe(results)
  {
    var seen: set<string> := {};
    uniq := [];
    var i := 0;
    while i < |results|
      invariant 0 <= i <= |results|
      invariant uniq == Dedupe(results[..i])
      invariant forall x :: x in seen <==> x in uniq
    {
      TakeTake(results, i);
      if results[i] !in seen {
        uniq := uniq + [results[i]];
        seen := seen + {results[i]};
      }
      i := i + 1;
    }
    TakeAll(results);
  }

  // ---------------------------------------------------------------------
  //  Encoding
  // ---------------------------------------------------------------------

  /** The mapping `encode_message_with_module` reads: a reversed module's
      own mapping, the inverse of any other, folded to upper case (scalars
      staying scalars) for a module that is not case-sensitive. */
  function FlatEncodeMapping(data: Module): RawMap {
    var raw := GetModuleMapping(data);
    var inv := if ReverseDirection(GetModuleSettings(data)) then raw else Lift(Inverted(raw));
    if IsCaseSensitive(data) then inv else FoldFlat(inv)
  }

  /** A chunk width and the padding that fills up to it. */
  datatype Padding = Padding(width: nat, pad: string)

  /** Encoding reads the first chunk size and padding of a reversed module
      and the second of any other; the same width chops the input and pads
      the output. */
  function EncodePadding(sets: Settings): (r: Padding)
    ensures var (c0, c1) := sets.chunkSize.GetOr((0, 0));
            var (p0, p1) := sets.padding.GetOr(("", ""));
            r == if ReverseDirection(sets) then Padding(c0, p0) else Padding(c1, p1)
  {
    var (c0, c1) := sets.chunkSize.GetOr((0, 0));
    var (p0, p1) := sets.padding.GetOr(("", ""));
    if ReverseDirection(sets) then Padding(c0, p0) else Padding(c1, p1)
  }

  /** The first entry that is not `null`, or "". */
  function FirstString(items: seq<Option<string>>): (r: string)
    ensures (forall i :: 0 <= i < |items| ==> items[i].None?) ==> r == ""
    ensures forall i :: 0 <= i < |items| && items[i].Some? && (forall j :: 0 <= j < i ==> items[j].None?) ==> r == items[i].value
    decreases |items|
  {
    if items == [] then ""
    else if items[0].Some? then items[0].value
    else
      var r := FirstString(items[1..]);
      assert forall i :: 1 <= i < |items| ==> items[i] == items[1..][i - 1];
      r
  }

  /** The encoder's character separator: `character_separator or [""]`,
      then its first entry that is not `null`. A string setting is iterated
      character by character, so only its first character is used. */
  function FlatSep(sets: Settings): string {
    match sets.characterSeparator
    case None => ""
    case Some(Null) => ""
    case Some(Str(s)) => if s == "" then "" else [s[0]]
    case Some(List(items)) => FirstString(items)
  }

  /** Unlike the package encoder, a two-character separator string loses
      its second character. */
  lemma SepDiffers()
    ensures var sets := Settings(None, Some(Str("--")), None, None, None, false);
            FlatSep(sets) == "-" && Encoder.CharSep(sets) == Some("--")
  {
  }

  /** The encoder's word separator, which is computed but never used: the
      first entry of `word_separator` (or " "), " " when that is blank; None
      when the setting is an empty list, where the source indexes past its
      end. */
  function FlatWordSep(sets: Settings): (r: Option<string>)
    ensures r.None? <==> AsList(sets.wordSeparator.GetOr(Str(" "))) == []
  {
    var seps := AsList(sets.wordSeparator.GetOr(Str(" ")));
    if seps == [] then None
    else if seps[0].None? || seps[0].value == "" then Some(" ")
    else Some(seps[0].value)
  }

  /** `s += pad * (width - len(s) % width)` when a width and a padding are
      set and the length of `s` is not a multiple of the width. */
  function PadTo(s: string, width: nat, pad: string): string {
    if width > 0 && pad != "" && |s| % width != 0 then s + Repeat(pad, width - |s| % width) else s
  }

  lemma MulPos(d: int, w: nat)
    requires w > 0 && d >= 1
    ensures d * w >= w
  {
  }

  /** The remainder is the unique `r < w` with `x == q * w + r`. */
  lemma ModUnique(x: nat, w: nat, q: nat, r: nat)
    requires w > 0 && r < w && x == q * w + r
    ensures x % w == r
  {
    var q0 := x / w;
    assert x == q0 * w + x % w;
    if q > q0 {
      MulPos(q - q0, w);
    } else if q < q0 {
      MulPos(q0 - q, w);
    }
  }

  /** Padding only appends, and a one-character padding fills the string
      up to the next multiple of the width, adding fewer than `width`
      characters. */
  lemma PadToSpec(s: string, width: nat, pad: string)
    ensures |s| <= |PadTo(s, width, pad)| && PadTo(s, width, pad)[..|s|] == s
    ensures width == 0 || pad == "" || |s| % width == 0 ==> PadTo(s, width, pad) == s
    ensures width > 0 && |pad| == 1 ==>
            |PadTo(s, width, pad)| % width == 0 && |PadTo(s, width, pad)| < |s| + width
  {
    if width > 0 && pad != "" && |s| % width != 0 {
      var q := |s| / width;
      var rem := |s| % width;
      assert |s| == q * width + rem;
      if |pad| == 1 {
        assert |PadTo(s, width, pad)| == (q + 1) * width + 0;
        ModUnique(|PadTo(s, width, pad)|, width, q + 1, 0);
      }
    }
  }

  /** The tokens of one plaintext word: chunks of the width after padding,
      or its characters when no width is set. */
  function EncTokens(w: string, pd: Padding): seq<string> {
    if pd.width > 0 then Chunks(PadTo(w, pd.width, pd.pad), pd.width) else Chars(w)
  }

  /** With a width and a one-character padding, every token has exactly the
      width, and the tokens spell the padded word. */
  lemma EncTokensSpec(w: string, pd: Padding)
    requires pd.width > 0 && |pd.pad| == 1
    ensures Join("", EncTokens(w, pd)) == PadTo(w, pd.width, pd.pad)
    ensures forall i :: 0 <= i < |EncTokens(w, pd)| ==> |EncTokens(w, pd)[i]| == pd.width
  {
    var p := PadTo(w, pd.width, pd.pad);
    PadToSpec(w, pd.width, pd.pad);
    ChunksSpec(p, pd.width);
    ChunksFull(p, pd.width);
  }

  /** A string whose length is a multiple of the width is cut into full
      chunks only. */
  lemma {:induction false} ChunksFull(p: string, k: nat)
    requires k > 0 && |p| % k == 0
    ensures forall i :: 0 <= i < |Chunks(p, k)| ==> |Chunks(p, k)[i]| == k
    decreases |p|
  {
    if |p| > k {
      assert |p[k..]| == |p| - k;
      ModUnique(|p|, k, (|p| - k) / k + 1, (|p| - k) % k);
      ChunksFull(p[k..], k);
      var rest := Chunks(p[k..], k);
      assert forall i :: 1 <= i < |Chunks(p, k)| ==> Chunks(p, k)[i] == rest[i - 1];
    } else if p != [] {
      assert |p| == k;
    }
  }

  /** `inv_map.get(tok, [tok])` as `product` iterates it, as written: a
      scalar string value is iterated character by character. */
  function ChoicesAsWritten(tok: string, inv: RawMap): seq<string> {
    if tok in inv.table then
      match inv.table[tok]
      case One(s) => Chars(s)
      case Many(items) => items
    else [tok]
  }

  /** The choices of one token as evidently intended: the token's
      alternatives, a scalar value being one alternative, or the token
      itself when it is not a key. */
  function TokenTargets(tok: string, inv: RawMap): seq<string> {
    if tok in inv.table then Targets(inv.table[tok]) else [tok]
  }

  /** A reversed module mapping "A" to the scalar ".-" offers the two
      choices "." and "-" for "A", not ".-". */
  lemma ScalarSplit()
    ensures var inv := Dict(["A"], map["A" := One(".-")]);
            ChoicesAsWritten("A", inv) == [".", "-"] && TokenTargets("A", inv) == [".-"]
  {
    var inv := Dict(["A"], map["A" := One(".-")]);
    assert Chars(".-") == [".", "-"];
  }

  /** The two readings agree on every list value and on every scalar of one
      character. */
  lemma ChoicesAgree(tok: string, inv: RawMap)
    requires tok in inv.table && inv.table[tok].One? ==> |inv.table[tok].s| == 1
    ensures ChoicesAsWritten(tok, inv) == TokenTargets(tok, inv)
  {
    if tok in inv.table && inv.table[tok].One? {
      var s := inv.table[tok].s;
      assert Chars(s) == [[s[0]]];
      assert [s[0]] == s;
    }
  }

  function ChoiceLists(toks: seq<string>, inv: RawMap): (r: seq<seq<string>>)
    ensures |r| == |toks| && forall i :: 0 <= i < |toks| ==> r[i] == TokenTargets(toks[i], inv)
  {
    seq(|toks|, i requires 0 <= i < |toks| => TokenTargets(toks[i], inv))
  }

  /** The encodings of one stripped word: every combination of one choice
      per token joined by the separator, then padded to the width. */
  function WordEncodings(w: string, inv: RawMap, sep: string, pd: Padding): seq<string> {
    var tuples := AllTuples(ChoiceLists(EncTokens(w, pd), inv));
    seq(|tuples|, i requires 0 <= i < |tuples| => PadTo(Join(sep, tuples[i]), pd.width, pd.pad))
  }

  /** With a width and a one-character padding, every encoding of a word
      has a length that is a multiple of the width. */
  lemma WordEncodingsPadded(w: string, inv: RawMap, sep: string, pd: Padding, e: string)
    requires pd.width > 0 && |pd.pad| == 1 && e in WordEncodings(w, inv, sep, pd)
    ensures |e| % pd.width == 0
  {
    var tuples := AllTuples(ChoiceLists(EncTokens(w, pd), inv));
    var i :| 0 <= i < |tuples| && WordEncodings(w, inv, sep, pd)[i] == e;
    PadToSpec(Join(sep, tuples[i]), pd.width, pd.pad);
  }

  /** Every encoding of a word is one choice per token, joined by the
      separator and padded. */
  lemma WordEncodingsSound(w: string, inv: RawMap, sep: string, pd: Padding, e: string)
    requires e in WordEncodings(w, inv, sep, pd)
    ensures var toks := EncTokens(w, pd);
            exists t :: |t| == |toks| && (forall i :: 0 <= i < |t| ==> t[i] in TokenTargets(toks[i], inv)) &&
                        e == PadTo(Join(sep, t), pd.width, pd.pad)
  {
    var lists := ChoiceLists(EncTokens(w, pd), inv);
    var tuples := AllTuples(lists);
    var i :| 0 <= i < |tuples| && WordEncodings(w, inv, sep, pd)[i] == e;
    AllTuplesMember(lists, tuples[i]);
  }

  /** Every choice of one alternative per token gives an encoding. */
  lemma WordEncodingsComplete(w: string, inv: RawMap, sep: string, pd: Padding, t: seq<string>)
    requires var toks := EncTokens(w, pd);
             |t| == |toks| && forall i :: 0 <= i < |t| ==> t[i] in TokenTargets(toks[i], inv)
    ensures PadTo(Join(sep, t), pd.width, pd.pad) in WordEncodings(w, inv, sep, pd)
  {
    var lists := ChoiceLists(EncTokens(w, pd), inv);
    var tuples := AllTuples(lists);
    AllTuplesMember(lists, t);
    var i :| 0 <= i < |tuples| && tuples[i] == t;
    assert WordEncodings(w, inv, sep, pd)[i] == PadTo(Join(sep, t), pd.width, pd.pad);
  }

  /** The encodings of a word are exactly the separator-joined, padded
      choices of one alternative per token, a token that is not a key
      standing for itself. */
  lemma WordEncodingsMember(w: string, inv: RawMap, sep: string, pd: Padding, e: string)
    ensures var toks := EncTokens(w, pd);
            e in WordEncodings(w, inv, sep, pd) <==>
            exists t :: |t| == |toks| && (forall i :: 0 <= i < |t| ==> t[i] in TokenTargets(toks[i], inv)) &&
                        e == PadTo(Join(sep, t), pd.width, pd.pad)
  {
    var toks := EncTokens(w, pd);
    if e in WordEncodings(w, inv, sep, pd) {
      WordEncodingsSound(w, inv, sep, pd, e);
    }
    if exists t :: |t| == |toks| && (forall i :: 0 <= i < |t| ==> t[i] in TokenTargets(toks[i], inv)) &&
                   e == PadTo(Join(sep, t), pd.width, pd.pad) {
      var t :| |t| == |toks| && (forall i :: 0 <= i < |t| ==> t[i] in TokenTargets(toks[i], inv)) &&
               e == PadTo(Join(sep, t), pd.width, pd.pad);
      WordEncodingsComplete(w, inv, sep, pd, t);
    }
  }

  function EncWordStep(raw: string, inv: RawMap, sep: string, pd: Padding): Step<seq<string>> {
    if Strip(raw) == "" then Skip else Keep(WordEncodings(Strip(raw), inv, sep, pd))
  }

  function EncWordSteps(words: seq<string>, inv: RawMap, sep: string, pd: Padding): (r: seq<Step<seq<string>>>)
    ensures |r| == |words| && forall k :: 0 <= k < |words| ==> r[k] == EncWordStep(words[k], inv, sep, pd)
  {
    seq(|words|, k requires 0 <= k < |words| => EncWordStep(words[k], inv, sep, pd))
  }

  /** The plaintext, upper-cased for a module that is not case-sensitive. */
  function FlatPlain(data: Module, text: string): string {
    if IsCaseSensitive(data) then text else Upper(text)
  }

  /** The encodings of every non-blank word, in order. */
  function EncPerWord(data: Module, text: string): seq<seq<string>> {
    var sets := GetModuleSettings(data);
    Kept(EncWordSteps(Split(FlatPlain(data, text), " "), FlatEncodeMapping(data), FlatSep(sets), EncodePadding(sets)))
  }

  /** `encode_message_with_module(data, plaintext)` of `codec.py`: every
      choice of one encoding per word joined by spaces, each once; None
      where the source raises. */
  function FlatEncode(data: Module, text: string): Option<seq<string>> {
    if FlatWordSep(GetModuleSettings(data)).None? then None
    else Some(Dedupe(Joins(" ", EncPerWord(data, text))))
  }

  /** The encodings hold every sentence of word encodings once, in the
      order of first occurrence; the source fails only on an empty
      `word_separator` list. */
  lemma FlatEncodeSpec(data: Module, text: string, s: string)
    ensures FlatEncode(data, text).None? <==> AsList(GetModuleSettings(data).wordSeparator.GetOr(Str(" "))) == []
    ensures FlatEncode(data, text).Some? ==>
              NoDuplicates(FlatEncode(data, text).value) &&
              (s in FlatEncode(data, text).value <==>
                 exists t :: |t| == |EncPerWord(data, text)| &&
                   (forall i :: 0 <= i < |t| ==> t[i] in EncPerWord(data, text)[i]) && s == Join(" ", t))
  {
    DedupeSpec(Joins(" ", EncPerWord(data, text)));
    JoinsSpec(" ", EncPerWord(data, text), s);
  }

  /** Of two encodings, the earlier one is the one whose first occurrence
      among the sentences comes first. */
  lemma FlatEncodeOrder(data: Module, text: string, i: nat, j: nat)
    requires FlatEncode(data, text).Some? && i < j < |FlatEncode(data, text).value|
    ensures var all, r := Joins(" ", EncPerWord(data, text)), FlatEncode(data, text).value;
            r[i] in all && r[j] in all && FirstIndex(all, r[i]) < FirstIndex(all, r[j])
  {
    DedupeOrder(Joins(" ", EncPerWord(data, text)), i, j);
  }

  /** `encode_message_with_module(data, plaintext)` of `codec.py`. */
  method FlatEncodeMessage(data: Module, text: string) returns (r: Option<seq<string>>)
    ensures r == FlatEncode(data, text)
  {
    var sets := GetModuleSettings(data);
    var inv := EncodeMappingOf(data);
    var plain := if IsCaseSensitive(data) then text else Upper(text);
    var wordSeps := AsList(sets.wordSeparator.GetOr(Str(" ")));
    if wordSeps == [] {
      return None;
    }
    var encPerWord := EncodeWords(Split(plain, " "), inv, FlatSep(sets), EncodePadding(sets));
    var final := JoinAll(" ", encPerWord);
    var uniq := DedupeList(final);
    r := Some(uniq);
  }

  /** The mapping the encoder builds: the module's own or its inverse,
      then folded to upper case. */
  method EncodeMappingOf(data: Module) returns (inv: RawMap)
    ensures inv == FlatEncodeMapping(data)
  {
    var rawMap := GetModuleMapping(data);
    inv := rawMap;
    if !ReverseDirection(GetModuleSettings(data)) {
      var inverse := BuildInverseMapping(rawMap);
      inv := Lift(inverse);
    }
    if !IsCaseSensitive(data) {
      inv := FoldFlat(inv);
    }
  }

  /** The word loop: the encodings of every non-blank word. */
  method EncodeWords(words: seq<string>, inv: RawMap, sep: string, pd: Padding) returns (encPerWord: seq<seq<string>>)
    ensures encPerWord == Kept(EncWordSteps(words, inv, sep, pd))
  {
    ghost var steps := EncWordSteps(words, inv, sep, pd);
    encPerWord := [];
    var i := 0;
    while i < |words|
      invariant 0 <= i <= |words|
      invariant encPerWord == Kept(steps[..i])
    {
      TakeTake(steps, i);
      var w := Strip(words[i]);
      if w != "" {
        var encs := EncodeWord(w, inv, sep, pd);
        encPerWord := encPerWord + [encs];
      }
      i := i + 1;
    }
    TakeAll(steps);
  }

  /** The padding, chunking and product loop of one word. */
  method EncodeWord(w: string, inv: RawMap, sep: string, pd: Padding) returns (encs: seq<string>)
    ensures encs == WordEncodings(w, inv, sep, pd)
  {
    var word := w;
    var tokens;
    if pd.width > 0 {
      var rem := |word| % pd.width;
      if rem != 0 && pd.pad != "" {
        word := word + Repeat(pd.pad, pd.width - rem);
      }
      tokens := Chunks(word, pd.width);
    } else {
      tokens := Chars(word);
    }
    var lists := [];
    var j := 0;
    while j < |tokens|
      invariant 0 <= j <= |tokens|
      invariant |lists| == j && forall k :: 0 <= k < j ==> lists[k] == TokenTargets(tokens[k], inv)
    {
      var tok := tokens[j];
      if tok in inv.table {
        lists := lists + [Targets(inv.table[tok])];
      } else {
        lists := lists + [[tok]];
      }
      j := j + 1;
    }
    assert lists == ChoiceLists(EncTokens(w, pd), inv);
    var tuples := AllTuples(lists);
    encs := [];
    var k := 0;
    while k < |tuples|
      invariant 0 <= k <= |tuples|
      invariant |encs| == k && forall m :: 0 <= m < k ==> encs[m] == PadTo(Join(sep, tuples[m]), pd.width, pd.pad)
    {
      var s := Join(sep, tuples[k]);
      if pd.width > 0 && pd.pad != "" {
        var rem := |s| % pd.width;
        if rem != 0 {
          s := s + Repeat(pd.pad, pd.width - rem);
        }
      }
      encs := encs + [s];
      k := k + 1;
    }
  }

  // ---------------------------------------------------------------------
  //  Tokenisation without decoding
  // ---------------------------------------------------------------------

  /** The tokens of one stripped, non-blank word, cut as the decoder cuts
      them: a padding chunk stands for the output padding, and a word that
      is neither chunked nor separated is one token. */
  function BaseTokens(w: string, sizes: Sizes, cs: Option<string>): seq<string> {
    match SplitTokens(w, sizes.inSize, cs)
    case None => [w]
    case Some(toks) =>
      if sizes.inSize > 0 then
        seq(|toks|, i requires 0 <= i < |toks| => if PadToken(toks[i], sizes.inPad) then sizes.outPad else toks[i])
      else toks
  }

  /** Without an input padding the chunks spell the word; a character
      separator is dropped from the tokens; otherwise the word is one
      token. */
  lemma BaseTokensSpec(w: string, sizes: Sizes, cs: Option<string>)
    ensures sizes.inSize > 0 && sizes.inPad == "" ==>
              Join("", BaseTokens(w, sizes, cs)) == w &&
              forall t :: t in BaseTokens(w, sizes, cs) ==> 0 < |t| <= sizes.inSize
    ensures sizes.inSize == 0 && cs.Some? && cs.value != "" ==>
              Join("", BaseTokens(w, sizes, cs)) == Replace(w, cs.value, "") &&
              forall t :: t in BaseTokens(w, sizes, cs) ==> t != ""
    ensures sizes.inSize == 0 && (cs.None? || cs.value == "") ==> BaseTokens(w, sizes, cs) == [w]
  {
    if sizes.inSize > 0 {
      ChunksSpec(w, sizes.inSize);
      if sizes.inPad == "" {
        assert BaseTokens(w, sizes, cs) == Chunks(w, sizes.inSize);
      }
    } else if cs.Some? && cs.value != "" {
      JoinDropEmpty(Split(w, cs.value));
    }
  }

  /** The tokeniser and the decoder cut a word alike: where the decoder
      expands a padding chunk to the output padding alone, the tokeniser
      writes that padding, and every other token is the decoder's. */
  lemma BaseTokensAgree(w: string, sizes: Sizes, cs: Option<string>, mapping: RawMap, flawed: bool)
    requires SplitTokens(w, sizes.inSize, cs).Some?
    ensures var toks := SplitTokens(w, sizes.inSize, cs).value;
            |BaseTokens(w, sizes, cs)| == |toks| &&
            forall i :: 0 <= i < |toks| ==>
              if sizes.inSize > 0 && PadToken(toks[i], sizes.inPad)
              then TokenAlternatives(toks[i], sizes, mapping, flawed) == [BaseTokens(w, sizes, cs)[i]]
              else BaseTokens(w, sizes, cs)[i] == toks[i]
  {
  }

  function BaseWordStep(raw: string, sizes: Sizes, cs: Option<string>): Step<seq<string>> {
    if Strip(raw) == "" then Skip else Keep(BaseTokens(Strip(raw), sizes, cs))
  }

  function BaseWordSteps(words: seq<string>, sizes: Sizes, cs: Option<string>): (r: seq<Step<seq<string>>>)
    ensures |r| == |words| && forall k :: 0 <= k < |words| ==> r[k] == BaseWordStep(words[k], sizes, cs)
  {
    seq(|words|, k requires 0 <= k < |words| => BaseWordStep(words[k], sizes, cs))
  }

  /** One configuration: the token lists of the non-blank words, or none
      when the empty word separator makes `split` raise. */
  function BaseConfig(text: string, sizes: Sizes, ws: Option<string>, cs: Option<string>): Step<seq<seq<string>>> {
    if ws == Some("") then Skip else Keep(Kept(BaseWordSteps(FlatWords(text, ws), sizes, cs)))
  }

  function BaseConfigFn(text: string, sizes: Sizes): (Option<string>, Option<string>) -> Step<seq<seq<string>>> {
    (ws, cs) => BaseConfig(text, sizes, ws, cs)
  }

  /** `base_tokenize_message_with_module(data, message)` of `codec.py`:
      one configuration per word and character separator, word separators
      outermost. */
  function BaseTokenize(data: Module, message: string): seq<seq<seq<string>>> {
    var sets := GetModuleSettings(data);
    Kept(Product(FlatWordSeps(sets), FlatCharSeps(sets), BaseConfigFn(message, DecodeSizes(sets))))
  }

  /** A configuration is the tokenisation under one pair of separators
      whose word separator is not empty. */
  lemma BaseTokenizeMember(data: Module, message: string, c: seq<seq<string>>)
    ensures var sets := GetModuleSettings(data);
            var wsl := FlatWordSeps(sets);
            var csl := FlatCharSeps(sets);
            c in BaseTokenize(data, message) <==>
              exists i, j :: 0 <= i < |wsl| && 0 <= j < |csl| && wsl[i] != Some("") &&
                c == Kept(BaseWordSteps(FlatWords(message, wsl[i]), DecodeSizes(sets), csl[j]))
  {
    var sets := GetModuleSettings(data);
    var wsl := FlatWordSeps(sets);
    var csl := FlatCharSeps(sets);
    if c in BaseTokenize(data, message) {
      var i, j := BaseTokenizeSound(data, message, c);
    }
    if exists i, j :: 0 <= i < |wsl| && 0 <= j < |csl| && wsl[i] != Some("") &&
         c == Kept(BaseWordSteps(FlatWords(message, wsl[i]), DecodeSizes(sets), csl[j])) {
      var i, j :| 0 <= i < |wsl| && 0 <= j < |csl| && wsl[i] != Some("") &&
        c == Kept(BaseWordSteps(FlatWords(message, wsl[i]), DecodeSizes(sets), csl[j]));
      BaseTokenizeComplete(data, message, i, j);
    }
  }

  lemma BaseTokenizeSound(data: Module, message: string, c: seq<seq<string>>) returns (i: nat, j: nat)
    requires c in BaseTokenize(data, message)
    ensures var sets := GetModuleSettings(data);
            i < |FlatWordSeps(sets)| && j < |FlatCharSeps(sets)| && FlatWordSeps(sets)[i] != Some("") &&
            c == Kept(BaseWordSteps(FlatWords(message, FlatWordSeps(sets)[i]), DecodeSizes(sets), FlatCharSeps(sets)[j]))
  {
    var sets := GetModuleSettings(data);
    i, j := BaseConfigsSound(message, DecodeSizes(sets), FlatWordSeps(sets), FlatCharSeps(sets), c);
  }

  lemma BaseConfigsSound(message: string, sizes: Sizes, wsl: seq<Option<string>>, csl: seq<Option<string>>, c: seq<seq<string>>)
    returns (i: nat, j: nat)
    requires c in Kept(Product(wsl, csl, BaseConfigFn(message, sizes)))
    ensures i < |wsl| && j < |csl| && wsl[i] != Some("") && c == Kept(BaseWordSteps(FlatWords(message, wsl[i]), sizes, csl[j]))
  {
    var f := BaseConfigFn(message, sizes);
    var p := Product(wsl, csl, f);
    KeptMember(p, c);
    var k :| 0 <= k < |p| && p[k] == Keep(c);
    assert Keep(c) in p;
    ProductMember(wsl, csl, f, Keep(c));
    i, j :| 0 <= i < |wsl| && 0 <= j < |csl| && Keep(c) == f(wsl[i], csl[j]);
    assert f(wsl[i], csl[j]) == BaseConfig(message, sizes, wsl[i], csl[j]);
  }

  lemma BaseTokenizeComplete(data: Module, message: string, i: nat, j: nat)
    requires var sets := GetModuleSettings(data);
             i < |FlatWordSeps(sets)| && j < |FlatCharSeps(sets)| && FlatWordSeps(sets)[i] != Some("")
    ensures var sets := GetModuleSettings(data);
            Kept(BaseWordSteps(FlatWords(message, FlatWordSeps(sets)[i]), DecodeSizes(sets), FlatCharSeps(sets)[j]))
              in BaseTokenize(data, message)
  {
    var sets := GetModuleSettings(data);
    BaseConfigsComplete(message, DecodeSizes(sets), FlatWordSeps(sets), FlatCharSeps(sets), i, j);
  }

  lemma BaseConfigsComplete(message: string, sizes: Sizes, wsl: seq<Option<string>>, csl: seq<Option<string>>, i: nat, j: nat)
    requires i < |wsl| && j < |csl| && wsl[i] != Some("")
    ensures Kept(BaseWordSteps(FlatWords(message, wsl[i]), sizes, csl[j])) in Kept(Product(wsl, csl, BaseConfigFn(message, sizes)))
  {
    var f := BaseConfigFn(message, sizes);
    var p := Product(wsl, csl, f);
    var c := Kept(BaseWordSteps(FlatWords(message, wsl[i]), sizes, csl[j]));
    assert f(wsl[i], csl[j]) == Keep(c);
    ProductMember(wsl, csl, f, Keep(c));
    var k :| 0 <= k < |p| && p[k] == Keep(c);
    KeptMember(p, c);
  }

  /** There are at most as many configurations as pairs of separators. */
  lemma BaseTokenizeBound(data: Module, message: string)
    ensures var sets := GetModuleSettings(data);
            |BaseTokenize(data, message)| <= |FlatWordSeps(sets)| * |FlatCharSeps(sets)|
  {
    var sets := GetModuleSettings(data);
    var f := BaseConfigFn(message, DecodeSizes(sets));
    ProductLength(FlatWordSeps(sets), FlatCharSeps(sets), f);
    KeptMember(Product(FlatWordSeps(sets), FlatCharSeps(sets), f), []);
  }

  /** Without an empty word separator every pair of separators gives one
      configuration. */
  lemma BaseTokenizeCount(data: Module, message: string)
    requires forall i :: 0 <= i < |FlatWordSeps(GetModuleSettings(data))| ==> FlatWordSeps(GetModuleSettings(data))[i] != Some("")
    ensures var sets := GetModuleSettings(data);
            |BaseTokenize(data, message)| == |FlatWordSeps(sets)| * |FlatCharSeps(sets)|
  {
    var sets := GetModuleSettings(data);
    var wsl := FlatWordSeps(sets);
    var csl := FlatCharSeps(sets);
    var f := BaseConfigFn(message, DecodeSizes(sets));
    var p := Product(wsl, csl, f);
    ProductLength(wsl, csl, f);
    forall k | 0 <= k < |p|
      ensures p[k].Keep?
    {
      var x := p[k];
      ProductMember(wsl, csl, f, x);
    }
    KeptAll(p);
  }

  /** `base_tokenize_message_with_module(data, message)` of `codec.py`. */
  method BaseTokenizeMessage(data: Module, message: string) returns (configs: seq<seq<seq<string>>>)
    ensures configs == BaseTokenize(data, message)
  {
    var sets := GetModuleSettings(data);
    var sizes := DecodeSizes(sets);
    var wordSeps := FlatWordSeps(sets);
    var charSeps := FlatCharSeps(sets);
    ghost var f := BaseConfigFn(message, sizes);
    configs := [];
    var a := 0;
    while a < |wordSeps|
      invariant 0 <= a <= |wordSeps|
      invariant configs == Kept(Product(wordSeps[..a], charSeps, f))
    {
      var row := TokenizeRow(message, sizes, wordSeps[a], charSeps);
      ProductStep(wordSeps, charSeps, f, a);
      KeptAppend(Product(wordSeps[..a], charSeps, f), Row(wordSeps[a], charSeps, f));
      configs := configs + row;
      a := a + 1;
    }
    TakeAll(wordSeps);
  }

  /** The inner loop: every character separator for one word separator. */
  method TokenizeRow(text: string, sizes: Sizes, ws: Option<string>, charSeps: seq<Option<string>>)
    returns (row: seq<seq<seq<string>>>)
    ensures row == Kept(Row(ws, charSeps, BaseConfigFn(text, sizes)))
  {
    ghost var f := BaseConfigFn(text, sizes);
    row := [];
    var b := 0;
    while b < |charSeps|
      invariant 0 <= b <= |charSeps|
      invariant row == Kept(Row(ws, charSeps[..b], f))
    {
      KeptRowNext(ws, charSeps, f, b);
      if ws != Some("") {
        var cfg := TokenizeConfig(text, sizes, ws, charSeps[b]);
        row := row + [cfg];
      }
      b := b + 1;
    }
    TakeAll(charSeps);
  }

  /** The word loop of one configuration. */
  method TokenizeConfig(text: string, sizes: Sizes, ws: Option<string>, cs: Option<string>) returns (cfg: seq<seq<string>>)
    requires ws != Some("")
    ensures BaseConfig(text, sizes, ws, cs) == Keep(cfg)
  {
    var words := FlatWords(text, ws);
    ghost var steps := BaseWordSteps(words, sizes, cs);
    cfg := [];
    var i := 0;
    while i < |words|
      invariant 0 <= i <= |words|
      invariant cfg == Kept(steps[..i])
    {
      TakeTake(steps, i);
      var w := Strip(words[i]);
      if w != "" {
        var toks := BaseTokens(w, sizes, cs);
        cfg := cfg + [toks];
      }
      i := i + 1;
    }
    TakeAll(steps);
  }

  // ---------------------------------------------------------------------
  //  Multi-step wrappers
  // ---------------------------------------------------------------------

  /** `sum((decode_message_with_module(step, t, flawed) for t in texts), [])` */
  function DecodeAllTexts(step: Module, texts: seq<string>, flawed: bool): (r: seq<string>)
    ensures texts == [] ==> r == []
    decreases |texts|
  {
    if texts == [] then []
    else DecodeAllTexts(step, texts[..|texts| - 1], flawed) + FlatDecode(step, texts[|texts| - 1], flawed)
  }

  /** The steps applied in turn, each to every text the previous one gave. */
  function DecodeSteps(steps: seq<Module>, texts: seq<string>, flawed: bool): seq<string>
    decreases |steps|
  {
    if steps == [] then texts
    else DecodeAllTexts(steps[|steps| - 1], DecodeSteps(steps[..|steps| - 1], texts, flawed), flawed)
  }

  /** `multi_step_decode(data, text, flawed)` of `codec.py`: the chain in
      its declared order. */
  function MultiStepDecode(data: Module, text: string, flawed: bool): seq<string> {
    if !data.hasChain then FlatDecode(data, text, flawed) else DecodeSteps(data.chain, [text], flawed)
  }

  lemma DecodeStepsNext(steps: seq<Module>, texts: seq<string>, flawed: bool, i: nat)
    requires i < |steps|
    ensures DecodeSteps(steps[..i + 1], texts, flawed) == DecodeAllTexts(steps[i], DecodeSteps(steps[..i], texts, flawed), flawed)
  {
    TakeTake(steps, i);
  }

  /** Once no text is left, later steps leave none: stopping the loop early
      changes nothing. */
  lemma {:induction false} DecodeStepsEmpty(steps: seq<Module>, texts: seq<string>, flawed: bool, n: nat)
    requires n <= |steps| && DecodeSteps(steps[..n], texts, flawed) == []
    ensures DecodeSteps(steps, texts, flawed) == []
    decreases |steps| - n
  {
    if n < |steps| {
      DecodeStepsNext(steps, texts, flawed, n);
      DecodeStepsEmpty(steps, texts, flawed, n + 1);
    } else {
      TakeAll(steps);
    }
  }

  /** A two-step chain decodes with its first module first. */
  lemma MultiStepDecodeOrder(data: Module, text: string, flawed: bool)
    requires data.hasChain && |data.chain| == 2
    ensures MultiStepDecode(data, text, flawed) ==
            DecodeAllTexts(data.chain[1], FlatDecode(data.chain[0], text, flawed), flawed)
  {
    var c := data.chain;
    var d := FlatDecode(c[0], text, flawed);
    assert [text][..0] == [];
    assert DecodeAllTexts(c[0], [text], flawed) == [] + d;
    assert c[..1][..0] == [];
    assert DecodeSteps(c[..1], [text], flawed) == d;
    assert c[..2][..1] == c[..1];
    assert c[..2] == c;
  }

  /** `multi_step_decode(data, text, flawed)` of `codec.py`. */
  method MultiStepDecodeMessage(data: Module, text: string, flawed: bool) returns (r: seq<string>)
    ensures r == MultiStepDecode(data, text, flawed)
  {
    if !data.hasChain {
      r := FlatDecodeMessage(data, text, flawed);
    } else {
      r := DecodeChain(data.chain, text, flawed);
    }
  }

  /** The loop over the steps of a chain, stopping once nothing is left. */
  method DecodeChain(steps: seq<Module>, text: string, flawed: bool) returns (r: seq<string>)
    ensures r == DecodeSteps(steps, [text], flawed)
  {
    r := [text];
    var i := 0;
    while i < |steps|
      invariant 0 <= i <= |steps|
      invariant r == DecodeSteps(steps[..i], [text], flawed)
    {
      r := DecodeStep(steps, [text], flawed, i, r);
      i := i + 1;
      if |r| == 0 {
        DecodeStepsEmpty(steps, [text], flawed, i);
        return;
      }
    }
    TakeAll(steps);
  }

  /** One pass of the chain loop. */
  method DecodeStep(steps: seq<Module>, texts: seq<string>, flawed: bool, i: nat, prev: seq<string>) returns (r: seq<string>)
    requires i < |steps| && prev == DecodeSteps(steps[..i], texts, flawed)
    ensures r == DecodeSteps(steps[..i + 1], texts, flawed)
  {
    DecodeStepsNext(steps, texts, flawed, i);
    r := DecodeEach(steps[i], prev, flawed);
  }

  /** The decodings of every text by one step, concatenated. */
  method DecodeEach(step: Module, texts: seq<string>, flawed: bool) returns (r: seq<string>)
    ensures r == DecodeAllTexts(step, texts, flawed)
  {
    r := [];
    var j := 0;
    while j < |texts|
      invariant 0 <= j <= |texts|
      invariant r == DecodeAllTexts(step, texts[..j], flawed)
    {
      var d := FlatDecodeMessage(step, texts[j], flawed);
      DecodeAllTextsStep(step, texts, flawed, j, d);
      r := r + d;
      j := j + 1;
    }
    TakeAll(texts);
  }

  lemma DecodeAllTextsStep(step: Module, texts: seq<string>, flawed: bool, j: nat, d: seq<string>)
    requires j < |texts| && d == FlatDecode(step, texts[j], flawed)
    ensures DecodeAllTexts(step, texts[..j + 1], flawed) == DecodeAllTexts(step, texts[..j], flawed) + d
  {
    TakeTake(texts, j);
  }

  /** `sum((encode_message_with_module(step, t) for t in texts), [])`; None
      as soon as one encoding raises. */
  function EncodeAllTexts(step: Module, texts: seq<string>): (r: Option<seq<string>>)
    ensures texts == [] ==> r == Some([])
    decreases |texts|
  {
    if texts == [] then Some([])
    else
      match EncodeAllTexts(step, texts[..|texts| - 1])
      case None => None
      case Some(prev) =>
        match FlatEncode(step, texts[|texts| - 1])
        case None => None
        case Some(last) => Some(prev + last)
  }

  /** The steps applied in turn; None once a step raises. */
  function EncodeSteps(steps: seq<Module>, texts: seq<string>): Option<seq<string>>
    decreases |steps|
  {
    if steps == [] then Some(texts)
    else
      match EncodeSteps(steps[..|steps| - 1], texts)
      case None => None
      case Some(mid) => EncodeAllTexts(steps[|steps| - 1], mid)
  }

  /** `reversed(s)` */
  function Reversed<T>(s: seq<T>): (r: seq<T>)
    ensures |r| == |s| && forall i :: 0 <= i < |s| ==> r[i] == s[|s| - 1 - i]
  {
    seq(|s|, i requires 0 <= i < |s| => s[|s| - 1 - i])
  }

  /** `multi_step_encode(data, text)` of `codec.py`: the chain from its
      last module to its first, so that decoding in the declared order
      undoes it. */
  function MultiStepEncode(data: Module, text: string): Option<seq<string>> {
    if !data.hasChain then FlatEncode(data, text) else EncodeSteps(Reversed(data.chain), [text])
  }

  lemma EncodeStepsNext(steps: seq<Module>, texts: seq<string>, i: nat)
    requires i < |steps|
    ensures EncodeSteps(steps[..i + 1], texts) ==
            match EncodeSteps(steps[..i], texts)
            case None => None
            case Some(mid) => EncodeAllTexts(steps[i], mid)
  {
    TakeTake(steps, i);
  }

  /** Once no text is left, later steps leave none and raise nothing. */
  lemma {:induction false} EncodeStepsEmpty(steps: seq<Module>, texts: seq<string>, n: nat)
    requires n <= |steps| && EncodeSteps(steps[..n], texts) == Some([])
    ensures EncodeSteps(steps, texts) == Some([])
    decreases |steps| - n
  {
    if n < |steps| {
      EncodeStepsNext(steps, texts, n);
      EncodeStepsEmpty(steps, texts, n + 1);
    } else {
      TakeAll(steps);
    }
  }

  /** Once a step raises, the whole chain raises. */
  lemma {:induction false} EncodeStepsNone(steps: seq<Module>, texts: seq<string>, n: nat)
    requires n <= |steps| && EncodeSteps(steps[..n], texts).None?
    ensures EncodeSteps(steps, texts).None?
    decreases |steps| - n
  {
    if n < |steps| {
      EncodeStepsNext(steps, texts, n);
      EncodeStepsNone(steps, texts, n + 1);
    } else {
      TakeAll(steps);
    }
  }

  /** A two-step chain encodes with its second module first. */
  lemma MultiStepEncodeOrder(data: Module, text: string)
    requires data.hasChain && |data.chain| == 2
    ensures MultiStepEncode(data, text) ==
            match FlatEncode(data.chain[1], text)
            case None => None
            case Some(mid) => EncodeAllTexts(data.chain[0], mid)
  {
    var c := Reversed(data.chain);
    assert c == [data.chain[1], data.chain[0]];
    assert c[..1][..0] == [];
    assert [text][..0] == [];
    assert EncodeSteps(c[..1], [text]) == EncodeAllTexts(c[0], [text]);
    assert c[..2 - 1] == c[..1];
    match FlatEncode(c[0], text)
    case None =>
    case Some(mid) =>
      assert [] + mid == mid;
  }

  /** `multi_step_encode(data, text)` of `codec.py`. */
  method MultiStepEncodeMessage(data: Module, text: string) returns (r: Option<seq<string>>)
    ensures r == MultiStepEncode(data, text)
  {
    if !data.hasChain {
      r := FlatEncodeMessage(data, text);
    } else {
      r := EncodeChain(data.chain, text);
    }
  }

  /** The loop over the steps of a chain from the last, stopping once
      nothing is left or a step raises. */
  method EncodeChain(steps: seq<Module>, text: string) returns (r: Option<seq<string>>)
    ensures r == EncodeSteps(Reversed(steps), [text])
  {
    ghost var order := Reversed(steps);
    var interm := [text];
    var i := 0;
    while i < |steps|
      invariant 0 <= i <= |steps|
      invariant EncodeSteps(order[..i], [text]) == Some(interm)
    {
      EncodeStepsNext(order, [text], i);
      var next := EncodeEach(steps[|steps| - 1 - i], interm);
      i := i + 1;
      if next.None? {
        EncodeStepsNone(order, [text], i);
        return None;
      }
      interm := next.value;
      if |interm| == 0 {
        EncodeStepsEmpty(order, [text], i);
        return Some([]);
      }
    }
    TakeAll(order);
    r := Some(interm);
  }

  /** The encodings of every text by one step, concatenated; None as soon
      as one raises. */
  method EncodeEach(step: Module, texts: seq<string>) returns (r: Option<seq<string>>)
    ensures r == EncodeAllTexts(step, texts)
  {
    var acc := [];
    var j := 0;
    while j < |texts|
      invariant 0 <= j <= |texts|
      invariant EncodeAllTexts(step, texts[..j]) == Some(acc)
    {
      TakeTake(texts, j);
      var e := FlatEncodeMessage(step, texts[j]);
      if e.None? {
        EncodeAllTextsNone(step, texts, j + 1);
        return None;
      }
      acc := acc + e.value;
      j := j + 1;
    }
    TakeAll(texts);
    r := Some(acc);
  }

  lemma {:induction false} EncodeAllTextsNone(step: Module, texts: seq<string>, n: nat)
    requires n <= |texts| && EncodeAllTexts(step, texts[..n]).None?
    ensures EncodeAllTexts(step, texts).None?
    decreases |texts| - n
  {
    if n < |texts| {
      TakeTake(texts, n);
      EncodeAllTextsNone(step, texts, n + 1);
    } else {
      TakeAll(texts);
    }
  }
}
