/** The package engine's encoder: the module's mapping turned round
    (plaintext character to cipher tokens), cleaned of empty lists and
    folded to upper case, one list of choices per plaintext character, and
    every combination of choices joined with the character separator. A
    chained module encodes step by step through its sub-modules. */
module Encoder {
  import opened Seqs
  import opened OrderedDict
  import opened PyStr
  import opened Utils
  import opened ModuleLoader
  import opened Maps
  import opened Tokenizer
  import opened Decoder

  // ---------------------------------------------------------------------
  //  The mapping
  // ---------------------------------------------------------------------

  /** Plaintext to cipher tokens: the normal form of a reversed module's
      mapping, the inverse of any other. */
  function Inverse(data: Module): Mapping {
    var raw := GetModuleMapping(data);
    if ReverseDirection(GetModuleSettings(data)) then Normalized(raw) else Inverted(raw)
  }

  /** The mapping the encoder looks characters up in: the inverse without
      empty lists, its keys upper-cased when the module is not
      case-sensitive. */
  function EncoderMapping(data: Module): Mapping {
    var clean := Cleaned(Inverse(data));
    if IsCaseSensitive(data) then clean else UpperKeys(clean)
  }

  /** No character has an empty list of tokens. */
  lemma EncoderMappingNonEmpty(data: Module)
    ensures forall k :: k in EncoderMapping(data).table ==> EncoderMapping(data).table[k] != []
  {
    var clean := Cleaned(Inverse(data));
    if !IsCaseSensitive(data) {
      forall k | k in UpperKeys(clean).table ensures UpperKeys(clean).table[k] != [] {
        UpperKeysMember(clean, k);
      }
    }
  }

  /** The keys of the inverse of a module that is not case-sensitive are
      upper-case already. */
  lemma InverseUpper(data: Module)
    requires !IsCaseSensitive(data)
    ensures forall k :: k in Inverse(data).table ==> Upper(k) == k
  {
    var raw := GetModuleMapping(data);
    if !ReverseDirection(GetModuleSettings(data)) {
      forall k | k in Inverse(data).table ensures Upper(k) == k {
        InvertedMember(raw, k, "");
        var k0 :| k0 in raw.table && k in Targets(raw.table[k0]);
      }
    }
  }

  /** The encoder's mapping is the decoder's turned round: token `tok` is a
      choice for plaintext `k` exactly when the decoder reads `tok` as `k`.
      So every token a character is encoded with decodes back to it. */
  lemma EncodingRelation(data: Module, k: string, tok: string)
    ensures tok in Lookup(EncoderMapping(data), k) <==> k in Lookup(DecoderMapping(data), tok)
  {
    var raw := GetModuleMapping(data);
    var inv := Inverse(data);
    var clean := Cleaned(inv);
    if !IsCaseSensitive(data) {
      InverseUpper(data);
      UpperKeysIdentity(clean);
    }
    assert Lookup(EncoderMapping(data), k) == Lookup(clean, k);
    InvertedMember(raw, tok, k);
    InvertedMember(raw, k, tok);
    if ReverseDirection(GetModuleSettings(data)) {
      NormalizedLift(Inverted(raw));
      assert DecoderMapping(data) == Inverted(raw);
      assert tok in Lookup(clean, k) <==> tok in Lookup(inv, k);
    } else {
      assert DecoderMapping(data) == Normalized(raw);
      assert tok in Lookup(clean, k) <==> tok in Lookup(inv, k);
    }
  }

  /** The clean-up loop: keeps every entry with at least one token. All
      entries of the model are strings, so the per-entry `isinstance`
      filter keeps every one. */
  method CleanMapping(inv: Mapping) returns (clean: Mapping)
    ensures clean == Cleaned(inv)
  {
    clean := Empty();
    var i := 0;
    while i < |inv.order|
      invariant 0 <= i <= |inv.order|
      invariant clean.order == Filter(inv.order[..i], HasAlternatives(inv))
      invariant forall k :: k in clean.table <==> k in inv.order[..i] && HasAlternatives(inv)(k)
      invariant forall k :: k in clean.table ==> clean.table[k] == inv.table[k]
    {
      var key := inv.order[i];
      var vals := inv.table[key];
      TakeSnoc(inv.order, i + 1);
      TakeTake(inv.order, i);
      DistinctBefore(inv.order, i);
      if vals != [] {
        clean := Put(clean, key, vals);
      }
      i := i + 1;
    }
    TakeAll(inv.order);
    assert clean.table == Cleaned(inv).table;
  }

  /** The upper-casing loop: `upper_inv[k.upper()] = vlist.copy()`. */
  method UpperMapping(d: Mapping) returns (up: Mapping)
    ensures up == UpperKeys(d)
  {
    up := Empty();
    var i := 0;
    while i < |d.order|
      invariant 0 <= i <= |d.order|
      invariant up == UpperKeysUpTo(d, i)
    {
      up := UpperNext(d, i, up);
      i := i + 1;
    }
  }

  method UpperNext(d: Mapping, i: nat, up: Mapping) returns (up': Mapping)
    requires i < |d.order| && up == UpperKeysUpTo(d, i)
    ensures up' == UpperKeysUpTo(d, i + 1)
  {
    var k := d.order[i];
    up' := Put(up, Upper(k), d.table[k]);
  }

  // ---------------------------------------------------------------------
  //  Separators
  // ---------------------------------------------------------------------

  /** The character separator: the first entry of `character_separator`,
      "" for `null`; None when the setting is an empty list, where the
      source indexes past the end of the list. */
  function CharSep(sets: Settings): (r: Option<string>)
    ensures r.None? <==> AsList(sets.characterSeparator.GetOr(Null)) == []
    ensures r.Some? ==> r.value == AsList(sets.characterSeparator.GetOr(Null))[0].GetOr("")
  {
    var seps := AsList(sets.characterSeparator.GetOr(Null));
    if seps == [] then None else Some(seps[0].GetOr(""))
  }

  /** The word separator: the first entry of `word_separator` when it is a
      non-empty string, otherwise a single space. */
  function WordSep(sets: Settings): (r: string)
    ensures r != ""
    ensures var seps := AsList(sets.wordSeparator.GetOr(Str(" ")));
            r == if seps != [] && seps[0].Some? && seps[0].value != "" then seps[0].value else " "
  {
    var seps := AsList(sets.wordSeparator.GetOr(Str(" ")));
    if seps != [] && seps[0].Some? && seps[0].value != "" then seps[0].value else " "
  }

  // ---------------------------------------------------------------------
  //  Choices per character
  // ---------------------------------------------------------------------

  /** The other-case key tried under `ignore_case`: lower case for a
      case-sensitive module, upper case otherwise. */
  function AltKey(cased: bool, ch: char): string {
    if cased then Lower([ch]) else Upper([ch])
  }

  /** The tokens of one plaintext character: the word separator for white
      space, its mapping list, the list of its other-case form under
      `ignore_case`; a character without any ends the encoding. */
  function CharChoice(inv: Mapping, cased: bool, ignoreCase: bool, ws: string, ch: char): Step<seq<string>> {
    if IsSpace(ch) then Keep([ws])
    else if [ch] in inv.table then Keep(inv.table[[ch]])
    else if ignoreCase && AltKey(cased, ch) in inv.table then Keep(inv.table[AltKey(cased, ch)])
    else Fail
  }

  function CharSteps(inv: Mapping, cased: bool, ignoreCase: bool, ws: string, text: string): (r: seq<Step<seq<string>>>)
    ensures |r| == |text| && forall i :: 0 <= i < |text| ==> r[i] == CharChoice(inv, cased, ignoreCase, ws, text[i])
  {
    seq(|text|, i requires 0 <= i < |text| => CharChoice(inv, cased, ignoreCase, ws, text[i]))
  }

  /** The choice loop of `encode_message_with_module`. */
  method BuildChoices(inv: Mapping, cased: bool, ignoreCase: bool, ws: string, text: string)
    returns (choices: Option<seq<seq<string>>>)
    ensures choices == Collect(CharSteps(inv, cased, ignoreCase, ws, text))
  {
    ghost var steps := CharSteps(inv, cased, ignoreCase, ws, text);
    var lists := [];
    var i := 0;
    while i < |text|
      invariant 0 <= i <= |text|
      invariant Collect(steps[..i]) == Some(lists)
    {
      CollectStep(steps, i);
      var ch := text[i];
      if IsSpace(ch) {
        lists := lists + [[ws]];
      } else if [ch] in inv.table {
        lists := lists + [inv.table[[ch]]];
      } else if ignoreCase && AltKey(cased, ch) in inv.table {
        lists := lists + [inv.table[AltKey(cased, ch)]];
      } else {
        CollectFailPersists(steps, i + 1);
        return None;
      }
      i := i + 1;
    }
    TakeAll(steps);
    choices := Some(lists);
  }

  // ---------------------------------------------------------------------
  //  Joining one combination
  // ---------------------------------------------------------------------

  /** One combination of tokens as a cipher string: consecutive tokens are
      separated by the character separator, except where either of them is
      the word separator. */
  function JoinTokens(t: seq<string>, ws: string, cs: string): string
    decreases |t|
  {
    if t == [] then ""
    else if |t| == 1 then t[0]
    else
      var n := |t|;
      var prev := JoinTokens(t[..n - 1], ws, cs);
      if t[n - 1] == ws || t[n - 2] == ws then prev + t[n - 1] else prev + cs + t[n - 1]
  }

  /** Without word separators among the tokens, a combination is the tokens
      joined by the character separator; with a blank character separator
      it is their concatenation, word separators or not. */
  lemma {:induction false} JoinTokensSpec(t: seq<string>, ws: string, cs: string)
    ensures (forall i :: 0 <= i < |t| ==> t[i] != ws) ==> JoinTokens(t, ws, cs) == Join(cs, t)
    ensures cs == "" ==> JoinTokens(t, ws, cs) == Join("", t)
    decreases |t|
  {
    if |t| > 1 {
      var n := |t|;
      var init := t[..n - 1];
      JoinTokensSpec(init, ws, cs);
      assert t == init + [t[n - 1]];
      JoinSnoc(cs, init, t[n - 1]);
      if cs == "" {
        assert Join(cs, t) == Join(cs, init) + t[n - 1];
      }
      if forall i :: 0 <= i < |t| ==> t[i] != ws {
        assert forall i :: 0 <= i < |init| ==> init[i] == t[i];
        assert t[n - 1] != ws && t[n - 2] != ws;
      }
    }
  }

  /** The joining loop for one tuple of the product. */
  method JoinTuple(t: seq<string>, ws: string, cs: string) returns (s: string)
    ensures s == JoinTokens(t, ws, cs)
  {
    s := "";
    var i := 0;
    while i < |t|
      invariant 0 <= i <= |t|
      invariant s == JoinTokens(t[..i], ws, cs)
    {
      TakeTake(t, i);
      if i > 0 {
        assert t[..i + 1][i - 1] == t[i - 1];
        if t[i] == ws || t[i - 1] == ws {
          s := s + t[i];
        } else {
          s := s + cs + t[i];
        }
      } else {
        s := s + t[i];
      }
      i := i + 1;
    }
    TakeAll(t);
  }

  /** Every combination of one token per list, joined, the last list
      varying fastest. */
  function Encodings(lists: seq<seq<string>>, ws: string, cs: string): (r: seq<string>) {
    var tuples := AllTuples(lists);
    seq(|tuples|, i requires 0 <= i < |tuples| => JoinTokens(tuples[i], ws, cs))
  }

  /** There is one encoding per combination, and the encodings are exactly
      the joined combinations. */
  lemma EncodingsSpec(lists: seq<seq<string>>, ws: string, cs: string, s: string)
    ensures |Encodings(lists, ws, cs)| == ProductOfLengths(lists)
    ensures s in Encodings(lists, ws, cs) <==>
            exists t :: |t| == |lists| && (forall i :: 0 <= i < |t| ==> t[i] in lists[i]) && s == JoinTokens(t, ws, cs)
  {
    AllTuplesLength(lists);
    if s in Encodings(lists, ws, cs) {
      var t := EncodingSound(lists, ws, cs, s);
    }
    if exists t :: |t| == |lists| && (forall i :: 0 <= i < |t| ==> t[i] in lists[i]) && s == JoinTokens(t, ws, cs) {
      var t :| |t| == |lists| && (forall i :: 0 <= i < |t| ==> t[i] in lists[i]) && s == JoinTokens(t, ws, cs);
      EncodingComplete(lists, ws, cs, t);
    }
  }

  lemma EncodingSound(lists: seq<seq<string>>, ws: string, cs: string, s: string) returns (t: seq<string>)
    requires s in Encodings(lists, ws, cs)
    ensures |t| == |lists| && (forall i :: 0 <= i < |t| ==> t[i] in lists[i]) && s == JoinTokens(t, ws, cs)
  {
    var tuples := AllTuples(lists);
    var i :| 0 <= i < |tuples| && Encodings(lists, ws, cs)[i] == s;
    t := tuples[i];
    AllTuplesMember(lists, t);
  }

  lemma EncodingComplete(lists: seq<seq<string>>, ws: string, cs: string, t: seq<string>)
    requires |t| == |lists| && forall i :: 0 <= i < |t| ==> t[i] in lists[i]
    ensures JoinTokens(t, ws, cs) in Encodings(lists, ws, cs)
  {
    var tuples := AllTuples(lists);
    AllTuplesMember(lists, t);
    var i :| 0 <= i < |tuples| && tuples[i] == t;
    assert Encodings(lists, ws, cs)[i] == JoinTokens(t, ws, cs);
  }

  /** The product loop: one joined string per tuple. */
  method EncodeTuples(tuples: seq<seq<string>>, ws: string, cs: string) returns (results: seq<string>)
    ensures |results| == |tuples| && forall i :: 0 <= i < |tuples| ==> results[i] == JoinTokens(tuples[i], ws, cs)
  {
    results := [];
    var i := 0;
    while i < |tuples|
      invariant 0 <= i <= |tuples|
      invariant |results| == i && forall j :: 0 <= j < i ==> results[j] == JoinTokens(tuples[j], ws, cs)
    {
      var s := JoinTuple(tuples[i], ws, cs);
      results := results + [s];
      i := i + 1;
    }
  }

  // ---------------------------------------------------------------------
  //  Encoding
  // ---------------------------------------------------------------------

  /** The text the choices are built from: upper-cased for a module that is
      not case-sensitive. */
  function PlainText(data: Module, text: string): string {
    if IsCaseSensitive(data) then text else Upper(text)
  }

  /** The encodings of `text` under `inv`: `[]` when some character cannot
      be encoded, otherwise every joined combination of the characters'
      tokens. */
  function EncodeText(inv: Mapping, cased: bool, ignoreCase: bool, ws: string, cs: string, text: string): seq<string> {
    match Collect(CharSteps(inv, cased, ignoreCase, ws, text))
    case None => []
    case Some(lists) => Encodings(lists, ws, cs)
  }

  /** `encode_message_with_module` for a module without a chain: None where
      the source raises, `[]` when some character cannot be encoded. */
  function EncodePlain(data: Module, text: string, ignoreCase: bool): Option<seq<string>> {
    var sets := GetModuleSettings(data);
    match CharSep(sets)
    case None => None
    case Some(cs) =>
      Some(EncodeText(EncoderMapping(data), IsCaseSensitive(data), ignoreCase, WordSep(sets), cs, PlainText(data, text)))
  }

  /** `encode_message_with_module(data, text, ignore_case)`. A chained
      module feeds every result of one step to the next step, in order. */
  function Encode(data: Module, text: string, ignoreCase: bool): Option<seq<string>>
    decreases data, 2
  {
    if data.hasChain then ChainUpTo(data, [text], ignoreCase, |data.chain|)
    else EncodePlain(data, text, ignoreCase)
  }

  /** The results after the first `n` steps of the chain. */
  function ChainUpTo(data: Module, texts: seq<string>, ignoreCase: bool, n: nat): Option<seq<string>>
    requires n <= |data.chain|
    decreases data, 1, n
  {
    if n == 0 then Some(texts)
    else
      match ChainUpTo(data, texts, ignoreCase, n - 1)
      case None => None
      case Some(results) => EncodeAll(data.chain[n - 1], results, ignoreCase)
  }

  /** The encodings of every text by `step`, one after another. */
  function EncodeAll(step: Module, texts: seq<string>, ignoreCase: bool): Option<seq<string>>
    decreases step, 3, |texts|
  {
    if texts == [] then Some([])
    else
      match EncodeAll(step, texts[..|texts| - 1], ignoreCase)
      case None => None
      case Some(acc) =>
        match Encode(step, texts[|texts| - 1], ignoreCase)
        case None => None
        case Some(r) => Some(acc + r)
  }

  lemma {:induction false} EncodeAllNone(step: Module, texts: seq<string>, ignoreCase: bool, j: nat)
    requires j <= |texts| && EncodeAll(step, texts[..j], ignoreCase).None?
    ensures EncodeAll(step, texts, ignoreCase).None?
    decreases |texts| - j
  {
    if j < |texts| {
      TakeTake(texts, j);
      EncodeAllNone(step, texts, ignoreCase, j + 1);
    } else {
      TakeAll(texts);
    }
  }

  lemma {:induction false} ChainNone(data: Module, texts: seq<string>, ignoreCase: bool, n: nat)
    requires n <= |data.chain| && ChainUpTo(data, texts, ignoreCase, n).None?
    ensures ChainUpTo(data, texts, ignoreCase, |data.chain|).None?
    decreases |data.chain| - n
  {
    if n < |data.chain| {
      ChainNone(data, texts, ignoreCase, n + 1);
    }
  }

  /** Encoding a one-text list is encoding that text. */
  lemma EncodeAllOne(step: Module, text: string, ignoreCase: bool)
    ensures EncodeAll(step, [text], ignoreCase) == Encode(step, text, ignoreCase)
  {
    assert [text][..0] == [];
    assert EncodeAll(step, [], ignoreCase) == Some([]);
    match Encode(step, text, ignoreCase)
    case None =>
    case Some(r) => assert [] + r == r;
  }

  /** A chain of a single module encodes as that module does, and an empty
      chain leaves the text as it is. */
  lemma ChainSingle(data: Module, text: string, ignoreCase: bool)
    requires data.hasChain
    ensures data.chain == [] ==> Encode(data, text, ignoreCase) == Some([text])
    ensures |data.chain| == 1 ==> Encode(data, text, ignoreCase) == Encode(data.chain[0], text, ignoreCase)
  {
    if |data.chain| == 1 {
      EncodeAllOne(data.chain[0], text, ignoreCase);
      assert ChainUpTo(data, [text], ignoreCase, 0) == Some([text]);
      assert Encode(data, text, ignoreCase) == ChainUpTo(data, [text], ignoreCase, 1);
    }
  }

  /** The steps of a chain apply in declared order: the first step encodes
      the text and the second step encodes each of its results. (The flat
      engine's `multi_step_encode` applies them the other way round.) */
  lemma ChainOrder(data: Module, text: string, ignoreCase: bool)
    requires data.hasChain && |data.chain| == 2
    ensures Encode(data, text, ignoreCase) ==
            match Encode(data.chain[0], text, ignoreCase)
            case None => None
            case Some(mid) => EncodeAll(data.chain[1], mid, ignoreCase)
  {
    EncodeAllOne(data.chain[0], text, ignoreCase);
    assert ChainUpTo(data, [text], ignoreCase, 1) == Encode(data.chain[0], text, ignoreCase);
  }

  /** A text encodes to nothing exactly when some character has no tokens. */
  lemma EncodeTextEmpty(inv: Mapping, cased: bool, ignoreCase: bool, ws: string, cs: string, text: string)
    requires forall k :: k in inv.table ==> inv.table[k] != []
    ensures var steps := CharSteps(inv, cased, ignoreCase, ws, text);
            EncodeText(inv, cased, ignoreCase, ws, cs, text) == [] <==> exists i :: 0 <= i < |steps| && steps[i].Fail?
  {
    var steps := CharSteps(inv, cased, ignoreCase, ws, text);
    CollectSpec(steps);
    if forall i :: 0 <= i < |steps| ==> !steps[i].Fail? {
      var lists := CharLists(inv, cased, ignoreCase, ws, text);
      ProductOfLengthsPositive(lists);
      EncodingsSpec(lists, ws, cs, "");
    }
  }

  /** When every character has tokens, the lists of tokens are collected in
      order, none of them empty. */
  lemma CharLists(inv: Mapping, cased: bool, ignoreCase: bool, ws: string, text: string) returns (lists: seq<seq<string>>)
    requires forall k :: k in inv.table ==> inv.table[k] != []
    requires var steps := CharSteps(inv, cased, ignoreCase, ws, text);
             forall i :: 0 <= i < |steps| ==> !steps[i].Fail?
    ensures Collect(CharSteps(inv, cased, ignoreCase, ws, text)) == Some(lists)
    ensures |lists| == |text|
    ensures forall i :: 0 <= i < |text| ==> lists[i] != [] && Keep(lists[i]) == CharChoice(inv, cased, ignoreCase, ws, text[i])
  {
    var steps := CharSteps(inv, cased, ignoreCase, ws, text);
    CollectSpec(steps);
    assert forall i :: 0 <= i < |steps| ==> steps[i].Keep?;
    KeptAll(steps);
    lists := Kept(steps);
  }

  /** When every character has tokens, a text encodes to one string per
      combination of the characters' tokens. */
  lemma EncodeTextCount(inv: Mapping, cased: bool, ignoreCase: bool, ws: string, cs: string, text: string)
    requires forall k :: k in inv.table ==> inv.table[k] != []
    requires var steps := CharSteps(inv, cased, ignoreCase, ws, text);
             forall i :: 0 <= i < |steps| ==> !steps[i].Fail?
    ensures exists lists :: |lists| == |text| &&
              (forall i :: 0 <= i < |text| ==> Keep(lists[i]) == CharChoice(inv, cased, ignoreCase, ws, text[i])) &&
              EncodeText(inv, cased, ignoreCase, ws, cs, text) == Encodings(lists, ws, cs) &&
              |EncodeText(inv, cased, ignoreCase, ws, cs, text)| == ProductOfLengths(lists) > 0
  {
    var lists := CharLists(inv, cased, ignoreCase, ws, text);
    ProductOfLengthsPositive(lists);
    EncodingsSpec(lists, ws, cs, "");
  }

  /** Looking up the other case of an upper-case character finds the
      character itself. */
  lemma IgnoreCaseUpper(inv: Mapping, ws: string, cs: string, text: string)
    ensures EncodeText(inv, false, true, ws, cs, Upper(text)) == EncodeText(inv, false, false, ws, cs, Upper(text))
  {
    var plain := Upper(text);
    assert forall i :: 0 <= i < |plain| ==> AltKey(false, plain[i]) == [plain[i]];
    assert CharSteps(inv, false, true, ws, plain) == CharSteps(inv, false, false, ws, plain);
  }

  /** For a module that is not case-sensitive, `ignore_case` makes no
      difference: the text is upper-cased and so is every key. */
  lemma IgnoreCaseIrrelevant(data: Module, text: string)
    requires !IsCaseSensitive(data)
    ensures EncodePlain(data, text, true) == EncodePlain(data, text, false)
  {
    var sets := GetModuleSettings(data);
    if CharSep(sets).Some? {
      IgnoreCaseUpper(EncoderMapping(data), WordSep(sets), CharSep(sets).value, text);
    }
  }

  /** `ignore_case` only rescues characters that would otherwise fail: it
      changes nothing when encoding without it succeeds. */
  lemma IgnoreCaseConservative(inv: Mapping, cased: bool, ws: string, cs: string, text: string)
    requires forall k :: k in inv.table ==> inv.table[k] != []
    requires EncodeText(inv, cased, false, ws, cs, text) != []
    ensures EncodeText(inv, cased, true, ws, cs, text) == EncodeText(inv, cased, false, ws, cs, text)
  {
    var strict := CharSteps(inv, cased, false, ws, text);
    EncodeTextEmpty(inv, cased, false, ws, cs, text);
    assert forall i :: 0 <= i < |strict| ==> !strict[i].Fail?;
    assert CharSteps(inv, cased, true, ws, text) == strict;
  }

  /** `encode_message_with_module` for a module without a chain. */
  method EncodeSingle(data: Module, text: string, ignoreCase: bool) returns (r: Option<seq<string>>)
    ensures r == EncodePlain(data, text, ignoreCase)
  {
    var sets := GetModuleSettings(data);
    var rawMap := GetModuleMapping(data);
    var inv;
    if ReverseDirection(sets) {
      inv := NormalizeMap(rawMap);
    } else {
      inv := InvertMap(rawMap);
    }
    inv := CleanMapping(inv);
    var cased := IsCaseSensitive(data);
    var plain := text;
    if !cased {
      inv := UpperMapping(inv);
      plain := Upper(text);
    }
    assert inv == EncoderMapping(data);
    assert plain == PlainText(data, text);
    var charSeps := AsList(sets.characterSeparator.GetOr(Null));
    if charSeps == [] {
      return None;
    }
    var cs := charSeps[0].GetOr("");
    var ws := WordSep(sets);
    var choices := BuildChoices(inv, cased, ignoreCase, ws, plain);
    if choices.None? {
      return Some([]);
    }
    var results := EncodeTuples(AllTuples(choices.value), ws, cs);
    assert results == Encodings(choices.value, ws, cs);
    r := Some(results);
  }

  /** `encode_message_with_module(data, text, ignore_case)` */
  method EncodeMessage(data: Module, text: string, ignoreCase: bool) returns (r: Option<seq<string>>)
    ensures r == Encode(data, text, ignoreCase)
    decreases data, 1
  {
    if !data.hasChain {
      r := EncodeSingle(data, text, ignoreCase);
      return;
    }
    var results := [text];
    var i := 0;
    while i < |data.chain|
      invariant 0 <= i <= |data.chain|
      invariant ChainUpTo(data, [text], ignoreCase, i) == Some(results)
    {
      var next := EncodeEach(data, i, results, ignoreCase);
      if next.None? {
        ChainNone(data, [text], ignoreCase, i + 1);
        return None;
      }
      results := next.value;
      i := i + 1;
    }
    r := Some(results);
  }

  /** One step of the chain: every text so far encoded by `data.chain[i]`,
      every result kept, in order. */
  method EncodeEach(data: Module, i: nat, texts: seq<string>, ignoreCase: bool) returns (r: Option<seq<string>>)
    requires i < |data.chain|
    ensures r == EncodeAll(data.chain[i], texts, ignoreCase)
    decreases data, 0
  {
    var step := data.chain[i];
    var next := [];
    var j := 0;
    while j < |texts|
      invariant 0 <= j <= |texts|
      invariant EncodeAll(step, texts[..j], ignoreCase) == Some(next)
    {
      var out := EncodeMessage(step, texts[j], ignoreCase);
      TakeTake(texts, j);
      if out.None? {
        EncodeAllNone(step, texts, ignoreCase, j + 1);
        return None;
      }
      next := next + out.value;
      j := j + 1;
    }
    TakeAll(texts);
    r := Some(next);
  }
}
