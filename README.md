# CodeTranslator codec engine in Dafny

CodeTranslator decodes and encodes text with substitution-cipher "modules".
A module is a JSON object. Its `encoding` (or legacy `morse`) table maps
tokens to a plaintext string or to a list of alternatives. Its `settings`
(or legacy `usage`) section names word and character separators, chunk
sizes, padding and a `reverse_direction` flag. A module may also be a
`chain` of other modules.

This project models the engine's two versions and its small helpers, and
proves what each operation returns.

- **Package engine** (`helpers/codec/`):
  - map inversion and normalisation;
  - the memoised backtracking whole-word decoder, with its `_MAX_PATHS`
    budget;
  - the tokeniser over the word-separator × character-separator grid;
  - the two-pass (strict, then flawed) decoder, with path pruning and a skip
    flag;
  - the cartesian encoder: separator placement, the `ignore_case` retry and
    chains in declared order.
- **Flat engine** (`codec.py`):
  - the same ideas, with a chunk size taking precedence over a character
    separator;
  - padding tokens and padded outputs;
  - de-duplicated results;
  - chain wrappers that decode in declared order and encode in reverse order.
- **Helpers**:
  - `get_module_mapping`, `get_module_settings` and `is_case_sensitive`;
  - `as_list`, `has_vowel` and `compute_accuracy`;
  - `caesar_translate`.

How Python data is represented:
- A Python dictionary is `OrderedDict.Dict`: a key order plus a map. The
  order carries Python's insertion order, because output order depends on it.
- `str.split`, `strip`, `upper`, `join` and `isspace` have small ASCII-level
  definitions in `PyStr`.
- Loops become `while`/`for` loops in methods. Each method is proved equal to
  a specification function, and the properties are proved as lemmas about
  those functions.
- The memo of the backtracking search is threaded through the recursion as a
  value. The invariant `Backtrack.MemoSound` says every entry holds the
  decodings of its text.

The two engines differ, and the model keeps the differences visible:
- Token precedence: `FlatCodec.PrecedenceDiffers`.
- Separator choice in the encoder: `FlatCodec.SepDiffers`.
- Chain order: `Encoder.ChainOrder` against `FlatCodec.MultiStepEncodeOrder`.

Files:
- `seqs.dfy`: tuples, products, de-duplication.
- `ordered_dict.dfy`: ordered dictionaries.
- `pystr.dfy`: string functions.
- `utils.dfy`, `module_loader.dfy`, `tools.dfy`: the helpers.
- `maps.dfy`: mapping transformations.
- `backtrack.dfy`: whole-word search.
- `tokenizer.dfy`, `decoder.dfy`, `encoder.dfy`: the package engine.
- `codec.dfy`: the flat engine.

## Model

| member | source | states |
|---|---|---|
| Utils.AsList | utils.py:32-36 | `None` gives `[None]`, a list is returned unchanged, any other value becomes a one-element list |
| Utils.HasVowel | utils.py:28-30 | true exactly when some character of the word is one of `AEIOUYaeiouy` |
| Utils.CountKnown | utils.py:25 | the number of known tokens is at most the token count; it equals the count exactly when every token is in the dictionary, and is 0 exactly when none is |
| Utils.ComputeAccuracy | utils.py:20-26 | the accuracy lies in 0..100; it is 0 for blank or white-space-only text; it is 100 exactly when there are words and all are in the dictionary; it is 0 exactly when no word is |
| ModuleLoader.GetModuleMapping | module_loader.py:27-30 | never contains the empty key; gives the `encoding` entries when that map is present and non-empty, else the `morse` entries, else the empty map; other entries, values and order are kept |
| ModuleLoader.GetModuleSettings | module_loader.py:33-35 | a non-empty `settings` section wins; otherwise a non-empty `usage` section; when neither is present and non-empty, the empty settings `{}` |
| ModuleLoader.IsCaseSensitive | module_loader.py:38-51 | true exactly when some key, scalar value or list element differs from its upper-case form |
| ModuleLoader.DiffersIff | module_loader.py:44-51 | the early-return scan over the entries finds a differing entry exactly when the mapping is not invariant under upper-casing |
| Tools.Rotate | tools.py:41-51 | upper-case letters stay upper-case, lower-case letters stay lower-case, every other character is unchanged |
| Tools.Caesar | tools.py:38-53 | the output has the length of the input |
| Tools.CaesarSpec | tools.py:41-51 | at every position: an upper-case letter moves by the shift modulo 26 within `A..Z`, a lower-case letter likewise within `a..z`, and any other character is unchanged |
| Tools.CaesarZero | tools.py:32-36 | a shift that is a multiple of 26 returns the message unchanged |
| Tools.CaesarPeriodic | tools.py:32 | shifts `s` and `s + 26` give the same output |
| Tools.CaesarCompose | tools.py:43-47 | shifting by `a` and then by `b` is shifting by `a + b` |
| Tools.CaesarRoundTrip | tools.py:43-47 | shifting by `s` and then by `-s` restores the message |
| Tools.CaesarTranslate | tools.py:19-53 | the character loop computes exactly the Caesar shift of the message |
| Maps.Lift | helpers/codec/tokenizer.py:18 | a list-valued mapping seen as a raw mapping keeps its keys, order and lists |
| Maps.Normalized | helpers/codec/tokenizer.py:28-34 | keeps exactly the input's keys in their order; a scalar becomes a one-element list and a list is kept as it is |
| Maps.NormalizedLift | helpers/codec/tokenizer.py:30-31 | normalising a mapping whose values are already lists gives it back |
| Maps.InvertedMember | helpers/codec/tokenizer.py:16-21 | key `k` is listed under target `t` exactly when `t` is a target of `k`; the keys of the inverse are exactly the targets; no list is empty |
| Maps.InvertedUpperInvariant | helpers/codec/tokenizer.py:188-200 | inverting a mapping without lower-case text gives a mapping without lower-case text |
| Maps.UpperAll | helpers/codec/tokenizer.py:197 | each element is upper-cased, position by position |
| Maps.FoldUpperIdentity | helpers/codec/tokenizer.py:192-202 | folding a mapping without lower-case text to upper case changes nothing once values are lists |
| Maps.FoldFlatIdentity | codec.py:92-94 | the flat engine's folding, which keeps scalars scalar, changes nothing on a mapping without lower-case text |
| Maps.UpperKeysMember | helpers/codec/encoder.py:53-57 | the folded keys are exactly the upper-cased original keys, and each holds the list of some key that folds to it |
| Maps.UpperKeysIdentity | helpers/codec/encoder.py:53-57 | folding keys that are already upper-case changes nothing |
| Maps.Cleaned | helpers/codec/encoder.py:43-49 | keeps exactly the entries with a non-empty list, in order, with unchanged lists |
| Maps.CleanedIdentity | helpers/codec/encoder.py:43-49 | cleaning a mapping without empty lists changes nothing |
| Backtrack.Cap | helpers/codec/tokenizer.py:69-71 | the kept results are a prefix of all results, at most one more than the budget, and all of them when they fit the budget |
| Backtrack.Decodings | helpers/codec/tokenizer.py:52-84 | a budgeted search returns at most `_MAX_PATHS + 1` results |
| Backtrack.Search | helpers/codec/tokenizer.py:37-84 | the memoised recursion returns exactly the specified decodings, returns `[""]` for the empty word, and leaves the memo sound |
| Backtrack.SearchKeys | helpers/codec/tokenizer.py:61-71 | the key loop sets `matched` exactly when some key is a prefix of the word; it stops one past the budget with a prefix of the candidates, or else returns all key results |
| Backtrack.DecodingsSound | helpers/codec/tokenizer.py:61-78 | every result spells the word: the word splits into keys, each result piece is an alternative of its key, and an unmatched character may stand for itself only in a flawed search |
| Backtrack.DecodingsComplete | helpers/codec/tokenizer.py:61-78 | every spelling of the word is a result of the unbudgeted search |
| Backtrack.DecodingsExact | helpers/codec/tokenizer.py:61-81 | when the budget is not exceeded, the results are exactly the spellings |
| Backtrack.WithinBudget | helpers/codec/tokenizer.py:69-81 | a budgeted search that stays within its budget returns what the unbudgeted search returns |
| Backtrack.StrictUnmatched | helpers/codec/tokenizer.py:74 | a strict search on a word that starts with no key gives no results |
| Backtrack.FlawedUnmatched | helpers/codec/tokenizer.py:74-81 | a flawed search on a word that starts with no key puts the first character in front of each decoding of the rest, within the budget |
| Backtrack.DropEmptyKey | helpers/codec/tokenizer.py:62-63 | the mapping without its empty key: every other entry kept in order, and the search on it terminates |
| Backtrack.DropEmptyKeyIdentity | module_loader.py:30 | a mapping without the empty key is left as it is |
| Backtrack.EmptyKeyDiverges | helpers/codec/tokenizer.py:61-67 | as written, an empty key with an alternative makes the search on `"B"` call itself on `"B"` again, with no fuel sufficing |
| Backtrack.DfsAgrees | codec.py:44-63 | the as-written recursion, given more fuel than the word's length, returns exactly the specified unbudgeted decodings on any mapping whose empty key has no alternatives |
| Tokenizer.InvertMap | helpers/codec/tokenizer.py:11-21 | the `setdefault`/`append` loop builds exactly the inverse mapping |
| Tokenizer.NormalizeMap | helpers/codec/tokenizer.py:24-34 | the loop builds exactly the normalised mapping |
| Tokenizer.FoldCase | helpers/codec/tokenizer.py:192-200 | the upper-casing loop builds exactly the folded mapping |
| Tokenizer.RecursiveDecode | helpers/codec/tokenizer.py:37-84 | starting from an empty memo, returns the budgeted decodings, at most `_MAX_PATHS + 1` of them |
| Tokenizer.GetRecursiveDecode | helpers/codec/tokenizer.py:176-203 | the search over the module's mapping: inverted when reversed, folded when not case-sensitive, normalised |
| Tokenizer.Strings | helpers/codec/tokenizer.py:100-104 | one entry per candidate separator; a non-string candidate becomes `""` |
| Tokenizer.DropEmpty | helpers/codec/tokenizer.py:158 | keeps exactly the non-empty parts |
| Tokenizer.WordTokensSpec | helpers/codec/tokenizer.py:157-162 | tokens are never empty. A character separator is removed and the tokens spell the rest; no tokens means the word was all separators. Otherwise the tokens spell the word, each at most the chunk size long; without a chunk size the tokens are `[word]` |
| PyStr.ChunksSpec | helpers/codec/tokenizer.py:159-160 | chunks spell the word; each is non-empty and at most the chunk size long; all but the last have exactly the chunk size |
| PyStr.JoinSplit | helpers/codec/tokenizer.py:142 | joining the split parts with the separator restores the text |
| PyStr.StripSpec | helpers/codec/tokenizer.py:152 | a stripped word neither starts nor ends with white space, and it is empty exactly when the word is all white space |
| Tokenizer.ConfigStepSpec | helpers/codec/tokenizer.py:146-171 | a cell never fails outright. It is kept exactly when every non-blank word has tokens, and always when the character separator is blank. `char_sep_blank` holds exactly when the separator is `""`. The tokens are the non-blank words' tokens, each list non-empty and each token non-empty |
| Tokenizer.ConfigsSpec | helpers/codec/tokenizer.py:139-171 | a configuration is produced exactly when some grid cell keeps it; there are at most as many as word separators times character separators |
| Tokenizer.TokenizeWords | helpers/codec/tokenizer.py:151-168 | the word loop's `ok` flag is false exactly when some word ends with no tokens; otherwise the result is every non-blank word's tokens |
| Tokenizer.TokenizeMessage | helpers/codec/tokenizer.py:87-173 | the nested separator loops build exactly the configurations of the grid, word separators outermost |
| Decoder.SameMapping | helpers/codec/decoder.py:41-47 | the mapping the whole-word search uses is the decoder's token mapping without its empty key |
| Decoder.ChoicesSpec | helpers/codec/decoder.py:130-141 | there are no choice lists exactly when there are no tokens, or a strict pass meets an unmapped token; otherwise there is one list per token: its alternatives, or `[t]` for an unmapped token in a flawed pass |
| Decoder.TokenChoices | helpers/codec/decoder.py:130-139 | the loop builds exactly the specified choice lists, including the reset to `[]` at `break` |
| Decoder.ConcatsMember | helpers/codec/decoder.py:144-154 | a token-wise variant concatenates one choice per token, in token order; there are as many as the product of the list lengths |
| Decoder.ExpandSpec | helpers/codec/decoder.py:143-156 | a single list gives its choices; more lists give at most `_MAX_PATHS + 1` variants; within the budget the variants are all concatenations |
| Decoder.ExpandComplete | helpers/codec/decoder.py:143-156 | when every list is non-empty and all concatenations fit the budget, the expansion gives all of them |
| Decoder.ExpandNonEmpty | helpers/codec/decoder.py:143-156 | non-empty choice lists always give some variant |
| Decoder.CrossCapped | helpers/codec/decoder.py:146-153 | crossing in one choice list stops one past the budget and is otherwise the full product |
| Decoder.ExpandChoices | helpers/codec/decoder.py:143-156 | the expansion loop computes exactly the specified capped expansion |
| Decoder.VariantsUnknownToken | helpers/codec/decoder.py:131-142 | in a strict pass an unmapped token leaves the word without variants; in a flawed pass, tokens whose lists are non-empty always give some variant |
| Decoder.WordVariants | helpers/codec/decoder.py:126-156 | a configuration with a blank character separator and a one-token word uses the whole-word search; otherwise it uses the token-wise expansion |
| Decoder.WalkSpec | helpers/codec/decoder.py:117-186 | an unpruned walk ends with exactly the sentences of the words' variants, within the budget; when every word has variants, the walk is pruned exactly when the sentences outnumber the budget |
| Decoder.WalkEmptyWord | helpers/codec/decoder.py:158-160 | a word without variants leaves the configuration with no paths, unless an earlier word already pruned it |
| Decoder.SentencesMember | helpers/codec/decoder.py:167-173 | a sentence takes one variant per word, in word order; there are as many as the product of the variant counts |
| Decoder.JoinWordFold | helpers/codec/decoder.py:167-173 | words are joined by single spaces with no leading separator |
| Decoder.StrippedSetMember | helpers/codec/decoder.py:191-192 | an output is exactly the stripped form of some path |
| Decoder.JoinPaths | helpers/codec/decoder.py:167-178 | the path loop computes exactly the product of paths and variants joined by a space |
| Decoder.WalkConfig | helpers/codec/decoder.py:114-189 | the word loop of one configuration computes exactly its walk, with pruning |
| Decoder.OutputsMember | helpers/codec/decoder.py:103-192 | a string is an output exactly when some configuration's walk yields it |
| Decoder.AttemptMember | helpers/codec/decoder.py:80-194 | an output of one pass is a stripped sentence of some unpruned configuration of the message |
| Decoder.AttemptConfigs | helpers/codec/decoder.py:103-106 | the configuration loop gives nothing when the skip flag is raised, and otherwise every configuration's outputs |
| Decoder.AttemptDecode | helpers/codec/decoder.py:80-194 | `_attempt_decode` computes exactly the specified outputs of one pass |
| Decoder.DecodeMember | helpers/codec/decoder.py:49-77 | a raised skip flag gives nothing. Otherwise the outputs are the strict outputs, or, when flawed decoding is allowed and no configuration has a strict output, the flawed outputs |
| Decoder.DecodeMessage | helpers/codec/decoder.py:24-77 | `decode_message_with_module` computes exactly the specified two-pass result |
| Encoder.EncoderMappingNonEmpty | helpers/codec/encoder.py:43-49 | no character of the cleaned inverse map has an empty token list |
| Encoder.EncodingRelation | helpers/codec/encoder.py:36-57 | token `tok` encodes character `k` exactly when the decoder maps `tok` to `k`, for reversed and forward modules alike |
| Encoder.CleanMapping | helpers/codec/encoder.py:42-49 | the cleaning loop builds exactly the cleaned mapping |
| Encoder.UpperMapping | helpers/codec/encoder.py:51-57 | the key-folding loop builds exactly the folded mapping |
| Encoder.CharSep | helpers/codec/encoder.py:61-64 | an empty separator list makes the encoder fail (the source raises); otherwise the first candidate, or `""` when it is not a string |
| Encoder.WordSep | helpers/codec/encoder.py:66-74 | never empty; the first candidate when it is a non-empty string, otherwise `" "` |
| Encoder.BuildChoices | helpers/codec/encoder.py:76-93 | white space gives `[word_sep]`, a mapped character its list, an unmapped one its other-case list under `ignore_case`, and any other unmapped character ends the encoding |
| Encoder.JoinTokensSpec | helpers/codec/encoder.py:97-108 | without word separators among the tokens, a combination is joined by the character separator; with a blank one it is plain concatenation |
| Encoder.JoinTuple | helpers/codec/encoder.py:98-108 | the `s +=` loop builds exactly the specified join, inserting the character separator only between two tokens neither of which is the word separator |
| Encoder.EncodingsSpec | helpers/codec/encoder.py:96-110 | one output per combination, with no de-duplication; an output is exactly a joined combination taking one token per character |
| Encoder.EncodeTuples | helpers/codec/encoder.py:96-110 | the product loop joins every combination in order |
| Encoder.EncodeTextEmpty | helpers/codec/encoder.py:82-93 | the result is `[]` exactly when some character has no token choice |
| Encoder.EncodeTextCount | helpers/codec/encoder.py:77-110 | when every character has a choice, the number of outputs is the product of the choice-list lengths, and it is positive |
| Encoder.IgnoreCaseIrrelevant | helpers/codec/encoder.py:87-91 | for a module that is not case-sensitive, `ignore_case` changes nothing |
| Encoder.IgnoreCaseConservative | helpers/codec/encoder.py:87-91 | `ignore_case` never changes an encoding that succeeds without it |
| Encoder.EncodeSingle | helpers/codec/encoder.py:35-110 | encoding with a plain module computes exactly the specified result |
| Encoder.ChainSingle | helpers/codec/encoder.py:24-33 | an empty chain leaves the text as it is; a one-step chain encodes as its step does |
| Encoder.ChainOrder | helpers/codec/encoder.py:24-33 | the chain applies its steps in declared order |
| Encoder.ChainNone | helpers/codec/encoder.py:24-33 | a step that fails makes the whole chain fail |
| Encoder.EncodeMessage | helpers/codec/encoder.py:11-110 | `encode_message_with_module` computes exactly the specified result, chains included |
| Encoder.EncodeEach | helpers/codec/encoder.py:27-32 | each current text is encoded and the results are concatenated in order |
| FlatCodec.ExpandAgrees | codec.py:27-37 | a key gives its list, or a scalar as a singleton; an unknown token gives `[token]` when flawed, else `[]`; this is the package's token choice |
| FlatCodec.DecodeRecursive | codec.py:40-65 | the memoised recursion returns the unbudgeted decodings over the normalised mapping without its empty key, and `[""]` for `""` |
| FlatCodec.DecodeRecursiveExact | codec.py:44-63 | a result of the recursion is exactly a spelling of the word |
| FlatCodec.BuildInverseMapping | codec.py:68-77 | the loop builds exactly the inverse mapping |
| FlatCodec.DecodeSizes | codec.py:97-102 | a reversed module reads the second chunk size and padding for input, and the first padding for output; any other module reads them the other way round |
| FlatCodec.PrecedenceDiffers | codec.py:117-120 | a chunk size wins over a character separator here, the reverse of the package tokeniser |
| FlatCodec.TokenLists | codec.py:126-135 | one alternatives list per token, in order: the output padding for a token made of input padding, else its expansion in the mapping |
| FlatCodec.PadTokenDecodes | codec.py:128-129 | a token made only of the input padding decodes to the output padding alone (`""` when unset) |
| FlatCodec.JoinsSpec | codec.py:138 | one joined string per combination; an output takes one alternative per position; an empty list leaves nothing |
| FlatCodec.FlatDecodeMappingUnfolded | codec.py:86-95 | folding the mapping changes nothing: a module that is not case-sensitive has no lower-case text |
| FlatCodec.ConfigOutputsEmpty | codec.py:139-148 | a non-blank word without variants leaves its configuration with no outputs |
| FlatCodec.FlatDecodeSpec | codec.py:152-158 | the results are exactly the raw results, each once |
| FlatCodec.FlatDecodeOrder | codec.py:152-158 | results keep the order of their first raw occurrence |
| FlatCodec.DedupeList | codec.py:152-158 | the `seen` loop computes exactly the order-preserving de-duplication |
| FlatCodec.FlatDecodeMessage | codec.py:84-158 | `decode_message_with_module` computes exactly the specified result |
| FlatCodec.EncodePadding | codec.py:173-179 | a reversed module chops and pads with the first chunk size and padding; any other module uses the second |
| FlatCodec.FirstString | codec.py:181-182 | the first candidate that is a string, or `""` when there is none |
| FlatCodec.SepDiffers | codec.py:181-182 | a two-character separator string keeps only its first character here, unlike the package encoder |
| FlatCodec.FlatWordSep | codec.py:184 | fails (the source raises) exactly on an empty `word_separator` list |
| FlatCodec.PadToSpec | codec.py:194-209 | padding extends the string and keeps it as a prefix; a width, padding and remainder all set pad to a multiple of the width, less than one width longer |
| FlatCodec.EncTokensSpec | codec.py:194-198 | with a width and a one-character padding, the tokens spell the padded word and each has exactly the width |
| FlatCodec.ScalarSplit | codec.py:202-205 | a reversed module mapping `"A"` to `".-"` offers `"."` and `"-"`, not `".-"` |
| FlatCodec.ChoiceLists | codec.py:202 | one choice list per token: its targets, a scalar value being one target (the corrected reading under "## Findings"), or the token itself when unmapped |
| FlatCodec.ChoicesAgree | codec.py:202 | the as-written and intended choices agree on list values and on one-character scalars |
| FlatCodec.WordEncodingsMember | codec.py:202-211 | a word encoding is exactly one target per token, joined by the separator and padded to the output width |
| FlatCodec.WordEncodingsPadded | codec.py:206-209 | with a width and a one-character padding, every word encoding has a length that is a multiple of the width |
| FlatCodec.EncodeWord | codec.py:193-211 | the per-word loop computes the specified encodings, with a scalar value as one alternative (the corrected reading under "## Findings") |
| FlatCodec.FlatEncodeSpec | codec.py:184-214 | fails only on an empty `word_separator` list; otherwise every encoding occurs once, and an encoding is exactly a choice of one encoding per word joined by spaces |
| FlatCodec.FlatEncodeOrder | codec.py:213-214 | encodings keep the order of their first occurrence |
| FlatCodec.FlatEncodeMessage | codec.py:161-214 | `encode_message_with_module` computes the specified result, with a scalar value as one alternative (the corrected reading under "## Findings") |
| FlatCodec.BaseTokensSpec | codec.py:244-254 | without an input padding the chunks spell the word; a character separator is removed and tokens are non-empty; with neither the word is one token |
| FlatCodec.BaseTokensAgree | codec.py:245-250 | a padding chunk becomes the output padding, which is what decoding would give it; other chunks are kept |
| FlatCodec.BaseTokenizeMember | codec.py:234-264 | a configuration is the tokenisation under one separator pair whose word separator is not blank |
| FlatCodec.BaseTokenizeBound | codec.py:234-264 | there are at most as many configurations as word separators times character separators |
| FlatCodec.BaseTokenizeCount | codec.py:234-264 | with no empty word separator every grid cell gives a configuration: only `split("")` can raise, because `expand_in_mapping` never returns `None` |
| FlatCodec.BaseTokenizeMessage | codec.py:221-264 | the nested loops compute exactly the specified configurations |
| FlatCodec.DecodeAllTexts | codec.py:295 | decoding no texts gives no results |
| FlatCodec.DecodeStepsEmpty | codec.py:296-297 | once the intermediate list is empty it stays empty |
| FlatCodec.MultiStepDecodeOrder | codec.py:290-298 | the chain decodes with its steps in declared order |
| FlatCodec.DecodeChain | codec.py:293-298 | the step loop computes exactly the chained decoding |
| FlatCodec.MultiStepDecodeMessage | codec.py:290-298 | `multi_step_decode` computes exactly the specified result |
| FlatCodec.Reversed | codec.py:305 | the steps in the opposite order |
| FlatCodec.EncodeAllTexts | codec.py:306 | encoding no texts gives no results |
| FlatCodec.EncodeStepsEmpty | codec.py:307-308 | once the intermediate list is empty it stays empty |
| FlatCodec.EncodeStepsNone | codec.py:306 | a step that raises makes the whole chain fail |
| FlatCodec.MultiStepEncodeOrder | codec.py:301-309 | the chain encodes with its steps in reverse order |
| FlatCodec.EncodeChain | codec.py:304-309 | the step loop computes exactly the chained encoding in reverse step order |
| FlatCodec.MultiStepEncodeMessage | codec.py:301-309 | `multi_step_encode` computes exactly the specified result |

## Left out

- File and OS input/output is not modelled. This covers `load_modules`, `project_root` and `load_dictionary`; the dictionary is a parameter of `Utils.ComputeAccuracy`.
- The Tkinter GUI is not modelled: `gui.py` and `helpers/gui/`.
- The float-weighted Caesar scoring in `tools.py` is not modelled: `analyze_caesar_candidates` and its `_score_*` helpers. They are regex and floating-point presentation logic.
- Progress callbacks are not modelled (helpers/codec/decoder.py:98-112), nor the module `name` they report. They are a floating-point side channel with no effect on results.
- The skip flag is a boolean parameter that stays fixed during a call. It is checked at the points the source checks it. A flag raised by another thread partway through a run is not modelled.
- The package decoder returns `list(set)`, whose order Python leaves unspecified, so `Decoder.Decode` returns the set.
- Non-string JSON values are not modelled in most places:
  - Mapping values are strings or lists of strings. The encoder's `isinstance(tok, str)` filter (helpers/codec/encoder.py:46) therefore only drops empty lists.
  - Separator candidates may be strings or other values; any other value is `None`.
  - A chunk size is a pair of sizes, with `0` for `null`. A padding is a pair of strings, with `""` for `null`. A `chunk_size` that is not a list is not modelled.
- Python exceptions are modelled only where they can be raised:
  - In the flat decoder, `message.split("")` raises `ValueError` inside the `try`, and that configuration is skipped.
  - The emptiness check in `base_tokenize_message_with_module` can never raise (codec.py:256-263), so its `flawed` argument has no effect and is dropped.
  - `character_separator: []` raises `IndexError` in the package encoder, and `word_separator: []` raises it in the flat encoder. Both are `None` results.
  - The recursion error caused by an empty key is handled under "## Findings".
- The flat encoder's `ws` (codec.py:184) never affects the output: words are joined by `" "`. Only the exception it can raise is modelled.
- The flat engine's `tokenize_message_with_module` and `multi_step_tokenize` (codec.py:267-328) are not modelled. `gui.py` imports them but never calls them, and they only re-join tokens that `FlatCodec.BaseTokenize` produces.
- `tokenize_message_with_module` builds a case-folded mapping that it never uses (helpers/codec/tokenizer.py:112-130). This dead code is not modelled.
- The memo of the backtracking search is passed in and returned, not shared by reference. Sharing it would give the same results, because every entry is a decoding of its own text.
- String functions are ASCII-level. `upper` changes only `a..z`, and white space is the ASCII white-space set. Unicode case mapping and Unicode white space are not modelled.
- `compute_accuracy` is modelled over exact reals rather than binary floating point.
- Python's recursion limit is not modelled, apart from the empty-key divergence under "## Findings".
- Encoder.JoinTokensSpec: the rule that the separator goes only between two tokens neither of which is the word separator is the definition of `Encoder.JoinTokens`. The lemma states its consequences in the two cases of no word separators and a blank character separator.
- FlatCodec.MultiStepDecodeOrder, FlatCodec.MultiStepEncodeOrder and Encoder.ChainOrder are stated for two-step chains, which is enough to show the order. The general loop is `FlatCodec.DecodeChain`, `FlatCodec.EncodeChain` and `Encoder.ChainUpTo`.
- Tokenizer.GetRecursiveDecode and FlatCodec.DecodeRecursive search the mapping without its empty key, the corrected behaviour described under "## Findings".
- FlatCodec.ChoiceLists: a reversed module's scalar value is one alternative (the corrected reading under "## Findings"), where codec.py:202-205 iterates its characters. The two agree on list values and one-character scalars (`FlatCodec.ChoicesAgree`); the as-written choice is `FlatCodec.ChoicesAsWritten`.
- FlatCodec.WordEncodings and FlatCodec.EncodeWord build on `FlatCodec.ChoiceLists`, so they use the same corrected scalar choice.
- FlatCodec.FlatEncode and FlatCodec.FlatEncodeMessage use the same corrected scalar choice. For a reversed module with `"A": ".-"` they give `[".-"]` where codec.py gives `[".", "-"]`.

## Findings

| source | as written | input that shows it | evidently intended | confidence | as-written member | corrected member |
|---|---|---|---|---|---|---|
| helpers/codec/tokenizer.py:61-67 | Every key that is a prefix of the word is tried, including `""`. An empty key with an alternative makes the search recurse on the same text until Python's recursion limit. The package lets the error escape; `codec.py:52-56` has the same loop, and its `try` at codec.py:107-150 silently skips the configuration. | A reversed module whose mapping has `"A": ""`: the inverse has the key `""` with alternative `"A"`, and decoding the word `"B"` never returns. | The empty key matches nothing (`get_module_mapping` already drops it from the raw table), so the search terminates with the decodings of the other keys. | not executed | Backtrack.EmptyKeyDiverges | Backtrack.DropEmptyKey |
| codec.py:202-205 | For a reversed module the flat encoder looks tokens up in the module's own mapping, and a scalar value, a string, is handed to `itertools.product`, which iterates its characters. | A reversed module whose mapping has `"A": ".-"`: encoding `"A"` offers the choices `"."` and `"-"`, so the outputs are `"."` and `"-"` instead of `".-"`. | A scalar value is one alternative, as the package encoder's `_normalize_map` makes it (helpers/codec/encoder.py:38). | not executed | FlatCodec.ScalarSplit | FlatCodec.WordEncodingsMember |
