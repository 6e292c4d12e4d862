/** Cipher modules as the engine sees them once their JSON has been loaded,
    and the three accessors every part of the engine goes through:
    the mapping, the settings and the case-sensitivity heuristic. */
module ModuleLoader {
  import opened Seqs
  import opened OrderedDict
  import opened PyStr
  import opened Utils

  /** A mapping value: one string or a list of alternatives. */
  datatype Target = One(s: string) | Many(items: seq<string>)

  /** A mapping from tokens to targets, in the key order of the JSON file. */
  type RawMap = Dict<Target>

  /** `v if isinstance(v, list) else [v]` */
  function Targets(v: Target): (r: seq<string>)
    ensures v.One? ==> r == [v.s]
    ensures v.Many? ==> r == v.items
  {
    match v
    case One(s) => [s]
    case Many(items) => items
  }

  /** The `settings` (or `usage`) section. `None` means the key is absent;
      `chunkSize` is the pair `[input, output]` with 0 for `null`, `padding`
      the pair `[input, output]` with "" for `null`. `hasOtherKeys` records
      keys the engine never reads (`name`, say), which still make the
      section non-empty. */
  datatype Settings = Settings(
    wordSeparator: Option<Setting>,
    characterSeparator: Option<Setting>,
    chunkSize: Option<(nat, nat)>,
    padding: Option<(string, string)>,
    reverseDirection: Option<bool>,
    hasOtherKeys: bool)

  const NoSettings := Settings(None, None, None, None, None, false)

  /** A settings dictionary is truthy when it has at least one key. */
  predicate NonEmpty(s: Settings) {
    s.wordSeparator.Some? || s.characterSeparator.Some? || s.chunkSize.Some? ||
    s.padding.Some? || s.reverseDirection.Some? || s.hasOtherKeys
  }

  /** A module file: its `encoding` or legacy `morse` mapping, its `settings`
      or legacy `usage` section, and, for a chained module, the list of
      modules under `chain` (`hasChain` says whether the key is present). */
  datatype Module = Module(
    encoding: Option<RawMap>,
    morse: Option<RawMap>,
    settings: Option<Settings>,
    usage: Option<Settings>,
    hasChain: bool,
    chain: seq<Module>)

  /** `sets.get("reverse_direction", False)` */
  predicate ReverseDirection(s: Settings) {
    s.reverseDirection == Some(true)
  }

  ghost predicate Present(m: Option<RawMap>) {
    m.Some? && m.value.order != []
  }

  /** `r` holds the entries of `src` except the one under the empty key. */
  ghost predicate WithoutEmptyKey(r: RawMap, src: RawMap) {
    (forall k :: k in r.table <==> k in src.table && k != "") &&
    (forall k :: k in r.table ==> r.table[k] == src.table[k]) &&
    r.order == Filter(src.order, k => k != "")
  }

  /** `get_module_mapping(data)`: the `encoding` map, or the `morse` map when
      `encoding` is missing or empty, or `{}`; the empty key is dropped. */
  function GetModuleMapping(data: Module): (r: RawMap)
    ensures "" !in r.table
    ensures Present(data.encoding) ==> WithoutEmptyKey(r, data.encoding.value)
    ensures !Present(data.encoding) && Present(data.morse) ==> WithoutEmptyKey(r, data.morse.value)
    ensures !Present(data.encoding) && !Present(data.morse) ==> r.table == map[] && r.order == []
  {
    var mapping :=
      if data.encoding.Some? && data.encoding.value.order != [] then data.encoding.value
      else if data.morse.Some? && data.morse.value.order != [] then data.morse.value
      else Empty();
    Restrict(mapping, k => k != "")
  }

  /** `get_module_settings(data)`: the `settings` section, or the `usage`
      section when `settings` is missing or empty, or `{}`. */
  function GetModuleSettings(data: Module): (r: Settings)
    ensures data.settings.Some? && NonEmpty(data.settings.value) ==> r == data.settings.value
    ensures !(data.settings.Some? && NonEmpty(data.settings.value))
            ==> (data.usage.Some? && NonEmpty(data.usage.value) ==> r == data.usage.value)
    ensures (!(data.settings.Some? && NonEmpty(data.settings.value)) &&
             !(data.usage.Some? && NonEmpty(data.usage.value))) ==> r == NoSettings
  {
    if data.settings.Some? && NonEmpty(data.settings.value) then data.settings.value
    else if data.usage.Some? && NonEmpty(data.usage.value) then data.usage.value
    else NoSettings
  }

  /** Every key and every string target of `raw` is its own upper-case form. */
  ghost predicate UpperInvariant(raw: RawMap) {
    forall k :: k in raw.table ==>
      Upper(k) == k && forall t :: t in Targets(raw.table[k]) ==> Upper(t) == t
  }

  /** Entry `k` of `raw` differs from its upper-case form. */
  predicate EntryDiffers(raw: RawMap, k: string)
    requires k in raw.table
  {
    k != Upper(k) || exists t :: t in Targets(raw.table[k]) && t != Upper(t)
  }

  /** The scan of `is_case_sensitive` from the `i`-th key on. */
  function DiffersFrom(raw: RawMap, i: nat): (r: bool)
    requires i <= |raw.order|
    ensures r <==> exists j :: i <= j < |raw.order| && EntryDiffers(raw, raw.order[j])
    decreases |raw.order| - i
  {
    if i == |raw.order| then false
    else EntryDiffers(raw, raw.order[i]) || DiffersFrom(raw, i + 1)
  }

  /** `is_case_sensitive(data)`: true exactly when some key, some scalar
      value or some list element of the module's mapping is not its own
      upper-case form. */
  function IsCaseSensitive(data: Module): (r: bool)
    ensures r <==> !UpperInvariant(GetModuleMapping(data))
  {
    DiffersIff(GetModuleMapping(data));
    DiffersFrom(GetModuleMapping(data), 0)
  }

  lemma DiffersIff(raw: RawMap)
    ensures DiffersFrom(raw, 0) <==> !UpperInvariant(raw)
  {
    if !DiffersFrom(raw, 0) {
      forall k | k in raw.table
        ensures Upper(k) == k && forall t :: t in Targets(raw.table[k]) ==> Upper(t) == t
      {
        var j :| 0 <= j < |raw.order| && raw.order[j] == k;
        assert !EntryDiffers(raw, raw.order[j]);
      }
    } else {
      var j :| 0 <= j < |raw.order| && EntryDiffers(raw, raw.order[j]);
      assert raw.order[j] in raw.table;
    }
  }
}
