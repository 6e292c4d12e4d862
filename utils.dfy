/** Small pure helpers: normalising a JSON separator setting to a list, a
    vowel test and the dictionary-based accuracy score. */
module Utils {
  import opened Seqs
  import opened PyStr

  /** A separator setting as it appears in a module's JSON: `null`, a string,
      or a list whose entries are strings or `null`. */
  datatype Setting = Null | Str(s: string) | List(items: seq<Option<string>>)

  /** `as_list(x)`: `None` becomes `[None]`, a list is returned as it is and
      any other value is wrapped into a one-element list. */
  function AsList(x: Setting): (r: seq<Option<string>>)
    ensures x.Null? ==> r == [None]
    ensures x.List? ==> r == x.items
    ensures x.Str? ==> r == [Some(x.s)]
  {
    match x
    case Null => [None]
    case Str(s) => [Some(s)]
    case List(items) => items
  }

  /** Normalising twice gives nothing new: `as_list(as_list(x)) == as_list(x)`. */
  lemma AsListIdempotent(x: Setting)
    ensures AsList(List(AsList(x))) == AsList(x)
  {
  }

  const Vowels: string := "AEIOUYaeiouy"

  /** `has_vowel(word)` */
  function HasVowel(word: string): (r: bool)
    ensures r <==> exists i :: 0 <= i < |word| && word[i] in Vowels
    decreases |word|
  {
    if word == [] then false
    else
      var rest := HasVowel(word[1..]);
      assert forall i :: 1 <= i < |word| ==> word[i] == word[1..][i - 1];
      word[0] in Vowels || rest
  }

  /** The number of tokens that are words of the dictionary. */
  function CountKnown(tokens: seq<string>, dictionary: set<string>): (n: nat)
    ensures n <= |tokens|
    ensures n == |tokens| <==> forall i :: 0 <= i < |tokens| ==> tokens[i] in dictionary
    ensures n == 0 <==> forall i :: 0 <= i < |tokens| ==> tokens[i] !in dictionary
    decreases |tokens|
  {
    if tokens == [] then 0
    else
      var rest := CountKnown(tokens[1..], dictionary);
      assert forall i :: 1 <= i < |tokens| ==> tokens[i] == tokens[1..][i - 1];
      (if tokens[0] in dictionary then 1 else 0) + rest
  }

  /** `compute_accuracy(text, dictionary)`: the percentage of the
      white-space separated words of `text` found in `dictionary`; 0 for a
      blank text. */
  function ComputeAccuracy(text: string, dictionary: set<string>): (r: real)
    ensures 0.0 <= r <= 100.0
    ensures (forall i :: 0 <= i < |text| ==> IsSpace(text[i])) ==> r == 0.0
    ensures r == 100.0 <==> Words(text) != [] && forall t :: t in Words(text) ==> t in dictionary
    ensures r == 0.0 <==> forall t :: t in Words(text) ==> t !in dictionary
  {
    StripSpec(text);
    if Strip(text) == "" then 0.0
    else
      var tokens := Words(text);
      var valid := CountKnown(tokens, dictionary);
      PercentBounds(valid, |tokens|);
      (valid as real / |tokens| as real) * 100.0
  }

  lemma PercentBounds(v: nat, n: nat)
    requires 0 < n && v <= n
    ensures 0.0 <= (v as real / n as real) * 100.0 <= 100.0
    ensures (v as real / n as real) * 100.0 == 100.0 <==> v == n
    ensures (v as real / n as real) * 100.0 == 0.0 <==> v == 0
  {
    var q := v as real / n as real;
    assert q * n as real == v as real;
    assert 0.0 <= q <= 1.0;
    if q == 1.0 {
      assert v as real == n as real;
    }
  }
}
