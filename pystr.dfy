/** The Python `str` operations the codec relies on, defined on ASCII:
    `isspace`, `upper`, `lower`, `startswith`, `strip`, `split(sep)`,
    `split()`, `sep.join`, `replace`, `list(s)`, slicing into fixed-width
    chunks and repetition `s * n`. */
module PyStr {

  /** `c.isspace()` for the ASCII range: space, \t, \n, \v, \f, \r and the
      four separator controls \x1c-\x1f. */
  predicate IsSpace(c: char) {
    c == ' ' || ('\t' <= c <= '\r') || ('\U{1c}' <= c <= '\U{1f}')
  }

  function UpperChar(c: char): char {
    if 'a' <= c <= 'z' then (c as int - 32) as char else c
  }

  function LowerChar(c: char): char {
    if 'A' <= c <= 'Z' then (c as int + 32) as char else c
  }

  /** `s.upper()` */
  function Upper(s: string): (r: string)
    ensures |r| == |s| && forall i :: 0 <= i < |s| ==> r[i] == UpperChar(s[i])
  {
    seq(|s|, i requires 0 <= i < |s| => UpperChar(s[i]))
  }

  /** `s.lower()` */
  function Lower(s: string): (r: string)
    ensures |r| == |s| && forall i :: 0 <= i < |s| ==> r[i] == LowerChar(s[i])
  {
    seq(|s|, i requires 0 <= i < |s| => LowerChar(s[i]))
  }

  /** Upper-casing twice changes nothing more than upper-casing once. */
  lemma UpperIdempotent(s: string)
    ensures Upper(Upper(s)) == Upper(s)
  {
  }

  /** `s.startswith(p)` */
  predicate StartsWith(s: string, p: string) {
    |p| <= |s| && s[..|p|] == p
  }

  // ---------------------------------------------------------------------
  //  strip
  // ---------------------------------------------------------------------

  function StripLeft(s: string): string
    decreases |s|
  {
    if s != [] && IsSpace(s[0]) then StripLeft(s[1..]) else s
  }

  function StripRight(s: string): string
    decreases |s|
  {
    if s != [] && IsSpace(s[|s| - 1]) then StripRight(s[..|s| - 1]) else s
  }

  /** `lstrip` drops exactly the leading white space. */
  lemma {:induction false} StripLeftSpec(s: string)
    ensures |StripLeft(s)| <= |s| && StripLeft(s) == s[|s| - |StripLeft(s)|..]
    ensures StripLeft(s) != [] ==> !IsSpace(StripLeft(s)[0])
    ensures forall i :: 0 <= i < |s| - |StripLeft(s)| ==> IsSpace(s[i])
    decreases |s|
  {
    if s != [] && IsSpace(s[0]) {
      StripLeftSpec(s[1..]);
    }
  }

  /** `rstrip` drops exactly the trailing white space. */
  lemma {:induction false} StripRightSpec(s: string)
    ensures |StripRight(s)| <= |s| && StripRight(s) == s[..|StripRight(s)|]
    ensures StripRight(s) != [] ==> !IsSpace(StripRight(s)[|StripRight(s)| - 1])
    ensures forall i :: |StripRight(s)| <= i < |s| ==> IsSpace(s[i])
    decreases |s|
  {
    if s != [] && IsSpace(s[|s| - 1]) {
      StripRightSpec(s[..|s| - 1]);
    }
  }

  /** `s.strip()` */
  function Strip(s: string): string {
    StripRight(StripLeft(s))
  }

  /** `strip` removes surrounding white space only: the result neither
      starts nor ends with white space, and it is empty exactly when the
      input is all white space. */
  lemma StripSpec(s: string)
    ensures Strip(s) != [] ==> !IsSpace(Strip(s)[0]) && !IsSpace(Strip(s)[|Strip(s)| - 1])
    ensures Strip(s) == [] <==> forall i :: 0 <= i < |s| ==> IsSpace(s[i])
  {
    var l := StripLeft(s);
    StripLeftSpec(s);
    StripRightSpec(l);
    if Strip(s) == [] {
      assert l == [];
    }
  }

  // ---------------------------------------------------------------------
  //  split and join
  // ---------------------------------------------------------------------

  /** `s.split(sep)` for a non-empty separator: the fields between the
      leftmost non-overlapping occurrences of `sep`, empty fields included. */
  function Split(s: string, sep: string): (r: seq<string>)
    requires sep != ""
    ensures |r| >= 1
    decreases |s|
  {
    if |s| < |sep| then [s]
    else if s[..|sep|] == sep then [""] + Split(s[|sep|..], sep)
    else
      var rest := Split(s[1..], sep);
      [[s[0]] + rest[0]] + rest[1..]
  }

  /** `sep.join(parts)` */
  function Join(sep: string, parts: seq<string>): string
    decreases |parts|
  {
    if parts == [] then ""
    else if |parts| == 1 then parts[0]
    else parts[0] + sep + Join(sep, parts[1..])
  }

  /** Joining the fields of a split with the same separator gives back the
      original string. */
  lemma {:induction false} JoinSplit(s: string, sep: string)
    requires sep != ""
    ensures Join(sep, Split(s, sep)) == s
    decreases |s|
  {
    if |s| < |sep| {
    } else if s[..|sep|] == sep {
      JoinSplit(s[|sep|..], sep);
      JoinSplitAtSep(s, sep);
    } else {
      JoinSplit(s[1..], sep);
      JoinSplitAtChar(s, sep);
    }
  }

  lemma JoinSplitAtSep(s: string, sep: string)
    requires sep != "" && |sep| <= |s| && s[..|sep|] == sep
    requires Join(sep, Split(s[|sep|..], sep)) == s[|sep|..]
    ensures Join(sep, Split(s, sep)) == s
  {
    var rest := Split(s[|sep|..], sep);
    assert Split(s, sep) == [""] + rest;
    JoinCons(sep, "", rest);
    TakeDrop(s, |sep|);
  }

  lemma JoinSplitAtChar(s: string, sep: string)
    requires sep != "" && |sep| <= |s| && s[..|sep|] != sep
    requires Join(sep, Split(s[1..], sep)) == s[1..]
    ensures Join(sep, Split(s, sep)) == s
  {
    var rest := Split(s[1..], sep);
    assert Split(s, sep) == [[s[0]] + rest[0]] + rest[1..];
    JoinExtendFirst(sep, [s[0]], rest);
    ConsDrop(s);
  }

  lemma ConsDrop<T>(s: seq<T>)
    requires s != []
    ensures [s[0]] + s[1..] == s
  {
  }

  lemma TakeDrop<T>(s: seq<T>, k: nat)
    requires k <= |s|
    ensures s[..k] + s[k..] == s
  {
  }

  /** Joining a part in front of a non-empty list adds the part and the
      separator. */
  lemma JoinCons(sep: string, x: string, parts: seq<string>)
    requires parts != []
    ensures Join(sep, [x] + parts) == x + sep + Join(sep, parts)
    ensures x == "" ==> Join(sep, [x] + parts) == sep + Join(sep, parts)
  {
    assert ([x] + parts)[1..] == parts;
  }

  /** Prefixing the first field prefixes the joined string. */
  lemma JoinExtendFirst(sep: string, x: string, parts: seq<string>)
    requires parts != []
    ensures Join(sep, [x + parts[0]] + parts[1..]) == x + Join(sep, parts)
  {
    var q := [x + parts[0]] + parts[1..];
    assert q[1..] == parts[1..];
    if |parts| > 1 {
      assert Join(sep, q) == (x + parts[0]) + sep + Join(sep, parts[1..]);
    }
  }

  /** Joining one more part adds the separator and the part. */
  lemma {:induction false} JoinSnoc(sep: string, parts: seq<string>, x: string)
    requires parts != []
    ensures Join(sep, parts + [x]) == Join(sep, parts) + sep + x
    decreases |parts|
  {
    if |parts| > 1 {
      JoinSnoc(sep, parts[1..], x);
      assert (parts + [x])[1..] == parts[1..] + [x];
    }
  }

  /** `s.replace(pat, repl)` for a non-empty `pat`. */
  function Replace(s: string, pat: string, repl: string): string
    requires pat != ""
  {
    Join(repl, Split(s, pat))
  }

  /** `s.split()`: the maximal runs of non-white-space characters. */
  function Words(s: string): (r: seq<string>)
    ensures forall i :: 0 <= i < |r| ==> r[i] != "" && forall c :: c in r[i] ==> !IsSpace(c)
    ensures r == [] <==> forall i :: 0 <= i < |s| ==> IsSpace(s[i])
    decreases |s|
  {
    if s == [] then []
    else if IsSpace(s[0]) then
      var r := Words(s[1..]);
      assert forall i :: 1 <= i < |s| ==> s[i] == s[1..][i - 1];
      r
    else
      var n := RunLength(s);
      [s[..n]] + Words(s[n..])
  }

  /** The length of the run of non-white-space characters `s` starts with. */
  function RunLength(s: string): (n: nat)
    requires s != [] && !IsSpace(s[0])
    ensures 1 <= n <= |s|
    ensures forall i :: 0 <= i < n ==> !IsSpace(s[i])
    decreases |s|
  {
    if |s| == 1 || IsSpace(s[1]) then 1 else 1 + RunLength(s[1..])
  }

  // ---------------------------------------------------------------------
  //  Characters, chunks, repetition
  // ---------------------------------------------------------------------

  /** `list(s)`: the one-character strings of `s`. */
  function Chars(s: string): (r: seq<string>)
    ensures |r| == |s| && forall i :: 0 <= i < |s| ==> r[i] == [s[i]]
  {
    seq(|s|, i requires 0 <= i < |s| => [s[i]])
  }

  /** `[w[i:i + k] for i in range(0, len(w), k)]` */
  function Chunks(w: string, k: nat): seq<string>
    requires k > 0
    decreases |w|
  {
    if w == [] then [] else if |w| <= k then [w] else [w[..k]] + Chunks(w[k..], k)
  }

  /** The chunks of a word spell the word; each is non-empty, and all but
      the last have exactly the chunk width. */
  lemma {:induction false} ChunksSpec(w: string, k: nat)
    requires k > 0
    ensures Join("", Chunks(w, k)) == w
    ensures forall i :: 0 <= i < |Chunks(w, k)| ==> 0 < |Chunks(w, k)[i]| <= k
    ensures forall i :: 0 <= i < |Chunks(w, k)| - 1 ==> |Chunks(w, k)[i]| == k
    ensures w != [] <==> Chunks(w, k) != []
    decreases |w|
  {
    if |w| > k {
      ChunksSpec(w[k..], k);
      assert w == w[..k] + w[k..];
      var rest := Chunks(w[k..], k);
      assert Chunks(w, k) == [w[..k]] + rest;
      assert forall i :: 1 <= i < |Chunks(w, k)| ==> Chunks(w, k)[i] == rest[i - 1];
    }
  }

  /** `s * n` */
  function Repeat(s: string, n: nat): (r: string)
    ensures |r| == |s| * n
  {
    if n == 0 then "" else s + Repeat(s, n - 1)
  }
}
