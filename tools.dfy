// The Caesar shift of tools.py: letters rotate within their own case,
// everything else passes through.

module Tools {

  /** `ALPHABET_SIZE` */
  const AlphabetSize: int := 26

  predicate IsUpper(c: char) { 'A' <= c <= 'Z' }

  predicate IsLower(c: char) { 'a' <= c <= 'z' }

  /** One character under a shift already reduced to `0..25`. */
  function Rotate(c: char, k: int): (r: char)
    requires 0 <= k < AlphabetSize
    ensures IsUpper(c) <==> IsUpper(r)
    ensures IsLower(c) <==> IsLower(r)
    ensures !IsUpper(c) && !IsLower(c) ==> r == c
  {
    if IsUpper(c) then ((c as int - 'A' as int + k) % AlphabetSize + 'A' as int) as char
    else if IsLower(c) then ((c as int - 'a' as int + k) % AlphabetSize + 'a' as int) as char
    else c
  }

  /** `caesar_translate(message, shift)`: each character rotated by the
      shift taken modulo 26 (Python's `%` and Dafny's agree for a positive
      modulus). */
  function Caesar(message: string, shift: int): (r: string)
    ensures |r| == |message|
  {
    seq(|message|, i requires 0 <= i < |message| => Rotate(message[i], shift % AlphabetSize))
  }

  /** Upper-case letters stay upper case and advance by the shift modulo
      26, lower-case letters likewise, and other characters are kept. */
  lemma CaesarSpec(message: string, shift: int, i: nat)
    requires i < |message|
    ensures var c, r := message[i], Caesar(message, shift)[i];
            (IsUpper(c) ==> IsUpper(r) && (r as int - 'A' as int) == (c as int - 'A' as int + shift) % AlphabetSize) &&
            (IsLower(c) ==> IsLower(r) && (r as int - 'a' as int) == (c as int - 'a' as int + shift) % AlphabetSize) &&
            (!IsUpper(c) && !IsLower(c) ==> r == c)
  {
    var c := message[i];
    assert Caesar(message, shift)[i] == Rotate(c, shift % AlphabetSize);
    if IsUpper(c) {
      ReduceShift(c as int - 'A' as int, shift);
    } else if IsLower(c) {
      ReduceShift(c as int - 'a' as int, shift);
    }
  }

  /** Reducing the shift first does not change the reduced sum. */
  lemma ReduceShift(y: int, shift: int)
    ensures (y + shift % AlphabetSize) % AlphabetSize == (y + shift) % AlphabetSize
  {
    ModShift(y + shift % AlphabetSize, shift / AlphabetSize);
    assert y + shift == y + shift % AlphabetSize + AlphabetSize * (shift / AlphabetSize);
  }

  /** A shift that is a multiple of 26 changes nothing, which is why the
      source returns the message as it is. */
  lemma CaesarZero(message: string, shift: int)
    requires shift % AlphabetSize == 0
    ensures Caesar(message, shift) == message
  {
    forall i | 0 <= i < |message|
      ensures Caesar(message, shift)[i] == message[i]
    {
      var c := message[i];
      if IsUpper(c) {
        assert (c as int - 'A' as int) % AlphabetSize == c as int - 'A' as int;
      } else if IsLower(c) {
        assert (c as int - 'a' as int) % AlphabetSize == c as int - 'a' as int;
      }
    }
  }

  /** Shifts `s` and `s + 26` agree. */
  lemma CaesarPeriodic(message: string, shift: int)
    ensures Caesar(message, shift + AlphabetSize) == Caesar(message, shift)
  {
    assert (shift + AlphabetSize) % AlphabetSize == shift % AlphabetSize;
  }

  lemma ModShift(y: int, c: int)
    ensures (y + AlphabetSize * c) % AlphabetSize == y % AlphabetSize
  {
  }

  /** Adding two reduced shifts in turn is adding their sum, reduced. */
  lemma AddMod(x: int, a: int, b: int)
    requires 0 <= x < AlphabetSize
    ensures ((x + a % AlphabetSize) % AlphabetSize + b % AlphabetSize) % AlphabetSize == (x + (a + b) % AlphabetSize) % AlphabetSize
  {
    var ka, kb := a % AlphabetSize, b % AlphabetSize;
    var y := x + ka;
    ModShift(y, -(y / AlphabetSize));
    assert y % AlphabetSize == y - AlphabetSize * (y / AlphabetSize);
    ModShift(y + kb, -(y / AlphabetSize));
    ModShift(x + ka + kb, a / AlphabetSize + b / AlphabetSize);
    assert a + b == ka + kb + AlphabetSize * (a / AlphabetSize + b / AlphabetSize);
    var s := (a + b) % AlphabetSize;
    ModShift(x + s, (a + b) / AlphabetSize);
    assert x + a + b == x + s + AlphabetSize * ((a + b) / AlphabetSize);
  }

  lemma RotateCompose(c: char, a: int, b: int)
    ensures Rotate(Rotate(c, a % AlphabetSize), b % AlphabetSize) == Rotate(c, (a + b) % AlphabetSize)
  {
    if IsUpper(c) {
      AddMod(c as int - 'A' as int, a, b);
    } else if IsLower(c) {
      AddMod(c as int - 'a' as int, a, b);
    }
  }

  /** Shifting by `a` and then by `b` is shifting by `a + b`. */
  lemma CaesarCompose(message: string, a: int, b: int)
    ensures Caesar(Caesar(message, a), b) == Caesar(message, a + b)
  {
    forall i | 0 <= i < |message|
      ensures Caesar(Caesar(message, a), b)[i] == Caesar(message, a + b)[i]
    {
      RotateCompose(message[i], a, b);
    }
  }

  /** Shifting back by the same amount restores the message. */
  lemma CaesarRoundTrip(message: string, shift: int)
    ensures Caesar(Caesar(message, shift), -shift) == message
  {
    CaesarCompose(message, shift, -shift);
    CaesarZero(message, 0);
  }

  /** `caesar_translate(message, shift)` of `tools.py`. */
  method CaesarTranslate(message: string, shift: int) returns (r: string)
    ensures r == Caesar(message, shift)
  {
    var k := shift % AlphabetSize;
    if k == 0 {
      CaesarZero(message, shift);
      return message;
    }
    var result := [];
    for i := 0 to |message|
      invariant |result| == i
      invariant forall j :: 0 <= j < i ==> result[j] == Caesar(message, shift)[j]
    {
      var c := message[i];
      if 'A' <= c <= 'Z' {
        result := result + [((c as int - 'A' as int + k) % AlphabetSize + 'A' as int) as char];
      } else if 'a' <= c <= 'z' {
        result := result + [((c as int - 'a' as int + k) % AlphabetSize + 'a' as int) as char];
      } else {
        result := result + [c];
      }
    }
    r := result;
  }
}
