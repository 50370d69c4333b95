/** The Vigenere cipher: the letter at absolute position i of the text moves
    by the index of key letter i mod |key|; non-letters are copied but still
    use up a key position. */
module Vigenere {
  import opened Alphabet
  import Caesar

  /** The text contains no letter, so the key is never consulted. */
  predicate NoLetters(text: string) {
    forall i :: 0 <= i < |text| ==> !IsAlpha(text[i])
  }

  /** The shift for position i: the alphabet index of the upper-cased key
      character at i mod |key|, which lies in 0..25 when that character is
      a letter. Other characters give a shift outside that range. */
  function KeyShift(key: string, i: nat): (s: int)
    requires |key| > 0
    ensures IsAlpha(key[i % |key|]) ==> 0 <= s < 26
  {
    Index(Upper(key[i % |key|]))
  }

  /** The key repeats: positions |key| apart use the same shift. */
  lemma {:induction false} KeyShiftPeriodic(key: string, i: nat, k: nat)
    requires |key| > 0
    ensures KeyShift(key, i + k * |key|) == KeyShift(key, i)
  {
    if k > 0 {
      KeyShiftPeriodic(key, i, k - 1);
      var j := i + (k - 1) * |key|;
      var q, m := j / |key|, j % |key|;
      assert i + k * |key| == j + |key| == (q + 1) * |key| + m;
      ModUnique(j + |key|, |key|, q + 1, m);
    }
  }

  /** The cipher text that the Python vigenere_encrypt builds, position by
      position: letter i moves by the index of key character i mod |key|.
      The source divides by the key's length only when it meets a letter,
      so an empty key is acceptable on text without letters. */
  function VigenereCipher(text: string, key: string): (r: string)
    requires |key| > 0 || NoLetters(text)
    ensures |r| == |text|
    ensures forall i :: 0 <= i < |text| && !IsAlpha(text[i]) ==> r[i] == text[i]
    ensures forall i :: 0 <= i < |text| && IsAlpha(text[i]) ==> IsUpper(r[i])
    ensures forall i :: 0 <= i < |text| && IsAlpha(text[i]) ==>
      |key| > 0 && Index(r[i]) == (Index(Upper(text[i])) + Index(Upper(key[i % |key|]))) % 26
  {
    var t := UpperString(text);
    seq(|t|, i requires 0 <= i < |t| => if IsAlpha(t[i]) then Shift(t[i], KeyShift(key, i)) else t[i])
  }

  /** The Python vigenere_encrypt. */
  method VigenereEncrypt(text: string, key: string) returns (result: string)
    requires |key| > 0 || NoLetters(text)
    ensures result == VigenereCipher(text, key)
  {
    var t, k := UpperString(text), UpperString(key);
    result := "";
    for i := 0 to |t|
      invariant result == VigenereCipher(text, key)[..i]
    {
      if IsAlpha(t[i]) {
        var shift := Index(k[i % |k|]);
        result := result + [Letter(Index(t[i]) + shift)];
      } else {
        result := result + [t[i]];
      }
    }
  }

  /** The key whose every letter undoes the matching letter of `key`:
      letter j has the index of key letter j negated, modulo 26. */
  function InverseKey(key: string): (k: string)
    ensures |k| == |key|
    ensures AllUpper(k)
  {
    seq(|key|, j requires 0 <= j < |key| => Letter(-Index(Upper(key[j]))))
  }

  lemma {:induction false} InverseKeyShift(key: string, i: nat)
    requires |key| > 0
    ensures KeyShift(InverseKey(key), i) == (-KeyShift(key, i)) % 26
  {
    var ik := InverseKey(key);
    assert |ik| == |key|;
    assert Upper(ik[i % |key|]) == ik[i % |key|];
  }

  lemma {:induction false} ShiftBack(c: char, x: int)
    requires IsUpper(c)
    ensures Shift(Shift(c, x), (-x) % 26) == c
  {
    var k, q := (-x) % 26, (-x) / 26;
    ShiftShift(c, x, k);
    assert Index(c) + (x + k) == Index(c) + 26 * -q by {
      assert -x == 26 * q + k;
    }
    ModShift26(Index(c), -q);
    assert (Index(c) + (x + k)) % 26 == Index(c);
    LetterIndex(c);
  }

  /** Encrypting with the inverse key undoes encryption: the round trip gives
      back the upper-cased text. */
  lemma {:induction false} VigenereInverse(text: string, key: string)
    requires |key| > 0
    ensures VigenereCipher(VigenereCipher(text, key), InverseKey(key)) == UpperString(text)
  {
    var once := VigenereCipher(text, key);
    var twice := VigenereCipher(once, InverseKey(key));
    forall i | 0 <= i < |text|
      ensures twice[i] == Upper(text[i])
    {
      if IsAlpha(text[i]) {
        InverseKeyShift(key, i);
        assert Upper(once[i]) == once[i];
        ShiftBack(Upper(text[i]), KeyShift(key, i));
      }
    }
  }

  /** A one-letter key is a Caesar shift by that letter's index. */
  lemma {:induction false} VigenereSingleLetterKey(text: string, k: char)
    ensures VigenereCipher(text, [k]) == Caesar.CaesarEncrypt(text, Index(Upper(k)))
  {
    var v := VigenereCipher(text, [k]);
    var c := Caesar.CaesarEncrypt(text, Index(Upper(k)));
    forall i | 0 <= i < |text|
      ensures v[i] == c[i]
    {
      assert i % 1 == 0;
    }
  }

  lemma VigenereExample()
    ensures VigenereCipher("a b", "bc") == "B C"
  {
  }
}
