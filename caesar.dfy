/** The Caesar cipher: every letter of the upper-cased text moves `shift`
    places around the alphabet; every other character is copied. */
module Caesar {
  import opened Alphabet

  /** The Python caesar_encrypt, for any integer shift. */
  function CaesarEncrypt(text: string, shift: int): (r: string)
    ensures |r| == |text|
    ensures forall i :: 0 <= i < |text| && !IsAlpha(text[i]) ==> r[i] == text[i]
    ensures forall i :: 0 <= i < |text| && IsAlpha(text[i]) ==>
      IsUpper(r[i]) && Index(r[i]) == (Index(Upper(text[i])) + shift) % 26
  {
    var t := UpperString(text);
    seq(|t|, i requires 0 <= i < |t| => if IsAlpha(t[i]) then Shift(t[i], shift) else t[i])
  }

  /** Encrypting with `a` and then with `b` is encrypting once with `a + b`. */
  lemma {:induction false} CaesarCompose(text: string, a: int, b: int)
    ensures CaesarEncrypt(CaesarEncrypt(text, a), b) == CaesarEncrypt(text, a + b)
  {
    var once := CaesarEncrypt(text, a);
    var twice := CaesarEncrypt(once, b);
    var direct := CaesarEncrypt(text, a + b);
    forall i | 0 <= i < |text|
      ensures twice[i] == direct[i]
    {
      if IsAlpha(text[i]) {
        ShiftShift(Upper(text[i]), a, b);
      }
    }
  }

  /** Shift zero only upper-cases. */
  lemma {:induction false} CaesarZero(text: string)
    ensures CaesarEncrypt(text, 0) == UpperString(text)
  {
    var r := CaesarEncrypt(text, 0);
    forall i | 0 <= i < |text|
      ensures r[i] == Upper(text[i])
    {
      if IsAlpha(text[i]) {
        LetterIndex(Upper(text[i]));
      }
    }
  }

  /** Shift `-s` undoes shift `s`, giving back the upper-cased text. */
  lemma {:induction false} CaesarInverse(text: string, s: int)
    ensures CaesarEncrypt(CaesarEncrypt(text, s), -s) == UpperString(text)
  {
    CaesarCompose(text, s, -s);
    CaesarZero(text);
  }

  /** Shifts that agree modulo 26 encrypt alike. */
  lemma {:induction false} CaesarPeriodic(text: string, s: int, k: int)
    ensures CaesarEncrypt(text, s + 26 * k) == CaesarEncrypt(text, s)
  {
    var r1 := CaesarEncrypt(text, s + 26 * k);
    var r2 := CaesarEncrypt(text, s);
    forall i | 0 <= i < |text|
      ensures r1[i] == r2[i]
    {
      if IsAlpha(text[i]) {
        var x := Index(Upper(text[i]));
        ModShift26(x + s, k);
        assert Letter(x + (s + 26 * k)) == Letter(x + s);
      }
    }
  }

  lemma CaesarExample()
    ensures CaesarEncrypt("Hello, World", 3) == "KHOOR, ZRUOG"
  {
  }
}
