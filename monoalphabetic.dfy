/** The monoalphabetic substitution cipher, used with the reverse-alphabet
    key map A<->Z, B<->Y, ... that the web route builds. */
module Monoalphabetic {
  import opened Alphabet

  /** The reverse-alphabet key map the web route builds: it is defined on
      exactly the upper-case letters and sends the letter with index k to the
      letter with index 25 - k. */
  function ReverseKeyMap(): (m: map<char, char>)
    ensures forall c :: c in m <==> IsUpper(c)
    ensures forall c :: c in m ==> IsUpper(m[c]) && Index(m[c]) == 25 - Index(c)
  {
    map c: char | 'A' <= c <= 'Z' :: (90 - Index(c)) as char
  }

  /** The Python monoalphabetic_encrypt: each upper-cased character is
      looked up in the map, and passes through when it is not a key. */
  function MonoalphabeticEncrypt(text: string, keyMap: map<char, char>): (r: string)
    ensures |r| == |text|
    ensures forall i :: 0 <= i < |text| && Upper(text[i]) in keyMap ==> r[i] == keyMap[Upper(text[i])]
    ensures forall i :: 0 <= i < |text| && Upper(text[i]) !in keyMap ==> r[i] == Upper(text[i])
  {
    var t := UpperString(text);
    seq(|t|, i requires 0 <= i < |t| => if t[i] in keyMap then keyMap[t[i]] else t[i])
  }

  /** The reverse map is its own inverse. */
  lemma {:induction false} ReverseKeyMapIsReversal()
    ensures forall c :: c in ReverseKeyMap() ==> ReverseKeyMap()[c] in ReverseKeyMap()
    ensures forall c :: c in ReverseKeyMap() ==> ReverseKeyMap()[ReverseKeyMap()[c]] == c
  {
    var m := ReverseKeyMap();
    forall c | c in m
      ensures m[c] in m && m[m[c]] == c
    {
      assert Index(m[m[c]]) == Index(c);
    }
  }

  /** With the reverse map, encrypting twice gives back the upper-cased text. */
  lemma {:induction false} MonoalphabeticInvolution(text: string)
    ensures MonoalphabeticEncrypt(MonoalphabeticEncrypt(text, ReverseKeyMap()), ReverseKeyMap()) == UpperString(text)
  {
    ReverseKeyMapIsReversal();
    var once := MonoalphabeticEncrypt(text, ReverseKeyMap());
    var twice := MonoalphabeticEncrypt(once, ReverseKeyMap());
    forall i | 0 <= i < |text|
      ensures twice[i] == Upper(text[i])
    {
      var u := Upper(text[i]);
      if u in ReverseKeyMap() {
        assert once[i] == ReverseKeyMap()[u];
        assert Upper(once[i]) == once[i];
      } else {
        assert once[i] == u;
        assert Upper(u) == u;
      }
    }
  }

  lemma MonoalphabeticExample()
    ensures MonoalphabeticEncrypt("Hello!", ReverseKeyMap()) == "SVOOL!"
  {
    ReverseKeyMapIsReversal();
  }
}
