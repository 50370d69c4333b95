/** The algorithm selection of the web route: the algorithm name picks one
    of the seven ciphers, which is applied to the text with the string key,
    its integer reading, or one of the two fixed keys the route supplies.
    An unknown name leaves the output empty. */
module Dispatcher {
  import opened Alphabet
  import Caesar
  import Monoalphabetic
  import Playfair
  import Hill
  import Vigenere
  import RailFence
  import RowColumn

  /** The names the route recognises. */
  predicate Known(algorithm: string) {
    algorithm in ["caesar", "mono", "playfair", "hill", "vigenere", "rail", "row"]
  }

  /** The inputs on which the chosen cipher returns rather than raising:
      Playfair looks every prepared character up in its table, Vigenere
      and row-column divide by the key's length, and the rail fence indexes
      its rails by the row. */
  predicate Defined(algorithm: string, text: string, key: string, intKey: int) {
    if algorithm == "playfair" then Playfair.PlayfairDefined(text, key)
    else if algorithm == "vigenere" then |key| > 0 || Vigenere.NoLetters(text)
    else if algorithm == "rail" then RailFence.RailFenceDefined(text, intKey)
    else if algorithm == "row" then |key| > 0
    else true
  }

  /** Letters-only text and key, a non-empty key and, for the rail fence, at
      least two rails are always enough for the selection to return. */
  lemma LettersOnlySelectionDefined(algorithm: string, text: string, key: string, intKey: int)
    requires Playfair.LettersOnly(text) && Playfair.LettersOnly(key) && |key| > 0
    requires algorithm == "rail" ==> intKey >= 2
    ensures Defined(algorithm, text, key, intKey)
  {
    if algorithm == "playfair" {
      Playfair.LettersOnlyDefined(text, key);
    }
  }

  /** The output the route renders for the given form fields. `intKey` is
      the key already read as an integer, for the ciphers that take one.
      The substitution ciphers keep the length of the text, Playfair rounds
      it up to even, Hill emits upper-case letters in pairs, and an unknown
      name gives the empty output. */
  function Output(algorithm: string, text: string, key: string, intKey: int): (r: string)
    requires Defined(algorithm, text, key, intKey)
    ensures !Known(algorithm) ==> r == ""
    ensures algorithm == "caesar" || algorithm == "mono" || algorithm == "vigenere" ==> |r| == |text|
    ensures algorithm == "playfair" ==> |r| == if |text| % 2 == 0 then |text| else |text| + 1
    ensures algorithm == "hill" ==> AllUpper(r) && |r| % 2 == 0
    ensures algorithm == "rail" ==> multiset(r) == multiset(text) && |r| == |text|
    ensures algorithm == "row" ==>
      multiset(r) == multiset(RowColumn.RowColumnPrepare(text, |key|)) && |r| % |key| == 0
  {
    if algorithm == "caesar" then Caesar.CaesarEncrypt(text, intKey)
    else if algorithm == "mono" then Monoalphabetic.MonoalphabeticEncrypt(text, Monoalphabetic.ReverseKeyMap())
    else if algorithm == "playfair" then Playfair.PlayfairCipher(text, key)
    else if algorithm == "hill" then Hill.HillCipher(text, Hill.HillKey())
    else if algorithm == "vigenere" then Vigenere.VigenereCipher(text, key)
    else if algorithm == "rail" then RailFence.RailFence(text, intKey)
    else if algorithm == "row" then
      var rows := RowColumn.RowCount(|RemoveSpaces(text)|, |key|);
      ModUnique(rows * |key|, |key|, rows, 0);
      RowColumn.RowColumnCipher(text, key)
    else ""
  }

  /** The route's chain of tests on the algorithm name, calling each
      cipher's own procedure. */
  method Encrypt(algorithm: string, text: string, key: string, intKey: int) returns (output: string)
    requires Defined(algorithm, text, key, intKey)
    ensures output == Output(algorithm, text, key, intKey)
  {
    output := "";
    if algorithm == "caesar" {
      output := Caesar.CaesarEncrypt(text, intKey);
    } else if algorithm == "mono" {
      var keyMap := Monoalphabetic.ReverseKeyMap();
      output := Monoalphabetic.MonoalphabeticEncrypt(text, keyMap);
    } else if algorithm == "playfair" {
      output := Playfair.PlayfairEncrypt(text, key);
    } else if algorithm == "hill" {
      var keyMatrix := Hill.HillKey();
      output := Hill.HillEncrypt(text, keyMatrix);
    } else if algorithm == "vigenere" {
      output := Vigenere.VigenereEncrypt(text, key);
    } else if algorithm == "rail" {
      output := RailFence.RailFenceEncrypt(text, intKey);
    } else if algorithm == "row" {
      output := RowColumn.RowColumnEncrypt(text, key);
    }
  }
}
