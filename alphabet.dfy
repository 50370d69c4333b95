/** Shared character utilities for the ciphers: ASCII upper-casing, the
    letter test, letter <-> index arithmetic and the small string rewrites
    (upper-casing, removing spaces, J -> I, padding to even length) that
    several ciphers apply before encrypting. Characters are ASCII: a letter
    is one of A-Z or a-z, and upper-casing touches only a-z. */
module Alphabet {

  /** Python's letter test, on ASCII characters. */
  predicate IsAlpha(c: char) {
    'A' <= c <= 'Z' || 'a' <= c <= 'z'
  }

  /** An upper-case letter A-Z. */
  predicate IsUpper(c: char) {
    'A' <= c <= 'Z'
  }

  predicate AllUpper(s: string) {
    forall i :: 0 <= i < |s| ==> IsUpper(s[i])
  }

  /** Python's upper-casing of one character, on ASCII characters. */
  function Upper(c: char): (u: char)
    ensures IsUpper(u) <==> IsAlpha(c)
    ensures !('a' <= c <= 'z') ==> u == c
    ensures 'a' <= c <= 'z' ==> u as int == c as int - 32
  {
    if 'a' <= c <= 'z' then (c as int - 32) as char else c
  }

  /** Upper-casing of a whole text, character by character. */
  function UpperString(s: string): (u: string)
    ensures |u| == |s|
    ensures forall i :: 0 <= i < |s| ==> u[i] == Upper(s[i])
  {
    seq(|s|, i requires 0 <= i < |s| => Upper(s[i]))
  }

  /** Position of a character relative to 'A' (its code point minus 65). */
  function Index(c: char): int {
    c as int - 65
  }

  /** The upper-case letter whose index is k modulo 26. */
  function Letter(k: int): (c: char)
    ensures IsUpper(c)
    ensures Index(c) == k % 26
  {
    (k % 26 + 65) as char
  }

  /** The character moved k places around the alphabet, as the Caesar and
      Vigenere ciphers compute it. */
  function Shift(c: char, k: int): (d: char)
    ensures IsUpper(d)
  {
    Letter(Index(c) + k)
  }

  lemma {:induction false} LetterIndex(c: char)
    requires IsUpper(c)
    ensures Letter(Index(c)) == c
  {
    assert 0 <= Index(c) < 26;
    assert Index(c) % 26 == Index(c);
  }

  /** Shifting twice is shifting by the sum; the result is independent of
      the first shift's representative modulo 26. */
  lemma {:induction false} ShiftShift(c: char, a: int, b: int)
    ensures Shift(Shift(c, a), b) == Shift(c, a + b)
  {
    assert Index(Shift(c, a)) == (Index(c) + a) % 26;
  }

  /** Adding a multiple of 26 does not change a value modulo 26. */
  lemma {:induction false} ModShift26(z: int, t: int)
    ensures (z + 26 * t) % 26 == z % 26
  {
    var q, r := z / 26, z % 26;
    assert z + 26 * t == 26 * (q + t) + r;
  }

  /** Reducing the operands of a linear combination modulo 26 first does
      not change the combination modulo 26. */
  lemma {:induction false} LinearMod26(a: int, b: int, x: int, y: int)
    ensures (a * (x % 26) + b * (y % 26)) % 26 == (a * x + b * y) % 26
  {
    var qx, qy := x / 26, y / 26;
    var rx, ry := x % 26, y % 26;
    assert a * x == a * rx + 26 * (a * qx) by {
      assert x == 26 * qx + rx;
    }
    assert b * y == b * ry + 26 * (b * qy) by {
      assert y == 26 * qy + ry;
    }
    ModShift26(a * rx + b * ry, a * qx + b * qy);
  }

  /** The text with every space deleted; the other characters keep their
      order (see RemoveSpacesAppend). */
  function RemoveSpaces(s: string): (r: string)
    ensures ' ' !in r
    ensures |r| <= |s|
    ensures forall c :: c != ' ' ==> (c in r <==> c in s)
  {
    if s == [] then []
    else
      assert s == s[..|s| - 1] + [s[|s| - 1]];
      if s[|s| - 1] == ' ' then RemoveSpaces(s[..|s| - 1])
      else RemoveSpaces(s[..|s| - 1]) + [s[|s| - 1]]
  }

  /** Deleting spaces works piece by piece, so the characters that remain
      stay in their order. */
  lemma {:induction false} RemoveSpacesAppend(s: string, t: string)
    ensures RemoveSpaces(s + t) == RemoveSpaces(s) + RemoveSpaces(t)
  {
    if t == [] {
      assert s + t == s;
    } else {
      var t', c := t[..|t| - 1], t[|t| - 1];
      var tail := if c == ' ' then [] else [c];
      RemoveSpacesLast(s + t);
      RemoveSpacesLast(t);
      assert (s + t)[..|s + t| - 1] == s + t';
      assert (s + t)[|s + t| - 1] == c;
      RemoveSpacesAppend(s, t');
      assert (RemoveSpaces(s) + RemoveSpaces(t')) + tail
          == RemoveSpaces(s) + (RemoveSpaces(t') + tail);
    }
  }

  /** Deleting spaces from a non-empty text handles its last character last. */
  lemma RemoveSpacesLast(s: string)
    requires s != []
    ensures RemoveSpaces(s) == RemoveSpaces(s[..|s| - 1]) + (if s[|s| - 1] == ' ' then [] else [s[|s| - 1]])
  {
  }

  /** Deleting spaces keeps every other character as often as it occurs. */
  lemma {:induction false} RemoveSpacesMultiset(s: string)
    ensures multiset(RemoveSpaces(s)) == multiset(s)[' ' := 0]
  {
    if s != [] {
      var t := s[..|s| - 1];
      RemoveSpacesMultiset(t);
      RemoveSpacesLast(s);
      assert s == t + [s[|s| - 1]];
    }
  }

  /** Text without spaces is left alone. */
  lemma {:induction false} RemoveSpacesNone(s: string)
    requires ' ' !in s
    ensures RemoveSpaces(s) == s
  {
    if s != [] {
      RemoveSpacesNone(s[..|s| - 1]);
      assert s == s[..|s| - 1] + [s[|s| - 1]];
    }
  }

  /** The text with every J replaced by I. */
  function ReplaceJ(s: string): (r: string)
    ensures |r| == |s|
    ensures 'J' !in r
    ensures forall i :: 0 <= i < |s| ==> r[i] == if s[i] == 'J' then 'I' else s[i]
  {
    seq(|s|, i requires 0 <= i < |s| => if s[i] == 'J' then 'I' else s[i])
  }

  /** The text padded with one X when its length is odd. */
  function PadEven(s: string): (r: string)
    ensures |r| % 2 == 0
    ensures |r| == if |s| % 2 == 0 then |s| else |s| + 1
    ensures r[..|s|] == s
    ensures |s| < |r| ==> r[|s|] == 'X'
  {
    if |s| % 2 != 0 then s + "X" else s
  }

  /** A positive multiple of c is at least c. */
  lemma MulAtLeast(k: int, c: int)
    requires k >= 1 && c > 0
    ensures k * c >= c
  {
  }

  /** Euclidean division is unique: a quotient and an in-range remainder
      that rebuild `a` are the ones `/` and `%` give. */
  lemma {:induction false} ModUnique(a: int, c: int, q: int, r: int)
    requires c > 0 && 0 <= r < c && a == q * c + r
    ensures a % c == r
  {
    var q', r' := a / c, a % c;
    assert a == q' * c + r';
    assert (q - q') * c == r' - r;
    if q > q' {
      MulAtLeast(q - q', c);
    } else if q < q' {
      MulAtLeast(q' - q, c);
    }
  }
}
