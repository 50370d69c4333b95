/** The Playfair cipher: a 5x5 square is filled with the key's distinct
    letters (J read as I) followed by the rest of the alphabet without J, and
    the upper-cased text, with J read as I and one X added when its length is
    odd, is encrypted pair by pair with the same-row, same-column and
    rectangle rules. */
module Playfair {
  import opened Alphabet

  /** The 25 letters of the square: A-Z without J. */
  const PlayfairAlphabet: string := "ABCDEFGHIKLMNOPQRSTUVWXYZ"

  /** No character occurs twice. */
  predicate Distinct(s: string) {
    forall i, j :: 0 <= i < j < |s| ==> s[i] != s[j]
  }

  /** Every character is an ASCII letter. */
  predicate LettersOnly(s: string) {
    forall i :: 0 <= i < |s| ==> IsAlpha(s[i])
  }

  /** The set of characters of s. */
  function Elems(s: string): set<char> {
    set c | c in s
  }

  /** Letter i of PlayfairAlphabet, J skipped. */
  function AlphabetAt(i: int): char
    requires 0 <= i < 25
  {
    if i < 9 then (65 + i) as char else (66 + i) as char
  }

  lemma PlayfairAlphabetLetters()
    ensures |PlayfairAlphabet| == 25
    ensures forall i :: 0 <= i < 25 ==> PlayfairAlphabet[i] == AlphabetAt(i)
  {
  }

  /** The square's alphabet is exactly the upper-case letters but J. */
  lemma {:induction false} PlayfairAlphabetMembers(c: char)
    ensures c in PlayfairAlphabet <==> IsUpper(c) && c != 'J'
  {
    PlayfairAlphabetLetters();
    if IsUpper(c) && c != 'J' {
      var i := if c < 'J' then c as int - 65 else c as int - 66;
      assert PlayfairAlphabet[i] == c;
    }
  }

  lemma {:induction false} PlayfairAlphabetDistinct()
    ensures Distinct(PlayfairAlphabet)
  {
    PlayfairAlphabetLetters();
  }

  /** The key in upper case, every J read as I. */
  function PrepareKey(key: string): (k: string)
    ensures |k| == |key| && 'J' !in k
  {
    ReplaceJ(UpperString(key))
  }

  /** The first loops of the Python generate_playfair_matrix: each
      character of s is appended to acc unless acc already holds it (see
      AppendNewOrder for the order they keep). */
  function AppendNew(acc: string, s: string): (r: string)
    ensures |acc| <= |r| && r[..|acc|] == acc
    ensures forall c :: c in r <==> c in acc || c in s
    ensures Distinct(acc) ==> Distinct(r)
  {
    if s == [] then acc
    else
      var r := AppendNew(acc, s[..|s| - 1]);
      var c := s[|s| - 1];
      assert forall d :: d in s <==> d in s[..|s| - 1] || d == c by {
        assert s == s[..|s| - 1] + [c];
      }
      if c in r then r else r + [c]
  }

  /** The key's distinct letters, J read as I, in order of first occurrence. */
  function KeyLetters(key: string): (r: string)
    ensures Distinct(r)
    ensures forall c :: c in r <==> c in PrepareKey(key)
    ensures InFirstOccurrenceOrder(r, 0, PrepareKey(key))
  {
    AppendNewOrder("", PrepareKey(key));
    AppendNew("", PrepareKey(key))
  }

  /** Where c first occurs in s. */
  function FirstIndex(s: string, c: char): (i: nat)
    requires c in s
    ensures i < |s| && s[i] == c && c !in s[..i]
  {
    if s[0] == c then 0
    else
      var i := 1 + FirstIndex(s[1..], c);
      assert s[..i] == [s[0]] + s[1..][..i - 1];
      i
  }

  /** The characters of r from position `from` on are in the order of
      their first occurrence in s. */
  predicate InFirstOccurrenceOrder(r: string, from: nat, s: string) {
    forall i, j :: from <= i < j < |r| && r[i] in s && r[j] in s ==>
      FirstIndex(s, r[i]) < FirstIndex(s, r[j])
  }

  /** A position holding c with no c before it is c's first occurrence. */
  lemma FirstIndexUnique(s: string, c: char, i: nat)
    requires i < |s| && s[i] == c && c !in s[..i]
    ensures FirstIndex(s, c) == i
  {
  }

  /** The characters AppendNew adds are new characters of s, and they come
      in the order of their first occurrence in s. */
  lemma {:induction false} AppendNewOrder(acc: string, s: string)
    ensures NewInOrder(acc, AppendNew(acc, s), s)
  {
    if s != [] {
      var n := |s| - 1;
      var r' := AppendNew(acc, s[..n]);
      AppendNewOrder(acc, s[..n]);
      if s[n] in r' {
        OrderKeep(acc, r', s);
      } else {
        OrderAdd(acc, r', s);
      }
    }
  }

  /** The characters of r after acc are characters of s missing from acc,
      in the order of their first occurrence in s. */
  predicate NewInOrder(acc: string, r: string, s: string) {
    && |acc| <= |r|
    && (forall i :: |acc| <= i < |r| ==> r[i] in s && r[i] !in acc)
    && InFirstOccurrenceOrder(r, |acc|, s)
  }

  /** What holds for the prefix of s still holds for s. */
  lemma OrderKeep(acc: string, r: string, s: string)
    requires |s| > 0 && NewInOrder(acc, r, s[..|s| - 1])
    ensures NewInOrder(acc, r, s)
  {
    var front := s[..|s| - 1];
    forall i | |acc| <= i < |r|
      ensures r[i] in s
    {
      FirstIndexSnoc(s, r[i]);
    }
    forall i, j | |acc| <= i < j < |r| && r[i] in s && r[j] in s
      ensures FirstIndex(s, r[i]) < FirstIndex(s, r[j])
    {
      FirstIndexSnoc(s, r[i]);
      FirstIndexSnoc(s, r[j]);
    }
  }

  /** A last character of s that is new to r and acc can follow r. */
  lemma OrderAdd(acc: string, r: string, s: string)
    requires |s| > 0 && NewInOrder(acc, r, s[..|s| - 1])
    requires forall c :: c in s[..|s| - 1] ==> c in r
    requires s[|s| - 1] !in r && forall c :: c in acc ==> c in r
    ensures NewInOrder(acc, r + [s[|s| - 1]], s)
  {
    var c, grown := s[|s| - 1], r + [s[|s| - 1]];
    FirstIndexLast(s);
    forall i | |acc| <= i < |grown|
      ensures grown[i] in s && grown[i] !in acc
    {
      if i < |r| {
        assert grown[i] == r[i];
        FirstIndexSnoc(s, r[i]);
      }
    }
    forall i, j | |acc| <= i < j < |grown| && grown[i] in s && grown[j] in s
      ensures FirstIndex(s, grown[i]) < FirstIndex(s, grown[j])
    {
      assert grown[i] == r[i];
      FirstIndexSnoc(s, r[i]);
      if j < |r| {
        assert grown[j] == r[j];
        FirstIndexSnoc(s, r[j]);
      }
    }
  }

  /** A character before the last position of s first occurs in s where
      it first occurs in that prefix. */
  lemma FirstIndexSnoc(s: string, x: char)
    requires |s| > 0 && x in s[..|s| - 1]
    ensures x in s && FirstIndex(s, x) == FirstIndex(s[..|s| - 1], x) < |s| - 1
  {
    var front := s[..|s| - 1];
    var k := FirstIndex(front, x);
    assert s[..k] == front[..k];
    FirstIndexUnique(s, x, k);
  }

  /** A last character that is new to the rest of s first occurs at the end. */
  lemma FirstIndexLast(s: string)
    requires |s| > 0 && s[|s| - 1] !in s[..|s| - 1]
    ensures FirstIndex(s, s[|s| - 1]) == |s| - 1
  {
    FirstIndexUnique(s, s[|s| - 1], |s| - 1);
  }

  /** The whole string the helper builds before cutting it into rows: the
      key's letters, then every alphabet letter not yet present. */
  function FillOrder(key: string): (r: string)
    ensures Distinct(r) && 'J' !in r
    ensures |KeyLetters(key)| <= |r| && r[..|KeyLetters(key)|] == KeyLetters(key)
    ensures forall c :: c in r <==> c in PrepareKey(key) || c in PlayfairAlphabet
  {
    PlayfairAlphabetMembers('J');
    AppendNew(KeyLetters(key), PlayfairAlphabet)
  }

  /** The characters of s that are not in acc, in their order in s (see
      WithoutMembers). */
  function Without(s: string, acc: string): string {
    if s == [] then []
    else
      var c := s[|s| - 1];
      Without(s[..|s| - 1], acc) + (if c in acc then [] else [c])
  }

  /** Without keeps exactly the characters of s that acc lacks, and is
      never longer than s. */
  lemma {:induction false} WithoutMembers(s: string, acc: string)
    ensures forall c :: c in Without(s, acc) <==> c in s && c !in acc
    ensures |Without(s, acc)| <= |s|
  {
    if s != [] {
      var s' := s[..|s| - 1];
      WithoutMembers(s', acc);
      assert s == s' + [s[|s| - 1]];
    }
  }

  /** Nothing is taken away from s by an empty acc. */
  lemma {:induction false} WithoutNothing(s: string)
    ensures Without(s, "") == s
  {
    if s != [] {
      WithoutNothing(s[..|s| - 1]);
      assert s == s[..|s| - 1] + [s[|s| - 1]];
    }
  }

  /** Appending the new characters of a string without repeats adds exactly
      those not already there, in their order. */
  lemma {:induction false} AppendNewWithout(acc: string, s: string)
    requires Distinct(s)
    ensures AppendNew(acc, s) == acc + Without(s, acc)
  {
    if s != [] {
      var s' := s[..|s| - 1];
      var c := s[|s| - 1];
      assert Distinct(s') && c !in s' by {
        assert forall i :: 0 <= i < |s'| ==> s'[i] == s[i];
      }
      AppendNewWithout(acc, s');
    }
  }

  /** The fill order is the key's letters followed by the rest of the
      alphabet in alphabetical order. */
  lemma {:induction false} FillOrderSpec(key: string)
    ensures FillOrder(key) == KeyLetters(key) + Without(PlayfairAlphabet, KeyLetters(key))
  {
    PlayfairAlphabetDistinct();
    AppendNewWithout(KeyLetters(key), PlayfairAlphabet);
  }

  /** A key without repeated letters (after upper-casing and J -> I) is
      taken over unchanged. */
  lemma {:induction false} DistinctKeyLetters(key: string)
    requires Distinct(PrepareKey(key))
    ensures KeyLetters(key) == PrepareKey(key)
  {
    AppendNewWithout("", PrepareKey(key));
    WithoutNothing(PrepareKey(key));
  }

  lemma {:induction false} DistinctCard(s: string)
    requires Distinct(s)
    ensures |Elems(s)| == |s|
  {
    if s != [] {
      var t := s[..|s| - 1];
      DistinctCard(t);
      assert s == t + [s[|s| - 1]];
      assert Elems(s) == Elems(t) + {s[|s| - 1]};
    }
  }

  lemma {:induction false} SubsetCard(a: set<char>, b: set<char>)
    requires a <= b
    ensures |a| <= |b|
    decreases a
  {
    if a != {} {
      var x :| x in a;
      SubsetCard(a - {x}, b - {x});
    }
  }

  /** Every alphabet letter ends up in the fill order, so it is never
      shorter than the square. */
  lemma {:induction false} FillOrderLength(key: string)
    ensures |FillOrder(key)| >= 25
  {
    var r := FillOrder(key);
    PlayfairAlphabetDistinct();
    DistinctCard(PlayfairAlphabet);
    DistinctCard(r);
    SubsetCard(Elems(PlayfairAlphabet), Elems(r));
  }

  /** The 25 letters of the square, row by row: the first 25 characters of
      the fill order. */
  function KeySquare(key: string): (sq: string)
    ensures |sq| == 25 && Distinct(sq) && 'J' !in sq
  {
    FillOrderLength(key);
    FillOrder(key)[..25]
  }

  /** One more character for AppendNew. */
  lemma {:induction false} AppendNewStep(acc: string, s: string, i: nat)
    requires i < |s|
    ensures AppendNew(acc, s[..i + 1]) ==
      if s[i] in AppendNew(acc, s[..i]) then AppendNew(acc, s[..i]) else AppendNew(acc, s[..i]) + [s[i]]
  {
    assert s[..i + 1][..i] == s[..i];
  }

  /** Five rows of five characters. */
  predicate IsGrid(m: seq<seq<char>>) {
    |m| == 5 && forall i :: 0 <= i < 5 ==> |m[i]| == 5
  }

  /** The first 25 characters of s cut into five rows of five. */
  function Rows(s: string): (m: seq<seq<char>>)
    requires |s| >= 25
    ensures IsGrid(m)
    ensures forall i, j :: 0 <= i < 5 && 0 <= j < 5 ==> m[i][j] == s[5 * i + j]
  {
    var m := seq(5, i requires 0 <= i < 5 => s[5 * i..5 * i + 5]);
    assert forall i, j :: 0 <= i < 5 && 0 <= j < 5 ==> m[i][j] == s[5 * i + j] by {
      forall i, j | 0 <= i < 5 && 0 <= j < 5
        ensures m[i][j] == s[5 * i + j]
      {
        assert m[i] == s[5 * i..5 * i + 5];
      }
    }
    m
  }

  /** Only the first 25 characters reach the matrix. */
  lemma {:induction false} RowsPrefix(s: string)
    requires |s| >= 25
    ensures Rows(s) == Rows(s[..25])
  {
    var m1, m2 := Rows(s), Rows(s[..25]);
    forall i | 0 <= i < 5
      ensures m1[i] == m2[i]
    {
      assert m1[i] == s[5 * i..5 * i + 5];
      assert m2[i] == s[..25][5 * i..5 * i + 5];
    }
  }

  /** The matrix the Python generate_playfair_matrix returns for the key. */
  function KeyMatrix(key: string): (m: seq<seq<char>>)
    ensures IsGrid(m)
    ensures forall i, j :: 0 <= i < 5 && 0 <= j < 5 ==> m[i][j] == KeySquare(key)[5 * i + j]
  {
    Rows(KeySquare(key))
  }

  /** The Python generate_playfair_matrix: five rows of five, row i
      holding letters 5i..5i+4 of the fill order. */
  method GeneratePlayfairMatrix(key: string) returns (matrix: seq<seq<char>>)
    ensures matrix == KeyMatrix(key)
    ensures IsGrid(matrix)
    ensures forall i, j :: 0 <= i < 5 && 0 <= j < 5 ==> matrix[i][j] == KeySquare(key)[5 * i + j]
  {
    var k := PrepareKey(key);
    var result := "";
    for i := 0 to |k|
      invariant result == AppendNew("", k[..i])
    {
      AppendNewStep("", k, i);
      if k[i] !in result {
        result := result + [k[i]];
      }
    }
    assert result == KeyLetters(key) by {
      assert k[..|k|] == k;
    }
    var alphabet := PlayfairAlphabet;
    for i := 0 to |alphabet|
      invariant result == AppendNew(KeyLetters(key), alphabet[..i])
    {
      AppendNewStep(KeyLetters(key), alphabet, i);
      if alphabet[i] !in result {
        result := result + [alphabet[i]];
      }
    }
    assert result == FillOrder(key) by {
      assert alphabet[..|alphabet|] == alphabet;
    }
    FillOrderLength(key);
    matrix := Rows(result);
    RowsPrefix(result);
  }

  /** For a key made of letters only the fill order has exactly 25
      letters: the square holds every letter but J exactly once, the key's
      distinct letters first. */
  lemma {:induction false} LettersOnlyKeySquare(key: string)
    requires LettersOnly(key)
    ensures KeySquare(key) == FillOrder(key)
    ensures forall c :: c in KeySquare(key) <==> IsUpper(c) && c != 'J'
    ensures KeySquare(key)[..|KeyLetters(key)|] == KeyLetters(key)
  {
    var r := FillOrder(key);
    forall c | c in r
      ensures c in PlayfairAlphabet
    {
      if c in PrepareKey(key) {
        var i :| 0 <= i < |key| && PrepareKey(key)[i] == c;
        assert IsUpper(c) by {
          assert IsAlpha(key[i]);
        }
      }
      PlayfairAlphabetMembers(c);
    }
    assert Elems(r) <= Elems(PlayfairAlphabet);
    SubsetCard(Elems(r), Elems(PlayfairAlphabet));
    PlayfairAlphabetDistinct();
    DistinctCard(PlayfairAlphabet);
    DistinctCard(r);
    FillOrderLength(key);
    assert r[..25] == r;
    forall c
      ensures c in r <==> IsUpper(c) && c != 'J'
    {
      PlayfairAlphabetMembers(c);
    }
  }

  /** The text in upper case with every J read as I, then one X if the
      length is odd. Spaces and other non-letters are kept. */
  function PlayfairPrepare(text: string): (p: string)
    ensures |p| % 2 == 0
    ensures |p| == if |text| % 2 == 0 then |text| else |text| + 1
    ensures 'J' !in p
  {
    var t := ReplaceJ(UpperString(text));
    assert 'J' !in PadEven(t) by {
      if |t| % 2 != 0 {
        assert PadEven(t) == t + "X";
      }
    }
    PadEven(t)
  }

  /** `pos` is a position table of the grid m: every cell's character is
      a key, and every key is mapped to a cell that holds it. */
  predicate IsTable(m: seq<seq<char>>, pos: map<char, (int, int)>)
    requires IsGrid(m)
  {
    (forall i, j :: 0 <= i < 5 && 0 <= j < 5 ==> m[i][j] in pos) &&
    (forall c :: c in pos ==> 0 <= pos[c].0 < 5 && 0 <= pos[c].1 < 5 && m[pos[c].0][pos[c].1] == c)
  }

  /** No two cells hold the same character, so the table leads from each
      cell's character back to that very cell. */
  predicate Exact(m: seq<seq<char>>, pos: map<char, (int, int)>)
    requires IsGrid(m)
  {
    forall i, j :: 0 <= i < 5 && 0 <= j < 5 ==> m[i][j] in pos && pos[m[i][j]] == (i, j)
  }

  /** The dictionary comprehension after its first n cells, row by row:
      each cell's character is entered with its row and column, a later
      entry replacing an earlier one. */
  function PositionsUpTo(m: seq<seq<char>>, n: nat): (pos: map<char, (int, int)>)
    requires IsGrid(m) && n <= 25
    ensures forall k :: 0 <= k < n ==> m[k / 5][k % 5] in pos
    ensures forall c :: c in pos ==>
      0 <= pos[c].0 < 5 && 0 <= pos[c].1 < 5 && m[pos[c].0][pos[c].1] == c
  {
    if n == 0 then map[]
    else PositionsUpTo(m, n - 1)[m[(n - 1) / 5][(n - 1) % 5] := ((n - 1) / 5, (n - 1) % 5)]
  }

  /** The position table of the matrix: each cell's character mapped to
      its row and column, scanning rows top to bottom and each row left to
      right. */
  function Positions(m: seq<seq<char>>): (pos: map<char, (int, int)>)
    requires IsGrid(m)
    ensures IsTable(m, pos)
  {
    var pos := PositionsUpTo(m, 25);
    assert forall i, j :: 0 <= i < 5 && 0 <= j < 5 ==> m[i][j] in pos by {
      forall i, j | 0 <= i < 5 && 0 <= j < 5
        ensures m[i][j] in pos
      {
        var k := 5 * i + j;
        assert k / 5 == i && k % 5 == j;
      }
    }
    pos
  }

  /** A table of the matrix of a square without repeated letters is exact. */
  lemma {:induction false} DistinctSquareExact(sq: string, m: seq<seq<char>>, pos: map<char, (int, int)>)
    requires |sq| == 25 && Distinct(sq) && IsGrid(m) && IsTable(m, pos)
    requires forall i, j :: 0 <= i < 5 && 0 <= j < 5 ==> m[i][j] == sq[5 * i + j]
    ensures Exact(m, pos)
  {
    forall i, j | 0 <= i < 5 && 0 <= j < 5
      ensures pos[m[i][j]] == (i, j)
    {
      var i', j' := pos[m[i][j]].0, pos[m[i][j]].1;
      assert sq[5 * i' + j'] == sq[5 * i + j];
    }
  }

  /** The key's table gives every letter of the square its own cell. */
  lemma {:induction false} KeyTableExact(key: string)
    ensures Exact(KeyMatrix(key), Positions(KeyMatrix(key)))
  {
    DistinctSquareExact(KeySquare(key), KeyMatrix(key), Positions(KeyMatrix(key)));
  }

  /** A character has an entry in the key's table exactly when it is in the
      square. */
  lemma {:induction false} PositionsOfKey(key: string, c: char)
    ensures c in Positions(KeyMatrix(key)) <==> c in KeySquare(key)
  {
    var m, sq := KeyMatrix(key), KeySquare(key);
    if c in sq {
      var k :| 0 <= k < 25 && sq[k] == c;
      assert m[k / 5][k % 5] == c;
    }
  }

  /** Every character of the prepared text has an entry in the position
      table, so no lookup raises KeyError: exactly when every prepared
      character is a letter of the key's square. */
  predicate PlayfairDefined(text: string, key: string)
    ensures PlayfairDefined(text, key) <==>
      forall i :: 0 <= i < |PlayfairPrepare(text)| ==> PlayfairPrepare(text)[i] in KeySquare(key)
  {
    var p, pos := PlayfairPrepare(text), Positions(KeyMatrix(key));
    assert forall c :: c in pos <==> c in KeySquare(key) by {
      forall c
        ensures c in pos <==> c in KeySquare(key)
      {
        PositionsOfKey(key, c);
      }
    }
    forall i :: 0 <= i < |p| ==> p[i] in pos
  }

  /** The Playfair rule for the letters at p1 and p2: same row, each moves
      one column right; same column, one row down; otherwise each takes the
      other's column. Rows and columns wrap modulo 5. */
  function Rule(m: seq<seq<char>>, p1: (int, int), p2: (int, int)): (d: (char, char))
    requires IsGrid(m)
    requires 0 <= p1.0 < 5 && 0 <= p1.1 < 5 && 0 <= p2.0 < 5 && 0 <= p2.1 < 5
    ensures var q := Move(p1, p2);
      0 <= q.0.0 < 5 && 0 <= q.0.1 < 5 && 0 <= q.1.0 < 5 && 0 <= q.1.1 < 5 &&
      d == (m[q.0.0][q.0.1], m[q.1.0][q.1.1])
  {
    var r1, c1, r2, c2 := p1.0, p1.1, p2.0, p2.1;
    if r1 == r2 then (m[r1][(c1 + 1) % 5], m[r2][(c2 + 1) % 5])
    else if c1 == c2 then (m[(r1 + 1) % 5][c1], m[(r2 + 1) % 5][c2])
    else (m[r1][c2], m[r2][c1])
  }

  /** The digraph the pair (a, b) encrypts to, looked up through `pos`. */
  function Digraph(m: seq<seq<char>>, pos: map<char, (int, int)>, a: char, b: char): (d: (char, char))
    requires IsGrid(m) && IsTable(m, pos) && a in pos && b in pos
    ensures d.0 in pos && d.1 in pos
  {
    Rule(m, pos[a], pos[b])
  }

  /** Character k of the cipher text: one half of the digraph of its pair. */
  function PairAt(p: string, m: seq<seq<char>>, pos: map<char, (int, int)>, k: nat): char
    requires IsGrid(m) && IsTable(m, pos)
    requires |p| % 2 == 0 && k < |p|
    requires forall i :: 0 <= i < |p| ==> p[i] in pos
  {
    if k % 2 == 0 then Digraph(m, pos, p[k], p[k + 1]).0 else Digraph(m, pos, p[k - 1], p[k]).1
  }

  /** The prepared text p encrypted pair by pair. */
  function Encipher(p: string, m: seq<seq<char>>, pos: map<char, (int, int)>): (r: string)
    requires IsGrid(m) && IsTable(m, pos)
    requires |p| % 2 == 0
    requires forall i :: 0 <= i < |p| ==> p[i] in pos
    ensures |r| == |p|
    ensures forall k :: 0 <= k < |r| ==> r[k] in pos
  {
    seq(|p|, k requires 0 <= k < |p| => PairAt(p, m, pos, k))
  }

  /** The cipher text the Python playfair_encrypt builds: its length is
      the text's rounded up to even and it consists of square letters, so
      never of J. */
  function PlayfairCipher(text: string, key: string): (r: string)
    requires PlayfairDefined(text, key)
    ensures |r| == if |text| % 2 == 0 then |text| else |text| + 1
    ensures forall k :: 0 <= k < |r| ==> r[k] in KeySquare(key)
    ensures 'J' !in r
  {
    var m := KeyMatrix(key);
    var r := Encipher(PlayfairPrepare(text), m, Positions(m));
    assert forall k :: 0 <= k < |r| ==> r[k] in KeySquare(key) by {
      forall k | 0 <= k < |r|
        ensures r[k] in KeySquare(key)
      {
        PositionsOfKey(key, r[k]);
      }
    }
    r
  }

  /** Two more characters of the cipher text: the digraph of pair i. */
  lemma {:induction false} EncipherStep(p: string, m: seq<seq<char>>, pos: map<char, (int, int)>, i: nat)
    requires IsGrid(m) && IsTable(m, pos)
    requires |p| % 2 == 0
    requires forall i :: 0 <= i < |p| ==> p[i] in pos
    requires i % 2 == 0 && i < |p|
    ensures var d := Digraph(m, pos, p[i], p[i + 1]);
      Encipher(p, m, pos)[..i + 2] == Encipher(p, m, pos)[..i] + [d.0, d.1]
  {
    var e := Encipher(p, m, pos);
    assert e[i] == PairAt(p, m, pos, i);
    assert e[i + 1] == PairAt(p, m, pos, i + 1);
    assert (i + 1) % 2 == 1 && i + 1 - 1 == i;
    TakeTwo(e, i);
  }

  lemma TakeTwo(s: string, i: nat)
    requires i + 2 <= |s|
    ensures s[..i + 2] == s[..i] + [s[i], s[i + 1]]
  {
  }

  /** The Python playfair_encrypt: the text is prepared, the matrix and
      its position table are built, and the pairs are encrypted. */
  method PlayfairEncrypt(text: string, key: string) returns (result: string)
    requires PlayfairDefined(text, key)
    ensures result == PlayfairCipher(text, key)
  {
    var t := ReplaceJ(UpperString(text));
    if |t| % 2 != 0 {
      t := t + "X";
    }
    var matrix := GeneratePlayfairMatrix(key);
    var pos := Positions(matrix);
    assert t == PlayfairPrepare(text);
    result := EncryptPairs(t, matrix, pos);
  }

  /** The loop of the Python playfair_encrypt over the pairs of the
      prepared text t, looking each letter up in the table `pos` of the
      matrix. */
  method EncryptPairs(t: string, matrix: seq<seq<char>>, pos: map<char, (int, int)>) returns (result: string)
    requires IsGrid(matrix) && IsTable(matrix, pos) && |t| % 2 == 0
    requires forall i :: 0 <= i < |t| ==> t[i] in pos
    ensures result == Encipher(t, matrix, pos)
  {
    ghost var whole := Encipher(t, matrix, pos);
    result := "";
    var i := 0;
    while i < |t|
      invariant 0 <= i <= |t| && i % 2 == 0
      invariant result == whole[..i]
    {
      var a, b := t[i], t[i + 1];
      var r1, c1 := pos[a].0, pos[a].1;
      var r2, c2 := pos[b].0, pos[b].1;
      var pair;
      if r1 == r2 {
        pair := [matrix[r1][(c1 + 1) % 5], matrix[r2][(c2 + 1) % 5]];
      } else if c1 == c2 {
        pair := [matrix[(r1 + 1) % 5][c1], matrix[(r2 + 1) % 5][c2]];
      } else {
        pair := [matrix[r1][c2], matrix[r2][c1]];
      }
      EncipherStep(t, matrix, pos, i);
      result := result + pair;
      i := i + 2;
    }
  }

  /** On letters-only text and key every lookup succeeds. */
  lemma {:induction false} LettersOnlyDefined(text: string, key: string)
    requires LettersOnly(text) && LettersOnly(key)
    ensures PlayfairDefined(text, key)
  {
    var p := PlayfairPrepare(text);
    var t := ReplaceJ(UpperString(text));
    LettersOnlyKeySquare(key);
    forall i | 0 <= i < |p|
      ensures p[i] in Positions(KeyMatrix(key))
    {
      if i < |t| {
        assert p[i] == t[i];
        assert IsUpper(Upper(text[i]));
      } else {
        assert p[i] == 'X';
      }
      PositionsOfKey(key, p[i]);
    }
  }

  /** Neither letter of a pair is encrypted to itself. */
  lemma {:induction false} DigraphMoves(m: seq<seq<char>>, pos: map<char, (int, int)>, a: char, b: char)
    requires IsGrid(m) && IsTable(m, pos) && Exact(m, pos) && a in pos && b in pos
    ensures Digraph(m, pos, a, b).0 != a && Digraph(m, pos, a, b).1 != b
  {
    var r1, c1, r2, c2 := pos[a].0, pos[a].1, pos[b].0, pos[b].1;
    assert m[r1][c1] == a && m[r2][c2] == b;
  }

  /** Encipher never leaves a letter in place. */
  lemma {:induction false} EncipherMoves(p: string, m: seq<seq<char>>, pos: map<char, (int, int)>)
    requires IsGrid(m) && IsTable(m, pos) && Exact(m, pos) && |p| % 2 == 0
    requires forall i :: 0 <= i < |p| ==> p[i] in pos
    ensures forall k :: 0 <= k < |p| ==> Encipher(p, m, pos)[k] != p[k]
  {
    var c := Encipher(p, m, pos);
    forall k | 0 <= k < |p|
      ensures c[k] != p[k]
    {
      var j := k - k % 2;
      DigraphMoves(m, pos, p[j], p[j + 1]);
      assert c[k] == PairAt(p, m, pos, k);
    }
  }

  /** Playfair never leaves a letter of the prepared text in place. */
  lemma {:induction false} PlayfairNoFixedLetter(text: string, key: string)
    requires PlayfairDefined(text, key)
    ensures var c, p := PlayfairCipher(text, key), PlayfairPrepare(text);
      forall k :: 0 <= k < |p| ==> c[k] != p[k]
  {
    KeyTableExact(key);
    EncipherMoves(PlayfairPrepare(text), KeyMatrix(key), Positions(KeyMatrix(key)));
  }

  /** A pair of identical letters takes the same-row rule, with no filler
      inserted: both become the letter to the right, wrapping. */
  lemma {:induction false} DigraphIdentical(m: seq<seq<char>>, pos: map<char, (int, int)>, a: char)
    requires IsGrid(m) && IsTable(m, pos) && a in pos
    ensures var r, c := pos[a].0, pos[a].1;
      Digraph(m, pos, a, a) == (m[r][(c + 1) % 5], m[r][(c + 1) % 5])
  {
  }

  /** The rectangle rule undoes itself: encrypting the digraph of two
      letters in different rows and columns gives the letters back. */
  lemma {:induction false} RectangleInvolution(m: seq<seq<char>>, pos: map<char, (int, int)>, a: char, b: char)
    requires IsGrid(m) && IsTable(m, pos) && Exact(m, pos) && a in pos && b in pos
    requires pos[a].0 != pos[b].0 && pos[a].1 != pos[b].1
    ensures var d := Digraph(m, pos, a, b);
      Digraph(m, pos, d.0, d.1) == (a, b)
  {
    var r1, c1, r2, c2 := pos[a].0, pos[a].1, pos[b].0, pos[b].1;
    assert pos[m[r1][c2]] == (r1, c2) && pos[m[r2][c1]] == (r2, c1);
  }

  /** The digraph rule applied n times. */
  function DigraphPower(m: seq<seq<char>>, pos: map<char, (int, int)>, a: char, b: char, n: nat): (d: (char, char))
    requires IsGrid(m) && IsTable(m, pos) && a in pos && b in pos
    ensures d.0 in pos && d.1 in pos
    decreases n
  {
    if n == 0 then (a, b)
    else
      var d := Digraph(m, pos, a, b);
      DigraphPower(m, pos, d.0, d.1, n - 1)
  }

  /** The Playfair rule on positions alone: where the two letters of a
      pair move to. */
  function Move(p1: (int, int), p2: (int, int)): (q: ((int, int), (int, int))) {
    if p1.0 == p2.0 then ((p1.0, (p1.1 + 1) % 5), (p2.0, (p2.1 + 1) % 5))
    else if p1.1 == p2.1 then (((p1.0 + 1) % 5, p1.1), ((p2.0 + 1) % 5, p2.1))
    else ((p1.0, p2.1), (p2.0, p1.1))
  }

  /** Move applied n times. */
  function MovePower(p1: (int, int), p2: (int, int), n: nat): (q: ((int, int), (int, int)))
    decreases n
  {
    if n == 0 then (p1, p2) else MovePower(Move(p1, p2).0, Move(p1, p2).1, n - 1)
  }

  /** With an exact table, the digraph's letters sit where Move puts the
      pair's letters. */
  lemma {:induction false} DigraphMove(m: seq<seq<char>>, pos: map<char, (int, int)>, a: char, b: char)
    requires IsGrid(m) && IsTable(m, pos) && Exact(m, pos) && a in pos && b in pos
    ensures var d := Digraph(m, pos, a, b);
      (pos[d.0], pos[d.1]) == Move(pos[a], pos[b])
  {
  }

  /** n encryptions move the letters as n applications of Move. */
  lemma {:induction false} DigraphPowerMove(m: seq<seq<char>>, pos: map<char, (int, int)>, a: char, b: char, n: nat)
    requires IsGrid(m) && IsTable(m, pos) && Exact(m, pos) && a in pos && b in pos
    ensures var d := DigraphPower(m, pos, a, b, n);
      (pos[d.0], pos[d.1]) == MovePower(pos[a], pos[b], n)
    decreases n
  {
    if n > 0 {
      var d := Digraph(m, pos, a, b);
      DigraphMove(m, pos, a, b);
      DigraphPowerMove(m, pos, d.0, d.1, n - 1);
    }
  }

  lemma ModStep(x: int, n: nat)
    requires 0 <= x < 5 && n > 0
    ensures ((x + 1) % 5 + (n - 1)) % 5 == (x + n) % 5
  {
  }

  /** A pair in one row stays in that row, each letter moving n columns
      right. */
  lemma {:induction false} SameRowMoves(r: int, c1: int, c2: int, n: nat)
    requires 0 <= c1 < 5 && 0 <= c2 < 5
    ensures MovePower((r, c1), (r, c2), n) == ((r, (c1 + n) % 5), (r, (c2 + n) % 5))
    decreases n
  {
    if n > 0 {
      SameRowMoves(r, (c1 + 1) % 5, (c2 + 1) % 5, n - 1);
      ModStep(c1, n);
      ModStep(c2, n);
    }
  }

  /** A pair in one column (and different rows) stays in that column, each
      letter moving n rows down. */
  lemma {:induction false} SameColumnMoves(r1: int, r2: int, c: int, n: nat)
    requires 0 <= r1 < 5 && 0 <= r2 < 5 && r1 != r2
    ensures MovePower((r1, c), (r2, c), n) == (((r1 + n) % 5, c), ((r2 + n) % 5, c))
    decreases n
  {
    if n > 0 {
      assert (r1 + 1) % 5 != (r2 + 1) % 5;
      SameColumnMoves((r1 + 1) % 5, (r2 + 1) % 5, c, n - 1);
      ModStep(r1, n);
      ModStep(r2, n);
    }
  }

  /** When n moves bring the positions back, n encryptions bring the
      letters back. */
  lemma {:induction false} PowerBack(m: seq<seq<char>>, pos: map<char, (int, int)>, a: char, b: char, n: nat)
    requires IsGrid(m) && IsTable(m, pos) && Exact(m, pos) && a in pos && b in pos
    requires MovePower(pos[a], pos[b], n) == (pos[a], pos[b])
    ensures DigraphPower(m, pos, a, b, n) == (a, b)
  {
    var d := DigraphPower(m, pos, a, b, n);
    DigraphPowerMove(m, pos, a, b, n);
    assert m[pos[d.0].0][pos[d.0].1] == d.0 && m[pos[d.1].0][pos[d.1].1] == d.1;
  }

  lemma ModFive(x: int, n: nat)
    requires 0 <= x < 5 && n % 5 == 0
    ensures (x + n) % 5 == x
  {
    assert x + n == 5 * (n / 5) + x;
  }

  /** Positions in one row come back after any multiple of five moves. */
  lemma {:induction false} RowMovePeriod(r: int, c1: int, c2: int, n: nat)
    requires 0 <= c1 < 5 && 0 <= c2 < 5 && n % 5 == 0
    ensures MovePower((r, c1), (r, c2), n) == ((r, c1), (r, c2))
  {
    SameRowMoves(r, c1, c2, n);
    ModFive(c1, n);
    ModFive(c2, n);
  }

  /** Positions in one column (and different rows) come back after any
      multiple of five moves. */
  lemma {:induction false} ColumnMovePeriod(r1: int, r2: int, c: int, n: nat)
    requires 0 <= r1 < 5 && 0 <= r2 < 5 && r1 != r2 && n % 5 == 0
    ensures MovePower((r1, c), (r2, c), n) == ((r1, c), (r2, c))
  {
    SameColumnMoves(r1, r2, c, n);
    ModFive(r1, n);
    ModFive(r2, n);
  }

  /** Pairs in one row or one column come back after five encryptions (and
      after any multiple of five), so encrypting four more times decrypts
      them. */
  lemma {:induction false} LinePeriod(m: seq<seq<char>>, pos: map<char, (int, int)>, a: char, b: char, n: nat)
    requires IsGrid(m) && IsTable(m, pos) && Exact(m, pos) && a in pos && b in pos
    requires pos[a].0 == pos[b].0 || pos[a].1 == pos[b].1
    requires n % 5 == 0
    ensures DigraphPower(m, pos, a, b, n) == (a, b)
  {
    if pos[a].0 == pos[b].0 {
      RowMovePeriod(pos[a].0, pos[a].1, pos[b].1, n);
    } else {
      ColumnMovePeriod(pos[a].0, pos[b].0, pos[a].1, n);
    }
    PowerBack(m, pos, a, b, n);
  }

  /** One more character of s for Without, on given strings. */
  lemma {:induction false} WithoutStep(s: string, c: char, t: string, acc: string, w: string, w': string)
    requires t == s + [c] && Without(s, acc) == w
    requires w' == w + (if c in acc then [] else [c])
    ensures Without(t, acc) == w'
  {
    assert t[..|t| - 1] == s;
  }

  lemma MonarchyRest0(acc: string)
    requires 'A' in acc && 'B' !in acc && 'C' in acc && 'D' !in acc && 'E' !in acc
    ensures Without("ABCDE", acc) == "BDE"
  {
    WithoutStep("", 'A', "A", acc, "", "");
    WithoutStep("A", 'B', "AB", acc, "", "B");
    WithoutStep("AB", 'C', "ABC", acc, "B", "B");
    WithoutStep("ABC", 'D', "ABCD", acc, "B", "BD");
    WithoutStep("ABCD", 'E', "ABCDE", acc, "BD", "BDE");
  }

  lemma MonarchyRest1(acc: string)
    requires 'F' !in acc && 'G' !in acc && 'H' in acc && 'I' !in acc && 'K' !in acc
    requires Without("ABCDE", acc) == "BDE"
    ensures Without("ABCDEFGHIK", acc) == "BDEFGIK"
  {
    WithoutStep("ABCDE", 'F', "ABCDEF", acc, "BDE", "BDEF");
    WithoutStep("ABCDEF", 'G', "ABCDEFG", acc, "BDEF", "BDEFG");
    WithoutStep("ABCDEFG", 'H', "ABCDEFGH", acc, "BDEFG", "BDEFG");
    WithoutStep("ABCDEFGH", 'I', "ABCDEFGHI", acc, "BDEFG", "BDEFGI");
    WithoutStep("ABCDEFGHI", 'K', "ABCDEFGHIK", acc, "BDEFGI", "BDEFGIK");
  }

  lemma MonarchyRest2(acc: string)
    requires 'L' !in acc && 'M' in acc && 'N' in acc && 'O' in acc && 'P' !in acc
    requires Without("ABCDEFGHIK", acc) == "BDEFGIK"
    ensures Without("ABCDEFGHIKLMNOP", acc) == "BDEFGIKLP"
  {
    WithoutStep("ABCDEFGHIK", 'L', "ABCDEFGHIKL", acc, "BDEFGIK", "BDEFGIKL");
    WithoutStep("ABCDEFGHIKL", 'M', "ABCDEFGHIKLM", acc, "BDEFGIKL", "BDEFGIKL");
    WithoutStep("ABCDEFGHIKLM", 'N', "ABCDEFGHIKLMN", acc, "BDEFGIKL", "BDEFGIKL");
    WithoutStep("ABCDEFGHIKLMN", 'O', "ABCDEFGHIKLMNO", acc, "BDEFGIKL", "BDEFGIKL");
    WithoutStep("ABCDEFGHIKLMNO", 'P', "ABCDEFGHIKLMNOP", acc, "BDEFGIKL", "BDEFGIKLP");
  }

  lemma MonarchyRest3(acc: string)
    requires 'Q' !in acc && 'R' in acc && 'S' !in acc && 'T' !in acc && 'U' !in acc
    requires Without("ABCDEFGHIKLMNOP", acc) == "BDEFGIKLP"
    ensures Without("ABCDEFGHIKLMNOPQRSTU", acc) == "BDEFGIKLPQSTU"
  {
    WithoutStep("ABCDEFGHIKLMNOP", 'Q', "ABCDEFGHIKLMNOPQ", acc, "BDEFGIKLP", "BDEFGIKLPQ");
    WithoutStep("ABCDEFGHIKLMNOPQ", 'R', "ABCDEFGHIKLMNOPQR", acc, "BDEFGIKLPQ", "BDEFGIKLPQ");
    WithoutStep("ABCDEFGHIKLMNOPQR", 'S', "ABCDEFGHIKLMNOPQRS", acc, "BDEFGIKLPQ", "BDEFGIKLPQS");
    WithoutStep("ABCDEFGHIKLMNOPQRS", 'T', "ABCDEFGHIKLMNOPQRST", acc, "BDEFGIKLPQS", "BDEFGIKLPQST");
    WithoutStep("ABCDEFGHIKLMNOPQRST", 'U', "ABCDEFGHIKLMNOPQRSTU", acc, "BDEFGIKLPQST", "BDEFGIKLPQSTU");
  }

  lemma MonarchyRest4(acc: string)
    requires 'V' !in acc && 'W' !in acc && 'X' !in acc && 'Y' in acc && 'Z' !in acc
    requires Without("ABCDEFGHIKLMNOPQRSTU", acc) == "BDEFGIKLPQSTU"
    ensures Without("ABCDEFGHIKLMNOPQRSTUVWXYZ", acc) == "BDEFGIKLPQSTUVWXZ"
  {
    WithoutStep("ABCDEFGHIKLMNOPQRSTU", 'V', "ABCDEFGHIKLMNOPQRSTUV", acc, "BDEFGIKLPQSTU", "BDEFGIKLPQSTUV");
    WithoutStep("ABCDEFGHIKLMNOPQRSTUV", 'W', "ABCDEFGHIKLMNOPQRSTUVW", acc, "BDEFGIKLPQSTUV", "BDEFGIKLPQSTUVW");
    WithoutStep("ABCDEFGHIKLMNOPQRSTUVW", 'X', "ABCDEFGHIKLMNOPQRSTUVWX", acc, "BDEFGIKLPQSTUVW", "BDEFGIKLPQSTUVWX");
    WithoutStep("ABCDEFGHIKLMNOPQRSTUVWX", 'Y', "ABCDEFGHIKLMNOPQRSTUVWXY", acc, "BDEFGIKLPQSTUVWX", "BDEFGIKLPQSTUVWX");
    WithoutStep("ABCDEFGHIKLMNOPQRSTUVWXY", 'Z', "ABCDEFGHIKLMNOPQRSTUVWXYZ", acc, "BDEFGIKLPQSTUVWX", "BDEFGIKLPQSTUVWXZ");
  }

  lemma MonarchyLetters()
    ensures PrepareKey("MONARCHY") == "MONARCHY" && Distinct("MONARCHY")
  {
  }

  /** The letters of the Playfair alphabet that MONARCHY holds. */
  lemma MonarchyHas(acc: string)
    requires acc == "MONARCHY"
    ensures 'A' in acc && 'C' in acc && 'H' in acc && 'M' in acc
    ensures 'N' in acc && 'O' in acc && 'R' in acc && 'Y' in acc
  {
  }

  /** The letters of the Playfair alphabet up to L that MONARCHY lacks. */
  lemma MonarchyLacksFirst(acc: string)
    requires acc == "MONARCHY"
    ensures 'B' !in acc && 'D' !in acc && 'E' !in acc && 'F' !in acc
    ensures 'G' !in acc && 'I' !in acc && 'K' !in acc && 'L' !in acc
  {
  }

  /** The letters of the Playfair alphabet from P on that MONARCHY lacks. */
  lemma MonarchyLacksLast(acc: string)
    requires acc == "MONARCHY"
    ensures 'P' !in acc && 'Q' !in acc && 'S' !in acc && 'T' !in acc && 'U' !in acc
    ensures 'V' !in acc && 'W' !in acc && 'X' !in acc && 'Z' !in acc
  {
  }

  lemma MonarchyRest(acc: string)
    requires acc == "MONARCHY"
    ensures Without(PlayfairAlphabet, acc) == "BDEFGIKLPQSTUVWXZ"
  {
    MonarchyHas(acc);
    MonarchyLacksFirst(acc);
    MonarchyLacksLast(acc);
    MonarchyRest0(acc);
    MonarchyRest1(acc);
    MonarchyRest2(acc);
    MonarchyRest3(acc);
    MonarchyRest4(acc);
  }

  lemma MonarchyJoin()
    ensures "MONARCHY" + "BDEFGIKLPQSTUVWXZ" == "MONARCHYBDEFGIKLPQSTUVWXZ"
  {
  }

  lemma MonarchyFill(key: string)
    requires key == "MONARCHY"
    ensures FillOrder(key) == "MONARCHYBDEFGIKLPQSTUVWXZ"
  {
    MonarchyLetters();
    DistinctKeyLetters(key);
    FillOrderSpec(key);
    MonarchyRest("MONARCHY");
    MonarchyJoin();
  }

  lemma MonarchySquare(key: string)
    requires key == "MONARCHY"
    ensures KeySquare(key) == "MONARCHYBDEFGIKLPQSTUVWXZ"
  {
    MonarchyFill(key);
  }

  /** The key MONARCHY fills the square row by row as MONAR / CHYBD /
      EFGIK / LPQST / UVWXZ. */
  lemma MonarchyExample()
    ensures KeySquare("MONARCHY") == "MONARCHYBDEFGIKLPQSTUVWXZ"
  {
    MonarchySquare("MONARCHY");
  }

  lemma MonarchyCells(key: string)
    requires key == "MONARCHY"
    ensures var m := KeyMatrix(key);
      m[1][0] == 'C' && m[1][1] == 'H' && m[2][0] == 'E' && m[2][1] == 'F'
  {
    var sq, m := KeySquare(key), KeyMatrix(key);
    MonarchySquare(key);
    assert sq[5] == 'C' && sq[6] == 'H' && sq[10] == 'E' && sq[11] == 'F';
    assert m[1][0] == sq[5] && m[1][1] == sq[6] && m[2][0] == sq[10] && m[2][1] == sq[11];
  }

  lemma MonarchyTable(key: string)
    requires key == "MONARCHY"
    ensures var m := KeyMatrix(key); var pos := Positions(m);
      'H' in pos && 'E' in pos && pos['H'] == (1, 1) && pos['E'] == (2, 0)
  {
    MonarchyCells(key);
    KeyTableExact(key);
  }

  /** A single pair is encrypted to its digraph. */
  lemma {:induction false} EncipherPair(p: string, m: seq<seq<char>>, pos: map<char, (int, int)>)
    requires IsGrid(m) && IsTable(m, pos)
    requires |p| == 2 && p[0] in pos && p[1] in pos
    ensures var d := Digraph(m, pos, p[0], p[1]);
      Encipher(p, m, pos) == [d.0, d.1]
  {
    assert Encipher(p, m, pos)[0] == PairAt(p, m, pos, 0);
    assert Encipher(p, m, pos)[1] == PairAt(p, m, pos, 1);
  }

  lemma PreparedHE(text: string)
    requires text == "HE"
    ensures PlayfairPrepare(text) == text
  {
  }

  lemma PlayfairHE(text: string, key: string)
    requires text == "HE" && key == "MONARCHY"
    ensures PlayfairDefined(text, key) && PlayfairCipher(text, key) == "CF"
  {
    var m := KeyMatrix(key);
    var pos := Positions(m);
    PreparedHE(text);
    MonarchyTable(key);
    assert text[0] == 'H' && text[1] == 'E';
    assert PlayfairDefined(text, key);
    EncipherPair(text, m, pos);
    MonarchyCells(key);
    assert Digraph(m, pos, 'H', 'E') == ('C', 'F');
  }

  /** HE under the key MONARCHY: H and E span a rectangle, so they become
      C and F. */
  lemma PlayfairExample()
    ensures PlayfairDefined("HE", "MONARCHY")
    ensures PlayfairCipher("HE", "MONARCHY") == "CF"
  {
    PlayfairHE("HE", "MONARCHY");
  }
}
