/** The Hill cipher with a 2x2 key matrix: the upper-cased, space-free text,
    padded with one X to even length, is read as pairs of indices, and each
    pair is multiplied by the matrix modulo 26. */
module Hill {
  import opened Alphabet

  /** The 2x2 integer matrix [[a, b], [c, d]]. */
  datatype Matrix2 = Matrix2(a: int, b: int, c: int, d: int)

  /** The fixed key matrix the web route passes, with rows (3, 3) and
      (2, 5). HillKeyInverse undoes it on every pair of letter indices. */
  function HillKey(): (m: Matrix2)
    ensures Inverts(HillKeyInverse, m)
  {
    PairRoundTrips();
    Matrix2(3, 3, 2, 5)
  }

  /** The inverse of the key matrix modulo 26 (its determinant 9 has
      inverse 3). */
  const HillKeyInverse: Matrix2 := Matrix2(15, 17, 20, 9)

  /** Multiplying by m and then by inv, modulo 26, gives back every pair of
      indices 0..25. */
  predicate Inverts(inv: Matrix2, m: Matrix2) {
    forall p0, p1 :: 0 <= p0 < 26 && 0 <= p1 < 26 ==>
      DotMod(inv.a, inv.b, DotMod(m.a, m.b, p0, p1), DotMod(m.c, m.d, p0, p1)) == p0 &&
      DotMod(inv.c, inv.d, DotMod(m.a, m.b, p0, p1), DotMod(m.c, m.d, p0, p1)) == p1
  }

  /** The text in upper case without its spaces, then one X if the length
      is odd. */
  function HillPrepare(plain: string): (p: string)
    ensures |p| % 2 == 0
  {
    PadEven(RemoveSpaces(UpperString(plain)))
  }

  /** One component of the product of the key matrix and a pair, modulo
      26: the matrix row (x, y) times the pair (p0, p1). */
  function DotMod(x: int, y: int, p0: int, p1: int): (r: int)
    ensures 0 <= r < 26
  {
    (x * p0 + y * p1) % 26
  }

  /** Character k of the cipher text of the prepared text p: the first or
      second component of the matrix product for the pair holding k. */
  function HillCipherAt(p: string, m: Matrix2, k: nat): (c: char)
    requires |p| % 2 == 0 && k < |p|
    ensures IsUpper(c)
  {
    if k % 2 == 0 then (DotMod(m.a, m.b, Index(p[k]), Index(p[k + 1])) + 65) as char
    else (DotMod(m.c, m.d, Index(p[k - 1]), Index(p[k])) + 65) as char
  }

  /** The prepared text p encrypted pair by pair. */
  function Encipher(p: string, m: Matrix2): (r: string)
    requires |p| % 2 == 0
    ensures |r| == |p|
    ensures AllUpper(r)
  {
    seq(|p|, k requires 0 <= k < |p| => HillCipherAt(p, m, k))
  }

  /** The cipher text the Python hill_encrypt builds. Only the space is
      removed, so any other non-letter still has 65 subtracted from its code
      point. */
  function HillCipher(plain: string, m: Matrix2): (r: string)
    ensures var n := |RemoveSpaces(UpperString(plain))|;
      |r| == if n % 2 == 0 then n else n + 1
    ensures AllUpper(r)
  {
    Encipher(HillPrepare(plain), m)
  }

  /** Two more characters of the cipher text: the product for pair i. */
  lemma {:induction false} EncipherStep(p: string, m: Matrix2, i: nat)
    requires |p| % 2 == 0 && i % 2 == 0 && i < |p|
    ensures var p0, p1 := Index(p[i]), Index(p[i + 1]);
      Encipher(p, m)[..i + 2] == Encipher(p, m)[..i]
        + [(DotMod(m.a, m.b, p0, p1) + 65) as char, (DotMod(m.c, m.d, p0, p1) + 65) as char]
  {
    var e := Encipher(p, m);
    assert e[i] == HillCipherAt(p, m, i);
    assert e[i + 1] == HillCipherAt(p, m, i + 1);
    assert (i + 1) % 2 == 1 && i + 1 - 1 == i;
    assert e[..i + 2] == e[..i] + [e[i], e[i + 1]];
  }

  /** The Python hill_encrypt, with the matrix product written out. */
  method HillEncrypt(plain: string, keyMatrix: Matrix2) returns (result: string)
    ensures result == HillCipher(plain, keyMatrix)
  {
    var p := RemoveSpaces(UpperString(plain));
    if |p| % 2 != 0 {
      p := p + "X";
    }
    assert p == HillPrepare(plain);
    ghost var whole := Encipher(p, keyMatrix);
    result := "";
    var i := 0;
    while i < |p|
      invariant 0 <= i <= |p| && i % 2 == 0
      invariant result == whole[..i]
    {
      var p0, p1 := Index(p[i]), Index(p[i + 1]);
      var c0 := DotMod(keyMatrix.a, keyMatrix.b, p0, p1);
      var c1 := DotMod(keyMatrix.c, keyMatrix.d, p0, p1);
      EncipherStep(p, keyMatrix, i);
      result := result + [(c0 + 65) as char];
      result := result + [(c1 + 65) as char];
      i := i + 2;
    }
    assert whole[..i] == whole;
  }

  /** Upper-case cipher text of even length is its own prepared form. */
  lemma {:induction false} HillPrepareUpper(s: string)
    requires AllUpper(s) && |s| % 2 == 0
    ensures HillPrepare(s) == s
  {
    assert UpperString(s) == s;
    assert ' ' !in s;
    RemoveSpacesNone(s);
  }

  /** One pair: HillKeyInverse undoes the key matrix on indices 0..25. */
  lemma {:induction false} PairRoundTrip(p0: int, p1: int)
    requires 0 <= p0 < 26 && 0 <= p1 < 26
    ensures var e0, e1 := DotMod(3, 3, p0, p1), DotMod(2, 5, p0, p1);
      DotMod(15, 17, e0, e1) == p0 && DotMod(20, 9, e0, e1) == p1
  {
    var x, y := 3 * p0 + 3 * p1, 2 * p0 + 5 * p1;
    assert DotMod(3, 3, p0, p1) == x % 26 && DotMod(2, 5, p0, p1) == y % 26;
    InverseRow(15, 17, x, y, p0, 3 * p0 + 5 * p1);
    InverseRow(20, 9, x, y, p1, 3 * p0 + 4 * p1);
  }

  /** A row of the inverse applied to the reduced product: when the row
      times the unreduced product is z plus a multiple of 26, the result
      is z. */
  lemma {:induction false} InverseRow(u: int, v: int, x: int, y: int, z: int, t: int)
    requires 0 <= z < 26 && u * x + v * y == z + 26 * t
    ensures DotMod(u, v, x % 26, y % 26) == z
  {
    LinearMod26(u, v, x, y);
    ModShift26(z, t);
  }

  /** Every pair of indices: HillKeyInverse undoes the key matrix. */
  lemma PairRoundTrips()
    ensures Inverts(HillKeyInverse, Matrix2(3, 3, 2, 5))
  {
    forall p0, p1 | 0 <= p0 < 26 && 0 <= p1 < 26
      ensures DotMod(15, 17, DotMod(3, 3, p0, p1), DotMod(2, 5, p0, p1)) == p0
      ensures DotMod(20, 9, DotMod(3, 3, p0, p1), DotMod(2, 5, p0, p1)) == p1
    {
      PairRoundTrip(p0, p1);
    }
  }

  /** Position k of the cipher text under the key matrix m, encrypted again
      with HillKeyInverse, gives back position k of the prepared text. */
  lemma {:induction false} RoundTripAt(p: string, c: string, m: Matrix2, k: nat)
    requires m == Matrix2(3, 3, 2, 5)
    requires AllUpper(p) && |p| % 2 == 0 && k < |p|
    requires |c| == |p| && forall j :: 0 <= j < |p| ==> c[j] == HillCipherAt(p, m, j)
    ensures HillCipherAt(c, HillKeyInverse, k) == p[k]
  {
    var j := if k % 2 == 0 then k else k - 1;
    assert j % 2 == 0 && j + 1 < |p|;
    var p0, p1 := Index(p[j]), Index(p[j + 1]);
    assert 0 <= p0 < 26 && 0 <= p1 < 26 by {
      assert IsUpper(p[j]) && IsUpper(p[j + 1]);
    }
    var e0, e1 := DotMod(m.a, m.b, p0, p1), DotMod(m.c, m.d, p0, p1);
    assert Index(c[j]) == e0 by {
      assert c[j] == HillCipherAt(p, m, j);
    }
    assert Index(c[j + 1]) == e1 by {
      assert c[j + 1] == HillCipherAt(p, m, j + 1);
      assert (j + 1) % 2 == 1;
    }
    PairRoundTrip(p0, p1);
    if k % 2 == 0 {
      assert HillCipherAt(c, HillKeyInverse, k) == (DotMod(15, 17, e0, e1) + 65) as char;
    } else {
      assert HillCipherAt(c, HillKeyInverse, k) == (DotMod(20, 9, e0, e1) + 65) as char;
    }
  }

  /** Encrypting the cipher text again with HillKeyInverse gives back the
      prepared plain text, when that text is made of letters only. */
  lemma {:induction false} HillRoundTrip(plain: string)
    requires AllUpper(HillPrepare(plain))
    ensures HillCipher(HillCipher(plain, HillKey()), HillKeyInverse) == HillPrepare(plain)
  {
    var p := HillPrepare(plain);
    var c := HillCipher(plain, HillKey());
    HillPrepareUpper(c);
    var back := HillCipher(c, HillKeyInverse);
    forall k | 0 <= k < |p|
      ensures back[k] == p[k]
    {
      RoundTripAt(p, c, HillKey(), k);
    }
  }

  lemma HillExample()
    ensures HillCipher("h i", HillKey()) == "TC"
  {
    HillExampleWith(HillKey());
  }

  lemma HillExampleWith(m: Matrix2)
    requires m == Matrix2(3, 3, 2, 5)
    ensures HillCipher("h i", m) == "TC"
  {
    assert UpperString("h i") == "H I";
    assert RemoveSpaces("H I") == "HI" by {
      assert "H I"[..2] == "H ";
      assert "H "[..1] == "H";
      assert "H"[..0] == "";
    }
  }
}
