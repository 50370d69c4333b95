/** The rail fence cipher: the characters of the text (all of them, letters
    or not, case kept) are written in a zigzag over `key` rails, and the
    rails are read off top to bottom. */
module RailFence {
  import opened Alphabet

  /** The inputs on which the Python rail_fence_encrypt runs to completion:
      exactly those on which the source's walk never leaves the list of
      rails. With one rail the walk leaves it at the second character; with
      key <= 0 there is no rail at all. */
  predicate RailFenceDefined(text: string, key: int)
    ensures RailFenceDefined(text, key) <==> forall i :: 0 <= i < |text| ==> 0 <= Walk(i, key).0 < key
  {
    WalkInRange(|text|, key);
    key >= 2 || (key == 1 && |text| <= 1) || |text| == 0
  }

  /** The source's walk, with no bound on the row: the row on which
      character i is placed and the direction flag at that moment, starting
      from row 0 going up and repeating "turn at the top or bottom rail, then
      move one rail". */
  function Walk(i: nat, key: int): (int, bool) {
    if i == 0 then (0, false)
    else
      var w := Walk(i - 1, key);
      var down := if w.0 == 0 || w.0 == key - 1 then !w.1 else w.1;
      (if down then w.0 + 1 else w.0 - 1, down)
  }

  /** With at least two rails the walk is the zigzag in closed form. */
  lemma {:induction false} WalkZigzag(i: nat, key: int)
    requires key >= 2
    ensures Walk(i, key) == (ZigzagRow(i, key), GoingDown(i, key))
  {
    if i > 0 {
      WalkZigzag(i - 1, key);
      ZigzagStep(i - 1, key);
    }
  }

  /** The walk over the first n characters stays on the rails exactly in
      the three cases the precondition of the cipher lists. */
  lemma {:induction false} WalkInRange(n: nat, key: int)
    ensures (forall i :: 0 <= i < n ==> 0 <= Walk(i, key).0 < key)
        <==> key >= 2 || (key == 1 && n <= 1) || n == 0
  {
    if key >= 2 {
      forall i | 0 <= i < n
        ensures 0 <= Walk(i, key).0 < key
      {
        WalkZigzag(i, key);
      }
    } else if key == 1 && n > 1 {
      assert Walk(1, key).0 == 1;
    } else if n > 0 {
      assert Walk(0, key).0 == 0;
    }
  }

  /** Length of one down-and-up sweep of the zigzag. */
  function Cycle(key: int): int
    requires key >= 2
  {
    2 * (key - 1)
  }

  /** The rail that receives character i: the zigzag goes 0, 1, ..., key-1,
      key-2, ..., 1 and starts over. With one rail every character is on
      rail 0. */
  function ZigzagRow(i: nat, key: int): (row: int)
    requires key >= 1
    ensures 0 <= row < key
  {
    if key == 1 then 0
    else
      var m := i % Cycle(key);
      if m < key then m else Cycle(key) - m
  }

  /** The source's direction flag when character i is placed: true exactly
      on the way down, strictly between the top and the bottom rail. */
  predicate GoingDown(i: nat, key: int)
    requires key >= 2
  {
    0 < i % Cycle(key) < key
  }

  /** The characters of the text that land on rail r, in text order. */
  function RailOf(text: string, key: int, r: int): string
    requires key >= 1
  {
    if text == [] then []
    else
      var n := |text| - 1;
      RailOf(text[..n], key, r) + if ZigzagRow(n, key) == r then [text[n]] else []
  }

  /** The rails concatenated top to bottom (see JoinStart). */
  function Join(rails: seq<string>): string
  {
    if rails == [] then [] else Join(rails[..|rails| - 1]) + rails[|rails| - 1]
  }

  /** The joined rails start with the top rail. */
  lemma {:induction false} JoinStart(rails: seq<string>)
    requires |rails| > 0
    ensures rails[0] <= Join(rails)
  {
    if |rails| > 1 {
      var front := rails[..|rails| - 1];
      JoinStart(front);
      assert front[0] == rails[0];
    }
  }

  /** The cipher text: every rail, top to bottom. Every character of the
      text, letter or not, is placed on exactly one rail, so the cipher text
      is a permutation of the text. */
  function RailFence(text: string, key: int): (r: string)
    requires RailFenceDefined(text, key)
    ensures multiset(r) == multiset(text)
    ensures |r| == |text|
  {
    if key <= 0 then []
    else
      RailsPermutation(text, key);
      JoinBag(Rails(text, key));
      var r := Join(Rails(text, key));
      assert |multiset(r)| == |r|;
      r
  }

  /** One step of the zigzag: from the row and direction of character i, the
      source's update (turn at the top or bottom rail, then move one rail)
      gives the row and direction of character i + 1. */
  lemma {:induction false} ZigzagStep(i: nat, key: int)
    requires key >= 2
    ensures var row, down := ZigzagRow(i, key), GoingDown(i, key);
      var down' := if row == 0 || row == key - 1 then !down else down;
      ZigzagRow(i + 1, key) == (if down' then row + 1 else row - 1) &&
      GoingDown(i + 1, key) == down'
  {
    var c := Cycle(key);
    var m := i % c;
    NextMod(i, c);
    assert (i + 1) % c == if m == c - 1 then 0 else m + 1;
  }

  lemma {:induction false} NextMod(i: nat, c: int)
    requires c > 0
    ensures (i + 1) % c == if i % c == c - 1 then 0 else i % c + 1
  {
    var q, m := i / c, i % c;
    assert i == q * c + m;
    if m == c - 1 {
      assert i + 1 == (q + 1) * c + 0;
      ModUnique(i + 1, c, q + 1, 0);
    } else {
      ModUnique(i + 1, c, q, m + 1);
    }
  }

  /** The Python rail_fence_encrypt: the rails are an array of strings that
      grow in place while the row and the direction flag walk the zigzag. */
  method RailFenceEncrypt(text: string, key: int) returns (cipher: string)
    requires RailFenceDefined(text, key)
    ensures cipher == RailFence(text, key)
  {
    var rail := new string[if key > 0 then key else 0](_ => "");
    var directionDown := false;
    var row := 0;
    for i := 0 to |text|
      invariant i < |text| ==> 0 <= row < key && row == ZigzagRow(i, key)
      invariant key >= 2 ==> row == ZigzagRow(i, key) && directionDown == GoingDown(i, key)
      invariant key >= 2 ==> (row == 0 ==> !directionDown) && (row == key - 1 ==> directionDown)
      invariant forall r :: 0 <= r < rail.Length ==> rail[r] == RailOf(text[..i], key, r)
    {
      assert text[..i + 1][..i] == text[..i];
      rail[row] := rail[row] + [text[i]];
      if row == 0 || row == key - 1 {
        directionDown := !directionDown;
      }
      row := if directionDown then row + 1 else row - 1;
      if key >= 2 {
        ZigzagStep(i, key);
      }
    }
    assert text[..|text|] == text;
    assert rail[..] == seq(rail.Length, r requires 0 <= r < rail.Length => RailOf(text, key, r));
    cipher := Join(rail[..]);
  }

  /** Every rail empty: no characters. */
  lemma {:induction false} BagEmpty(rails: seq<string>)
    requires forall r :: 0 <= r < |rails| ==> rails[r] == []
    ensures Bag(rails) == multiset{}
  {
    if rails != [] {
      BagEmpty(rails[..|rails| - 1]);
    }
  }

  /** The characters of all the rails together. */
  function Bag(rails: seq<string>): multiset<char>
  {
    if rails == [] then multiset{} else Bag(rails[..|rails| - 1]) + multiset(rails[|rails| - 1])
  }

  /** Joining the rails keeps every character of every rail. */
  lemma {:induction false} JoinBag(rails: seq<string>)
    ensures multiset(Join(rails)) == Bag(rails)
  {
    if rails != [] {
      JoinBag(rails[..|rails| - 1]);
    }
  }

  /** Appending c to one rail adds exactly c to the characters of the rails. */
  lemma {:induction false} BagAppend(rails: seq<string>, grown: seq<string>, k: int, c: char)
    requires 0 <= k < |rails| == |grown|
    requires grown[k] == rails[k] + [c]
    requires forall i :: 0 <= i < |rails| && i != k ==> grown[i] == rails[i]
    ensures Bag(grown) == Bag(rails) + multiset{c}
  {
    var n := |rails| - 1;
    var front, grownFront := rails[..n], grown[..n];
    if k < n {
      assert grown[n] == rails[n];
      BagAppend(front, grownFront, k, c);
    } else {
      assert grownFront == front;
    }
  }

  function Rails(text: string, key: int): (rails: seq<string>)
    requires key >= 1
    ensures |rails| == key
  {
    seq(key, r requires 0 <= r < key => RailOf(text, key, r))
  }

  /** Adding a character to the text appends it to the rail of its row and
      leaves every other rail alone. */
  lemma {:induction false} RailsSnoc(text: string, key: int)
    requires key >= 1 && |text| > 0
    ensures var n := |text| - 1; var before, after := Rails(text[..n], key), Rails(text, key);
      && after[ZigzagRow(n, key)] == before[ZigzagRow(n, key)] + [text[n]]
      && forall r :: 0 <= r < key && r != ZigzagRow(n, key) ==> after[r] == before[r]
  {
  }

  /** The rails together hold exactly the characters of the text. */
  lemma {:induction false} RailsPermutation(text: string, key: int)
    requires key >= 1
    ensures Bag(Rails(text, key)) == multiset(text)
  {
    if text == [] {
      BagEmpty(Rails(text, key));
    } else {
      var n := |text| - 1;
      RailsPermutation(text[..n], key);
      BagSnoc(text, key);
      MultisetSnoc(text);
    }
  }

  /** The characters of a non-empty text: those before its last one, and
      the last one. */
  lemma MultisetSnoc(text: string)
    requires |text| > 0
    ensures multiset(text) == multiset(text[..|text| - 1]) + multiset{text[|text| - 1]}
  {
    assert text == text[..|text| - 1] + [text[|text| - 1]];
  }

  /** Adding a character to the text adds it to the characters of the rails. */
  lemma BagSnoc(text: string, key: int)
    requires key >= 1 && |text| > 0
    ensures var n := |text| - 1; Bag(Rails(text, key)) == Bag(Rails(text[..n], key)) + multiset{text[n]}
  {
    var n := |text| - 1;
    RailsSnoc(text, key);
    BagAppend(Rails(text[..n], key), Rails(text, key), ZigzagRow(n, key), text[n]);
  }

  /** The first character always opens the top rail, so it leads the cipher
      text. */
  lemma {:induction false} RailFenceFirst(text: string, key: int)
    requires RailFenceDefined(text, key) && |text| > 0
    ensures |RailFence(text, key)| > 0 && RailFence(text, key)[0] == text[0]
  {
    TopRailStart(text, key);
    JoinStart(Rails(text, key));
    assert Rails(text, key)[0] == RailOf(text, key, 0);
  }

  lemma {:induction false} TopRailStart(text: string, key: int)
    requires key >= 1 && |text| > 0
    ensures |RailOf(text, key, 0)| > 0 && RailOf(text, key, 0)[0] == text[0]
  {
    if |text| > 1 {
      TopRailStart(text[..|text| - 1], key);
    } else {
      assert text[..0] == [];
    }
  }

  /** One more character of the text for RailOf. */
  lemma {:induction false} RailOfStep(t: string, k: nat, key: int, r: int)
    requires key >= 1 && k < |t|
    ensures RailOf(t[..k + 1], key, r) == RailOf(t[..k], key, r) + if ZigzagRow(k, key) == r then [t[k]] else []
  {
    assert t[..k + 1][..k] == t[..k];
  }

  lemma HelloRows()
    ensures ZigzagRow(0, 2) == 0 && ZigzagRow(1, 2) == 1 && ZigzagRow(2, 2) == 0
    ensures ZigzagRow(3, 2) == 1 && ZigzagRow(4, 2) == 0
  {
  }

  lemma HelloTopRail(t: string)
    requires t == "HELLO"
    ensures RailOf(t, 2, 0) == "HLO"
  {
    HelloRows();
    assert t[..0] == [] && t[..5] == t;
    RailOfStep(t, 0, 2, 0);
    RailOfStep(t, 1, 2, 0);
    RailOfStep(t, 2, 2, 0);
    RailOfStep(t, 3, 2, 0);
    RailOfStep(t, 4, 2, 0);
  }

  lemma HelloBottomRail(t: string)
    requires t == "HELLO"
    ensures RailOf(t, 2, 1) == "EL"
  {
    HelloRows();
    assert t[..0] == [] && t[..5] == t;
    RailOfStep(t, 0, 2, 1);
    RailOfStep(t, 1, 2, 1);
    RailOfStep(t, 2, 2, 1);
    RailOfStep(t, 3, 2, 1);
    RailOfStep(t, 4, 2, 1);
  }

  lemma HelloJoin()
    ensures Join(["HLO", "EL"]) == "HLOEL"
  {
    assert ["HLO", "EL"][..1] == ["HLO"];
    assert ["HLO"][..0] == [];
  }

  lemma RailFenceExample()
    ensures RailFence("HELLO", 2) == "HLOEL"
  {
    var t := "HELLO";
    HelloTopRail(t);
    HelloBottomRail(t);
    assert Rails(t, 2) == ["HLO", "EL"];
    HelloJoin();
  }
}
