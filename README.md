# Classical ciphers of the cryptography web form, in Dafny

This project models the encryption core of a small web application. Its single
route takes an algorithm name, a plain text and a key from a form, encrypts the
text with one of seven classical ciphers and renders the result:

- **Caesar**: each letter is shifted by an integer key.
- **Monoalphabetic**: each letter is substituted through a key map. The route
  always passes the reverse alphabet A→Z, B→Y, …
- **Playfair**: a 5×5 key square is built from the key, and the text is
  enciphered by digraphs with the row, column and rectangle rules.
- **Hill**: pairs of letter indices are multiplied by the fixed key matrix
  [[3, 3], [2, 5]] modulo 26.
- **Vigenère**: letter i is shifted by the key letter at position i modulo the
  key length.
- **Rail fence**: the text is written in a zigzag over `key` rails, and the
  rails are read top to bottom.
- **Row-column transposition**: the text is written row by row under the key,
  and the columns are read in the stable sorted order of the key characters.
- **Dispatcher**: the algorithm selection. An unknown name gives the empty
  output.

There is one module per cipher, plus `Alphabet` for the shared character
arithmetic and `Dispatcher` for the selection.

Where the source builds its result step by step, the model has a method with a
loop: the Playfair matrix, Playfair, Hill, Vigenère, the rail fence, the
row-column read-out. Each such method is proved equal to a specification
function. The selection, an if/elif chain in the source, is a method proved
equal to the function `Output`. Everything the ciphers promise is then proved as
lemmas about those functions:

- **Inverses**: Caesar with −s, the reverse key map applied twice, Hill with
  the inverse matrix [[15, 17], [20, 9]], and Vigenère with the complementary
  key.
- **Permutations**: the rail fence, the row-column cipher and the column order.
- **Playfair properties**: its key square is distinct and has 25 cells, no
  letter is ever enciphered to itself, and the rectangle rule is an
  involution.
- **Hand-computed examples**: one per cipher.

Characters are ASCII. A letter is A–Z or a–z, and upper-casing maps a–z to A–Z
only. Dafny's `%` on `int` agrees with Python's `%` for the positive moduli 26
and 5 used here. For that reason, negative Caesar shifts and the non-letters
that Hill lets through (`ord(ch) - 65 < 0`) are reduced just as Python reduces
them.

Where the source raises an exception, the model states the exact
non-raising condition as a precondition:

- `PlayfairDefined` for a `KeyError` in the position table;
- `|key| > 0 || NoLetters(text)` for Vigenère's modulo by zero;
- `RailFenceDefined` for the rail index going out of range;
- `|key| > 0` for the row-column division.

The model follows the code of `app.py` in these places where a prose
description of the ciphers says otherwise:

- Playfair does not strip spaces from the text, and it inserts no filler
  between doubled letters. A space in the text is therefore looked up in the
  square; unless the key put one there, that raises.
- Hill strips only spaces. It keeps any other non-letter and encrypts its
  `ord - 65` value.
- The rail fence accepts `key == 1` when the text has at most one character,
  and any key when the text is empty. In both cases the source does not raise.
- The row-column column order sorts the raw key characters. The key is not
  upper-cased.
- Vigenère upper-cases the key, and any character of it shifts by
  `ord - 65`.

## Model

| member | source | states |
|---|---|---|
| Alphabet.Upper | app.py:11 | the result is an upper-case letter exactly when the input is a letter; only a–z change, by −32 |
| Alphabet.UpperString | app.py:11 | same length, each character upper-cased |
| Alphabet.Letter | app.py:12 | `chr(k % 26 + 65)` is an upper-case letter whose index is k mod 26 |
| Alphabet.Shift | app.py:12 | shifting any character gives an upper-case letter |
| Alphabet.LetterIndex | app.py:12 | an upper-case letter is recovered from its index |
| Alphabet.ShiftShift | app.py:12 | shifting by a and then by b equals shifting by a + b |
| Alphabet.LinearMod26 | app.py:56 | reducing the pair modulo 26 before the matrix product does not change the product modulo 26 |
| Alphabet.RemoveSpaces | app.py:50 | the result has no space, is no longer than the input, and keeps every other character |
| Alphabet.RemoveSpacesAppend | app.py:50 | removing spaces from a concatenation concatenates the results, so the other characters keep their order |
| Alphabet.RemoveSpacesMultiset | app.py:50 | removing spaces keeps every other character with its multiplicity and drops every space |
| Alphabet.RemoveSpacesNone | app.py:50 | removing spaces leaves text without spaces unchanged |
| Alphabet.ReplaceJ | app.py:31 | same length, no J, each J replaced by I and every other character kept |
| Alphabet.PadEven | app.py:32-33 | the result has even length, the input as prefix, and an X only when the input length was odd |
| Caesar.CaesarEncrypt | app.py:10-12 | the length is kept, non-letters are unchanged, and each letter becomes the upper-case letter with index (index + shift) mod 26 |
| Caesar.CaesarCompose | app.py:10-12 | encrypting with a and then with b equals encrypting with a + b |
| Caesar.CaesarZero | app.py:10-12 | shift 0 only upper-cases the text |
| Caesar.CaesarInverse | app.py:10-12 | encrypting with −s undoes encrypting with s, up to upper-casing |
| Caesar.CaesarPeriodic | app.py:10-12 | shifts that differ by a multiple of 26 encrypt alike |
| Caesar.CaesarExample | app.py:10-12 | "Hello, World" with shift 3 gives "KHOOR, ZRUOG" |
| Monoalphabetic.ReverseKeyMap | app.py:114 | the map is defined exactly on A–Z and sends the letter with index k to the upper-case letter with index 25 − k |
| Monoalphabetic.ReverseKeyMapIsReversal | app.py:114 | the key map sends each of its keys to a key, and is its own inverse |
| Monoalphabetic.MonoalphabeticEncrypt | app.py:14-16 | the length is kept; an upper-cased character the map holds becomes its image, and any other is output upper-cased |
| Monoalphabetic.MonoalphabeticInvolution | app.py:14-16 | encrypting twice with the reverse key map gives the upper-cased text |
| Monoalphabetic.MonoalphabeticExample | app.py:14-16 | "Hello!" gives "SVOOL!" |
| Playfair.PlayfairAlphabetMembers | app.py:24 | the alphabet holds exactly the upper-case letters other than J |
| Playfair.PlayfairAlphabetDistinct | app.py:24 | the alphabet has no repeated letter |
| Playfair.PrepareKey | app.py:19 | the prepared key keeps the key's length and has no J |
| Playfair.AppendNew | app.py:21-23 | appending the characters not yet present keeps the accumulated prefix, gains exactly the new characters, and keeps distinctness |
| Playfair.KeyLetters | app.py:19-23 | the key letters are distinct, are exactly the characters of the prepared key, and come in the order of their first occurrence in it |
| Playfair.FirstIndex | app.py:21-22 | the first occurrence of a character: it holds that character and none comes before it |
| Playfair.AppendNewOrder | app.py:21-23 | the characters the loop appends are new to the accumulated string, come from the scanned string, and follow the order of their first occurrence there |
| Playfair.OrderKeep | app.py:22 | skipping a character already present keeps the appended part in first-occurrence order |
| Playfair.OrderAdd | app.py:22-23 | appending a character not yet present keeps the appended part in first-occurrence order |
| Playfair.FillOrder | app.py:18-27 | the filled order is distinct, has no J, starts with the key letters, and holds exactly the key's and the alphabet's characters |
| Playfair.WithoutNothing | app.py:25-27 | with nothing yet placed, every alphabet letter is appended |
| Playfair.WithoutMembers | app.py:25-27 | the alphabet letters appended are exactly those not yet present, and there are no more of them than alphabet letters |
| Playfair.AppendNewWithout | app.py:25-27 | appending a distinct string adds exactly its characters not yet present, in order |
| Playfair.FillOrderSpec | app.py:18-27 | the filled order is the key letters followed by the alphabet letters not among them |
| Playfair.DistinctKeyLetters | app.py:19-23 | a prepared key without repetitions is kept whole |
| Playfair.FillOrderLength | app.py:24-27 | the filled order has at least 25 characters, so the 5×5 slicing never runs short |
| Playfair.KeySquare | app.py:18-28 | the key square has 25 distinct characters and no J |
| Playfair.Rows | app.py:28 | the slicing into rows gives a 5×5 grid whose cell (i, j) is character 5i + j |
| Playfair.RowsPrefix | app.py:28 | the rows use only the first 25 characters |
| Playfair.KeyMatrix | app.py:18-28 | the matrix is 5×5, and cell (i, j) is key square character 5i + j |
| Playfair.GeneratePlayfairMatrix | app.py:18-28 | the loops build exactly the key matrix |
| Playfair.LettersOnlyKeySquare | app.py:18-28 | for a letters-only key, the square holds exactly A–Z without J and starts with the key's distinct letters |
| Playfair.PlayfairPrepare | app.py:31-33 | the prepared text has even length (the input length rounded up) and no J |
| Playfair.PositionsUpTo | app.py:35 | every cell seen so far has an entry, and every entry points at a cell holding its character |
| Playfair.Positions | app.py:35 | the position table covers the whole grid, and every entry points at its own cell |
| Playfair.DistinctSquareExact | app.py:35 | over a distinct square, each cell's table entry is that cell |
| Playfair.KeyTableExact | app.py:34-35 | the key matrix's table gives every cell its own coordinates |
| Playfair.PositionsOfKey | app.py:34-35 | a character has a position exactly when it is in the key square |
| Playfair.PlayfairDefined | app.py:35-40 | no lookup raises `KeyError` exactly when every prepared character is in the key square |
| Playfair.Rule | app.py:41-46 | the three rules pick the cells at the coordinates the coordinate rule gives, and those coordinates are in the grid |
| Playfair.Digraph | app.py:38-46 | both enciphered characters of a pair are again in the square |
| Playfair.Encipher | app.py:37-46 | the pairwise encipherment keeps the length and stays within the square |
| Playfair.PlayfairCipher | app.py:30-47 | the cipher text has the prepared length, lies in the key square, and has no J |
| Playfair.EncipherStep | app.py:37-46 | each loop step appends the two characters of the next digraph |
| Playfair.EncryptPairs | app.py:36-47 | the loop over pairs computes the pairwise encipherment |
| Playfair.PlayfairEncrypt | app.py:30-47 | the procedure computes the Playfair cipher text |
| Playfair.LettersOnlyDefined | app.py:30-40 | letters-only text and key never raise `KeyError` |
| Playfair.DigraphMoves | app.py:41-46 | no rule leaves a character of a pair in place |
| Playfair.EncipherMoves | app.py:37-46 | every character of the prepared text is changed |
| Playfair.PlayfairNoFixedLetter | app.py:30-47 | no position of the cipher text equals the prepared text at that position |
| Playfair.DigraphIdentical | app.py:38-42 | a doubled letter falls under the same-row rule, and both copies become the letter to its right |
| Playfair.RectangleInvolution | app.py:45-46 | the rectangle rule applied twice gives the original pair back |
| Playfair.DigraphMove | app.py:38-46 | each rule moves a pair's coordinates as the coordinate rule says |
| Playfair.DigraphPowerMove | app.py:38-46 | n applications move the coordinates by the nth power of that rule |
| Playfair.SameRowMoves | app.py:41-42 | n same-row steps advance both columns by n mod 5 |
| Playfair.SameColumnMoves | app.py:43-44 | n same-column steps advance both rows by n mod 5 |
| Playfair.PowerBack | app.py:38-46 | coordinates that return give the characters back |
| Playfair.RowMovePeriod | app.py:41-42 | the same-row rule repeated a multiple of 5 times is the identity |
| Playfair.ColumnMovePeriod | app.py:43-44 | the same-column rule repeated a multiple of 5 times is the identity |
| Playfair.LinePeriod | app.py:41-44 | a pair in one row or column returns after any multiple of 5 encipherments |
| Playfair.MonarchyExample | app.py:18-28 | key "MONARCHY" gives the square MONARCHYBDEFGIKLPQSTUVWXZ |
| Playfair.MonarchyRest | app.py:24-27 | after the letters of MONARCHY, the alphabet loop appends exactly BDEFGIKLPQSTUVWXZ |
| Playfair.MonarchyCells | app.py:28 | that square has C and H at (1, 0) and (1, 1), and E and F at (2, 0) and (2, 1) |
| Playfair.MonarchyTable | app.py:35 | the table places H at (1, 1) and E at (2, 0) |
| Playfair.PlayfairExample | app.py:30-47 | "HE" under "MONARCHY" is defined and gives "CF" (rectangle rule) |
| Hill.HillKey | app.py:119 | the route's key matrix [[3, 3], [2, 5]] is undone modulo 26 by [[15, 17], [20, 9]] on every pair of letter indices |
| Hill.HillPrepare | app.py:50-52 | the prepared text has even length |
| Hill.DotMod | app.py:56 | a product component modulo 26 lies in 0..25 |
| Hill.HillCipherAt | app.py:54-58 | every cipher character is an upper-case letter |
| Hill.Encipher | app.py:54-58 | the pairwise product keeps the length and gives upper-case letters |
| Hill.HillCipher | app.py:49-59 | the cipher text is upper-case, and its length is the space-free length rounded up to even |
| Hill.EncipherStep | app.py:54-58 | each loop step appends the two product components of the next pair |
| Hill.HillEncrypt | app.py:49-59 | the procedure computes the Hill cipher text |
| Hill.HillPrepareUpper | app.py:50-52 | upper-case text of even length is left as it is by the preparation |
| Hill.PairRoundTrip | app.py:119 | the inverse matrix undoes the key matrix [[3, 3], [2, 5]] on every pair of indices |
| Hill.PairRoundTrips | app.py:119 | the inverse undoes the key matrix for all 26 × 26 pairs at once |
| Hill.InverseRow | app.py:56 | a row of the inverse applied to the reduced product gives back the index |
| Hill.RoundTripAt | app.py:54-58 | each position of the twice-encrypted text equals the prepared text |
| Hill.HillRoundTrip | app.py:49-59 | for letters-only prepared text, encrypting with the inverse matrix recovers it |
| Hill.HillExample | app.py:49-59 | "h i" gives "TC" |
| Vigenere.KeyShift | app.py:66 | the shift of position i is taken from key character i mod |key| and lies in 0..25 when that character is a letter |
| Vigenere.KeyShiftPeriodic | app.py:66 | positions a multiple of |key| apart get the same shift |
| Vigenere.VigenereCipher | app.py:61-70 | the length is kept, non-letters are unchanged, and the letter at position i becomes the letter whose index is its own plus that of key character i mod |key|, so a non-letter still uses up a key position |
| Vigenere.VigenereEncrypt | app.py:61-70 | the loop computes the Vigenère cipher text |
| Vigenere.InverseKeyShift | app.py:66 | the complementary key shifts by the negated shift modulo 26 at every position |
| Vigenere.ShiftBack | app.py:67 | shifting by x and then by −x mod 26 restores an upper-case letter |
| Vigenere.VigenereInverse | app.py:61-70 | encrypting with the complementary key `InverseKey` (same length, upper-case, no counterpart in the source) undoes encryption, up to upper-casing |
| Vigenere.VigenereSingleLetterKey | app.py:61-70 | a one-letter key acts as the Caesar shift by that letter |
| Vigenere.VigenereExample | app.py:61-70 | "a b" with key "bc" gives "B C", since the space uses up key position 1 |
| RailFence.RailFenceDefined | app.py:72-80 | the source runs to completion exactly when its row never leaves the rails, that is with at least two rails, one rail and at most one character, or empty text |
| RailFence.WalkZigzag | app.py:74-80 | with at least two rails the source's row and direction variables follow the closed-form zigzag |
| RailFence.WalkInRange | app.py:76-80 | the row stays on the rails exactly in those three cases |
| RailFence.ZigzagRow | app.py:74-80 | the zigzag row of each position is a valid rail |
| RailFence.ZigzagStep | app.py:78-80 | the closed-form row and direction follow the source's update, turning at rails 0 and key − 1 |
| RailFence.RailFenceEncrypt | app.py:72-81 | the loop computes the rail fence cipher text |
| RailFence.Rails | app.py:73 | there are `key` rails |
| RailFence.JoinStart | app.py:81 | the joined rails begin with the top rail |
| RailFence.JoinBag | app.py:81 | joining the rails keeps exactly the characters on them, with multiplicity |
| RailFence.RailsSnoc | app.py:76-77 | the last character of the text is appended to the rail of its zigzag row |
| RailFence.BagAppend | app.py:77 | adding a character to one rail adds exactly that character to the rails' contents |
| RailFence.BagSnoc | app.py:76-77 | each character of the text adds exactly itself to the rails' contents |
| RailFence.RailsPermutation | app.py:72-81 | the rails together hold exactly the characters of the text, with multiplicity |
| RailFence.RailFence | app.py:72-81 | the cipher text is a permutation of the text, of the same length |
| RailFence.RailFenceFirst | app.py:72-81 | the cipher text starts with the first character of the text |
| RailFence.RailFenceExample | app.py:72-81 | "HELLO" on 2 rails gives "HLOEL" |
| RowColumn.InsertColumn | app.py:91 | the insertion adds exactly column k |
| RowColumn.ColumnOrder | app.py:91 | the order has n entries, all columns below n |
| RowColumn.InsertColumnSorted | app.py:91 | inserting keeps the order sorted by (key character, column) |
| RowColumn.InsertColumnDistinct | app.py:91 | inserting a new column keeps the order free of repeats |
| RowColumn.ColumnOrderPermutation | app.py:91 | the order contains every column 0..n − 1 exactly once |
| RowColumn.ColumnOrderSorted | app.py:91 | the order is sorted by key character, with ties broken by column, so it is the stable sort |
| RowColumn.RowCount | app.py:86-88 | the row count is the least multiple of the width that covers the text |
| RowColumn.Padding | app.py:89 | the padding is n copies of X |
| RowColumn.RowColumnPrepare | app.py:84-89 | the prepared text is the space-free upper-cased text followed by X up to rows × cols |
| RowColumn.PrepareCases | app.py:84-89 | the two branches of the source: no padding when the length divides, one more row and X padding otherwise |
| RowColumn.Grid | app.py:90 | the matrix has `rows` rows of `cols` characters |
| RowColumn.Column | app.py:94-95 | a column has one character per row |
| RowColumn.ReadColumns | app.py:93-95 | reading the listed columns gives one character per row for each column |
| RowColumn.ReadColumnsNext | app.py:93-95 | reading one more column appends that column top to bottom |
| RowColumn.RowColumnEncrypt | app.py:83-96 | the procedure computes the row-column cipher text |
| RowColumn.ReadOut | app.py:92-96 | the nested loops read the columns in the given order |
| RowColumn.ReadColumnsAddRow | app.py:93-95 | an extra row adds its picked characters to the read-out |
| RowColumn.PickColumnOrder | app.py:91-95 | reading one row in column order rearranges that row |
| RowColumn.GridLastRow | app.py:90 | the grid is the grid of the first rows − 1 rows plus the last row |
| RowColumn.ReadGridPermutation | app.py:90-96 | reading any full grid in column order rearranges its text |
| RowColumn.RowColumnCipher | app.py:83-96 | the cipher text is a permutation of the padded text, of length rows × |key| |
| RowColumn.ZebraOrder | app.py:91 | key "ZEBRA" gives the column order 4, 2, 1, 3, 0 |
| RowColumn.RowColumnExample | app.py:83-96 | "HELLOWORLD" with key "ZEBRA" gives "ODLREOLLHW" |
| Dispatcher.LettersOnlySelectionDefined | app.py:111-126 | the selection returns normally whenever text and key are letters only, the key is non-empty and the rail fence gets at least two rails |
| Dispatcher.Output | app.py:105-126 | an unknown name gives ""; the substitution ciphers keep the length; Playfair rounds it up to even; Hill gives upper-case pairs; "rail" permutes the text; "row" permutes the padded text in whole rows of |key| |
| Dispatcher.Encrypt | app.py:104-126 | the if/elif chain gives the selected cipher's output |

## Left out

- The Flask application, the form fields and template rendering are I/O and are not modelled. The selection receives the algorithm name, the text, the string key and the key already read as an integer.
- `int(key)` for Caesar and the rail fence: the parsed integer is a parameter. The `ValueError` for a non-integer key is not modelled.
- Exceptions (`KeyError`, `ZeroDivisionError`, `IndexError`) are not modelled as outcomes. Each is excluded by a precondition that holds exactly when the source returns normally.
- numpy: `np.dot` on the 2×2 matrix is written out as integer arithmetic. Numpy's fixed-width integers cannot overflow for indices of this size, so unbounded integers agree with them.
- Unicode: `str.upper` and `str.isalpha` are modelled on ASCII only. A non-ASCII letter, which Python treats as a letter, is outside the model.
- Decryption is not part of the source. The inverse keys used in the round-trip lemmas (`Hill.HillKeyInverse`, `Vigenere.InverseKey`, Caesar's −s) exist only to state those lemmas.
- Playfair.Positions: the dictionary comprehension is modelled as a map built cell by cell in row-major order. A later duplicate cell overwrites an earlier one, just as in the comprehension.
- RailFence.RailFenceEncrypt: the `rail` list of strings is an array of strings that the loop updates in place, one rail at a time. Its row and direction follow the source's variables, and a closed form (`ZigzagRow`, `GoingDown`) is proved to match them.
