# wrdl core in Dafny

This project models the core of wrdl, an Android word game on a Boggle-like letter grid, and
proves properties of the model. It covers:

- **The dictionary** (`Dictionaries`, `Lex`). A newline-delimited byte stream is split into
  entries. Entries are compared byte by byte with signed bytes. `contains` and
  `containsPrefix` answer by binary search and the insertion point.
- **The letter grid** (`Grid`). The constructor builds the 8-directional, non-wrapping
  bordering lists and upper-cases the tokens. The backtracking search marks a cell `used` while
  it runs through it, prunes with `containsPrefix` and collects `contains` hits into a set.
  It is proved sound and complete against the trails it follows, and it leaves every mark as
  it found it.
- **The game state** (`Game`, `GuessMask`). The state holds the word lists and the packed
  "guessed" mask, where bit `i % 8` of byte `i / 8` marks word `i`. The model covers how
  `findAllWords` allocates the mask, how `findGuessedWords` reads it back with Java's
  sign-extending shift, how `addGuessedWord` sets one bit, and the letter-token
  serialiser and parser.
- **The tile-selection listener** (`Touch`). DOWN, MOVE and UP events grow, backtrack or clear
  the head-first `selected` sequence, and each change is reported to `sequenceChanged`.
- **The loader sources** (`LoaderIds`, `Loaders`, `DbSource`, `BaseDbSource`):
  - the global block allocator;
  - each source's cyclic id counter within its block of 1000 ids;
  - the id-to-listener registry;
  - the emission of a finished loader's rows;
  - the `LIMIT`/`OFFSET` clause and the sort-and-limit string of a query.

Classes model the objects the source updates in place: `Dictionary`, `LetterGrid`, `GameState`,
`TouchListener`, `LoaderIdManager`, `DatabaseSource` and `BaseDatabaseSource`. Methods that
loop in the source loop here and are proved against specification functions. The properties of
those functions are proved as lemmas.

Inputs from outside the program are parameters:

- the stream's bytes;
- the touch event's tile coordinates, plus a boolean for "near the tile centre";
- the sort order a subclass supplies;
- the cursor's rows, with the row-to-item function.

The callback and the emission are returned as values.

## Model

| member | source | states |
|---|---|---|
| Lex.CompareZero | wrdl/src/main/java/com/mntnorv/wrdl/dict/Dictionary.java:82-95 | the comparator returns 0 exactly when the two arrays are equal |
| Lex.CompareAntisymmetric | wrdl/src/main/java/com/mntnorv/wrdl/dict/Dictionary.java:84-94 | swapping the arguments negates the comparison |
| Lex.CompareTransitive | wrdl/src/main/java/com/mntnorv/wrdl/dict/Dictionary.java:84-94 | the comparator is transitive, and a strict step makes the result strict: a total order for the binary search |
| Lex.CompareFirstDifference | wrdl/src/main/java/com/mntnorv/wrdl/dict/Dictionary.java:87-91 | when the arrays first differ at `k`, the result is the difference of the (signed) elements there |
| Lex.CompareCommonPrefix | wrdl/src/main/java/com/mntnorv/wrdl/dict/Dictionary.java:85-93 | when one array is a prefix of the other, the result is the difference of the lengths |
| Lex.PrefixBetween | wrdl/src/main/java/com/mntnorv/wrdl/dict/Dictionary.java:70-80 | anything sorting after a key and no later than an extension of it also extends the key: why the insertion point is the place to look |
| Lex.SearchRange | wrdl/src/main/java/com/mntnorv/wrdl/dict/Dictionary.java:71 | the JDK search loop: a non-negative result indexes an element equal to the key; a negative one encodes a point inside the searched range |
| Lex.BinarySearch | wrdl/src/main/java/com/mntnorv/wrdl/dict/Dictionary.java:71-75 | Collections.binarySearch: a hit is an index of the key; a miss encodes an insertion point at most the list's length |
| Lex.SearchRangeSorted | wrdl/src/main/java/com/mntnorv/wrdl/dict/Dictionary.java:71-75 | on a sorted list a miss leaves everything left of `-r-1` below the key and everything from it on above |
| Lex.BinarySearchSorted | wrdl/src/main/java/com/mntnorv/wrdl/dict/Dictionary.java:67 | on a sorted list the search hits exactly when the key is present, and otherwise returns `-(insertion point) - 1` |
| Dictionaries.CharToByte | wrdl/src/main/java/com/mntnorv/wrdl/dict/Dictionary.java:50 | `(byte) c` keeps the character code modulo 256, as a signed byte |
| Dictionaries.ByteToChar | wrdl/src/main/java/com/mntnorv/wrdl/dict/Dictionary.java:60 | `(char) b` sign-extends the byte to a 16-bit code |
| Dictionaries.EncodeWord | wrdl/src/main/java/com/mntnorv/wrdl/dict/Dictionary.java:46-54 | the array it fills is one cast byte per element of the string, of the string's length (per UTF-16 unit for characters up to U+FFFF) |
| Dictionaries.DecodeWord | wrdl/src/main/java/com/mntnorv/wrdl/dict/Dictionary.java:56-64 | the string it builds is one sign-extended character per byte |
| Dictionaries.EncodeDecode | wrdl/src/main/java/com/mntnorv/wrdl/dict/Dictionary.java:46-64 | every byte array survives decoding and re-encoding |
| Dictionaries.DecodeEncode | wrdl/src/main/java/com/mntnorv/wrdl/dict/Dictionary.java:46-64 | a word survives encoding and decoding exactly when all its characters are ASCII or in U+FF80..U+FFFF |
| Dictionaries.EncodeAppend | wrdl/src/main/java/com/mntnorv/wrdl/dict/Dictionary.java:46-54 | encoding a concatenation is concatenating the encodings |
| Dictionaries.SplitRoundTrip | wrdl/src/main/java/com/mntnorv/wrdl/dict/Dictionary.java:29-39 | the stream is the entries, each followed by a newline, then the pending bytes that are never added; no entry and not the pending run holds a newline |
| Dictionaries.LinesCount | wrdl/src/main/java/com/mntnorv/wrdl/dict/Dictionary.java:29-39 | readWords adds exactly one entry per newline byte, empty lines included |
| Dictionaries.SplitJoin | wrdl/src/main/java/com/mntnorv/wrdl/dict/Dictionary.java:29-39 | conversely, newline-free entries and tail joined into a stream split back into themselves |
| Dictionaries.Dictionary.constructor | wrdl/src/main/java/com/mntnorv/wrdl/dict/Dictionary.java:17-22 | a new dictionary's list is the entries of the stream |
| Dictionaries.Dictionary.ReadWords | wrdl/src/main/java/com/mntnorv/wrdl/dict/Dictionary.java:24-44 | the byte loop appends to the list exactly the entries of the stream |
| Dictionaries.Contains | wrdl/src/main/java/com/mntnorv/wrdl/dict/Dictionary.java:66-68 | a hit means the encoded word is an entry, on any list; an empty list gives false |
| Dictionaries.ContainsPrefix | wrdl/src/main/java/com/mntnorv/wrdl/dict/Dictionary.java:70-80 | every exact hit is a prefix hit; an empty list gives false; a prefix hit means some entry begins with the encoded prefix, on any list |
| Dictionaries.ContainsExact | wrdl/src/main/java/com/mntnorv/wrdl/dict/Dictionary.java:66-68 | on a sorted list, contains is exactly membership of the encoded word |
| Dictionaries.ContainsPrefixExact | wrdl/src/main/java/com/mntnorv/wrdl/dict/Dictionary.java:70-80 | on a sorted list, containsPrefix of a representable prefix holds exactly when some entry starts with it; for any other prefix it is exact membership |
| Dictionaries.ExtensionAtInsertionPoint | wrdl/src/main/java/com/mntnorv/wrdl/dict/Dictionary.java:71-76 | when the prefix is absent but some entry extends it, the entry at the insertion point (`-result-1`) extends it and lies inside the list |
| Dictionaries.ContainsImpliesPrefix | wrdl/src/main/java/com/mntnorv/wrdl/dict/Dictionary.java:66-80 | contains(w) implies containsPrefix(w) |
| Dictionaries.PrefixMonotone | wrdl/src/main/java/com/mntnorv/wrdl/dict/Dictionary.java:70-80 | once a representable prefix has no prefix hit in a sorted list, no extension of it has one: pruning loses nothing |
| Dictionaries.PrefixOfMember | wrdl/src/main/java/com/mntnorv/wrdl/dict/Dictionary.java:70-80 | every prefix of a representable word in a sorted list is a prefix hit |
| Dictionaries.NonRepresentablePrefixNotMonotone | wrdl/src/main/java/com/mntnorv/wrdl/dict/Dictionary.java:70-80 | with the entry "AB", "Ł" has no prefix hit though "ŁB" is found: monotonicity needs representable prefixes |
| Grid.UpperCase | wrdl/src/main/java/com/mntnorv/wrdl/dict/LetterGrid.java:145 | a token keeps its length and holds no lower-case ASCII letter |
| Grid.UpperCaseIdempotent | wrdl/src/main/java/com/mntnorv/wrdl/dict/LetterGrid.java:145 | upper-casing twice is upper-casing once |
| Grid.NeighboursUpTo | wrdl/src/main/java/com/mntnorv/wrdl/dict/LetterGrid.java:47-72 | after `j` directions a cell has at most `j` bordering cells |
| Grid.StepLands | wrdl/src/main/java/com/mntnorv/wrdl/dict/LetterGrid.java:46-71 | a direction the four `continue` tests keep leads to a cell of the board one row and column step away |
| Grid.NeighboursUpToMembers | wrdl/src/main/java/com/mntnorv/wrdl/dict/LetterGrid.java:46-72 | a cell is in the partial bordering list exactly when some kept direction among the first `j` reaches it |
| Grid.NeighboursUpToDistinct | wrdl/src/main/java/com/mntnorv/wrdl/dict/LetterGrid.java:31-72 | kept directions reach pairwise different cells, so no bordering list repeats a cell |
| Grid.AdjacentReached | wrdl/src/main/java/com/mntnorv/wrdl/dict/LetterGrid.java:31-72 | every cell whose row and column differ by at most one is reached through a kept direction |
| Grid.NeighboursExact | wrdl/src/main/java/com/mntnorv/wrdl/dict/LetterGrid.java:31-73 | `b` borders `a` exactly when `a != b` and their rows and columns each differ by at most one; at most 8 bordering cells, none twice |
| Grid.AdjacentSymmetric | wrdl/src/main/java/com/mntnorv/wrdl/dict/LetterGrid.java:31-73 | together with NeighboursExact: `b` borders `a` exactly when `a` borders `b` |
| Grid.NoWraparound | wrdl/src/main/java/com/mntnorv/wrdl/dict/LetterGrid.java:51-69 | a left-column cell has no right-column neighbour, and a top-row cell no bottom-row neighbour |
| Grid.NeighboursInGrid | wrdl/src/main/java/com/mntnorv/wrdl/dict/LetterGrid.java:71 | every bordering cell lies in `[0, columns*rows)` |
| Grid.FromCellsSound | wrdl/src/main/java/com/mntnorv/wrdl/dict/LetterGrid.java:118-134 | every word one search call adds is found along some trail the call explores |
| Grid.FromCellSound | wrdl/src/main/java/com/mntnorv/wrdl/dict/LetterGrid.java:121-131 | the same for one pass of the loop, through one cell |
| Grid.FromCellsComplete | wrdl/src/main/java/com/mntnorv/wrdl/dict/LetterGrid.java:118-134 | every trail the call explores that ends on a contains hit yields its word |
| Grid.FromCellComplete | wrdl/src/main/java/com/mntnorv/wrdl/dict/LetterGrid.java:121-131 | the same for one pass of the loop |
| Grid.WordsInGridPaths | wrdl/src/main/java/com/mntnorv/wrdl/dict/LetterGrid.java:82-134 | a word is in the grid's set exactly when it is spelled along a trail the search follows from an empty word and contains accepts it |
| Grid.GridWordsSound | wrdl/src/main/java/com/mntnorv/wrdl/dict/LetterGrid.java:119-123 | a reported word is a dictionary entry (sorted dictionary); the word before its last tile is within the cap; so the word is at most the cap plus one token long |
| Grid.GridWordsComplete | wrdl/src/main/java/com/mntnorv/wrdl/dict/LetterGrid.java:119-131 | every representable dictionary word spelled along a simple path of bordering cells is reported, when each proper prefix along the path is within the cap |
| Grid.EmptyDictionaryFindsNothing | wrdl/src/main/java/com/mntnorv/wrdl/dict/LetterGrid.java:122-126 | an empty dictionary yields the empty set |
| Grid.LastTileCrossesCap | wrdl/src/main/java/com/mntnorv/wrdl/dict/LetterGrid.java:119-123 | with cap 1 the two-tile word "AB" is still reported |
| Grid.LetterGrid.constructor | wrdl/src/main/java/com/mntnorv/wrdl/dict/LetterGrid.java:23-74 | tokens are the upper-cased letters, each cell's bordering list is its neighbours in direction order, the cap is 8 and no cell is used |
| Grid.LetterGrid.LinkCell | wrdl/src/main/java/com/mntnorv/wrdl/dict/LetterGrid.java:46-73 | the inner direction loop builds exactly the bordering list of the cell |
| Grid.LetterGrid.Create | wrdl/src/main/java/com/mntnorv/wrdl/dict/LetterGrid.java:23-26 | construction fails exactly when the letter count is not `columns*rows`, and otherwise gives the grid the constructor builds |
| Grid.LetterGrid.SetMaxWordLength | wrdl/src/main/java/com/mntnorv/wrdl/dict/LetterGrid.java:106-108 | sets the cap |
| Grid.LetterGrid.IterateWordsRecursive | wrdl/src/main/java/com/mntnorv/wrdl/dict/LetterGrid.java:118-134 | adds to the set exactly the words of the specified search from `cells`, and every used flag ends as it started |
| Grid.LetterGrid.VisitCell | wrdl/src/main/java/com/mntnorv/wrdl/dict/LetterGrid.java:121-131 | one pass of the loop adds exactly the words through its cell and restores the cell's flag |
| Grid.LetterGrid.GetWordsInGrid | wrdl/src/main/java/com/mntnorv/wrdl/dict/LetterGrid.java:82-89 | returns the search from every cell with no cell used, and leaves every flag false, so repeated calls give the same set |
| Grid.LetterGrid.GetWordCountInGrid | wrdl/src/main/java/com/mntnorv/wrdl/dict/LetterGrid.java:97-99 | the count is the size of getWordsInGrid's set |
| GuessMask.LowBit | wrdl/src/main/java/com/mntnorv/wrdl/GameState.java:89-93 | after `j` sign-extending shifts, `currentByte & 1` is bit `j` of the saved byte, the sign bit included |
| GuessMask.ShiftedBits | wrdl/src/main/java/com/mntnorv/wrdl/GameState.java:93 | the shifts move each bit down by one position per shift |
| GuessMask.OrBit | wrdl/src/main/java/com/mntnorv/wrdl/GameState.java:104 | or-ing in `1 << r` sets bit `r` and keeps every other bit |
| GuessMask.MarkedIndicesExact | wrdl/src/main/java/com/mntnorv/wrdl/GameState.java:78-96 | the marked indices are exactly the indices below `k` whose bit `i % 8` of byte `i / 8` is set, in increasing order |
| GuessMask.BitAt | wrdl/src/main/java/com/mntnorv/wrdl/GameState.java:81-90 | word `i*8 + j` is marked exactly when bit `j` of byte `i` is set |
| GuessMask.ByteWordsFlat | wrdl/src/main/java/com/mntnorv/wrdl/GameState.java:81-95 | the words of byte `i` continue the words recovered from the bytes before it |
| GuessMask.ByteWordsPast | wrdl/src/main/java/com/mntnorv/wrdl/GameState.java:85-87 | bits past the last word add nothing, which is why the `break` loses no word |
| GuessMask.MaskWordsFlat | wrdl/src/main/java/com/mntnorv/wrdl/GameState.java:81-95 | the byte-by-byte words of the first `i` bytes are the words recovered from the first `8*i` indices |
| GuessMask.MaskWordsPast | wrdl/src/main/java/com/mntnorv/wrdl/GameState.java:81-95 | up to a byte wholly past the words, the bytes scanned hold every word there is to recover |
| GuessMask.MaskWordsAll | wrdl/src/main/java/com/mntnorv/wrdl/GameState.java:81-95 | all bytes scanned, every marked word is recovered |
| GuessMask.RecoveredPicks | wrdl/src/main/java/com/mntnorv/wrdl/GameState.java:78-96 | the recovered words are the words at the marked indices, in index order |
| GuessMask.RecoveredFrom | wrdl/src/main/java/com/mntnorv/wrdl/GameState.java:81-95 | past the words, or past the mask, nothing more is recovered |
| GuessMask.RecoveredWhole | wrdl/src/main/java/com/mntnorv/wrdl/GameState.java:81-95 | counted over all the bits of the mask, the recovered words are those among all the words, whatever the mask's length |
| GuessMask.ClearNoStray | wrdl/src/main/java/com/mntnorv/wrdl/GameState.java:81-95 | every byte wholly past the words is clear exactly when no word lookup would go out of range |
| GuessMask.EnoughBits | wrdl/src/main/java/com/mntnorv/wrdl/GameState.java:71 | `size/8 + 1` bytes hold a bit for every word |
| GuessMask.MarkWordFound | wrdl/src/main/java/com/mntnorv/wrdl/GameState.java:101-104 | for an index the mask covers, exactly bit `idx % 8` of byte `idx / 8` is set; every other bit and byte is kept |
| GuessMask.MarkWordMissing | wrdl/src/main/java/com/mntnorv/wrdl/GameState.java:101-104 | for a missing word (negative search result) the update throws when the result is -8 or less or the mask is empty, and otherwise changes nothing |
| GuessMask.MarkAllRecovers | wrdl/src/main/java/com/mntnorv/wrdl/GameState.java:98-105 | marking words one by one never throws within the mask, marks exactly the old words plus the new ones, and creates no stray bit |
| GuessMask.GuessedRoundTrip | wrdl/src/main/java/com/mntnorv/wrdl/GameState.java:63-105 | the word indices marked one by one on the mask findAllWords allocates are exactly the indices a later findGuessedWords reads back, and that call does not throw |
| Game.WordIndexFound | wrdl/src/main/java/com/mntnorv/wrdl/GameState.java:101 | a non-negative search result is an index of the word in allWords |
| Game.WordIndexSorted | wrdl/src/main/java/com/mntnorv/wrdl/GameState.java:111-113 | on a list sorted by String.compareTo the search finds exactly the words in the list |
| Game.GuessedWordsRoundTrip | wrdl/src/main/java/com/mntnorv/wrdl/GameState.java:58-105 | on a sorted allWords, guessing words of the list one by one on the mask findAllWords allocates leaves no stray bit, and a later findGuessedWords appends exactly the guessed words |
| Game.UnsortedListMissesWord | wrdl/src/main/java/com/mntnorv/wrdl/GameState.java:111-113 | on the list ["TA", "AT"], filled in set order, the search misses "AT", which is there |
| Game.InsertSorted | wrdl/src/main/java/com/mntnorv/wrdl/GameState.java:61 | inserting a word adds exactly that word to the list's contents |
| Game.InsertSortedKeepsOrder | wrdl/src/main/java/com/mntnorv/wrdl/GameState.java:61 | inserting at its place keeps the list sorted |
| Game.SplitAppendToken | wrdl/src/main/java/com/mntnorv/wrdl/GameState.java:233-241 | parsing the string followed by one more well-formed token gives the tokens followed by that token |
| Game.LetterArrayRoundTrip | wrdl/src/main/java/com/mntnorv/wrdl/GameState.java:220-247 | stringToLetterArray(letterArrayToString(a)) == a when each token is one upper-case character followed by non-upper-case ones |
| Game.ExtendLastToken | wrdl/src/main/java/com/mntnorv/wrdl/GameState.java:238-240 | a non-upper-case character joins the last token and keeps every token well formed |
| Game.StartToken | wrdl/src/main/java/com/mntnorv/wrdl/GameState.java:235-237 | an upper-case character starts a token of its own |
| Game.StringRoundTrip | wrdl/src/main/java/com/mntnorv/wrdl/GameState.java:230-247 | the parser succeeds exactly on the empty string and strings that start upper-case, and then its tokens are well formed and join back to the string |
| Game.GameState.constructor | wrdl/src/main/java/com/mntnorv/wrdl/GameState.java:32-43 | a new game has the given size and letters, empty lists, no mask, id -1 and no points |
| Game.GameState.Restore | wrdl/src/main/java/com/mntnorv/wrdl/GameState.java:45-54 | a saved game copies its mask, and reports its saved counts while the lists are empty |
| Game.GameState.AllocateMask | wrdl/src/main/java/com/mntnorv/wrdl/GameState.java:63-75 | a missing mask or the single zero byte is replaced by `size/8 + 1` zero bytes; any other mask is kept |
| Game.GameState.SearchGrid | wrdl/src/main/java/com/mntnorv/wrdl/GameState.java:60-61 | the grid's words on a `size` x `size` grid, and failure exactly when the letters do not fill it |
| Game.GameState.AppendAll | wrdl/src/main/java/com/mntnorv/wrdl/GameState.java:61 | addAll of a set: the old list, then each word of the set exactly once, in some order |
| Game.GameState.InsertAll | wrdl/src/main/java/com/mntnorv/wrdl/GameState.java:61 | the sorted counterpart: the list stays sorted and gains exactly the words of the set |
| Game.GameState.FindAllWords | wrdl/src/main/java/com/mntnorv/wrdl/GameState.java:59-76 | appends the grid's words once each, in set order; allocates the mask when needed; fails, changing nothing, when the letters do not fill the grid |
| Game.GameState.FindAllWordsSorted | wrdl/src/main/java/com/mntnorv/wrdl/GameState.java:59-76 | the same with allWords kept sorted, as the binary searches need |
| Game.GameState.FindGuessedWords | wrdl/src/main/java/com/mntnorv/wrdl/GameState.java:78-96 | appends the words at the marked indices below the word count, in index order; fails exactly when there is no mask or a byte wholly past the words has a bit set |
| Game.GameState.ScanByte | wrdl/src/main/java/com/mntnorv/wrdl/GameState.java:84-94 | the bit loop appends the words of byte `i`'s set bits that stand for words, and throws exactly on a set bit of a byte wholly past the words |
| Game.GameState.AddGuessedWord | wrdl/src/main/java/com/mntnorv/wrdl/GameState.java:98-105 | the word is appended and counted as guessed; the mask gets the word's bit, or the call throws and leaves the mask alone |
| Game.GameState.IsGuessed | wrdl/src/main/java/com/mntnorv/wrdl/GameState.java:107-109 | true exactly when the word is in guessedWords |
| Game.GameState.IsWordInGrid | wrdl/src/main/java/com/mntnorv/wrdl/GameState.java:111-113 | a hit is always a word of allWords, and on a sorted list exactly the words of allWords hit |
| Game.GameState.GetWordCount | wrdl/src/main/java/com/mntnorv/wrdl/GameState.java:151-157 | the list's size when it is not empty, otherwise the saved count |
| Game.GameState.GetGuessedWordCount | wrdl/src/main/java/com/mntnorv/wrdl/GameState.java:159-165 | the same for the guessed words |
| Game.GameState.LetterArrayToString | wrdl/src/main/java/com/mntnorv/wrdl/GameState.java:220-228 | the loop builds the tokens written one after the other |
| Game.GameState.StringToLetterArray | wrdl/src/main/java/com/mntnorv/wrdl/GameState.java:230-247 | the loop builds the parsed tokens, and fails where the source's `set(-1, ...)` throws |
| Touch.Respond | wrdl/src/main/java/com/mntnorv/wrdl/views/GridSequenceTouchListener.java:58-130 | handled iff initialized; nothing changes before initialize or with another pointer count; UP clears and reports SEQUENCE_CLEARED with -1; DOWN inside appends the tile and reports ELEMENT_ADDED with it; any callback carries the new sequence |
| Touch.MoveResponse | wrdl/src/main/java/com/mntnorv/wrdl/views/GridSequenceTouchListener.java:81-118 | a MOVE is always handled, and any callback it makes carries the new sequence |
| Touch.NotifiesOnChange | wrdl/src/main/java/com/mntnorv/wrdl/views/GridSequenceTouchListener.java:119-126 | the callback fires exactly when the sequence changes, or on an UP with nothing selected |
| Touch.UpOnEmptyNotifies | wrdl/src/main/java/com/mntnorv/wrdl/views/GridSequenceTouchListener.java:119-126 | an UP on an empty selection still reports SEQUENCE_CLEARED |
| Touch.MoveRule | wrdl/src/main/java/com/mntnorv/wrdl/views/GridSequenceTouchListener.java:81-118 | a MOVE adds the tile at the head (ELEMENT_ADDED) iff it touches the head, is not selected, the selection is not full and the touch is near the centre; removes the head (ELEMENT_REMOVED, old head) iff the tile is the second one and the touch is near the centre; otherwise nothing changes |
| Touch.ChainPreserved | wrdl/src/main/java/com/mntnorv/wrdl/views/GridSequenceTouchListener.java:76-122 | every event but a DOWN on a non-empty selection keeps the selection distinct, adjacent step by step and at most `rows*columns` long |
| Touch.ReplayKeepsChain | wrdl/src/main/java/com/mntnorv/wrdl/views/GridSequenceTouchListener.java:58-130 | a run of events with no DOWN on a non-empty selection keeps that chain |
| Touch.GestureKeepsChain | wrdl/src/main/java/com/mntnorv/wrdl/views/GridSequenceTouchListener.java:58-130 | a gesture from an empty selection whose only DOWN comes first leaves a chain |
| Touch.RowsDivisorBreaksChain | wrdl/src/main/java/com/mntnorv/wrdl/views/GridSequenceTouchListener.java:83-89 | on a 2 x 3 grid, dividing by rows accepts a MOVE to a tile two rows away from the head |
| Touch.RowsDivisorRefusesNeighbour | wrdl/src/main/java/com/mntnorv/wrdl/views/GridSequenceTouchListener.java:83-89 | on a 3 x 2 grid, dividing by rows refuses a MOVE to the tile just above the head, which dividing by columns accepts |
| Touch.TouchListener.constructor | wrdl/src/main/java/com/mntnorv/wrdl/views/GridSequenceTouchListener.java:34-36 | a new listener is not initialized and has nothing selected |
| Touch.TouchListener.Initialize | wrdl/src/main/java/com/mntnorv/wrdl/views/GridSequenceTouchListener.java:173-180 | sets the grid size and marks the listener initialized |
| Touch.TouchListener.SetGridSize | wrdl/src/main/java/com/mntnorv/wrdl/views/GridSequenceTouchListener.java:168-171 | sets the grid size |
| Touch.TouchListener.OnTouch | wrdl/src/main/java/com/mntnorv/wrdl/views/GridSequenceTouchListener.java:58-130 | the new selection and callback are those of Respond with rows read by columns, and a chain stays a chain |
| Touch.TouchListener.OnMove | wrdl/src/main/java/com/mntnorv/wrdl/views/GridSequenceTouchListener.java:81-118 | the MOVE branch updates the selection as MoveResponse says |
| LoaderIds.Issued | wrdl/src/main/java/com/mntnorv/wrdl/db/LoaderIdManager.java:4-11 | the block starts of successive calls are 0, 1000, 2000, ... |
| LoaderIds.IssuedDisjoint | wrdl/src/main/java/com/mntnorv/wrdl/db/LoaderIdManager.java:7-11 | the id blocks `[start, start+1000)` handed out are pairwise disjoint |
| LoaderIds.IssuedMultiples | wrdl/src/main/java/com/mntnorv/wrdl/db/LoaderIdManager.java:4-11 | every block start is a non-negative multiple of 1000 |
| LoaderIds.LoaderIdManager.constructor | wrdl/src/main/java/com/mntnorv/wrdl/db/LoaderIdManager.java:5 | the counter starts at 0 with nothing issued |
| LoaderIds.LoaderIdManager.GetNextId | wrdl/src/main/java/com/mntnorv/wrdl/db/LoaderIdManager.java:7-11 | returns the counter and raises it by exactly 1000, keeping the record of blocks issued |
| LoaderIds.LoaderIdManager.GetMaxIdsPerLoader | wrdl/src/main/java/com/mntnorv/wrdl/db/LoaderIdManager.java:13-15 | always 1000 |
| Loaders.GetInt | wrdl/src/main/java/com/mntnorv/wrdl/db/DatabaseSource.java:189-190 | Bundle.getInt: the stored int, or 0 when there is none |
| Loaders.CycleId | wrdl/src/main/java/com/mntnorv/wrdl/db/DatabaseSource.java:68-77 | after any number of calls the current id lies in `[MIN, MIN+1000)` |
| Loaders.CycleStep | wrdl/src/main/java/com/mntnorv/wrdl/db/DatabaseSource.java:68-77 | one call of getNextId (increment, wrap at MAX) moves the cycle one step |
| Loaders.CyclePeriod | wrdl/src/main/java/com/mntnorv/wrdl/db/DatabaseSource.java:68-77 | the ids repeat after exactly 1000 calls and not before |
| Loaders.RegisterThenRemove | wrdl/src/main/java/com/mntnorv/wrdl/db/DatabaseSource.java:47-62 | registering a fresh id and cancelling it leaves the registry as it was |
| Loaders.RemoveKeepsOthers | wrdl/src/main/java/com/mntnorv/wrdl/db/DatabaseSource.java:59-62 | removing one id touches no other entry |
| Loaders.ReadRows | wrdl/src/main/java/com/mntnorv/wrdl/db/DatabaseSource.java:227-232 | one result per cursor row, in row order |
| DbSource.IntRoundTrip | wrdl/src/main/java/com/mntnorv/wrdl/db/DatabaseSource.java:83-95 | every int appended to the clause reads back as itself and holds no space |
| DbSource.WordsJoin | wrdl/src/main/java/com/mntnorv/wrdl/db/DatabaseSource.java:89-91 | a space between two strings keeps their words apart |
| DbSource.LimitShapes | wrdl/src/main/java/com/mntnorv/wrdl/db/DatabaseSource.java:79-103 | the clause is "LIMIT n", "OFFSET m", "LIMIT n OFFSET m" or absent, by which keys are present |
| DbSource.LimitRoundTrip | wrdl/src/main/java/com/mntnorv/wrdl/db/DatabaseSource.java:79-103 | the clause is absent exactly when neither key is present, and otherwise reads back as the count and offset the arguments ask for |
| DbSource.ParseCountOffset | wrdl/src/main/java/com/mntnorv/wrdl/db/DatabaseSource.java:88-96 | "LIMIT n OFFSET m" reads back as both numbers |
| DbSource.RunTogether | wrdl/src/main/java/com/mntnorv/wrdl/db/DatabaseSource.java:196-202 | a two-word order and a two-word clause run together make three words, not four |
| DbSource.SortLimitRunsTogether | wrdl/src/main/java/com/mntnorv/wrdl/db/DatabaseSource.java:196-202 | as written, "score DESC" and "LIMIT 5" become "score DESCLIMIT 5", whose words are not those of the two parts |
| DbSource.SortLimitAsWritten | wrdl/src/main/java/com/mntnorv/wrdl/db/DatabaseSource.java:192-206 | the sort-and-limit string as the source builds it is null exactly when both parts are absent or empty |
| DbSource.SortLimit | wrdl/src/main/java/com/mntnorv/wrdl/db/DatabaseSource.java:192-206 | the corrected sort-and-limit string is null exactly when both parts are absent or empty |
| DbSource.SortLimitKeepsWords | wrdl/src/main/java/com/mntnorv/wrdl/db/DatabaseSource.java:196-202 | with a space between, the query sees the order's words followed by the clause's |
| DbSource.SortLimitAgrees | wrdl/src/main/java/com/mntnorv/wrdl/db/DatabaseSource.java:192-206 | when either part is absent or empty the corrected string is the one the source builds |
| DbSource.LoaderQuery | wrdl/src/main/java/com/mntnorv/wrdl/db/DatabaseSource.java:184-208 | the corrected query: an item id selects the item URI with no sort-and-limit string; no arguments give the base URI and none; otherwise the base URI with the corrected string of the sort order and the arguments' limit clause |
| DbSource.LoaderQueryAsWritten | wrdl/src/main/java/com/mntnorv/wrdl/db/DatabaseSource.java:184-208 | the query as the source builds it: the same URI choice, and without an item id the sort order and the limit clause run together |
| DbSource.LoaderQueriesAgree | wrdl/src/main/java/com/mntnorv/wrdl/db/DatabaseSource.java:188-206 | the two queries are equal unless the arguments hold a limit key and no item id and the sort order is non-empty |
| DbSource.LoaderQueryRunsTogether | wrdl/src/main/java/com/mntnorv/wrdl/db/DatabaseSource.java:192-206 | with `itemCount` 5 and the order "score DESC", the source's query string is "score DESCLIMIT 5", the corrected one "score DESC LIMIT 5" |
| DbSource.LoaderQueryLimit | wrdl/src/main/java/com/mntnorv/wrdl/db/DatabaseSource.java:191-206 | without an item id, the query's limit reads back as the count and offset the arguments ask for |
| DbSource.DatabaseSource.constructor | wrdl/src/main/java/com/mntnorv/wrdl/db/DatabaseSource.java:34-37 | MIN is the manager's next block start, MAX is MIN + 1000 and nextId is MIN; the manager records the block |
| DbSource.DatabaseSource.GetNextId | wrdl/src/main/java/com/mntnorv/wrdl/db/DatabaseSource.java:68-77 | returns the current id, in `[MIN, MAX)`, and moves to the next one, wrapping to MIN at MAX |
| DbSource.DatabaseSource.StartLoader | wrdl/src/main/java/com/mntnorv/wrdl/db/DatabaseSource.java:47-53 | registers the subject under the id just allocated and returns it |
| DbSource.DatabaseSource.CancelLoader | wrdl/src/main/java/com/mntnorv/wrdl/db/DatabaseSource.java:59-62 | removes exactly that id's listener |
| DbSource.DatabaseSource.OnLoadFinished | wrdl/src/main/java/com/mntnorv/wrdl/db/DatabaseSource.java:223-238 | removes the loader's entry, and emits one item per row in order exactly when a listener was registered |
| BaseDbSource.BaseLoaderQuery | wrdl/src/main/java/com/mntnorv/wrdl/db/BaseDatabaseSource.java:153-168 | the item URI exactly when the arguments are present and hold the item id, else the base URI; the sort order passes through |
| BaseDbSource.SameUri | wrdl/src/main/java/com/mntnorv/wrdl/db/BaseDatabaseSource.java:154-160 | both sources choose the same URI, and the same sort string when no limit keys are present |
| BaseDbSource.BaseDatabaseSource.constructor | wrdl/src/main/java/com/mntnorv/wrdl/db/BaseDatabaseSource.java:31-38 | MIN is the manager's next block start, MAX is MIN + 1000 and nextId is MIN |
| BaseDbSource.BaseDatabaseSource.GetNextId | wrdl/src/main/java/com/mntnorv/wrdl/db/BaseDatabaseSource.java:65-74 | returns the current id, in `[MIN, MAX)`, and moves to the next one, wrapping to MIN at MAX |
| BaseDbSource.BaseDatabaseSource.StartLoader | wrdl/src/main/java/com/mntnorv/wrdl/db/BaseDatabaseSource.java:44-50 | registers the subject under the id just allocated |
| BaseDbSource.BaseDatabaseSource.CancelLoader | wrdl/src/main/java/com/mntnorv/wrdl/db/BaseDatabaseSource.java:56-59 | removes exactly that id's listener |
| BaseDbSource.BaseDatabaseSource.OnLoadFinished | wrdl/src/main/java/com/mntnorv/wrdl/db/BaseDatabaseSource.java:174-189 | always removes the loader's entry, and emits the rows in order exactly when a listener was present |

## Left out

- Stream reading in `readWords` is left out (`available`, `read` into a 1024-byte buffer). The model splits the whole byte sequence, which gives the same entries as any chunking.
- `Log.d` calls are left out: they only log.
- `toUpperCase(Locale.US)` is modelled on ASCII letters only: the JDK's case mapping is not part of this model.
- `Character.isUpperCase` is modelled on ASCII letters only, for the same reason.
- The float hit test in the touch listener is left out: tile sizes, `(int)` truncation and the distance to the centre. An event carries its tile coordinates and a boolean "near the centre".
- `setWidth`, `setHeight` and `setSize` are left out, along with the float fields they update. `initialize` and `setGridSize` are modelled on the integer dimensions only.
- The Android and Rx plumbing is left out: `LoaderManager.initLoader`/`destroyLoader`, `CursorLoader`, `Cursor`, `Uri` and `PublishSubject`.
  - The subject that `startLoader` creates is a parameter.
  - An emission is returned as a value (subject and results) instead of `onNext`/`onCompleted`.
  - The columns, selection and sort-order hooks of subclasses are parameters or left out.
- `synchronized` on `getNextId` is left out: the model is sequential.
- `LoaderIdManager`'s static counter is the field of one manager object that every source is given.
- Java `int` overflow is not modelled. Tile indices, loader ids, block starts and word indices are unbounded integers. The source stays far below 2^31 for them.
- `GameState.toContentValues`, `createFromCursor` and the `gameMode` field are left out: they are database marshalling. `Restore` models the private constructor that `createFromCursor` calls.
- The getters and `setId` of `GameState` are left out: they only return or set a field.
- Exceptions are modelled as a `false` or `None` result, with the state the source leaves behind at the throw:
  - the grid constructor's size check;
  - `set(-1, ...)` in `stringToLetterArray`;
  - a null or too-short mask in `addGuessedWord`;
  - an out-of-range lookup in `findGuessedWords`.
- The `break` of `findGuessedWords`' inner loop is folded into the loop guard. So is the loop exit at the exception.
- Game.GameState.FindAllWords: `addAll` of a `HashSet` appends the set's words in an unspecified order. The contract states that each word is appended exactly once and says nothing of the order.
- Dictionaries.PrefixMonotone: holds only for prefixes whose characters survive the byte cast (ASCII or U+FF80..U+FFFF). Dictionaries.NonRepresentablePrefixNotMonotone shows it fails otherwise.
- Touch.TouchListener.OnTouch: `selected` is a sequence value. The source hands the callback its own `ArrayList`, and the aliasing that follows is not modelled.
- Grid.GridWordsSound: the length bound is the cap plus the last token. The javadoc of `setMaxWordLength` (LetterGrid.java:102) calls the cap the maximum word length, but the code tests the cap before it adds a tile (LetterGrid.java:119), so this model follows the code (Grid.LastTileCrossesCap).
- Touch.NotifiesOnChange: the callback also fires on an UP with nothing selected, so "fires iff the sequence changed" holds only with that exception.
- DbSource.Words: splits a clause at single spaces. SQL's own tokenizer is not part of this model.
- Strings are sequences of Unicode scalar values, not of Java's UTF-16 units. A character above U+FFFF is one element here and a surrogate pair in Java, so `encodeWord` gives it one byte where Java gives two, and `String.compareTo` order differs from the model's between such characters and U+E000..U+FFFF. Lone surrogates cannot be represented. Words of the game are upper-case ASCII, where the two agree.
- Negative grid sizes are excluded: the grid dimensions and the game size are `nat`.

## Findings

| source | as written | input that shows it | evidently intended | confidence | as-written member | corrected member |
|---|---|---|---|---|---|---|
| wrdl/src/main/java/com/mntnorv/wrdl/GameState.java:61 | allWords is filled from the `HashSet` the grid search returns, in the set's iteration order, and then binary-searched by `addGuessedWord` and `isWordInGrid` (lines 101, 112) | allWords = ["TA", "AT"]: the search for "AT" returns a negative index although "AT" is in the list | allWords kept sorted by String.compareTo, so the searches find every word of the grid | not executed | Game.GameState.FindAllWords, Game.UnsortedListMissesWord | Game.GameState.FindAllWordsSorted, Game.InsertSortedKeepsOrder, Game.WordIndexSorted |
| wrdl/src/main/java/com/mntnorv/wrdl/views/GridSequenceTouchListener.java:83-89 | the row of a stored tile `row * columns + column` is computed as `index / rows` | on a 2 x 3 grid (2 columns, 3 rows) with tile 5 (column 1, row 2) selected, a MOVE to tile 1 (column 1, row 0) is accepted as a neighbour; the app does not show it, because TileGridView.java:242 always initializes a square grid, where `/ rows` equals `/ columns` | `index / columns`, the inverse of the encoding at lines 77 and 107 | not executed | Touch.Respond, Touch.RowsDivisorBreaksChain, Touch.RowsDivisorRefusesNeighbour | Touch.TouchListener.OnTouch, Touch.MoveRule, Touch.ChainPreserved |
| wrdl/src/main/java/com/mntnorv/wrdl/db/DatabaseSource.java:196-202 | the sort order and the limit clause are concatenated with no separator | sort order "score DESC" with `itemCount` 5 gives "score DESCLIMIT 5"; the app does not show it, because neither AbstractDatabaseSource nor GameStateSource overrides `getSortOrderFromBundle`, whose default (DatabaseSource.java:175-177) returns null; GameStateSource.java:43 instead declares a `getSortOrder` that DatabaseSource never calls, returning "_id DESC", which is the order that would run together with the limit keys AbstractDatabaseSource.java:27-28 sets | a space between a non-empty sort order and a non-empty limit clause | not executed | DbSource.LoaderQueryAsWritten, DbSource.SortLimitAsWritten, DbSource.SortLimitRunsTogether, DbSource.LoaderQueryRunsTogether | DbSource.LoaderQuery, DbSource.SortLimit, DbSource.SortLimitKeepsWords |
