/**
 * The state of one game (GameState.java): the grid letters, the words the grid holds, the words
 * the player has guessed, and the packed "guessed" mask that is saved with the game, in which
 * bit `i % 8` of byte `i / 8` marks word `i` of `allWords` (module GuessMask).
 */
module Game {
  import opened Wrappers
  import opened Lex
  import opened Dictionaries
  import opened Grid
  import opened JavaInts
  import opened GuessMask

  // ---------------------------------------------------------------------------------------------
  // Word lookup

  /**
   * The code of each character, which String.compareTo compares. These are Java's UTF-16 units
   * for characters up to U+FFFF; a character above U+FFFF is one code here and a surrogate pair
   * in Java.
   */
  function Code(s: string): (r: seq<int>)
    ensures |r| == |s| && forall i :: 0 <= i < |s| ==> r[i] == s[i] as int
  {
    seq(|s|, i requires 0 <= i < |s| => s[i] as int)
  }

  function Codes(words: seq<string>): (r: seq<seq<int>>)
    ensures |r| == |words| && forall k :: 0 <= k < |words| ==> r[k] == Code(words[k])
  {
    seq(|words|, k requires 0 <= k < |words| => Code(words[k]))
  }

  lemma CodeInjective(a: string, b: string)
    requires Code(a) == Code(b)
    ensures a == b
  {
    assert |a| == |Code(a)|;
    forall i | 0 <= i < |a| ensures a[i] == b[i] {
      assert Code(a)[i] == Code(b)[i];
    }
  }

  /** The list is sorted by String.compareTo. */
  ghost predicate SortedWords(words: seq<string>)
  {
    forall i, j :: 0 <= i < j < |words| ==> Compare(Code(words[i]), Code(words[j])) <= 0
  }

  lemma SortedCodes(words: seq<string>)
    requires SortedWords(words)
    ensures Sorted(Codes(words))
  {
  }

  /** Collections.binarySearch(words, w). */
  function WordIndex(words: seq<string>, w: string): (r: int)
  {
    BinarySearch(Codes(words), Code(w))
  }

  lemma WordIndexFound(words: seq<string>, w: string)
    requires WordIndex(words, w) >= 0
    ensures WordIndex(words, w) < |words| && words[WordIndex(words, w)] == w
  {
    CodeInjective(words[WordIndex(words, w)], w);
  }

  /** On a sorted list the search finds exactly the words in the list. */
  lemma WordIndexSorted(words: seq<string>, w: string)
    ensures SortedWords(words) ==> (WordIndex(words, w) >= 0 <==> w in words)
  {
    if !SortedWords(words) {
      return;
    }
    SortedCodes(words);
    BinarySearchSorted(Codes(words), Code(w));
    if WordIndex(words, w) >= 0 {
      WordIndexFound(words, w);
    }
    if w in words {
      var k :| 0 <= k < |words| && words[k] == w;
      assert Codes(words)[k] == Code(w);
    }
  }

  /** The indices addGuessedWord's binarySearch gives the words `ws`, one call each. */
  function WordIndices(words: seq<string>, ws: seq<string>): (r: seq<int>)
    ensures |r| == |ws| && forall k :: 0 <= k < |ws| ==> r[k] == WordIndex(words, ws[k])
  {
    seq(|ws|, k requires 0 <= k < |ws| => WordIndex(words, ws[k]))
  }

  /**
   * The round trip over words: on a sorted word list, guessing the words `ws` one by one on the
   * mask findAllWords allocates succeeds, leaves no bit past the words, and a later
   * findGuessedWords appends exactly the words of `ws`.
   */
  lemma {:induction false} GuessedWordsRoundTrip(words: seq<string>, ws: seq<string>)
    requires SortedWords(words)
    requires forall k :: 0 <= k < |ws| ==> ws[k] in words
    ensures MarkAll(Zeros(|words| / 8 + 1), WordIndices(words, ws)).Some?
    ensures !StrayBit(MarkAll(Zeros(|words| / 8 + 1), WordIndices(words, ws)).value, |words|)
    ensures forall w :: w in Pick(words, MarkedIndices(MarkAll(Zeros(|words| / 8 + 1), WordIndices(words, ws)).value, |words|)) <==> w in ws
  {
    var idxs := WordIndices(words, ws);
    IndicesOfMembers(words, ws, idxs);
    GuessedRoundTrip(|words|, idxs);
    var mask := MarkAll(Zeros(|words| / 8 + 1), idxs).value;
    PickExactly(words, MarkedIndices(mask, |words|), idxs, ws);
  }

  /** On a sorted list every member's search result is its index. */
  lemma {:induction false} IndicesOfMembers(words: seq<string>, ws: seq<string>, idxs: seq<int>)
    requires SortedWords(words) && forall k :: 0 <= k < |ws| ==> ws[k] in words
    requires idxs == WordIndices(words, ws)
    ensures |idxs| == |ws| && forall k :: 0 <= k < |idxs| ==> 0 <= idxs[k] < |words| && words[idxs[k]] == ws[k]
  {
    forall k | 0 <= k < |idxs| ensures 0 <= idxs[k] < |words| && words[idxs[k]] == ws[k] {
      WordIndexSorted(words, ws[k]);
      WordIndexFound(words, ws[k]);
    }
  }

  /** Picking the words at the marked indices gives the words whose indices were marked. */
  lemma {:induction false} PickExactly(words: seq<string>, marked: seq<int>, idxs: seq<int>, ws: seq<string>)
    requires forall a :: 0 <= a < |marked| ==> 0 <= marked[a] < |words|
    requires |idxs| == |ws| && forall k :: 0 <= k < |idxs| ==> 0 <= idxs[k] < |words| && words[idxs[k]] == ws[k]
    requires forall x :: x in marked <==> x in idxs
    ensures forall w :: w in Pick(words, marked) <==> w in ws
  {
    var picked := Pick(words, marked);
    forall w ensures w in picked <==> w in ws {
      if w in picked {
        var k :| 0 <= k < |picked| && picked[k] == w;
        assert marked[k] in marked;
        var j :| 0 <= j < |idxs| && idxs[j] == marked[k];
        assert ws[j] == w;
      }
      if w in ws {
        var j :| 0 <= j < |ws| && ws[j] == w;
        assert idxs[j] in idxs;
        var k :| 0 <= k < |marked| && marked[k] == idxs[j];
        assert picked[k] == w;
      }
    }
  }

  /** On a list in another order the search can miss a word that is there. */
  lemma UnsortedListMissesWord()
    ensures "AT" in ["TA", "AT"] && WordIndex(["TA", "AT"], "AT") < 0
  {
    var list := Codes(["TA", "AT"]);
    assert list[0] == [84, 65] && list[1] == [65, 84];
    assert Compare(list[0], [65, 84]) > 0;
    assert SearchRange(list, [65, 84], 0, 1) == SearchRange(list, [65, 84], 0, -1);
  }

  /** Inserting a word at its place under String.compareTo. */
  function InsertSorted(words: seq<string>, w: string): (r: seq<string>)
    ensures |r| == |words| + 1 && multiset(r) == multiset(words) + multiset{w}
    ensures forall x :: x in r <==> x in words || x == w
  {
    if words == [] || Compare(Code(w), Code(words[0])) <= 0 then [w] + words
    else
      assert words == [words[0]] + words[1..];
      [words[0]] + InsertSorted(words[1..], w)
  }

  lemma {:induction false} InsertSortedKeepsOrder(words: seq<string>, w: string)
    requires SortedWords(words)
    ensures SortedWords(InsertSorted(words, w))
  {
    var r := InsertSorted(words, w);
    if words == [] || Compare(Code(w), Code(words[0])) <= 0 {
      assert r == [w] + words;
      forall j | 0 <= j < |words| ensures Compare(Code(w), Code(words[j])) <= 0 {
        if j > 0 {
          CompareTransitive(Code(w), Code(words[0]), Code(words[j]));
        }
      }
      SortedCons(w, words);
    } else {
      var tail := words[1..];
      assert SortedWords(tail) by {
        forall i, j | 0 <= i < j < |tail| ensures Compare(Code(tail[i]), Code(tail[j])) <= 0 {
          assert tail[i] == words[i + 1] && tail[j] == words[j + 1];
        }
      }
      InsertSortedKeepsOrder(tail, w);
      var rest := InsertSorted(tail, w);
      assert r == [words[0]] + rest;
      CompareAntisymmetric(Code(w), Code(words[0]));
      forall j | 0 <= j < |rest| ensures Compare(Code(words[0]), Code(rest[j])) <= 0 {
        var x := rest[j];
        assert x in multiset(rest);
        if x != w {
          assert x in multiset(tail);
          var k :| 0 <= k < |tail| && tail[k] == x;
          assert words[k + 1] == x;
        }
      }
      SortedCons(words[0], rest);
    }
  }

  lemma SortedCons(w: string, words: seq<string>)
    requires SortedWords(words)
    requires forall j :: 0 <= j < |words| ==> Compare(Code(w), Code(words[j])) <= 0
    ensures SortedWords([w] + words)
  {
    var r := [w] + words;
    forall i, j | 0 <= i < j < |r| ensures Compare(Code(r[i]), Code(r[j])) <= 0 {
      if i > 0 {
        assert r[i] == words[i - 1] && r[j] == words[j - 1];
      } else {
        assert r[j] == words[j - 1];
      }
    }
  }

  // ---------------------------------------------------------------------------------------------
  // Letter tokens

  /** Character.isUpperCase, on the ASCII letters the grids use. */
  predicate IsUpper(c: char)
  {
    'A' <= c <= 'Z'
  }

  /** The letters written one after the other. */
  function Concat(letters: seq<string>): (r: string)
  {
    if letters == [] then "" else Concat(letters[..|letters| - 1]) + letters[|letters| - 1]
  }

  /**
   * The tokens read back from a string: an upper-case character starts a token, any other
   * character joins the token before it; None when the first character is not upper-case, where
   * the source calls `set(-1, ...)` and throws.
   */
  function SplitTokens(s: string): (r: Option<seq<string>>)
  {
    if s == [] then Some([])
    else
      var c := s[|s| - 1];
      match SplitTokens(s[..|s| - 1])
      case None => None
      case Some(tokens) =>
        if IsUpper(c) then Some(tokens + [[c]])
        else if tokens == [] then None
        else Some(tokens[..|tokens| - 1] + [tokens[|tokens| - 1] + [c]])
  }

  /** A token the parser reads back whole: one upper-case character, then none. */
  predicate WellToken(t: string)
  {
    |t| > 0 && IsUpper(t[0]) && forall i :: 0 < i < |t| ==> !IsUpper(t[i])
  }

  lemma {:induction false} SplitAppendToken(x: string, tokens: seq<string>, t: string)
    requires SplitTokens(x) == Some(tokens) && WellToken(t)
    ensures SplitTokens(x + t) == Some(tokens + [t])
    decreases |t|
  {
    var s := x + t;
    assert s[..|s| - 1] == x + t[..|t| - 1];
    if |t| == 1 {
      assert x + t[..0] == x && t == [t[0]];
    } else {
      var t' := t[..|t| - 1];
      SplitAppendToken(x, tokens, t');
      assert t' + [t[|t| - 1]] == t;
      assert (tokens + [t'])[..|tokens|] == tokens;
    }
  }

  /** Joining well-formed tokens and parsing the result gives the tokens back. */
  lemma {:induction false} LetterArrayRoundTrip(letters: seq<string>)
    requires forall k :: 0 <= k < |letters| ==> WellToken(letters[k])
    ensures SplitTokens(Concat(letters)) == Some(letters)
  {
    if letters != [] {
      var front := letters[..|letters| - 1];
      LetterArrayRoundTrip(front);
      SplitAppendToken(Concat(front), front, letters[|letters| - 1]);
      assert front + [letters[|letters| - 1]] == letters;
    }
  }

  /** A character that is not upper-case joins the last token. */
  lemma ExtendLastToken(tokens: seq<string>, c: char)
    requires tokens != [] && !IsUpper(c)
    requires forall k :: 0 <= k < |tokens| ==> WellToken(tokens[k])
    ensures var r := tokens[..|tokens| - 1] + [tokens[|tokens| - 1] + [c]];
            Concat(r) == Concat(tokens) + [c] && forall k :: 0 <= k < |r| ==> WellToken(r[k])
  {
    var front := tokens[..|tokens| - 1];
    var last := tokens[|tokens| - 1];
    var r := front + [last + [c]];
    assert r[..|r| - 1] == front;
    assert Concat(tokens) == Concat(front) + last;
    forall k | 0 <= k < |r| ensures WellToken(r[k]) {
      if k < |front| {
        assert r[k] == tokens[k];
      } else {
        assert WellToken(last);
      }
    }
  }

  /** An upper-case character starts a token of its own. */
  lemma StartToken(tokens: seq<string>, c: char)
    requires IsUpper(c)
    requires forall k :: 0 <= k < |tokens| ==> WellToken(tokens[k])
    ensures Concat(tokens + [[c]]) == Concat(tokens) + [c]
    ensures forall k :: 0 <= k < |tokens| + 1 ==> WellToken((tokens + [[c]])[k])
  {
    var r := tokens + [[c]];
    assert r[..|r| - 1] == tokens;
  }

  /**
   * The parser succeeds exactly on the empty string and on strings that start upper-case; then
   * its tokens are well-formed and join back to the string.
   */
  lemma {:induction false} StringRoundTrip(s: string)
    ensures SplitTokens(s).Some? <==> s == [] || IsUpper(s[0])
    ensures SplitTokens(s).Some? ==>
              Concat(SplitTokens(s).value) == s &&
              forall k :: 0 <= k < |SplitTokens(s).value| ==> WellToken(SplitTokens(s).value[k])
  {
    if s != [] {
      var p := s[..|s| - 1];
      var c := s[|s| - 1];
      StringRoundTrip(p);
      assert s == p + [c];
      if p != [] {
        assert p[0] == s[0];
      }
      match SplitTokens(p)
      case None =>
      case Some(tokens) =>
        if IsUpper(c) {
          StartToken(tokens, c);
        } else if tokens != [] {
          ExtendLastToken(tokens, c);
        }
    }
  }

  // ---------------------------------------------------------------------------------------------
  // The game

  class GameState {
    var id: int
    var size: nat
    var letterArray: seq<string>
    /** The saved mask; null until findAllWords allocates it or a saved game supplies it. */
    var guessed: array?<bv8>
    var points: int
    var allWords: seq<string>
    var guessedWords: seq<string>
    /** The counts saved with the game, reported while the lists are still empty. */
    var wordCountCache: int
    var guessedCountCache: int

    /** A new game on a `size` x `size` grid. */
    constructor (size: nat, grid: seq<string>)
      ensures this.size == size && letterArray == grid && guessed == null
      ensures allWords == [] && guessedWords == []
      ensures id == -1 && points == 0 && wordCountCache == 0 && guessedCountCache == 0
    {
      this.size := size;
      letterArray := grid;
      guessed := null;
      allWords := [];
      guessedWords := [];
      id := -1;
      points := 0;
      wordCountCache := 0;
      guessedCountCache := 0;
    }

    /** A saved game: its counts stand in until the word lists are rebuilt. */
    constructor Restore(id: int, size: nat, grid: seq<string>, wordCount: int, guessedCount: int,
                        saved: seq<bv8>, points: int)
      ensures this.id == id && this.size == size && letterArray == grid && this.points == points
      ensures guessed != null && fresh(guessed) && guessed[..] == saved
      ensures allWords == [] && guessedWords == []
      ensures GetWordCount() == wordCount && GetGuessedWordCount() == guessedCount
    {
      this.size := size;
      letterArray := grid;
      allWords := [];
      guessedWords := [];
      this.id := id;
      guessed := new bv8[|saved|](i requires 0 <= i < |saved| => saved[i]);
      wordCountCache := wordCount;
      guessedCountCache := guessedCount;
      this.points := points;
    }

    /** The mask is missing, or is the single zero byte a game saved without one gets. */
    predicate NeedsMask()
      reads this, guessed
    {
      guessed == null || (guessed.Length == 1 && guessed[0] == 0)
    }

    /** The second half of findAllWords: a zeroed mask with a bit for every word, when needed. */
    method AllocateMask()
      modifies this`guessed
      ensures old(NeedsMask()) ==> guessed != null && fresh(guessed) && guessed[..] == Zeros(|allWords| / 8 + 1)
      ensures !old(NeedsMask()) ==> guessed == old(guessed)
    {
      if guessed == null || (guessed.Length == 1 && guessed[0] == 0) {
        var mask := new bv8[|allWords| / 8 + 1];
        for i := 0 to mask.Length
          invariant forall k :: 0 <= k < i ==> mask[k] == 0
        {
          mask[i] := 0;
        }
        guessed := mask;
      }
    }

    /**
     * The first line of findAllWords: the words of the `size` x `size` grid, None-like where the
     * grid constructor throws because the letters do not fill it.
     */
    static method SearchGrid(letters: seq<string>, size: nat, dict: Dictionary) returns (found: Option<set<string>>)
      ensures found.None? <==> |letters| != size * size
      ensures found.Some? ==> |letters| == size * size &&
                              found.value == WordsInGrid(GridSpace(letters, size, size, dict.wordList))
    {
      var grid := LetterGrid.Create(letters, size, size);
      if grid.None? {
        return None;
      }
      var words := grid.value.GetWordsInGrid(dict);
      return Some(words);
    }

    /**
     * allWords.addAll on a set: each word of `found` once, after the words already there, in the
     * unspecified iteration order of the set.
     */
    method AppendAll(found: set<string>)
      modifies this`allWords
      ensures |allWords| == |old(allWords)| + |found| && allWords[..|old(allWords)|] == old(allWords)
      ensures forall w :: w in allWords[|old(allWords)|..] <==> w in found
      ensures forall a, b :: |old(allWords)| <= a < b < |allWords| ==> allWords[a] != allWords[b]
    {
      var rest := found;
      ghost var added: seq<string> := [];
      while rest != {}
        invariant allWords == old(allWords) + added
        invariant rest <= found && |added| + |rest| == |found|
        invariant forall w :: w in added <==> w in found && w !in rest
        invariant forall a, b :: 0 <= a < b < |added| ==> added[a] != added[b]
        decreases |rest|
      {
        var w :| w in rest;
        allWords := allWords + [w];
        added := added + [w];
        rest := rest - {w};
      }
      assert allWords[..|old(allWords)|] == old(allWords) && allWords[|old(allWords)|..] == added;
    }

    /** The sorted counterpart of AppendAll: every word of `found` is inserted at its place. */
    method InsertAll(found: set<string>)
      requires SortedWords(allWords)
      modifies this`allWords
      ensures SortedWords(allWords) && |allWords| == |old(allWords)| + |found|
      ensures forall w :: w in allWords <==> w in old(allWords) || w in found
    {
      var rest := found;
      while rest != {}
        invariant SortedWords(allWords) && rest <= found
        invariant forall x :: x in allWords <==> x in old(allWords) || (x in found && x !in rest)
        invariant |allWords| + |rest| == |old(allWords)| + |found|
        decreases |rest|
      {
        var w :| w in rest;
        InsertSortedKeepsOrder(allWords, w);
        allWords := InsertSorted(allWords, w);
        rest := rest - {w};
      }
    }

    /**
     * findAllWords: appends the grid's words to allWords, in the unspecified iteration order of
     * the result set, and allocates the mask; false where the grid constructor throws.
     */
    method FindAllWords(dict: Dictionary) returns (ok: bool)
      modifies this`allWords, this`guessed
      ensures ok <==> |letterArray| == size * size
      ensures !ok ==> allWords == old(allWords) && guessed == old(guessed)
      ensures ok ==> var found := WordsInGrid(GridSpace(letterArray, size, size, dict.wordList));
                     |allWords| == |old(allWords)| + |found| && allWords[..|old(allWords)|] == old(allWords) &&
                     (forall w :: w in allWords[|old(allWords)|..] <==> w in found) &&
                     forall a, b :: |old(allWords)| <= a < b < |allWords| ==> allWords[a] != allWords[b]
      ensures ok && old(NeedsMask()) ==> guessed != null && fresh(guessed) && guessed[..] == Zeros(|allWords| / 8 + 1)
      ensures ok && !old(NeedsMask()) ==> guessed == old(guessed)
    {
      var found := SearchGrid(letterArray, size, dict);
      if found.None? {
        return false;
      }
      AppendAll(found.value);
      AllocateMask();
      return true;
    }

    /**
     * findAllWords with its result sorted, as the binary searches of addGuessedWord and
     * isWordInGrid need.
     */
    method FindAllWordsSorted(dict: Dictionary) returns (ok: bool)
      requires SortedWords(allWords)
      modifies this`allWords, this`guessed
      ensures ok <==> |letterArray| == size * size
      ensures !ok ==> allWords == old(allWords) && guessed == old(guessed)
      ensures SortedWords(allWords)
      ensures ok ==> var found := WordsInGrid(GridSpace(letterArray, size, size, dict.wordList));
                     |allWords| == |old(allWords)| + |found| &&
                     forall w :: w in allWords <==> w in old(allWords) || w in found
      ensures ok && old(NeedsMask()) ==> guessed != null && fresh(guessed) && guessed[..] == Zeros(|allWords| / 8 + 1)
      ensures ok && !old(NeedsMask()) ==> guessed == old(guessed)
    {
      var found := SearchGrid(letterArray, size, dict);
      if found.None? {
        return false;
      }
      InsertAll(found.value);
      AllocateMask();
      return true;
    }

    /**
     * Rebuilds guessedWords from the mask: the words whose bits are set, in index order; false
     * where the source throws (no mask, or a set bit in a byte wholly past the words, after the
     * words before it were appended).
     */
    method FindGuessedWords() returns (ok: bool)
      modifies this`guessedWords
      ensures guessed == null ==> !ok && guessedWords == old(guessedWords)
      ensures guessed != null ==>
                guessedWords == old(guessedWords) + Pick(allWords, MarkedIndices(guessed[..], |allWords|))
      ensures guessed != null ==> (ok <==> !StrayBit(guessed[..], |allWords|))
    {
      if guessed == null {
        return false;
      }
      var words := allWords;
      var n := |words|;
      ghost var mask := guessed[..];
      var i := 0;
      ok := true;
      // the source's exception at a stray bit ends the loop through the guard
      while i < guessed.Length && ok
        invariant 0 <= i <= guessed.Length && guessed[..] == mask && allWords == words
        invariant ok ==> guessedWords == old(guessedWords) + MaskWords(words, mask, i) && ClearBelow(mask, n, i)
        invariant !ok ==> guessedWords == old(guessedWords) + Recovered(words, mask, n) && StrayBit(mask, n)
      {
        ok := ScanByte(i);
        if ok {
          ClearStep(mask, n, i);
        } else {
          StrayAt(mask, n, i);
          MaskWordsPast(words, mask, i);
        }
        i := i + 1;
      }
      if ok {
        MaskWordsAll(words, mask);
        ClearNoStray(mask, n);
      }
      RecoveredPicks(words, mask, n);
    }

    /**
     * The inner loop of findGuessedWords, over the bits of byte `i` from the lowest: appends the
     * word of each set bit and stops at the end of the word list; false where the word lookup
     * throws, at the first set bit of a byte wholly past the words.
     */
    method ScanByte(i: nat) returns (ok: bool)
      requires guessed != null && i < guessed.Length
      modifies this`guessedWords
      ensures guessedWords == old(guessedWords) + ByteWords(allWords, guessed[i], i * 8, 8)
      ensures ok <==> !(i * 8 > |allWords| && !ClearUpTo(guessed[i], 8))
    {
      var words := allWords;
      var n := |words|;
      var bitMask: bv8 := 1;
      var b := guessed[i];
      var currentByte := b;
      var j := 0;
      var found := guessedWords;
      // the source's `break` at the end of the word list is folded into the guard
      while j < 8 && i * 8 + j != n
        invariant 0 <= j <= 8
        invariant currentByte == Shifted(b, j)
        invariant i * 8 <= n ==> i * 8 + j <= n
        invariant found == old(guessedWords) + ByteWords(words, b, i * 8, j)
        invariant i * 8 > n ==> ClearUpTo(b, j)
      {
        LowBit(b, j);
        if currentByte & bitMask == 1 {
          if i * 8 + j >= n {
            ByteWordsPast(words, b, i * 8, j, 8);
            guessedWords := found;
            return false;
          }
          Assoc(old(guessedWords), ByteWords(words, b, i * 8, j), [words[i * 8 + j]]);
          found := found + [words[i * 8 + j]];
        }
        currentByte := Sar1(currentByte);
        j := j + 1;
      }
      if j < 8 {
        ByteWordsPast(words, b, i * 8, j, 8);
      }
      guessedWords := found;
      return true;
    }

    /**
     * Appends `word` to guessedWords and sets its bit in the mask; false where the source throws
     * (no mask, or a byte index outside it), after the word was appended.
     */
    method AddGuessedWord(word: string) returns (ok: bool)
      modifies this`guessedWords, guessed
      ensures guessedWords == old(guessedWords) + [word] && IsGuessed(word)
      ensures GetGuessedWordCount() == |guessedWords|
      ensures ok <==> guessed != null && MarkWord(old(guessed[..]), WordIndex(allWords, word)).Some?
      ensures ok ==> guessed[..] == MarkWord(old(guessed[..]), WordIndex(allWords, word)).value
      ensures guessed != null && !ok ==> guessed[..] == old(guessed[..])
    {
      guessedWords := guessedWords + [word];
      if guessed == null {
        return false;
      }
      var wordIndex := WordIndex(allWords, word);
      var byteIndex := JavaDiv(wordIndex, 8);
      var byteMask := ShiftMask(JavaRem(wordIndex, 8));
      if byteIndex < 0 || byteIndex >= guessed.Length {
        return false;
      }
      guessed[byteIndex] := guessed[byteIndex] | byteMask;
      return true;
    }

    /** guessedWords.contains(word). */
    function IsGuessed(word: string): (b: bool)
      reads this
      ensures b <==> exists k :: 0 <= k < |guessedWords| && guessedWords[k] == word
    {
      word in guessedWords
    }

    /** A binary search of allWords: it only finds words that are there, and all of them when sorted. */
    function IsWordInGrid(word: string): (b: bool)
      reads this
      ensures b ==> word in allWords
      ensures SortedWords(allWords) ==> (b <==> word in allWords)
    {
      WordIndexSorted(allWords, word);
      if WordIndex(allWords, word) >= 0 then
        WordIndexFound(allWords, word);
        true
      else
        false
    }

    /** The number of words in the grid: the list's size once it is filled, the saved count before. */
    function GetWordCount(): (count: int)
      reads this
      ensures allWords != [] ==> count == |allWords|
      ensures allWords == [] ==> count == wordCountCache
    {
      if |allWords| != 0 then |allWords| else wordCountCache
    }

    /** The same for the guessed words. */
    function GetGuessedWordCount(): (count: int)
      reads this
      ensures guessedWords != [] ==> count == |guessedWords|
      ensures guessedWords == [] ==> count == guessedCountCache
    {
      if |guessedWords| != 0 then |guessedWords| else guessedCountCache
    }

    /** letterArrayToString: the tokens written one after the other. */
    static method LetterArrayToString(letters: seq<string>) returns (letterStr: string)
      ensures letterStr == Concat(letters)
    {
      letterStr := "";
      for k := 0 to |letters|
        invariant letterStr == Concat(letters[..k])
      {
        assert letters[..k + 1][..k] == letters[..k];
        letterStr := letterStr + letters[k];
      }
      assert letters[..|letters|] == letters;
    }

    /** stringToLetterArray: the tokens read back, None where the source throws. */
    static method StringToLetterArray(letterStr: string) returns (letters: Option<seq<string>>)
      ensures letters == SplitTokens(letterStr)
    {
      var letterList: seq<string> := [];
      var letter := -1;
      for j := 0 to |letterStr|
        invariant SplitTokens(letterStr[..j]) == Some(letterList)
        invariant letter == |letterList| - 1
      {
        var prefix := letterStr[..j + 1];
        assert prefix[..j] == letterStr[..j] && prefix[j] == letterStr[j];
        var c := letterStr[j];
        if IsUpper(c) {
          letter := letter + 1;
          letterList := letterList + [[c]];
        } else {
          if letter < 0 {
            StringRoundTrip(letterStr[..j]);
            assert j == 0 by {
              assert Concat([]) == letterStr[..j];
            }
            StringRoundTrip(letterStr);
            return None;
          }
          letterList := letterList[letter := letterList[letter] + [c]];
          assert letterList == letterList[..letter] + [letterList[letter]];
        }
      }
      assert letterStr[..|letterStr|] == letterStr;
      return Some(letterList);
    }
  }
}
